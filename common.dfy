/** Values shared by every model (optional values, the untyped fields of a
    request body) and the row-set operations a SQL statement performs on a
    table: take the first matching row, keep the matching rows, update the
    matching rows. */
module Common {

  datatype Option<+T> = None | Some(value: T)

  /** A field read from a JSON request body before validation: anything a
      client may send, including a missing key (`Undefined`). */
  datatype JsValue =
    | Undefined
    | Null
    | Bool(b: bool)
    | Number(n: real)
    | Str(s: string)
    | Other   // an array or an object

  /** A string schema with an upper bound on its length, as
      `v.pipe(v.string(), v.maxLength(max))`. */
  predicate IsStringUpTo(v: JsValue, max: nat)
  {
    v.Str? && |v.s| <= max
  }

  /** A string schema with both bounds, as
      `v.pipe(v.string(), v.minLength(min), v.maxLength(max))`. */
  predicate IsStringBetween(v: JsValue, min: nat, max: nat)
  {
    v.Str? && min <= |v.s| <= max
  }

  /** The index of the first row satisfying `p`: `where ... executeTakeFirst()`. */
  function FirstWhere<T>(s: seq<T>, p: T -> bool): (r: Option<nat>)
    ensures r.Some? ==> r.value < |s| && p(s[r.value])
    ensures r.Some? ==> forall j | 0 <= j < r.value :: !p(s[j])
    ensures r.None? <==> forall j | 0 <= j < |s| :: !p(s[j])
  {
    if s == [] then None
    else if p(s[0]) then Some(0)
    else match FirstWhere(s[1..], p)
      case None => None
      case Some(i) => Some(i + 1)
  }

  /** The rows satisfying `p`, in table order: a `select ... where`, or,
      with the negated condition, what a `delete ... where` leaves behind. */
  function Filter<T(!new)>(s: seq<T>, p: T -> bool): (r: seq<T>)
    ensures |r| <= |s|
    ensures forall x :: x in r <==> x in s && p(x)
    ensures forall i | 0 <= i < |r| :: p(r[i])
  {
    if s == [] then []
    else if p(s[0]) then [s[0]] + Filter(s[1..], p)
    else Filter(s[1..], p)
  }

  /** Every row satisfying `p` replaced by `f` of it: an `update ... set ... where`. */
  function UpdateWhere<T>(s: seq<T>, p: T -> bool, f: T -> T): (r: seq<T>)
    ensures |r| == |s|
    ensures forall i | 0 <= i < |s| :: r[i] == if p(s[i]) then f(s[i]) else s[i]
  {
    if s == [] then []
    else [if p(s[0]) then f(s[0]) else s[0]] + UpdateWhere(s[1..], p, f)
  }

  /** Every element transformed by `f`, in order. */
  function Map<T, U>(s: seq<T>, f: T -> U): (r: seq<U>)
    ensures |r| == |s|
    ensures forall i | 0 <= i < |s| :: r[i] == f(s[i])
  {
    if s == [] then [] else [f(s[0])] + Map(s[1..], f)
  }

  /** Every row is related by `rel` to every row stored after it: how a
      uniqueness constraint on a table is stated. */
  ghost predicate Pairwise<T(!new)>(s: seq<T>, rel: (T, T) -> bool)
  {
    s == [] || ((forall x | x in s[1..] :: rel(s[0], x)) && Pairwise(s[1..], rel))
  }

  /** The constraint relates any two rows by their positions. */
  lemma {:induction false} PairwiseAt<T(!new)>(s: seq<T>, rel: (T, T) -> bool, i: nat, j: nat)
    requires Pairwise(s, rel) && i < j < |s|
    ensures rel(s[i], s[j])
  {
    if i == 0 {
      assert s[j] in s[1..];
    } else {
      PairwiseAt(s[1..], rel, i - 1, j - 1);
    }
  }

  /** Inserting a row related to every stored row keeps the constraint. */
  lemma {:induction false} PairwiseAppend<T(!new)>(s: seq<T>, x: T, rel: (T, T) -> bool)
    requires Pairwise(s, rel)
    requires forall y | y in s :: rel(y, x)
    ensures Pairwise(s + [x], rel)
  {
    if s == [] {
      assert ([] + [x])[1..] == [];
    } else {
      assert (s + [x])[1..] == s[1..] + [x];
      PairwiseAppend(s[1..], x, rel);
    }
  }

  /** Removing rows cannot break a pairwise constraint. */
  lemma {:induction false} PairwiseFilter<T(!new)>(s: seq<T>, p: T -> bool, rel: (T, T) -> bool)
    requires Pairwise(s, rel)
    ensures Pairwise(Filter(s, p), rel)
  {
    if s != [] {
      PairwiseFilter(s[1..], p, rel);
      if p(s[0]) {
        assert Filter(s, p)[1..] == Filter(s[1..], p);
      }
    }
  }

  /** A pairwise constraint holds of the rows with the same position in two
      tables when `rel` only looks at what the update leaves alone. */
  lemma {:induction false} PairwiseUpdateWhere<T(!new)>(s: seq<T>, p: T -> bool, f: T -> T, rel: (T, T) -> bool)
    requires Pairwise(s, rel)
    requires forall x, y :: rel(x, y) ==> rel(f(x), y) && rel(x, f(y)) && rel(f(x), f(y))
    ensures Pairwise(UpdateWhere(s, p, f), rel)
  {
    if s != [] {
      PairwiseUpdateWhere(s[1..], p, f, rel);
      var r := UpdateWhere(s, p, f);
      assert r[1..] == UpdateWhere(s[1..], p, f);
      forall y | y in r[1..] ensures rel(r[0], y) {
        var k :| 0 <= k < |r[1..]| && r[1..][k] == y;
        assert s[1..][k] in s[1..];
      }
    }
  }

  /** The rows satisfying `p` and those satisfying its negation `q`,
      together, are all the rows. */
  lemma {:induction false} FilterSplits<T(!new)>(s: seq<T>, p: T -> bool, q: T -> bool)
    requires forall x :: q(x) == !p(x)
    ensures multiset(Filter(s, p)) + multiset(Filter(s, q)) == multiset(s)
    ensures |Filter(s, p)| + |Filter(s, q)| == |s|
  {
    if s != [] {
      FilterSplits(s[1..], p, q);
      assert s == [s[0]] + s[1..];
    }
  }

  /** Selecting from a table with one more row at its end. */
  lemma {:induction false} FilterAppend<T(!new)>(s: seq<T>, x: T, p: T -> bool)
    ensures Filter(s + [x], p) == Filter(s, p) + (if p(x) then [x] else [])
  {
    if s == [] {
      assert [] + [x] == [x];
    } else {
      assert (s + [x])[1..] == s[1..] + [x];
      FilterAppend(s[1..], x, p);
    }
  }

  /** Selecting when no row matches. */
  lemma FilterNone<T(!new)>(s: seq<T>, p: T -> bool)
    requires forall i | 0 <= i < |s| :: !p(s[i])
    ensures Filter(s, p) == []
  {
  }

  /** How many rows satisfy `p`. */
  function Count<T(!new)>(s: seq<T>, p: T -> bool): (n: nat)
    ensures n == |Filter(s, p)|
    ensures n == 0 <==> forall i | 0 <= i < |s| :: !p(s[i])
  {
    if s == [] then 0 else (if p(s[0]) then 1 else 0) + Count(s[1..], p)
  }
}
