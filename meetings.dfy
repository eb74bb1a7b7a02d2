/** Meetings and their participant rows (models/meetings.ts): the two
    queries, and create / attend / leave, each one transaction over the
    meetings and participants tables. */
module Meetings {
  import opened Common
  import opened Validator
  import opened Db
  import opened Responses

  const MaxMeetingName: nat := 255

  // ---------------------------------------------------------------------
  // Rows of one (meeting, user) pair

  predicate IsPair(p: Participant, uuid: string, userId: int)
  {
    p.meetingUuid == uuid && p.userId == userId
  }

  /** The first participant row of the pair, as `where meetingUuid = uuid
      and userId = userId ... executeTakeFirst()`. */
  function FindParticipant(ps: seq<Participant>, uuid: string, userId: int): Option<nat>
  {
    FirstWhere(ps, (p: Participant) => IsPair(p, uuid, userId))
  }

  /** Every participant row of the pair. */
  function RowsOf(ps: seq<Participant>, uuid: string, userId: int): seq<Participant>
  {
    Filter(ps, (p: Participant) => IsPair(p, uuid, userId))
  }

  /** What `delete from participants where meetingUuid = uuid and userId = userId` leaves. */
  function WithoutPair(ps: seq<Participant>, uuid: string, userId: int): seq<Participant>
  {
    Filter(ps, (p: Participant) => !IsPair(p, uuid, userId))
  }

  function FindMeetingIndex(ms: seq<Meeting>, uuid: string): Option<nat>
  {
    FirstWhere(ms, (m: Meeting) => m.uuid == uuid)
  }

  predicate HasMeeting(ms: seq<Meeting>, uuid: string)
  {
    exists i | 0 <= i < |ms| :: ms[i].uuid == uuid
  }

  /** What `update meetings set finishedAt = now where uuid = uuid` leaves. */
  function FinishMeeting(ms: seq<Meeting>, uuid: string, now: int): seq<Meeting>
  {
    UpdateWhere(ms, (m: Meeting) => m.uuid == uuid, (m: Meeting) => m.(finishedAt := Some(now)))
  }

  // ---------------------------------------------------------------------
  // Queries: find and findAllActive

  datatype MeetingParticipant = MeetingParticipant(
    userId: int,
    userEmail: string,
    userName: Option<string>,
    isOwner: bool)

  datatype MeetingWithParticipants = MeetingWithParticipants(
    meeting: Meeting,
    participants: seq<MeetingParticipant>)

  function View(u: User, p: Participant): MeetingParticipant
  {
    MeetingParticipant(u.id, u.email, u.name, p.isOwner)
  }

  /** `participants inner join users on users.id = participants.userId`,
      restricted to the rows of meeting `uuid`: every row paired with every
      user of its id, in table order; a row without such a user is dropped. */
  function JoinUsers(ps: seq<Participant>, users: seq<User>, uuid: string): (r: seq<(Participant, User)>)
    ensures forall pu | pu in r ::
      pu.0 in ps && pu.1 in users && pu.0.meetingUuid == uuid && pu.1.id == pu.0.userId
    ensures forall p, u | p in ps && u in users && p.meetingUuid == uuid && u.id == p.userId ::
      (p, u) in r
  {
    if ps == [] then []
    else
      var p := ps[0];
      var us := Filter(users, (u: User) => u.id == p.userId);
      var here := if p.meetingUuid == uuid then Map(us, (u: User) => (p, u)) else [];
      assert forall pu | pu in here :: pu.0 == p && pu.1 in users && pu.1.id == p.userId by {
        forall pu | pu in here ensures pu.0 == p && pu.1 in users && pu.1.id == p.userId {
          var k :| 0 <= k < |here| && here[k] == pu;
          assert us[k] in us;
        }
      }
      assert forall u | u in users && p.meetingUuid == uuid && u.id == p.userId :: (p, u) in here by {
        forall u | u in users && p.meetingUuid == uuid && u.id == p.userId ensures (p, u) in here {
          var k :| 0 <= k < |us| && us[k] == u;
          assert here[k] == (p, u);
        }
      }
      here + JoinUsers(ps[1..], users, uuid)
  }

  /** The joined rows of meeting `uuid` as `find` and `findAllActive` select them. */
  function Joined(ps: seq<Participant>, users: seq<User>, uuid: string): (r: seq<MeetingParticipant>)
    ensures forall v | v in r :: exists p, u | p in ps && u in users ::
      p.meetingUuid == uuid && u.id == p.userId && v == View(u, p)
    ensures forall p, u | p in ps && u in users && p.meetingUuid == uuid && u.id == p.userId ::
      View(u, p) in r
  {
    var pairs := JoinUsers(ps, users, uuid);
    var r := Map(pairs, (pu: (Participant, User)) => View(pu.1, pu.0));
    assert forall v | v in r :: exists p, u | p in ps && u in users ::
      p.meetingUuid == uuid && u.id == p.userId && v == View(u, p) by {
      forall v | v in r ensures exists p, u | p in ps && u in users ::
        p.meetingUuid == uuid && u.id == p.userId && v == View(u, p) {
        var k :| 0 <= k < |r| && r[k] == v;
        assert pairs[k] in pairs;
      }
    }
    assert forall p, u | p in ps && u in users && p.meetingUuid == uuid && u.id == p.userId ::
      View(u, p) in r by {
      forall p, u | p in ps && u in users && p.meetingUuid == uuid && u.id == p.userId
        ensures View(u, p) in r {
        var k :| 0 <= k < |pairs| && pairs[k] == (p, u);
        assert r[k] == View(u, p);
      }
    }
    r
  }

  predicate IsOwnerView(v: MeetingParticipant) { v.isOwner }
  predicate IsGuestView(v: MeetingParticipant) { !v.isOwner }

  /** `orderBy("participants.isOwner", "desc")`: owners before the others,
      each group in join order. */
  function OwnersFirst(vs: seq<MeetingParticipant>): seq<MeetingParticipant>
  {
    Filter(vs, IsOwnerView) + Filter(vs, IsGuestView)
  }

  /** The `participants` array of one meeting in `find` and `findAllActive`. */
  function ParticipantsOf(t: Tables, uuid: string): seq<MeetingParticipant>
  {
    OwnersFirst(Joined(t.participants, t.users, uuid))
  }

  predicate IsActive(m: Meeting) { m.finishedAt.None? }

  /** `findAllActive()`: every meeting whose finishedAt is null, in table order. */
  function FindAllActive(t: Tables): (r: seq<MeetingWithParticipants>)
    ensures |r| == Count(t.meetings, IsActive)
    ensures forall v | v in r :: v.meeting in t.meetings && IsActive(v.meeting)
  {
    Map(Filter(t.meetings, IsActive), (m: Meeting) => MeetingWithParticipants(m, ParticipantsOf(t, m.uuid)))
  }

  /** `find(uuid)`: the first meeting with that uuid, finished or not. */
  function Find(t: Tables, uuid: string): (r: Option<MeetingWithParticipants>)
    ensures r.Some? ==> r.value.meeting in t.meetings && r.value.meeting.uuid == uuid
    ensures r.Some? ==> r.value.participants == ParticipantsOf(t, uuid)
    ensures r.None? <==> !HasMeeting(t.meetings, uuid)
  {
    match FindMeetingIndex(t.meetings, uuid)
    case None => None
    case Some(i) => Some(MeetingWithParticipants(t.meetings[i], ParticipantsOf(t, uuid)))
  }

  /** A meeting's participant list holds exactly the joined rows of that
      meeting (each row with a user of its id), with every owner before
      every other participant. */
  lemma ParticipantsOfOwnersFirst(t: Tables, uuid: string)
    ensures multiset(ParticipantsOf(t, uuid)) == multiset(Joined(t.participants, t.users, uuid))
    ensures forall i, j | 0 <= i < j < |ParticipantsOf(t, uuid)| ::
      ParticipantsOf(t, uuid)[j].isOwner ==> ParticipantsOf(t, uuid)[i].isOwner
    ensures forall v | v in ParticipantsOf(t, uuid) :: exists p, u | p in t.participants && u in t.users ::
      p.meetingUuid == uuid && u.id == p.userId && v == View(u, p)
  {
    var js := Joined(t.participants, t.users, uuid);
    FilterSplits(js, IsOwnerView, IsGuestView);
    var owners, guests := Filter(js, IsOwnerView), Filter(js, IsGuestView);
    assert ParticipantsOf(t, uuid) == owners + guests;
    forall v | v in ParticipantsOf(t, uuid) ensures v in js {
      assert v in owners || v in guests;
    }
  }

  /** `findAllActive` lists exactly the unfinished meetings, in table
      order, each with its own participant list. */
  lemma FindAllActiveIsActive(t: Tables)
    ensures forall v | v in FindAllActive(t) ::
      v.meeting in t.meetings && v.meeting.finishedAt.None? &&
      v.participants == ParticipantsOf(t, v.meeting.uuid)
    ensures forall m | m in t.meetings && m.finishedAt.None? ::
      MeetingWithParticipants(m, ParticipantsOf(t, m.uuid)) in FindAllActive(t)
    ensures |FindAllActive(t)| == Count(t.meetings, IsActive)
  {
    var active := Filter(t.meetings, IsActive);
    var r := FindAllActive(t);
    forall v | v in r
      ensures v.meeting in t.meetings && v.meeting.finishedAt.None?
      ensures v.participants == ParticipantsOf(t, v.meeting.uuid)
    {
      var k :| 0 <= k < |r| && r[k] == v;
      assert active[k] in active;
    }
    forall m | m in t.meetings && m.finishedAt.None?
      ensures MeetingWithParticipants(m, ParticipantsOf(t, m.uuid)) in r
    {
      assert m in active;
      var k :| 0 <= k < |active| && active[k] == m;
      assert r[k] == MeetingWithParticipants(m, ParticipantsOf(t, m.uuid));
    }
  }

  // ---------------------------------------------------------------------
  // create

  function CreateIssues(name: JsValue): seq<Issue>
  {
    Check("name", IsStringUpTo(name, MaxMeetingName))
  }

  /** `create({ name, userId })` with `newUuid` the value `uuidv4()` drew.
      An insert that collides with an existing meeting's uuid returns no
      row, which the source answers with `failedToCreateError("meeting")`. */
  function CreateStep(t: Tables, name: JsValue, userId: int, newUuid: string, now: int): (s: Step<Meeting>)
    ensures s.response.Success? <==> IsStringUpTo(name, MaxMeetingName) && !HasMeeting(t.meetings, newUuid)
    ensures !s.response.Success? ==> s.tables == t
    ensures s.tables.users == t.users && s.tables.userSettings == t.userSettings && s.tables.nextUserId == t.nextUserId
    ensures s.response.Success? ==>
      && s.response.value.uuid == newUuid && s.response.value.finishedAt.None?
      && |s.tables.meetings| == |t.meetings| + 1 && |s.tables.participants| == |t.participants| + 1
  {
    var issues := CreateIssues(name);
    if issues != [] then Step(t, Failure(issues))
    else if HasMeeting(t.meetings, newUuid) then Step(t, Failure([FailedToCreateError("meeting")]))
    else
      var meeting := Meeting(newUuid, name.s, now, None);
      var owner := Participant(newUuid, userId, true, None, now);
      Step(t.(meetings := t.meetings + [meeting], participants := t.participants + [owner]), Success(meeting))
  }

  method Create(db: Database, name: JsValue, userId: int, newUuid: string, now: int)
    returns (r: Response<Meeting>)
    modifies db
    ensures Step(db.Snapshot(), r) == CreateStep(old(db.Snapshot()), name, userId, newUuid, now)
  {
    var issues := CreateIssues(name);
    if issues != [] {
      return Failure(issues);
    }
    if FindMeetingIndex(db.meetings, newUuid).Some? {
      return Failure([FailedToCreateError("meeting")]);
    }
    var meeting := Meeting(newUuid, name.s, now, None);
    db.meetings := db.meetings + [meeting];
    db.participants := db.participants + [Participant(meeting.uuid, userId, true, None, now)];
    return Success(meeting);
  }

  /** A name that is not a string of at most 255 characters is refused
      and nothing is written. */
  lemma CreateRejectsBadName(t: Tables, name: JsValue, userId: int, newUuid: string, now: int)
    requires !IsStringUpTo(name, MaxMeetingName)
    ensures CreateStep(t, name, userId, newUuid, now) == Step(t, Failure([SchemaIssue("name")]))
  {
  }

  /** A valid create adds the one new meeting, unfinished, under the new
      uuid, and exactly one participant row for that meeting and creator,
      marked as owner. */
  lemma {:induction false} CreateAddsMeetingAndOwner(t: Tables, name: JsValue, userId: int, newUuid: string, now: int)
    requires IsStringUpTo(name, MaxMeetingName) && !HasMeeting(t.meetings, newUuid)
    requires forall p | p in t.participants :: p.meetingUuid != newUuid
    ensures var s := CreateStep(t, name, userId, newUuid, now);
      && s.response == Success(Meeting(newUuid, name.s, now, None))
      && s.tables == t.(meetings := t.meetings + [Meeting(newUuid, name.s, now, None)],
                        participants := t.participants + [Participant(newUuid, userId, true, None, now)])
      && RowsOf(s.tables.participants, newUuid, userId) == [Participant(newUuid, userId, true, None, now)]
      && Filter(s.tables.participants, (p: Participant) => p.meetingUuid == newUuid) == [Participant(newUuid, userId, true, None, now)]
      && s.tables.participants[..|t.participants|] == t.participants
      && s.tables.users == t.users && s.tables.userSettings == t.userSettings
  {
    var s := CreateStep(t, name, userId, newUuid, now);
    var owner := Participant(newUuid, userId, true, None, now);
    assert s.tables.participants == t.participants + [owner];
    FilterAppend(t.participants, owner, (p: Participant) => IsPair(p, newUuid, userId));
    FilterNone(t.participants, (p: Participant) => IsPair(p, newUuid, userId));
    FilterAppend(t.participants, owner, (p: Participant) => p.meetingUuid == newUuid);
    FilterNone(t.participants, (p: Participant) => p.meetingUuid == newUuid);
  }

  /** A uuid that is already a meeting's is refused with
      `failedToCreateError("meeting")`, and nothing is written. */
  lemma CreateCollisionFails(t: Tables, name: JsValue, userId: int, newUuid: string, now: int)
    requires IsStringUpTo(name, MaxMeetingName) && HasMeeting(t.meetings, newUuid)
    ensures CreateStep(t, name, userId, newUuid, now) == Step(t, Failure([FailedToCreateError("meeting")]))
  {
  }

  // ---------------------------------------------------------------------
  // attend

  datatype AttendValue = AttendValue(message: string, already: bool)

  function UuidIssues(uuid: string, isUuid: string -> bool): seq<Issue>
  {
    Check("uuid", isUuid(uuid))
  }

  /** `attend({ uuid, userId })`. `isUuid` is the uuid format check of the
      schema. Neither the meeting's existence nor its finishedAt is looked at. */
  function AttendStep(t: Tables, uuid: string, userId: int, isUuid: string -> bool, now: int): (s: Step<AttendValue>)
    ensures s.response.Failure? <==> !isUuid(uuid)
    ensures !s.response.Success? || s.response.value.already ==> s.tables == t
    ensures s.tables.meetings == t.meetings && s.tables.users == t.users
    ensures s.tables.userSettings == t.userSettings && s.tables.nextUserId == t.nextUserId
    ensures t.participants <= s.tables.participants
  {
    var issues := UuidIssues(uuid, isUuid);
    if issues != [] then Step(t, Failure(issues))
    else if FindParticipant(t.participants, uuid, userId).Some? then
      Step(t, Success(AttendValue("Already attended", true)))
    else
      var row := Participant(uuid, userId, false, None, now);
      Step(t.(participants := t.participants + [row]), Success(AttendValue("attended", false)))
  }

  method Attend(db: Database, uuid: string, userId: int, isUuid: string -> bool, now: int)
    returns (r: Response<AttendValue>)
    modifies db
    ensures Step(db.Snapshot(), r) == AttendStep(old(db.Snapshot()), uuid, userId, isUuid, now)
  {
    var issues := UuidIssues(uuid, isUuid);
    if issues != [] {
      return Failure(issues);
    }
    var existed := FindParticipant(db.participants, uuid, userId);
    if existed.Some? {
      return Success(AttendValue("Already attended", true));
    }
    db.participants := db.participants + [Participant(uuid, userId, false, None, now)];
    return Success(AttendValue("attended", false));
  }

  /** A meeting id that fails the uuid check is refused and nothing is written. */
  lemma AttendRejectsBadUuid(t: Tables, uuid: string, userId: int, isUuid: string -> bool, now: int)
    requires !isUuid(uuid)
    ensures AttendStep(t, uuid, userId, isUuid, now) == Step(t, Failure([SchemaIssue("uuid")]))
  {
  }

  /** Attending again reports `already` and writes nothing; attending for
      the first time adds exactly one non-owner row and reports not `already`. */
  lemma {:induction false} AttendIdempotent(t: Tables, uuid: string, userId: int, isUuid: string -> bool, now: int)
    requires isUuid(uuid)
    ensures var s := AttendStep(t, uuid, userId, isUuid, now);
      && (RowsOf(t.participants, uuid, userId) != [] ==>
            s == Step(t, Success(AttendValue("Already attended", true))))
      && (RowsOf(t.participants, uuid, userId) == [] ==>
            && s.response == Success(AttendValue("attended", false))
            && s.tables == t.(participants := t.participants + [Participant(uuid, userId, false, None, now)])
            && RowsOf(s.tables.participants, uuid, userId) == [Participant(uuid, userId, false, None, now)])
  {
    var row := Participant(uuid, userId, false, None, now);
    if RowsOf(t.participants, uuid, userId) == [] {
      FilterAppend(t.participants, row, (p: Participant) => IsPair(p, uuid, userId));
    } else {
      var x := RowsOf(t.participants, uuid, userId)[0];
      assert x in t.participants;
    }
  }

  /** Attending twice in a row is the same as attending once. */
  lemma AttendTwice(t: Tables, uuid: string, userId: int, isUuid: string -> bool, now: int, later: int)
    ensures var once := AttendStep(t, uuid, userId, isUuid, now);
      var twice := AttendStep(once.tables, uuid, userId, isUuid, later);
      twice.tables == once.tables &&
      (isUuid(uuid) ==> twice.response == Success(AttendValue("Already attended", true)))
  {
    if isUuid(uuid) {
      AttendIdempotent(t, uuid, userId, isUuid, now);
      var once := AttendStep(t, uuid, userId, isUuid, now);
      AttendIdempotent(once.tables, uuid, userId, isUuid, later);
    }
  }

  // ---------------------------------------------------------------------
  // leave

  datatype LeaveValue = LeaveValue(message: string)

  /** `leave({ uuid, userId })`: the first row of the pair decides; an
      owner's leave also finishes the meeting; every row of the pair is deleted. */
  function LeaveStep(t: Tables, uuid: string, userId: int, isUuid: string -> bool, now: int): (s: Step<LeaveValue>)
    ensures s.response.Success? <==> isUuid(uuid) && FindParticipant(t.participants, uuid, userId).Some?
    ensures !s.response.Success? ==> s.tables == t
    ensures s.tables.users == t.users && s.tables.userSettings == t.userSettings && s.tables.nextUserId == t.nextUserId
    ensures |s.tables.meetings| == |t.meetings|
    ensures forall p | p in s.tables.participants :: p in t.participants
  {
    var issues := UuidIssues(uuid, isUuid);
    if issues != [] then Step(t, Failure(issues))
    else match FindParticipant(t.participants, uuid, userId)
      case None => Step(t, FailureValue(NotFoundError("participant")))
      case Some(i) =>
        var p := t.participants[i];
        var ms := if p.isOwner then FinishMeeting(t.meetings, p.meetingUuid, now) else t.meetings;
        Step(t.(meetings := ms, participants := WithoutPair(t.participants, uuid, userId)),
             Success(LeaveValue("left")))
  }

  method Leave(db: Database, uuid: string, userId: int, isUuid: string -> bool, now: int)
    returns (r: Response<LeaveValue>)
    modifies db
    ensures Step(db.Snapshot(), r) == LeaveStep(old(db.Snapshot()), uuid, userId, isUuid, now)
  {
    var issues := UuidIssues(uuid, isUuid);
    if issues != [] {
      return Failure(issues);
    }
    var found := FindParticipant(db.participants, uuid, userId);
    if found.None? {
      return FailureValue(NotFoundError("participant"));
    }
    var participant := db.participants[found.value];
    if participant.isOwner {
      db.meetings := FinishMeeting(db.meetings, participant.meetingUuid, now);
    }
    db.participants := WithoutPair(db.participants, uuid, userId);
    return Success(LeaveValue("left"));
  }

  /** A meeting id that fails the uuid check is refused and nothing is written. */
  lemma LeaveRejectsBadUuid(t: Tables, uuid: string, userId: int, isUuid: string -> bool, now: int)
    requires !isUuid(uuid)
    ensures LeaveStep(t, uuid, userId, isUuid, now) == Step(t, Failure([SchemaIssue("uuid")]))
  {
  }

  /** Leaving a meeting one has no row in answers `notFoundError("participant")`
      and writes nothing. */
  lemma {:induction false} LeaveNotFound(t: Tables, uuid: string, userId: int, isUuid: string -> bool, now: int)
    requires isUuid(uuid) && RowsOf(t.participants, uuid, userId) == []
    ensures LeaveStep(t, uuid, userId, isUuid, now) == Step(t, FailureValue(NotFoundError("participant")))
  {
  }

  /** A successful leave deletes the rows of the pair and keeps every other
      row, in order; it sets finishedAt on the meeting exactly when the
      leaver's row is the owner's, and touches no other meeting. */
  lemma {:induction false} LeaveRemovesRow(t: Tables, uuid: string, userId: int, isUuid: string -> bool, now: int)
    requires isUuid(uuid) && FindParticipant(t.participants, uuid, userId).Some?
    ensures var s := LeaveStep(t, uuid, userId, isUuid, now);
      var row := t.participants[FindParticipant(t.participants, uuid, userId).value];
      && s.response == Success(LeaveValue("left"))
      && (forall p | p in t.participants :: p in s.tables.participants <==> !IsPair(p, uuid, userId))
      && (forall p | p in s.tables.participants :: p in t.participants)
      && |s.tables.participants| == |t.participants| - |RowsOf(t.participants, uuid, userId)|
      && multiset(s.tables.participants) + multiset(RowsOf(t.participants, uuid, userId)) == multiset(t.participants)
      && |s.tables.meetings| == |t.meetings|
      && (forall i | 0 <= i < |t.meetings| ::
            s.tables.meetings[i] ==
              if row.isOwner && t.meetings[i].uuid == uuid then t.meetings[i].(finishedAt := Some(now))
              else t.meetings[i])
      && s.tables.users == t.users && s.tables.userSettings == t.userSettings
  {
    FilterSplits(t.participants, (p: Participant) => IsPair(p, uuid, userId), (p: Participant) => !IsPair(p, uuid, userId));
  }

  // ---------------------------------------------------------------------
  // Invariants of the two tables

  predicate DistinctPairs(a: Participant, b: Participant)
  {
    a.meetingUuid != b.meetingUuid || a.userId != b.userId
  }

  predicate NotTwoOwners(a: Participant, b: Participant)
  {
    !(a.isOwner && b.isOwner && a.meetingUuid == b.meetingUuid)
  }

  predicate DistinctUuids(a: Meeting, b: Meeting)
  {
    a.uuid != b.uuid
  }

  /** At most one participant row per (meeting, user). */
  ghost predicate OneRowPerPair(ps: seq<Participant>)
  {
    Pairwise(ps, DistinctPairs)
  }

  /** At most one owner row per meeting. */
  ghost predicate OneOwnerPerMeeting(ps: seq<Participant>)
  {
    Pairwise(ps, NotTwoOwners)
  }

  /** The uuid is the meetings table's key. */
  ghost predicate UniqueMeetingUuids(ms: seq<Meeting>)
  {
    Pairwise(ms, DistinctUuids)
  }

  /** Owner rows are only written together with their meeting. */
  ghost predicate OwnersHaveMeetings(t: Tables)
  {
    forall p | p in t.participants && p.isOwner :: HasMeeting(t.meetings, p.meetingUuid)
  }

  ghost predicate Inv(t: Tables)
  {
    && OneRowPerPair(t.participants)
    && OneOwnerPerMeeting(t.participants)
    && UniqueMeetingUuids(t.meetings)
    && OwnersHaveMeetings(t)
  }

  /** With one row per pair, a pair has at most one row, so leave deletes one row. */
  lemma {:induction false} OneRowPerPairAtMostOne(ps: seq<Participant>, uuid: string, userId: int)
    requires OneRowPerPair(ps)
    ensures |RowsOf(ps, uuid, userId)| <= 1
  {
    if ps != [] {
      OneRowPerPairAtMostOne(ps[1..], uuid, userId);
      if IsPair(ps[0], uuid, userId) {
        forall j | 0 <= j < |ps[1..]| ensures !IsPair(ps[1..][j], uuid, userId) {
          assert ps[1..][j] in ps[1..];
        }
        FilterNone(ps[1..], (p: Participant) => IsPair(p, uuid, userId));
        assert RowsOf(ps, uuid, userId) == [ps[0]];
      } else {
        assert RowsOf(ps, uuid, userId) == RowsOf(ps[1..], uuid, userId);
      }
    }
  }

  /** A create whose uuid no participant row carries keeps the invariant
      (the uuid generator's freshness; a colliding meeting uuid changes nothing). */
  lemma CreatePreservesInv(t: Tables, name: JsValue, userId: int, newUuid: string, now: int)
    requires Inv(t)
    requires forall p | p in t.participants :: p.meetingUuid != newUuid
    ensures Inv(CreateStep(t, name, userId, newUuid, now).tables)
  {
    var s := CreateStep(t, name, userId, newUuid, now);
    if s.tables != t {
      var meeting := Meeting(newUuid, name.s, now, None);
      var owner := Participant(newUuid, userId, true, None, now);
      forall m | m in t.meetings ensures DistinctUuids(m, meeting) {
        var i :| 0 <= i < |t.meetings| && t.meetings[i] == m;
      }
      PairwiseAppend(t.meetings, meeting, DistinctUuids);
      PairwiseAppend(t.participants, owner, DistinctPairs);
      forall p | p in t.participants ensures NotTwoOwners(p, owner) {
        if p.isOwner {
          assert HasMeeting(t.meetings, p.meetingUuid);
        }
      }
      PairwiseAppend(t.participants, owner, NotTwoOwners);
      forall p | p in s.tables.participants && p.isOwner ensures HasMeeting(s.tables.meetings, p.meetingUuid) {
        if p == owner {
          assert s.tables.meetings[|t.meetings|] == meeting;
        } else {
          assert p in t.participants;
          var i :| 0 <= i < |t.meetings| && t.meetings[i].uuid == p.meetingUuid;
          assert s.tables.meetings[i] == t.meetings[i];
        }
      }
    }
  }

  lemma AttendPreservesInv(t: Tables, uuid: string, userId: int, isUuid: string -> bool, now: int)
    requires Inv(t)
    ensures Inv(AttendStep(t, uuid, userId, isUuid, now).tables)
  {
    var s := AttendStep(t, uuid, userId, isUuid, now);
    if s.tables != t {
      var row := Participant(uuid, userId, false, None, now);
      assert FindParticipant(t.participants, uuid, userId).None?;
      forall p | p in t.participants ensures DistinctPairs(p, row) {
        var i :| 0 <= i < |t.participants| && t.participants[i] == p;
      }
      PairwiseAppend(t.participants, row, DistinctPairs);
      PairwiseAppend(t.participants, row, NotTwoOwners);
    }
  }

  lemma LeavePreservesInv(t: Tables, uuid: string, userId: int, isUuid: string -> bool, now: int)
    requires Inv(t)
    ensures Inv(LeaveStep(t, uuid, userId, isUuid, now).tables)
  {
    var s := LeaveStep(t, uuid, userId, isUuid, now);
    if s.tables != t {
      PairwiseFilter(t.participants, (p: Participant) => !IsPair(p, uuid, userId), DistinctPairs);
      PairwiseFilter(t.participants, (p: Participant) => !IsPair(p, uuid, userId), NotTwoOwners);
      forall a: Meeting, b: Meeting | DistinctUuids(a, b)
        ensures DistinctUuids(a.(finishedAt := Some(now)), b)
        ensures DistinctUuids(a, b.(finishedAt := Some(now)))
        ensures DistinctUuids(a.(finishedAt := Some(now)), b.(finishedAt := Some(now)))
      {
      }
      var row := t.participants[FindParticipant(t.participants, uuid, userId).value];
      if row.isOwner {
        PairwiseUpdateWhere(t.meetings, (m: Meeting) => m.uuid == row.meetingUuid, (m: Meeting) => m.(finishedAt := Some(now)), DistinctUuids);
      }
      forall p | p in s.tables.participants && p.isOwner ensures HasMeeting(s.tables.meetings, p.meetingUuid) {
        var i :| 0 <= i < |t.meetings| && t.meetings[i].uuid == p.meetingUuid;
        assert s.tables.meetings[i].uuid == p.meetingUuid;
      }
    }
  }

  // ---------------------------------------------------------------------
  // finishedAt is only ever set

  /** `ms2` is `ms` after some steps: no meeting removed, reordered or
      renamed, and a finished meeting still finished. */
  ghost predicate MeetingsEvolve(ms: seq<Meeting>, ms2: seq<Meeting>)
  {
    && |ms| <= |ms2|
    && forall i | 0 <= i < |ms| ::
         && ms2[i].uuid == ms[i].uuid && ms2[i].name == ms[i].name && ms2[i].createdAt == ms[i].createdAt
         && (ms[i].finishedAt.Some? ==> ms2[i].finishedAt.Some?)
  }

  lemma MeetingsEvolveTransitive(a: seq<Meeting>, b: seq<Meeting>, c: seq<Meeting>)
    requires MeetingsEvolve(a, b) && MeetingsEvolve(b, c)
    ensures MeetingsEvolve(a, c)
  {
  }

  lemma CreateEvolves(t: Tables, name: JsValue, userId: int, newUuid: string, now: int)
    ensures MeetingsEvolve(t.meetings, CreateStep(t, name, userId, newUuid, now).tables.meetings)
  {
  }

  lemma AttendEvolves(t: Tables, uuid: string, userId: int, isUuid: string -> bool, now: int)
    ensures AttendStep(t, uuid, userId, isUuid, now).tables.meetings == t.meetings
  {
  }

  lemma LeaveEvolves(t: Tables, uuid: string, userId: int, isUuid: string -> bool, now: int)
    ensures MeetingsEvolve(t.meetings, LeaveStep(t, uuid, userId, isUuid, now).tables.meetings)
  {
  }
}
