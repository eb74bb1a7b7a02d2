/** The participant queries of models/participants.ts: record a
    participant's producer, list the producers of a meeting, list a
    meeting's participants with their names. */
module Participants {
  import opened Common
  import opened Db
  import opened Meetings

  /** The row `update participants set producerId, updatedAt` writes. */
  function WithProducer(p: Participant, producerId: string, now: int): Participant
  {
    p.(producerId := Some(producerId), updatedAt := now)
  }

  /** `update({ userId, meetingUuid, producerId })` on the participants table. */
  function SetProducer(ps: seq<Participant>, userId: int, meetingUuid: string, producerId: string, now: int): (r: seq<Participant>)
    ensures |r| == |ps|
    ensures forall i | 0 <= i < |ps| && IsPair(ps[i], meetingUuid, userId) ::
      r[i] == ps[i].(producerId := Some(producerId), updatedAt := now)
    ensures forall i | 0 <= i < |ps| && !IsPair(ps[i], meetingUuid, userId) :: r[i] == ps[i]
  {
    UpdateWhere(ps, (p: Participant) => IsPair(p, meetingUuid, userId),
                (p: Participant) => WithProducer(p, producerId, now))
  }

  /** The update writes the rows of the (meeting, user) pair and reports how
      many there were (kysely's `numUpdatedRows`). */
  method Update(db: Database, userId: int, meetingUuid: string, producerId: string, now: int)
    returns (numUpdatedRows: nat)
    modifies db
    ensures db.Snapshot() == old(db.Snapshot()).(participants := SetProducer(old(db.participants), userId, meetingUuid, producerId, now))
    ensures numUpdatedRows == |RowsOf(old(db.participants), meetingUuid, userId)|
  {
    numUpdatedRows := Count(db.participants, (p: Participant) => IsPair(p, meetingUuid, userId));
    db.participants := SetProducer(db.participants, userId, meetingUuid, producerId, now);
  }

  /** Only the rows matching both the user and the meeting get the new
      producer id and updatedAt; every other row, and every row's key and
      owner flag, stays as it was. */
  lemma SetProducerOnlyMatching(ps: seq<Participant>, userId: int, meetingUuid: string, producerId: string, now: int)
    ensures var ps2 := SetProducer(ps, userId, meetingUuid, producerId, now);
      && |ps2| == |ps|
      && (forall i | 0 <= i < |ps| ::
            && ps2[i].meetingUuid == ps[i].meetingUuid && ps2[i].userId == ps[i].userId
            && ps2[i].isOwner == ps[i].isOwner)
      && (forall i | 0 <= i < |ps| && IsPair(ps[i], meetingUuid, userId) ::
            ps2[i].producerId == Some(producerId) && ps2[i].updatedAt == now)
      && (forall i | 0 <= i < |ps| && !IsPair(ps[i], meetingUuid, userId) :: ps2[i] == ps[i])
  {
  }

  /** With no row for the pair, the update changes nothing and reports zero rows. */
  lemma SetProducerNoMatch(ps: seq<Participant>, userId: int, meetingUuid: string, producerId: string, now: int)
    requires RowsOf(ps, meetingUuid, userId) == []
    ensures SetProducer(ps, userId, meetingUuid, producerId, now) == ps
  {
    var ps2 := SetProducer(ps, userId, meetingUuid, producerId, now);
    forall i | 0 <= i < |ps| ensures ps2[i] == ps[i] {
      assert ps[i] in ps;
    }
  }

  lemma SetProducerPreservesInv(t: Tables, userId: int, meetingUuid: string, producerId: string, now: int)
    requires Inv(t)
    ensures Inv(t.(participants := SetProducer(t.participants, userId, meetingUuid, producerId, now)))
  {
    var ps2 := SetProducer(t.participants, userId, meetingUuid, producerId, now);
    var matches := (p: Participant) => IsPair(p, meetingUuid, userId);
    var write := (p: Participant) => WithProducer(p, producerId, now);
    PairwiseUpdateWhere(t.participants, matches, write, DistinctPairs);
    PairwiseUpdateWhere(t.participants, matches, write, NotTwoOwners);
    forall p | p in ps2 && p.isOwner ensures HasMeeting(t.meetings, p.meetingUuid) {
      var i :| 0 <= i < |ps2| && ps2[i] == p;
      assert t.participants[i] in t.participants;
    }
  }

  datatype ProducerEntry = ProducerEntry(userId: int, producerId: string)

  predicate HasProducerIn(p: Participant, meetingUuid: string)
  {
    p.meetingUuid == meetingUuid && p.producerId.Some?
  }

  /** `findProducerIds(meetingUuid)`: the user and producer of every row of
      the meeting whose producerId is not null, in table order. */
  function FindProducerIds(ps: seq<Participant>, meetingUuid: string): (r: seq<ProducerEntry>)
    ensures forall e | e in r :: exists p | p in ps ::
      p.meetingUuid == meetingUuid && p.userId == e.userId && p.producerId == Some(e.producerId)
    ensures forall p | p in ps && HasProducerIn(p, meetingUuid) ::
      ProducerEntry(p.userId, p.producerId.value) in r
  {
    if ps == [] then []
    else
      var rest := FindProducerIds(ps[1..], meetingUuid);
      assert forall p | p in ps[1..] :: p in ps;
      if HasProducerIn(ps[0], meetingUuid) then [ProducerEntry(ps[0].userId, ps[0].producerId.value)] + rest
      else rest
  }

  /** After the update of an existing row, the meeting's producers include
      the pair's user with the new producer id. */
  lemma {:induction false} UpdateThenFindProducer(ps: seq<Participant>, userId: int, meetingUuid: string, producerId: string, now: int)
    requires RowsOf(ps, meetingUuid, userId) != []
    ensures ProducerEntry(userId, producerId) in FindProducerIds(SetProducer(ps, userId, meetingUuid, producerId, now), meetingUuid)
  {
    var row := RowsOf(ps, meetingUuid, userId)[0];
    var i :| 0 <= i < |ps| && ps[i] == row;
    var ps2 := SetProducer(ps, userId, meetingUuid, producerId, now);
    assert ps2[i] == WithProducer(row, producerId, now);
    assert ps2[i] in ps2;
  }

  datatype ParticipantInfo = ParticipantInfo(
    userId: int,
    userName: Option<string>,
    producerId: Option<string>,
    isOwner: bool,
    attendedAt: int)

  function Info(p: Participant, u: User): ParticipantInfo
  {
    ParticipantInfo(p.userId, u.name, p.producerId, p.isOwner, p.updatedAt)
  }

  /** `getParticipantsByMeetingUuid(meetingUuid)`. */
  function GetParticipantsByMeetingUuid(t: Tables, meetingUuid: string): (r: seq<ParticipantInfo>)
    ensures |r| == |JoinUsers(t.participants, t.users, meetingUuid)|
    ensures forall e | e in r :: exists u | u in t.users :: u.id == e.userId && u.name == e.userName
  {
    Map(JoinUsers(t.participants, t.users, meetingUuid), (pu: (Participant, User)) => Info(pu.0, pu.1))
  }

  /** Each listed participant is a row of the meeting that has a user of
      its id, and reports that row's updatedAt as attendedAt; each such row
      is listed; a row whose user is missing is not. */
  lemma {:induction false} ParticipantsAreJoinedRows(t: Tables, meetingUuid: string)
    ensures forall e | e in GetParticipantsByMeetingUuid(t, meetingUuid) ::
      exists p, u | p in t.participants && u in t.users ::
        p.meetingUuid == meetingUuid && u.id == p.userId &&
        e.userId == p.userId && e.userName == u.name && e.producerId == p.producerId &&
        e.isOwner == p.isOwner && e.attendedAt == p.updatedAt
    ensures forall p, u | p in t.participants && u in t.users && p.meetingUuid == meetingUuid && u.id == p.userId ::
      Info(p, u) in GetParticipantsByMeetingUuid(t, meetingUuid)
    ensures forall e | e in GetParticipantsByMeetingUuid(t, meetingUuid) ::
      exists u | u in t.users :: u.id == e.userId
  {
    var pairs := JoinUsers(t.participants, t.users, meetingUuid);
    var r := GetParticipantsByMeetingUuid(t, meetingUuid);
    forall e | e in r ensures exists p, u | p in t.participants && u in t.users ::
        p.meetingUuid == meetingUuid && u.id == p.userId &&
        e.userId == p.userId && e.userName == u.name && e.producerId == p.producerId &&
        e.isOwner == p.isOwner && e.attendedAt == p.updatedAt
    {
      var k :| 0 <= k < |r| && r[k] == e;
      assert pairs[k] in pairs;
    }
    forall p, u | p in t.participants && u in t.users && p.meetingUuid == meetingUuid && u.id == p.userId
      ensures Info(p, u) in r
    {
      var k :| 0 <= k < |pairs| && pairs[k] == (p, u);
      assert r[k] == Info(p, u);
    }
  }
}
