/** Sequences of meeting operations (create, attend, leave and the
    producer update of a participant row) applied one after another: the invariants of the meetings and
    participants tables hold along any such sequence, and a finished
    meeting stays finished. */
module Lifecycle {
  import opened Common
  import opened Db
  import opened Responses
  import opened Meetings
  import opened Participants

  /** One call into the models, with the time it runs at. */
  datatype Op =
    | CreateOp(name: JsValue, userId: int, newUuid: string, now: int)
    | AttendOp(uuid: string, userId: int, now: int)
    | LeaveOp(uuid: string, userId: int, now: int)
    | SetProducerOp(userId: int, uuid: string, producerId: string, now: int)

  function Apply(t: Tables, op: Op, isUuid: string -> bool): Tables
  {
    match op
    case CreateOp(name, userId, newUuid, now) => CreateStep(t, name, userId, newUuid, now).tables
    case AttendOp(uuid, userId, now) => AttendStep(t, uuid, userId, isUuid, now).tables
    case LeaveOp(uuid, userId, now) => LeaveStep(t, uuid, userId, isUuid, now).tables
    case SetProducerOp(userId, uuid, producerId, now) =>
      t.(participants := SetProducer(t.participants, userId, uuid, producerId, now))
  }

  function Run(t: Tables, ops: seq<Op>, isUuid: string -> bool): Tables
    decreases |ops|
  {
    if ops == [] then t else Run(Apply(t, ops[0], isUuid), ops[1..], isUuid)
  }

  /** Every create draws a uuid that no participant row carries at that point. */
  ghost predicate FreshCreates(t: Tables, ops: seq<Op>, isUuid: string -> bool)
    decreases |ops|
  {
    ops == [] ||
    (&& (ops[0].CreateOp? ==> forall p | p in t.participants :: p.meetingUuid != ops[0].newUuid)
     && FreshCreates(Apply(t, ops[0], isUuid), ops[1..], isUuid))
  }

  lemma ApplyPreservesInv(t: Tables, op: Op, isUuid: string -> bool)
    requires Inv(t)
    requires op.CreateOp? ==> forall p | p in t.participants :: p.meetingUuid != op.newUuid
    ensures Inv(Apply(t, op, isUuid))
  {
    match op
    case CreateOp(name, userId, newUuid, now) => CreatePreservesInv(t, name, userId, newUuid, now);
    case AttendOp(uuid, userId, now) => AttendPreservesInv(t, uuid, userId, isUuid, now);
    case LeaveOp(uuid, userId, now) => LeavePreservesInv(t, uuid, userId, isUuid, now);
    case SetProducerOp(userId, uuid, producerId, now) => SetProducerPreservesInv(t, userId, uuid, producerId, now);
  }

  /** One row per (meeting, user), one owner per meeting, unique meeting
      uuids and owners only of existing meetings hold after any sequence of
      operations that starts from tables where they hold. */
  lemma {:induction false} RunPreservesInv(t: Tables, ops: seq<Op>, isUuid: string -> bool)
    requires Inv(t) && FreshCreates(t, ops, isUuid)
    ensures Inv(Run(t, ops, isUuid))
    decreases |ops|
  {
    if ops != [] {
      ApplyPreservesInv(t, ops[0], isUuid);
      RunPreservesInv(Apply(t, ops[0], isUuid), ops[1..], isUuid);
    }
  }

  lemma ApplyEvolves(t: Tables, op: Op, isUuid: string -> bool)
    ensures MeetingsEvolve(t.meetings, Apply(t, op, isUuid).meetings)
  {
    match op
    case CreateOp(name, userId, newUuid, now) => CreateEvolves(t, name, userId, newUuid, now);
    case AttendOp(uuid, userId, now) => AttendEvolves(t, uuid, userId, isUuid, now);
    case LeaveOp(uuid, userId, now) => LeaveEvolves(t, uuid, userId, isUuid, now);
    case SetProducerOp(userId, uuid, producerId, now) =>
  }

  /** No sequence of operations removes a meeting or clears its finishedAt. */
  lemma {:induction false} RunEvolves(t: Tables, ops: seq<Op>, isUuid: string -> bool)
    ensures MeetingsEvolve(t.meetings, Run(t, ops, isUuid).meetings)
    decreases |ops|
  {
    if ops != [] {
      var t1 := Apply(t, ops[0], isUuid);
      ApplyEvolves(t, ops[0], isUuid);
      RunEvolves(t1, ops[1..], isUuid);
      MeetingsEvolveTransitive(t.meetings, t1.meetings, Run(t1, ops[1..], isUuid).meetings);
    }
  }

  /** Attend looks neither at the meeting's existence nor at its finishedAt:
      a newcomer to a finished meeting is let in as a non-owner. */
  lemma AttendIgnoresFinished(t: Tables, uuid: string, userId: int, isUuid: string -> bool, now: int)
    requires isUuid(uuid) && RowsOf(t.participants, uuid, userId) == []
    requires exists m | m in t.meetings :: m.uuid == uuid && m.finishedAt.Some?
    ensures AttendStep(t, uuid, userId, isUuid, now).response == Success(AttendValue("attended", false))
  {
    AttendIdempotent(t, uuid, userId, isUuid, now);
  }
}
