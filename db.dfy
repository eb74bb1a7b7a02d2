/** The four tables the server models read and write, held in memory.
    Times are integers in milliseconds; ids are integers; meeting uuids
    are strings. Each table is a sequence of rows in storage order. */
module Db {
  import opened Common

  datatype Meeting = Meeting(
    uuid: string,
    name: string,
    createdAt: int,
    finishedAt: Option<int>)

  datatype Participant = Participant(
    meetingUuid: string,
    userId: int,
    isOwner: bool,
    producerId: Option<string>,
    updatedAt: int)

  datatype User = User(
    id: int,
    email: string,
    name: Option<string>,
    passwordDigest: string)

  datatype UserSetting = UserSetting(
    userId: int,
    enableVideo: bool,
    enableMicrophone: bool,
    enableSpeaker: bool,
    microphoneUnderGain: real,
    enableNoiseCancellation: bool,
    currentAudioDeviceId: Option<string>,
    currentVideoDeviceId: Option<string>,
    currentSpeakerDeviceId: Option<string>,
    enableBackgroundBlur: bool,
    updatedAt: int)

  /** The whole database as one value; `nextUserId` is the next value of
      the users table's id sequence. */
  datatype Tables = Tables(
    meetings: seq<Meeting>,
    participants: seq<Participant>,
    users: seq<User>,
    userSettings: seq<UserSetting>,
    nextUserId: int)

  /** The database the models share. Every model operation is one atomic
      step over these fields. */
  class Database {
    var meetings: seq<Meeting>
    var participants: seq<Participant>
    var users: seq<User>
    var userSettings: seq<UserSetting>
    var nextUserId: int

    constructor (t: Tables)
      ensures Snapshot() == t
    {
      meetings := t.meetings;
      participants := t.participants;
      users := t.users;
      userSettings := t.userSettings;
      nextUserId := t.nextUserId;
    }

    function Snapshot(): (t: Tables)
      reads this
    {
      Tables(meetings, participants, users, userSettings, nextUserId)
    }
  }
}
