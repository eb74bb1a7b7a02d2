/** A user's media settings (models/user-settings.ts): switching one of
    the three enable flags, a partial update of the other settings, and
    the lookup. Both updates check their input first and then write every
    settings row of the user. */
module UserSettings {
  import opened Common
  import opened Validator
  import opened Db
  import opened Responses

  const MaxDeviceId: nat := 255

  /** The `Target` enum. */
  datatype Target = Video | Microphone | Speaker

  function TargetValue(target: Target): string
  {
    match target
    case Video => "video"
    case Microphone => "microphone"
    case Speaker => "speaker"
  }

  /** `v.enum(Target)`: the input must be one of the enum's string values. */
  function ParseTarget(v: JsValue): (r: Option<Target>)
    ensures r.Some? ==> v == Str(TargetValue(r.value))
    ensures r.None? ==> forall target: Target :: v != Str(TargetValue(target))
  {
    if v == Str("video") then Some(Video)
    else if v == Str("microphone") then Some(Microphone)
    else if v == Str("speaker") then Some(Speaker)
    else None
  }

  lemma ParseTargetRoundTrip(target: Target)
    ensures ParseTarget(Str(TargetValue(target))) == Some(target)
  {
  }

  /** The `enable_<target>` column of a row. */
  function Flag(s: UserSetting, target: Target): bool
  {
    match target
    case Video => s.enableVideo
    case Microphone => s.enableMicrophone
    case Speaker => s.enableSpeaker
  }

  /** The row with `enable_<target>` and updatedAt written. */
  function SetEnable(s: UserSetting, target: Target, enable: bool, now: int): UserSetting
  {
    match target
    case Video => s.(enableVideo := enable, updatedAt := now)
    case Microphone => s.(enableMicrophone := enable, updatedAt := now)
    case Speaker => s.(enableSpeaker := enable, updatedAt := now)
  }

  /** Two rows that agree on every column except updatedAt and the
      enable flag of `target`. */
  predicate SameExceptFlag(a: UserSetting, b: UserSetting, target: Target)
  {
    && a.userId == b.userId
    && a.microphoneUnderGain == b.microphoneUnderGain
    && a.enableNoiseCancellation == b.enableNoiseCancellation
    && a.currentAudioDeviceId == b.currentAudioDeviceId
    && a.currentVideoDeviceId == b.currentVideoDeviceId
    && a.currentSpeakerDeviceId == b.currentSpeakerDeviceId
    && a.enableBackgroundBlur == b.enableBackgroundBlur
    && forall other: Target | other != target :: Flag(a, other) == Flag(b, other)
  }

  lemma SetEnableWritesOneFlag(s: UserSetting, target: Target, enable: bool, now: int)
    ensures Flag(SetEnable(s, target, enable, now), target) == enable
    ensures SetEnable(s, target, enable, now).updatedAt == now
    ensures SameExceptFlag(SetEnable(s, target, enable, now), s, target)
  {
  }

  /** The row the update's `returningAll().executeTakeFirst()` gives back. */
  function FirstOfUser(rows: seq<UserSetting>, userId: int): Option<UserSetting>
  {
    match FirstWhere(rows, (s: UserSetting) => s.userId == userId)
    case None => None
    case Some(i) => Some(rows[i])
  }

  // ---------------------------------------------------------------------
  // updateEnable

  function UpdateEnableIssues(target: JsValue, enable: JsValue): seq<Issue>
  {
    Check("target", ParseTarget(target).Some?) + Check("enable", enable.Bool?)
  }

  function EnableRows(rows: seq<UserSetting>, userId: int, target: Target, enable: bool, now: int): seq<UserSetting>
  {
    UpdateWhere(rows, (s: UserSetting) => s.userId == userId, (s: UserSetting) => SetEnable(s, target, enable, now))
  }

  /** `updateEnable({ userId, target, enable })`. */
  function UpdateEnableStep(t: Tables, userId: int, target: JsValue, enable: JsValue, now: int): (s: Step<Option<UserSetting>>)
    ensures s.response.Success? <==> ParseTarget(target).Some? && enable.Bool?
    ensures !s.response.Success? ==> s.tables == t
    ensures s.tables == t.(userSettings := s.tables.userSettings) && |s.tables.userSettings| == |t.userSettings|
    ensures s.response.Success? && s.response.value.Some? ==>
      s.response.value.value in s.tables.userSettings && s.response.value.value.userId == userId
  {
    var issues := UpdateEnableIssues(target, enable);
    if issues != [] then Step(t, Failure(issues))
    else
      var rows := EnableRows(t.userSettings, userId, ParseTarget(target).value, enable.b, now);
      Step(t.(userSettings := rows), Success(FirstOfUser(rows, userId)))
  }

  method UpdateEnable(db: Database, userId: int, target: JsValue, enable: JsValue, now: int)
    returns (r: Response<Option<UserSetting>>)
    modifies db
    ensures Step(db.Snapshot(), r) == UpdateEnableStep(old(db.Snapshot()), userId, target, enable, now)
  {
    var issues := UpdateEnableIssues(target, enable);
    if issues != [] {
      return Failure(issues);
    }
    var column := ParseTarget(target).value;
    db.userSettings := EnableRows(db.userSettings, userId, column, enable.b, now);
    return Success(FirstOfUser(db.userSettings, userId));
  }

  /** A target outside the enum, or an `enable` that is not a boolean, is
      refused and nothing is written. */
  lemma UpdateEnableRejects(t: Tables, userId: int, target: JsValue, enable: JsValue, now: int)
    requires (forall tg: Target :: target != Str(TargetValue(tg))) || !enable.Bool?
    ensures var s := UpdateEnableStep(t, userId, target, enable, now);
      s.tables == t && s.response.Failure? && s.response.issues != []
  {
  }

  /** A valid updateEnable writes only the user's rows, and of each only the
      target's flag and updatedAt; it reports success, with the first
      written row, or with no row when the user has none. */
  lemma UpdateEnableWritesOneFlag(t: Tables, userId: int, target: Target, enable: bool, now: int)
    ensures var s := UpdateEnableStep(t, userId, Str(TargetValue(target)), Bool(enable), now);
      var rows := s.tables.userSettings;
      && s.tables == t.(userSettings := rows)
      && |rows| == |t.userSettings|
      && (forall i | 0 <= i < |rows| && t.userSettings[i].userId == userId ::
            Flag(rows[i], target) == enable && rows[i].updatedAt == now &&
            SameExceptFlag(rows[i], t.userSettings[i], target))
      && (forall i | 0 <= i < |rows| && t.userSettings[i].userId != userId :: rows[i] == t.userSettings[i])
      && s.response.Success?
      && (s.response.value.Some? ==> s.response.value.value.userId == userId && s.response.value.value in rows)
      && (s.response.value.None? <==> forall r | r in t.userSettings :: r.userId != userId)
  {
    var s := UpdateEnableStep(t, userId, Str(TargetValue(target)), Bool(enable), now);
    var rows := s.tables.userSettings;
    forall i | 0 <= i < |rows| && t.userSettings[i].userId == userId
      ensures Flag(rows[i], target) == enable && rows[i].updatedAt == now
      ensures SameExceptFlag(rows[i], t.userSettings[i], target)
    {
      SetEnableWritesOneFlag(t.userSettings[i], target, enable, now);
    }
    if s.response.value.None? {
      forall r | r in t.userSettings ensures r.userId != userId {
        var i :| 0 <= i < |t.userSettings| && t.userSettings[i] == r;
        assert rows[i].userId == r.userId;
      }
    } else {
      var r :| r in t.userSettings && r.userId == userId;
    }
  }

  /** Switching the same flag to the same value twice leaves the rows that
      switching it once, at the later time, leaves. */
  lemma UpdateEnableIdempotent(t: Tables, userId: int, target: JsValue, enable: JsValue, now: int, later: int)
    ensures var once := UpdateEnableStep(t, userId, target, enable, now);
      UpdateEnableStep(once.tables, userId, target, enable, later).tables ==
      UpdateEnableStep(t, userId, target, enable, later).tables
  {
    if UpdateEnableIssues(target, enable) == [] {
      EnableRowsTwice(t.userSettings, userId, ParseTarget(target).value, enable.b, now, later);
    }
  }

  lemma SetEnableTwice(s: UserSetting, target: Target, enable: bool, now: int, later: int)
    ensures SetEnable(SetEnable(s, target, enable, now), target, enable, later) == SetEnable(s, target, enable, later)
  {
  }

  lemma {:induction false} EnableRowsTwice(rows: seq<UserSetting>, userId: int, target: Target, enable: bool, now: int, later: int)
    ensures EnableRows(EnableRows(rows, userId, target, enable, now), userId, target, enable, later) ==
            EnableRows(rows, userId, target, enable, later)
  {
    var once := EnableRows(rows, userId, target, enable, now);
    var twice := EnableRows(once, userId, target, enable, later);
    var direct := EnableRows(rows, userId, target, enable, later);
    forall i | 0 <= i < |rows| ensures twice[i] == direct[i] {
      if rows[i].userId == userId {
        SetEnableWritesOneFlag(rows[i], target, enable, now);
        SetEnableTwice(rows[i], target, enable, now, later);
      }
    }
  }

  // ---------------------------------------------------------------------
  // update

  /** The optional fields of an `update` call, as the request body gave them. */
  datatype SettingsPatch = SettingsPatch(
    microphoneUnderGain: JsValue,
    enableNoiseCancellation: JsValue,
    currentAudioDeviceId: JsValue,
    currentVideoDeviceId: JsValue,
    currentSpeakerDeviceId: JsValue,
    enableBackgroundBlur: JsValue)

  /** `v.optional(...)` accepts a missing value (undefined) but not null. */
  predicate OptionalNumber(v: JsValue) { v.Undefined? || v.Number? }
  predicate OptionalBool(v: JsValue) { v.Undefined? || v.Bool? }
  predicate OptionalDeviceId(v: JsValue) { v.Undefined? || IsStringUpTo(v, MaxDeviceId) }

  function UpdateIssues(patch: SettingsPatch): seq<Issue>
  {
    Check("microphoneUnderGain", OptionalNumber(patch.microphoneUnderGain))
      + Check("enableNoiseCancellation", OptionalBool(patch.enableNoiseCancellation))
      + Check("currentAudioDeviceId", OptionalDeviceId(patch.currentAudioDeviceId))
      + Check("currentVideoDeviceId", OptionalDeviceId(patch.currentVideoDeviceId))
      + Check("currentSpeakerDeviceId", OptionalDeviceId(patch.currentSpeakerDeviceId))
      + Check("enableBackgroundBlur", OptionalBool(patch.enableBackgroundBlur))
  }

  /** `value ?? undefined` in a kysely `set`: a value that is given is
      written, an undefined one leaves the column alone. */
  function NumberOr(v: JsValue, current: real): real
  {
    if v.Number? then v.n else current
  }

  function BoolOr(v: JsValue, current: bool): bool
  {
    if v.Bool? then v.b else current
  }

  function StringOr(v: JsValue, current: Option<string>): Option<string>
  {
    if v.Str? then Some(v.s) else current
  }

  function ApplyPatch(s: UserSetting, patch: SettingsPatch, now: int): UserSetting
  {
    s.(microphoneUnderGain := NumberOr(patch.microphoneUnderGain, s.microphoneUnderGain),
       enableNoiseCancellation := BoolOr(patch.enableNoiseCancellation, s.enableNoiseCancellation),
       currentAudioDeviceId := StringOr(patch.currentAudioDeviceId, s.currentAudioDeviceId),
       currentVideoDeviceId := StringOr(patch.currentVideoDeviceId, s.currentVideoDeviceId),
       currentSpeakerDeviceId := StringOr(patch.currentSpeakerDeviceId, s.currentSpeakerDeviceId),
       enableBackgroundBlur := BoolOr(patch.enableBackgroundBlur, s.enableBackgroundBlur),
       updatedAt := now)
  }

  function PatchRows(rows: seq<UserSetting>, userId: int, patch: SettingsPatch, now: int): seq<UserSetting>
  {
    UpdateWhere(rows, (s: UserSetting) => s.userId == userId, (s: UserSetting) => ApplyPatch(s, patch, now))
  }

  /** `update({ userId, ...patch })`. */
  function UpdateStep(t: Tables, userId: int, patch: SettingsPatch, now: int): (s: Step<Option<UserSetting>>)
    ensures s.response.Success? <==> UpdateIssues(patch) == []
    ensures !s.response.Success? ==> s.tables == t
    ensures s.tables == t.(userSettings := s.tables.userSettings) && |s.tables.userSettings| == |t.userSettings|
    ensures s.response.Success? && s.response.value.Some? ==>
      s.response.value.value in s.tables.userSettings && s.response.value.value.userId == userId
  {
    var issues := UpdateIssues(patch);
    if issues != [] then Step(t, Failure(issues))
    else
      var rows := PatchRows(t.userSettings, userId, patch, now);
      Step(t.(userSettings := rows), Success(FirstOfUser(rows, userId)))
  }

  method Update(db: Database, userId: int, patch: SettingsPatch, now: int)
    returns (r: Response<Option<UserSetting>>)
    modifies db
    ensures Step(db.Snapshot(), r) == UpdateStep(old(db.Snapshot()), userId, patch, now)
  {
    var issues := UpdateIssues(patch);
    if issues != [] {
      return Failure(issues);
    }
    db.userSettings := PatchRows(db.userSettings, userId, patch, now);
    return Success(FirstOfUser(db.userSettings, userId));
  }

  /** A device id longer than 255 characters is refused and nothing is written. */
  lemma UpdateRejectsLongDeviceId(t: Tables, userId: int, patch: SettingsPatch, now: int)
    requires || (patch.currentAudioDeviceId.Str? && |patch.currentAudioDeviceId.s| > MaxDeviceId)
             || (patch.currentVideoDeviceId.Str? && |patch.currentVideoDeviceId.s| > MaxDeviceId)
             || (patch.currentSpeakerDeviceId.Str? && |patch.currentSpeakerDeviceId.s| > MaxDeviceId)
    ensures var s := UpdateStep(t, userId, patch, now);
      s.tables == t && s.response.Failure? && s.response.issues != []
  {
  }

  /** On each of the user's rows a given field overwrites its column and a
      missing one leaves it alone; other users' rows are not written; the
      call succeeds even when the user has no row. */
  lemma UpdateIsPartial(t: Tables, userId: int, patch: SettingsPatch, now: int)
    requires UpdateIssues(patch) == []
    ensures var s := UpdateStep(t, userId, patch, now);
      var rows := s.tables.userSettings;
      && s.response.Success?
      && |rows| == |t.userSettings|
      && (forall i | 0 <= i < |rows| && t.userSettings[i].userId != userId :: rows[i] == t.userSettings[i])
      && (forall i | 0 <= i < |rows| && t.userSettings[i].userId == userId ::
            var before, after := t.userSettings[i], rows[i];
            && after.userId == before.userId && after.updatedAt == now
            && after.enableVideo == before.enableVideo
            && after.enableMicrophone == before.enableMicrophone
            && after.enableSpeaker == before.enableSpeaker
            && after.microphoneUnderGain ==
                 (if patch.microphoneUnderGain.Undefined? then before.microphoneUnderGain else patch.microphoneUnderGain.n)
            && after.enableNoiseCancellation ==
                 (if patch.enableNoiseCancellation.Undefined? then before.enableNoiseCancellation else patch.enableNoiseCancellation.b)
            && after.currentAudioDeviceId ==
                 (if patch.currentAudioDeviceId.Undefined? then before.currentAudioDeviceId else Some(patch.currentAudioDeviceId.s))
            && after.currentVideoDeviceId ==
                 (if patch.currentVideoDeviceId.Undefined? then before.currentVideoDeviceId else Some(patch.currentVideoDeviceId.s))
            && after.currentSpeakerDeviceId ==
                 (if patch.currentSpeakerDeviceId.Undefined? then before.currentSpeakerDeviceId else Some(patch.currentSpeakerDeviceId.s))
            && after.enableBackgroundBlur ==
                 (if patch.enableBackgroundBlur.Undefined? then before.enableBackgroundBlur else patch.enableBackgroundBlur.b))
      && ((forall r | r in t.userSettings :: r.userId != userId) ==> s == Step(t, Success(None)))
  {
    var s := UpdateStep(t, userId, patch, now);
    var rows := s.tables.userSettings;
    if forall r | r in t.userSettings :: r.userId != userId {
      forall i | 0 <= i < |rows| ensures rows[i] == t.userSettings[i] {
        assert t.userSettings[i] in t.userSettings;
      }
    }
  }

  /** A null field is refused: the schema's fields are optional, not nullable. */
  lemma UpdateRejectsNull(t: Tables, userId: int, patch: SettingsPatch, now: int)
    requires || patch.microphoneUnderGain.Null? || patch.enableNoiseCancellation.Null?
             || patch.currentAudioDeviceId.Null? || patch.currentVideoDeviceId.Null?
             || patch.currentSpeakerDeviceId.Null? || patch.enableBackgroundBlur.Null?
    ensures UpdateStep(t, userId, patch, now).tables == t
    ensures UpdateStep(t, userId, patch, now).response.Failure?
  {
  }

  /** `find(userId)`. */
  function Find(rows: seq<UserSetting>, userId: int): (r: Option<UserSetting>)
    ensures r.Some? ==> r.value in rows && r.value.userId == userId
    ensures r.None? <==> forall s | s in rows :: s.userId != userId
  {
    FirstOfUser(rows, userId)
  }
}
