/** `IOSAudioSource`: the life cycle of the iOS microphone source (set up, started, paused,
    released), with every state it takes also sent to the observers of its state. The audio
    session, the audio engine and the interruption listener are reduced to flags, and whether
    a platform call reports an error is a parameter. */
module AudioSource {
  import opened Wrappers

  datatype AudioSourceState = Uninitialized | Ready | Running | Paused

  /** The source: its state, the states sent on the state channel so far, and whether an audio
      engine is held, the engine is running, the audio session is active and interruption
      notifications are listened to. */
  datatype Source = Source(
    state: AudioSourceState,
    sent: seq<AudioSourceState>,
    hasEngine: bool,
    engineRunning: bool,
    sessionActive: bool,
    listening: bool)

  /** A new source: the initial state is stored without going through the setter, so nothing
      is sent. */
  function NewSource(): Source {
    Source(Uninitialized, [], false, false, false, false)
  }

  /** The `state` setter: the value is stored and sent. */
  function SetState(s: Source, value: AudioSourceState): (r: Source)
    ensures r.state == value && r.sent == s.sent + [value]
  {
    s.(state := value, sent := s.sent + [value])
  }

  // ---------------------------------------------------------------------------------------
  // The audio session
  // ---------------------------------------------------------------------------------------

  /** `setAudioSessionActive` as written: the session is always activated, whatever the
      argument; an error from the platform is an `IllegalStateException`. */
  function SetAudioSessionActiveAsWritten(s: Source, isActive: bool, fails: bool): (r: Result<Source>)
    ensures r.Success? <==> !fails
    ensures r.Success? ==> r.value.sessionActive
  {
    if fails then Failure(IllegalState) else Success(s.(sessionActive := true))
  }

  /** `setAudioSessionActive` as its documentation says: the session ends up in the state
      asked for. */
  function SetAudioSessionActive(s: Source, isActive: bool, fails: bool): (r: Result<Source>)
    ensures r.Success? <==> !fails
    ensures r.Success? ==> r.value.sessionActive == isActive
  {
    if fails then Failure(IllegalState) else Success(s.(sessionActive := isActive))
  }

  // ---------------------------------------------------------------------------------------
  // Life cycle
  // ---------------------------------------------------------------------------------------

  /** `setup`: only an uninitialised source is set up. When configuring the session or the
      engine fails the source stays uninitialised, and that state is sent again; otherwise the
      session is active, an engine is held, interruptions are listened to and the source is
      ready. */
  function Setup(s: Source, fails: bool): (r: Source)
    ensures s.state != Uninitialized ==> r == s
    ensures s.state == Uninitialized && fails ==> r == SetState(s, Uninitialized)
    ensures s.state == Uninitialized && !fails ==> r.state == Ready && r.hasEngine && r.sessionActive && r.listening
  {
    if s.state != Uninitialized then s
    else if fails then SetState(s, Uninitialized)
    else
      var active := SetAudioSessionActive(s, true, false).value;
      SetState(active.(hasEngine := true, listening := true), Ready)
  }

  /** `start`: a ready or paused source starts its engine and runs; an error from the engine
      is thrown before the state changes. Other states are left alone. */
  function Start(s: Source, fails: bool): (r: Result<Source>)
    ensures s.state in {Uninitialized, Running} ==> r == Success(s)
    ensures s.state in {Ready, Paused} && fails ==> r == Failure(IllegalState)
    ensures s.state in {Ready, Paused} && !fails ==> r.Success? && r.value.state == Running && r.value.engineRunning == s.hasEngine
  {
    match s.state
    case Uninitialized => Success(s)
    case Running => Success(s)
    case _ => if fails then Failure(IllegalState) else Success(SetState(s.(engineRunning := s.hasEngine), Running))
  }

  /** `pause`: a running source stops its engine and is paused; other states are left
      alone. */
  function Pause(s: Source): (r: Source)
    ensures s.state == Running ==> r.state == Paused && !r.engineRunning && r.sent == s.sent + [Paused]
    ensures s.state != Running ==> r == s
  {
    if s.state == Running then SetState(s.(engineRunning := false), Paused) else s
  }

  /** The part of `release` after the uninitialised check, with the session call given. */
  function ReleaseWith(s: Source, session: Result<Source>): Result<Source> {
    if s.state == Uninitialized then Success(s)
    else
      match session
      case Failure(e) => Failure(e)
      case Success(t) => Success(SetState(t.(listening := false), Uninitialized))
  }

  /** `release` as written: the session is meant to be deactivated but is activated. */
  function ReleaseAsWritten(s: Source, fails: bool): (r: Result<Source>)
    ensures s.state == Uninitialized ==> r == Success(s)
    ensures s.state != Uninitialized ==> (r.Success? <==> !fails)
    ensures s.state != Uninitialized && r.Success? ==> r.value.state == Uninitialized && r.value.sessionActive
  {
    var stopped := s.(engineRunning := false, hasEngine := false);
    ReleaseWith(s, SetAudioSessionActiveAsWritten(stopped, false, fails))
  }

  /** `release`: the engine is stopped and dropped, the session deactivated, interruptions no
      longer listened to, and the source uninitialised. An error from the session is thrown
      before the state changes. */
  function Release(s: Source, fails: bool): (r: Result<Source>)
    ensures s.state == Uninitialized ==> r == Success(s)
    ensures s.state != Uninitialized ==> (r.Success? <==> !fails)
    ensures s.state != Uninitialized && r.Success? ==>
      var t := r.value;
      t.state == Uninitialized && !t.hasEngine && !t.engineRunning && !t.sessionActive && !t.listening
        && t.sent == s.sent + [Uninitialized]
  {
    var stopped := s.(engineRunning := false, hasEngine := false);
    ReleaseWith(s, SetAudioSessionActive(stopped, false, fails))
  }

  /** An audio session interruption notification, with the fields its user info holds. */
  datatype Interruption = Began(reason: Option<int>) | Ended(options: Option<int>) | OtherType

  /** `AVAudioSessionInterruptionOptionShouldResume`. */
  const SHOULD_RESUME := 1

  /** `handleSessionInterruptionNotification`: a started interruption with a reason pauses the
      source; an ended one asking to resume starts it again. */
  function HandleInterruption(s: Source, n: Interruption, startFails: bool): (r: Result<Source>)
    ensures n.Began? && n.reason.Some? ==> r == Success(Pause(s))
    ensures n.Ended? && n.options == Some(SHOULD_RESUME) ==> r == Start(s, startFails)
    ensures !(n.Began? && n.reason.Some?) && !(n.Ended? && n.options == Some(SHOULD_RESUME)) ==> r == Success(s)
  {
    match n
    case Began(reason) => if reason.Some? then Success(Pause(s)) else Success(s)
    case Ended(options) => if options == Some(SHOULD_RESUME) then Start(s, startFails) else Success(s)
    case OtherType => Success(s)
  }

  // ---------------------------------------------------------------------------------------
  // Properties
  // ---------------------------------------------------------------------------------------

  /** The last state sent is the current state, and a source that is not uninitialised holds
      an engine, runs it exactly when it is running, and listens to interruptions. */
  predicate Valid(s: Source) {
    && (if s.sent == [] then s.state == Uninitialized else s.sent[|s.sent| - 1] == s.state)
    && (s.state != Uninitialized ==> s.hasEngine && s.listening)
    && (s.engineRunning <==> s.state == Running)
  }

  lemma NewSourceValid()
    ensures Valid(NewSource())
  {
  }

  /** Every operation keeps the source valid, on success and on error. */
  lemma OperationsKeepValid(s: Source, fails: bool, n: Interruption)
    requires Valid(s)
    ensures Valid(Setup(s, fails))
    ensures Start(s, fails).Success? ==> Valid(Start(s, fails).value)
    ensures Start(s, fails).Failure? ==> Valid(s)
    ensures Valid(Pause(s))
    ensures Release(s, fails).Success? ==> Valid(Release(s, fails).value)
    ensures HandleInterruption(s, n, fails).Success? ==> Valid(HandleInterruption(s, n, fails).value)
  {
  }

  /** The transitions: from each state, which operation leads where. */
  lemma Transitions(s: Source)
    ensures Setup(s, false).state == (if s.state == Uninitialized then Ready else s.state)
    ensures Start(s, false).value.state == (if s.state in {Ready, Paused} then Running else s.state)
    ensures Pause(s).state == (if s.state == Running then Paused else s.state)
    ensures Release(s, false).value.state == Uninitialized
  {
  }

  /** An operation sends a state exactly when it assigns one: setting up, and actually
      starting, pausing or releasing. Nothing else is ever sent. */
  lemma SentOnlyOnAssignment(s: Source, fails: bool)
    ensures Setup(s, fails).sent == if s.state == Uninitialized then s.sent + [Setup(s, fails).state] else s.sent
    ensures Start(s, false).value.sent == if s.state in {Ready, Paused} then s.sent + [Running] else s.sent
    ensures Pause(s).sent == if s.state == Running then s.sent + [Paused] else s.sent
    ensures Release(s, false).value.sent == if s.state != Uninitialized then s.sent + [Uninitialized] else s.sent
  {
  }

  /** An interruption that begins and then ends asking to resume brings a running source back
      to exactly where it was, having sent `Paused` then `Running`; one that ends without
      asking leaves it paused. */
  lemma InterruptionRoundTrip(s: Source, reason: int, options: Option<int>, fails: bool)
    requires Valid(s) && s.state == Running
    ensures var paused := HandleInterruption(s, Began(Some(reason)), fails);
      && paused.Success? && paused.value.state == Paused && !paused.value.engineRunning
      && HandleInterruption(paused.value, Ended(Some(SHOULD_RESUME)), false) == Success(s.(sent := s.sent + [Paused, Running]))
      && (options != Some(SHOULD_RESUME) ==> HandleInterruption(paused.value, Ended(options), fails) == paused)
  {
    assert s.sent + [Paused] + [Running] == s.sent + [Paused, Running];
  }

  /** Handling an interruption fails only when it asks to resume a ready or paused source and
      starting the engine fails; the source is never left half-changed. */
  lemma InterruptionFailsOnlyOnResume(s: Source, n: Interruption, fails: bool)
    ensures HandleInterruption(s, n, fails).Failure? <==>
      n.Ended? && n.options == Some(SHOULD_RESUME) && s.state in {Ready, Paused} && fails
  {
  }

  /** Releasing twice is releasing once. */
  lemma ReleaseIdempotent(s: Source, fails: bool, fails': bool)
    requires Release(s, fails).Success?
    ensures Release(Release(s, fails).value, fails') == Release(s, fails)
  {
  }

  /** Pausing then starting again brings a running source back to running. */
  lemma StartUndoesPause(s: Source)
    requires Valid(s) && s.state == Running
    ensures Start(Pause(s), false) == Success(SetState(SetState(s, Paused), Running))
  {
  }

  /** As written, a successful release leaves the audio session active, although the source is
      uninitialised; the corrected release deactivates it. */
  lemma ReleaseAsWrittenLeavesSessionActive(s: Source)
    requires s.state != Uninitialized
    ensures ReleaseAsWritten(s, false).Success? && ReleaseAsWritten(s, false).value.sessionActive
    ensures Release(s, false).Success? && !Release(s, false).value.sessionActive
  {
  }

  /** Apart from the session flag the two releases agree. */
  lemma ReleaseAsWrittenOtherwiseAgrees(s: Source, fails: bool)
    ensures ReleaseAsWritten(s, fails).Success? <==> Release(s, fails).Success?
    ensures Release(s, fails).Success? && s.state != Uninitialized ==>
      ReleaseAsWritten(s, fails).value == Release(s, fails).value.(sessionActive := true)
  {
  }
}
