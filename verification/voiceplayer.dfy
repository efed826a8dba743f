/** The voice-note player of src/components/voice-note-player.jsx: its flags,
    the audio element's events, the play/pause toggle with its loading and error
    guards, and the time label. Times are whole seconds (the component floors
    the element's times); the audio element's own playback is an effect the
    toggle requests. */
module VoicePlayer {
  import opened Options
  import opened Strings
  import Clock

  datatype Player = Player(
    isPlaying: bool,
    isLoading: bool,
    error: bool,
    currentTime: nat,
    duration: nat,
    hasAudio: bool)   // an audio element exists (a media URL was given)

  /** What the toggle asks of the audio element or of the parent list. Asking the
      list to activate the note also schedules a play 100 ms later; that play is the
      click's own `handlePlay`, so it carries the `isPlaying` the click saw. */
  datatype Effect = NoEffect | PlayAudio | PauseAudio | ActivateThenPlay(wasPlaying: bool)

  datatype Reaction = Reaction(state: Player, effect: Effect)

  /** The freshly mounted player: loading, not playing, the duration from the
      message (`duration || 0`), and an audio element only when there is a URL. */
  function Mount(mediaUrl: Option<string>, duration: Option<nat>): (p: Player)
    ensures p.isLoading && !p.isPlaying && !p.error && p.currentTime == 0
    ensures p.hasAudio <==> Truthy(mediaUrl)
    ensures duration.Some? ==> p.duration == duration.value
    ensures duration.None? ==> p.duration == 0
  {
    Player(false, true, false, 0, duration.GetOr(0), Truthy(mediaUrl))
  }

  /** `handlePlay`: flips playing and asks the element to play or pause; without an
      audio element nothing happens. */
  function HandlePlay(st: Player): (r: Reaction)
    ensures !st.hasAudio ==> r == Reaction(st, NoEffect)
    ensures st.hasAudio ==> r.state.isPlaying == !st.isPlaying
    ensures st.hasAudio ==> (r.effect == PauseAudio <==> st.isPlaying)
    ensures st.hasAudio ==> (r.effect == PlayAudio <==> !st.isPlaying)
    ensures r.state.(isPlaying := st.isPlaying) == st
  {
    if !st.hasAudio then Reaction(st, NoEffect)
    else Reaction(st.(isPlaying := !st.isPlaying), if st.isPlaying then PauseAudio else PlayAudio)
  }

  /** `togglePlayPause`: ignored while loading or after an error; an inactive note
      first asks the list to activate it and plays shortly after (the deferred
      `handlePlay` is the `DeferredPlay` event). */
  function TogglePlayPause(st: Player, isActive: bool, canActivate: bool): (r: Reaction)
    ensures st.isLoading || st.error ==> r == Reaction(st, NoEffect)
    ensures !st.isLoading && !st.error && !isActive && canActivate ==>
              r == Reaction(st, ActivateThenPlay(st.isPlaying))
    ensures !st.isLoading && !st.error && (isActive || !canActivate) ==> r == HandlePlay(st)
    ensures r.state.(isPlaying := st.isPlaying) == st
  {
    if st.isLoading || st.error then Reaction(st, NoEffect)
    else if !isActive && canActivate then Reaction(st, ActivateThenPlay(st.isPlaying))
    else HandlePlay(st)
  }

  /** The deferred `handlePlay` scheduled by a click on an inactive note. The
      closure belongs to the click's render: it branches on and negates the
      `isPlaying` the click saw (`wasPlaying`), not the flag at the time it fires.
      The audio element is a ref, looked up when the timer fires. */
  function DeferredHandlePlay(st: Player, wasPlaying: bool): (r: Reaction)
    ensures !st.hasAudio ==> r == Reaction(st, NoEffect)
    ensures st.hasAudio ==> r.state == st.(isPlaying := !wasPlaying)
    ensures st.hasAudio ==> (r.effect == PauseAudio <==> wasPlaying) && (r.effect == PlayAudio <==> !wasPlaying)
    ensures st.hasAudio && st.isPlaying == wasPlaying ==> r == HandlePlay(st)
  {
    if !st.hasAudio then Reaction(st, NoEffect)
    else Reaction(st.(isPlaying := !wasPlaying), if wasPlaying then PauseAudio else PlayAudio)
  }

  /** Two clicks on a stopped, inactive note before the first deferred play fires
      schedule two plays that both saw a stopped note: both ask the element to
      play, and the note ends up playing rather than toggled back off. */
  lemma DoubleClickBeforeActivationPlays(st: Player)
    requires st.hasAudio && !st.isPlaying && !st.isLoading && !st.error
    ensures var first := TogglePlayPause(st, false, true);
            var second := TogglePlayPause(first.state, false, true);
            var fired1 := DeferredHandlePlay(second.state, false);
            var fired2 := DeferredHandlePlay(fired1.state, false);
            && first.effect == ActivateThenPlay(false) && second.effect == ActivateThenPlay(false)
            && fired1.effect == PlayAudio && fired2.effect == PlayAudio
            && fired2.state.isPlaying
  {
  }

  /** `onloadedmetadata`: loading ends and the element's duration is taken. */
  function OnLoadedMetadata(st: Player, seconds: nat): (r: Player)
    ensures !r.isLoading && r.duration == seconds
    ensures r.error == st.error && r.isPlaying == st.isPlaying
    ensures r == st.(isLoading := false, duration := seconds)
  {
    st.(isLoading := false, duration := seconds)
  }

  /** `ontimeupdate`. */
  function OnTimeUpdate(st: Player, seconds: nat): (r: Player)
    ensures r.currentTime == seconds && r.(currentTime := st.currentTime) == st
  {
    st.(currentTime := seconds)
  }

  /** `onended`: playback stops and rewinds. */
  function OnEnded(st: Player): (r: Player)
    ensures !r.isPlaying && r.currentTime == 0
    ensures r.error == st.error && r.isLoading == st.isLoading && r.duration == st.duration
    ensures r == st.(isPlaying := false, currentTime := 0)
  {
    st.(isPlaying := false, currentTime := 0)
  }

  /** `onerror`: the player shows the error and stops loading. */
  function OnError(st: Player): (r: Player)
    ensures r.error && !r.isLoading
    ensures r.isPlaying == st.isPlaying && r.currentTime == st.currentTime
    ensures r == st.(error := true, isLoading := false)
  {
    st.(error := true, isLoading := false)
  }

  /** `formatTime`: a missing or zero time reads "0:00", any other the `m:ss` label. */
  function FormatTime(seconds: Option<nat>): (r: string)
    ensures seconds.None? || seconds == Some(0) ==> r == "0:00"
    ensures seconds.Some? && seconds.value > 0 ==> Clock.Parse(r) == Some(seconds.value)
  {
    if seconds.None? || seconds.value == 0 then "0:00"
    else
      Clock.ParseFormat(seconds.value);
      Clock.Format(seconds.value)
  }

  /** The zero guard changes nothing: the player's label is the recorder's label. */
  lemma FormatTimeAgreesWithRecorder(seconds: nat)
    ensures FormatTime(Some(seconds)) == Clock.Format(seconds)
  {
    if seconds == 0 {
      Clock.FormatZero();
    }
  }

  // ================================================================ runs of events

  datatype Event =
    | MetadataLoaded(seconds: nat)
    | TimeUpdated(seconds: nat)
    | Ended
    | Failed
    | ToggleClicked(isActive: bool, canActivate: bool)
    | DeferredPlay(wasPlaying: bool)   // fires the play an `ActivateThenPlay(wasPlaying)` scheduled

  function Step(st: Player, e: Event): Player {
    match e
    case MetadataLoaded(s) => OnLoadedMetadata(st, s)
    case TimeUpdated(s) => OnTimeUpdate(st, s)
    case Ended => OnEnded(st)
    case Failed => OnError(st)
    case ToggleClicked(a, c) => TogglePlayPause(st, a, c).state
    case DeferredPlay(w) => DeferredHandlePlay(st, w).state
  }

  function Run(st: Player, es: seq<Event>): Player
    decreases |es|
  {
    if |es| == 0 then st else Run(Step(st, es[0]), es[1..])
  }

  /** Once the audio failed, the error stays and every click of the toggle is
      ignored, whatever events follow. */
  lemma {:induction false} ErrorIsFinal(st: Player, es: seq<Event>, isActive: bool, canActivate: bool)
    requires st.error
    ensures Run(st, es).error
    ensures TogglePlayPause(Run(st, es), isActive, canActivate) == Reaction(Run(st, es), NoEffect)
    decreases |es|
  {
    if |es| > 0 {
      ErrorIsFinal(Step(st, es[0]), es[1..], isActive, canActivate);
    }
  }
}
