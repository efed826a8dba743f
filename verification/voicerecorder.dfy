/** The inline voice recorder of src/components/VoiceRecorder.jsx as a state
    machine: start, the once-per-second tick capped at `MaxRecordingTime`,
    pause/resume, stop, the recorder's stop event, playback toggling, discard
    and send. Microphone access, the upload and the browser's supported MIME
    types arrive as event arguments; timers are the `Second` and `OrphanSecond`
    events. */
module VoiceRecorder {
  import opened Options
  import opened Strings
  import Clock

  /** `MAX_RECORDING_TIME`, in seconds. */
  const MaxRecordingTime: nat := 60

  const Mp4: string := "audio/mp4"
  const Mpeg: string := "audio/mpeg"
  const WebmOpus: string := "audio/webm;codecs=opus"

  /** `MediaRecorder.state`. */
  datatype MediaState = Inactive | Recording | Paused

  datatype Blob = Blob(mimeType: string)

  datatype Recorder = Recorder(
    media: Option<MediaState>,  // the recorder object, absent before the first recording
    mimeType: string,           // the type the current recorder was created with
    isRecording: bool,
    isPaused: bool,
    isPlaying: bool,
    time: nat,                  // `recordingTime`, in seconds
    ticking: bool,              // the once-per-second interval is installed
    blob: Option<Blob>,
    audioUrl: Option<string>,
    waveform: bool,             // a playback waveform exists
    pending: nat,               // start clicks still waiting for the microphone
    orphans: nat)               // intervals still running that `timerIntervalRef` no longer holds

  const Initial: Recorder := Recorder(None, "", false, false, false, 0, false, None, None, false, 0, 0)

  /** The recording format: mp4 if supported, else mpeg if supported, else webm/opus. */
  function PreferredMime(supported: set<string>): (m: string)
    ensures Mp4 in supported ==> m == Mp4
    ensures Mp4 !in supported && Mpeg in supported ==> m == Mpeg
    ensures Mp4 !in supported && Mpeg !in supported ==> m == WebmOpus
    ensures m in supported || m == WebmOpus
  {
    if Mp4 in supported then Mp4
    else if Mpeg in supported then Mpeg
    else WebmOpus
  }

  /** The markers the upload looks for in a blob type. */
  const Mp4Tag: string := "mp4"
  const MpegTag: string := "mpeg"

  /** The extension of the uploaded file, chosen from the blob type. */
  function Extension(blobType: string): (e: string)
    ensures Contains(blobType, Mp4Tag) ==> e == "m4a"
    ensures !Contains(blobType, Mp4Tag) && Contains(blobType, MpegTag) ==> e == "mp3"
    ensures !Contains(blobType, Mp4Tag) && !Contains(blobType, MpegTag) ==> e == "webm"
  {
    if Contains(blobType, Mp4Tag) then "m4a"
    else if Contains(blobType, MpegTag) then "mp3"
    else "webm"
  }

  lemma Mp4Extension()
    ensures Extension(Mp4) == "m4a"
  {
    assert Mp4[6..9] == Mp4Tag;
    ContainsAt(Mp4, Mp4Tag, 6);
  }

  lemma MpegLacksMp4()
    ensures !Contains(Mpeg, Mp4Tag)
  {
    assert Mp4Tag[2] == '4';
    LacksChar(Mpeg, Mp4Tag, '4');
  }

  lemma MpegHasMpeg()
    ensures Contains(Mpeg, MpegTag)
  {
    assert Mpeg[6..10] == MpegTag;
    ContainsAt(Mpeg, MpegTag, 6);
  }

  lemma MpegExtension()
    ensures Extension(Mpeg) == "mp3"
  {
    MpegLacksMp4();
    MpegHasMpeg();
  }

  lemma WebmLacksMp4()
    ensures !Contains(WebmOpus, Mp4Tag)
  {
    assert Mp4Tag[2] == '4';
    LacksChar(WebmOpus, Mp4Tag, '4');
  }

  lemma WebmLacksMpeg()
    ensures !Contains(WebmOpus, MpegTag)
  {
    assert MpegTag[3] == 'g';
    LacksChar(WebmOpus, MpegTag, 'g');
  }

  lemma WebmExtension()
    ensures Extension(WebmOpus) == "webm"
  {
    WebmLacksMp4();
    WebmLacksMpeg();
  }

  /** The file extension always matches the format that was recorded. */
  lemma ExtensionMatchesFormat(supported: set<string>)
    ensures Mp4 in supported ==> Extension(PreferredMime(supported)) == "m4a"
    ensures Mp4 !in supported && Mpeg in supported ==> Extension(PreferredMime(supported)) == "mp3"
    ensures Mp4 !in supported && Mpeg !in supported ==> Extension(PreferredMime(supported)) == "webm"
  {
    Mp4Extension();
    MpegExtension();
    WebmExtension();
  }

  /** The start button is shown only while idle: not recording and nothing recorded. */
  predicate Idle(st: Recorder) {
    !st.isRecording && st.blob.None?
  }

  /** A click on the start button, shown only while idle. `startRecording` first
      waits for the microphone, and the button stays on screen meanwhile, so
      every click while idle leaves one more start waiting. */
  function ClickStart(st: Recorder): (r: Recorder)
    ensures Idle(st) ==> r == st.(pending := st.pending + 1)
    ensures !Idle(st) ==> r == st
  {
    if Idle(st) then st.(pending := st.pending + 1) else st
  }

  /** Whether the rest of `startRecording` gets as far as a running recorder: a
      start is waiting, the microphone was granted, and the `MediaRecorder`
      constructor accepts the chosen type (it throws for an unsupported one,
      which the catch turns into an alert). Nothing checks again that the
      recorder is idle. */
  predicate CanStart(st: Recorder, micGranted: bool, supported: set<string>) {
    st.pending > 0 && micGranted && PreferredMime(supported) in supported
  }

  /** The answer to a waiting start's microphone request, and the rest of
      `startRecording`: with access and a supported type a new recorder starts in
      the preferred format, the clock restarts at zero and a new interval is
      installed. The interval the handle held until then, if it was running, is
      never cleared. The pause flag is not touched. Otherwise only the waiting
      start is used up. */
  function Start(st: Recorder, micGranted: bool, supported: set<string>): (r: Recorder)
    ensures st.pending == 0 ==> r == st
    ensures st.pending > 0 && !CanStart(st, micGranted, supported) ==> r == st.(pending := st.pending - 1)
    ensures st.pending > 0 && micGranted && Mp4 !in supported && Mpeg !in supported && WebmOpus !in supported ==>
              r == st.(pending := st.pending - 1)
    ensures CanStart(st, micGranted, supported) ==>
              && r.media == Some(Recording) && r.isRecording && r.ticking && r.time == 0
              && r.mimeType == PreferredMime(supported)
              && r.blob == st.blob && r.isPaused == st.isPaused
              && r.pending == st.pending - 1
              && (r.orphans == st.orphans + 1 <==> st.ticking)
    ensures CanStart(st, micGranted, supported) ==>
              r == st.(media := Some(Recording), mimeType := PreferredMime(supported),
                       isRecording := true, time := 0, ticking := true,
                       pending := st.pending - 1,
                       orphans := if st.ticking then st.orphans + 1 else st.orphans)
  {
    if st.pending == 0 then st
    else if !CanStart(st, micGranted, supported) then st.(pending := st.pending - 1)
    else st.(media := Some(Recording), mimeType := PreferredMime(supported),
             isRecording := true, time := 0, ticking := true,
             pending := st.pending - 1,
             orphans := if st.ticking then st.orphans + 1 else st.orphans)
  }

  /** `stopRecording`: acts only on a recording or paused recorder. */
  function Stop(st: Recorder): (r: Recorder)
    ensures st.media == Some(Recording) || st.media == Some(Paused) ==>
              r == st.(media := Some(Inactive), isRecording := false, isPaused := false, ticking := false)
    ensures !(st.media == Some(Recording) || st.media == Some(Paused)) ==> r == st
  {
    if st.media == Some(Recording) || st.media == Some(Paused) then
      st.(media := Some(Inactive), isRecording := false, isPaused := false, ticking := false)
    else st
  }

  /** `togglePauseRecording`: swaps recording and paused, stopping or restarting the
      interval; without a recorder, or with an inactive one, nothing happens. */
  function TogglePause(st: Recorder): (r: Recorder)
    ensures st.media == Some(Recording) ==> r.media == Some(Paused) && r.isPaused && !r.ticking
    ensures st.media == Some(Paused) ==> r.media == Some(Recording) && !r.isPaused && r.ticking
    ensures st.media.None? || st.media == Some(Inactive) ==> r == st
    ensures r.time == st.time && r.isRecording == st.isRecording && r.blob == st.blob
    ensures st.media == Some(Recording) ==> r == st.(media := Some(Paused), isPaused := true, ticking := false)
    ensures st.media == Some(Paused) ==> r == st.(media := Some(Recording), isPaused := false, ticking := true)
  {
    match st.media
    case Some(Recording) => st.(media := Some(Paused), isPaused := true, ticking := false)
    case Some(Paused) => st.(media := Some(Recording), isPaused := false, ticking := true)
    case _ => st
  }

  /** One second of the interval: the clock advances by one and, on reaching the
      limit, is pinned at the limit and the recording stops. */
  function Tick(st: Recorder): (r: Recorder)
    ensures !st.ticking ==> r == st
    ensures st.ticking && st.time + 1 < MaxRecordingTime ==> r == st.(time := st.time + 1)
    ensures st.ticking && st.time + 1 >= MaxRecordingTime ==>
              r == Stop(st).(time := MaxRecordingTime, ticking := false)
    ensures st.ticking ==> r.time == st.time + 1 || r.time == MaxRecordingTime
    ensures st.ticking ==> r.time <= MaxRecordingTime
    ensures st.ticking ==> (r.ticking <==> st.time + 1 < MaxRecordingTime)
    ensures st.ticking && st.media == Some(Recording) && st.time + 1 >= MaxRecordingTime ==>
              !r.isRecording && r.media == Some(Inactive)
  {
    if !st.ticking then st
    else if st.time >= MaxRecordingTime - 1 then Stop(st).(time := MaxRecordingTime, ticking := false)
    else st.(time := st.time + 1)
  }

  /** One second of an interval the handle no longer holds. It runs the same
      updater as `Tick`, but nothing ever clears it: it counts whether or not
      anything is recording, and from the limit on it stops whatever recording
      is open and pins the clock at the limit, every second. */
  function OrphanTick(st: Recorder): (r: Recorder)
    ensures st.orphans == 0 ==> r == st
    ensures st.orphans > 0 && st.time + 1 < MaxRecordingTime ==> r == st.(time := st.time + 1)
    ensures st.orphans > 0 && st.time + 1 >= MaxRecordingTime ==> r == Stop(st).(time := MaxRecordingTime)
    ensures st.orphans > 0 ==> r.time == st.time + 1 || r.time == MaxRecordingTime
    ensures r.orphans == st.orphans && r.pending == st.pending
  {
    if st.orphans == 0 then st
    else if st.time >= MaxRecordingTime - 1 then Stop(st).(time := MaxRecordingTime)
    else st.(time := st.time + 1)
  }

  /** The recorder's `onstop` handler: the recorded audio becomes the blob, in the
      recorder's format, with its URL. A playback waveform is made only when the
      playback container is mounted at that moment and the URL is non-empty;
      otherwise the waveform reference keeps what it held. */
  function OnStopped(st: Recorder, url: string, containerMounted: bool): (r: Recorder)
    ensures r.blob == Some(Blob(st.mimeType)) && r.audioUrl == Some(url)
    ensures containerMounted && url != "" ==> r.waveform
    ensures !(containerMounted && url != "") ==> r.waveform == st.waveform
    ensures r.(blob := st.blob, audioUrl := st.audioUrl, waveform := st.waveform) == st
  {
    st.(blob := Some(Blob(st.mimeType)), audioUrl := Some(url),
        waveform := st.waveform || (containerMounted && url != ""))
  }

  /** The playback panel, which holds the waveform's container, is rendered only
      when not recording and a blob exists. */
  predicate PlaybackShown(st: Recorder) {
    !st.isRecording && st.blob.Some?
  }

  /** The stop event of a recording that left no blob behind finds the container
      unmounted, so no waveform is made and the playback button does nothing. */
  lemma FirstStopMakesNoWaveform(st: Recorder, url: string)
    requires st.blob.None? && !st.waveform
    ensures var r := OnStopped(st, url, PlaybackShown(st));
            !r.waveform && TogglePlayback(r) == r
  {
  }

  /** The playback button toggles playing only while a waveform exists. */
  function TogglePlayback(st: Recorder): (r: Recorder)
    ensures st.waveform ==> r.isPlaying == !st.isPlaying
    ensures !st.waveform ==> r == st
    ensures r.(isPlaying := st.isPlaying) == st
  {
    if st.waveform then st.(isPlaying := !st.isPlaying) else st
  }

  /** The waveform's `finish` event. */
  function PlaybackFinished(st: Recorder): (r: Recorder)
    ensures !r.isPlaying && r.(isPlaying := st.isPlaying) == st
  {
    st.(isPlaying := false)
  }

  /** `handleDiscard`: stops any recording and forgets the recorded audio. */
  function Discard(st: Recorder): (r: Recorder)
    ensures r.blob.None? && r.time == 0 && !r.isPlaying && r.audioUrl.None? && !r.waveform
    ensures st.media == Some(Recording) || st.media == Some(Paused) ==> !r.isRecording && r.media == Some(Inactive)
    ensures r.media == Stop(st).media && r.mimeType == st.mimeType
    ensures r == Stop(st).(blob := None, time := 0, isPlaying := false, audioUrl := None, waveform := false)
    ensures st.media == Some(Recording) || st.media == Some(Paused) ==> !r.ticking && !r.isPaused
  {
    Stop(st).(blob := None, time := 0, isPlaying := false, audioUrl := None, waveform := false)
  }

  /** What the chat receives for a sent voice note. */
  datatype VoiceNote = VoiceNote(mediaUrl: string, duration: nat, msgType: string)

  datatype SendResult = SendResult(state: Recorder, note: Option<VoiceNote>)

  /** `handleSendVoiceNote`: without a recording nothing happens; otherwise the upload's
      URL (absent when the upload failed) is sent with the recorded duration and the
      recorder is discarded. */
  function Send(st: Recorder, uploaded: Option<string>): (r: SendResult)
    ensures st.blob.None? || uploaded.None? ==> r == SendResult(st, None)
    ensures st.blob.Some? && uploaded.Some? ==>
              && r.note == Some(VoiceNote(uploaded.value, st.time, "AUDIO"))
              && r.state == Discard(st)
              && r.state.blob.None? && r.state.time == 0
  {
    if st.blob.None? then SendResult(st, None)
    else match uploaded
      case None => SendResult(st, None)
      case Some(url) => SendResult(Discard(st), Some(VoiceNote(url, st.time, "AUDIO")))
  }

  // ================================================================ runs of events

  datatype Event =
    | StartClicked
    | MicAnswered(micGranted: bool, supported: set<string>)
    | Second
    | OrphanSecond
    | PauseClicked
    | StopClicked
    | RecorderStopped(url: string, containerMounted: bool)
    | PlaybackClicked
    | PlaybackEnded
    | DiscardClicked
    | SendClicked(uploaded: Option<string>)

  function Step(st: Recorder, e: Event): Recorder {
    match e
    case StartClicked => ClickStart(st)
    case MicAnswered(mic, supported) => Start(st, mic, supported)
    case Second => Tick(st)
    case OrphanSecond => OrphanTick(st)
    case PauseClicked => TogglePause(st)
    case StopClicked => Stop(st)
    case RecorderStopped(url, mounted) => OnStopped(st, url, mounted)
    case PlaybackClicked => TogglePlayback(st)
    case PlaybackEnded => PlaybackFinished(st)
    case DiscardClicked => Discard(st)
    case SendClicked(uploaded) => Send(st, uploaded).state
  }

  function Run(st: Recorder, es: seq<Event>): Recorder
    decreases |es|
  {
    if |es| == 0 then st else Run(Step(st, es[0]), es[1..])
  }

  /** The recording flag agrees with the recorder object, the interval the handle
      holds runs exactly while recording, and the clock stays within the limit
      (below it while a recording is open). */
  predicate Consistent(st: Recorder) {
    && st.time <= MaxRecordingTime
    && (st.isRecording <==> st.media == Some(Recording) || st.media == Some(Paused))
    && (st.ticking <==> st.media == Some(Recording))
    && (st.isRecording ==> st.time < MaxRecordingTime)
  }

  lemma StepKeepsConsistent(st: Recorder, e: Event)
    requires Consistent(st)
    ensures Consistent(Step(st, e))
  {
  }

  /** Whatever the user and the browser do, the recorder stays consistent; in
      particular `recordingTime` never exceeds `MaxRecordingTime`. */
  lemma {:induction false} RunKeepsConsistent(st: Recorder, es: seq<Event>)
    requires Consistent(st)
    ensures Consistent(Run(st, es))
    ensures Run(st, es).time <= MaxRecordingTime
    decreases |es|
  {
    if |es| > 0 {
      StepKeepsConsistent(st, es[0]);
      RunKeepsConsistent(Step(st, es[0]), es[1..]);
    }
  }

  /** The state the component intends: consistent, the pause flag agrees with
      the recorder, no interval runs beyond the one the handle holds, and at most
      one start waits, only while nothing is recording. */
  predicate Orderly(st: Recorder) {
    && Consistent(st)
    && (st.isPaused <==> st.media == Some(Paused))
    && st.orphans == 0
    && st.pending <= 1
    && (st.pending == 1 ==> !st.isRecording)
  }

  /** A click on start while another start still waits for the microphone. */
  predicate SecondStart(st: Recorder, e: Event) {
    e.StartClicked? && st.pending > 0
  }

  /** Every event but a second start click keeps the recorder orderly. */
  lemma StepKeepsOrderly(st: Recorder, e: Event)
    requires Orderly(st) && !SecondStart(st, e)
    ensures Orderly(Step(st, e))
  {
  }

  /** No start is clicked while another one waits. */
  predicate OneStartAtATime(st: Recorder, es: seq<Event>)
    decreases |es|
  {
    |es| == 0 || (!SecondStart(st, es[0]) && OneStartAtATime(Step(st, es[0]), es[1..]))
  }

  /** As long as start is clicked only when no start waits, the one interval runs
      exactly while recording and the pause flag matches the recorder. */
  lemma {:induction false} RunKeepsOrderly(st: Recorder, es: seq<Event>)
    requires Orderly(st) && OneStartAtATime(st, es)
    ensures Orderly(Run(st, es))
    decreases |es|
  {
    if |es| > 0 {
      StepKeepsOrderly(st, es[0]);
      RunKeepsOrderly(Step(st, es[0]), es[1..]);
    }
  }

  const Formats: set<string> := {Mp4}

  /** Two clicks before the microphone answers start two recorders and two
      intervals. The first interval is lost to the handle: pausing clears only
      the second, and the clock keeps counting while paused. */
  lemma DoubleStartOrphansInterval()
    ensures var es := [StartClicked, StartClicked, MicAnswered(true, Formats), MicAnswered(true, Formats),
                       PauseClicked, OrphanSecond];
            var r := Run(Initial, es);
            && r.media == Some(Paused) && r.isPaused && !r.ticking
            && r.orphans == 1 && r.time == 1
            && !Orderly(r)
  {
    var s1 := ClickStart(Initial);
    var s2 := ClickStart(s1);
    var s3 := Start(s2, true, Formats);
    var s4 := Start(s3, true, Formats);
    var s5 := TogglePause(s4);
    var s6 := OrphanTick(s5);
    assert s4.orphans == 1 && s4.media == Some(Recording);
    assert s6.time == 1;
    var es := [StartClicked, StartClicked, MicAnswered(true, Formats), MicAnswered(true, Formats),
               PauseClicked, OrphanSecond];
    assert Run(s6, []) == s6;
    assert Run(s5, es[5..]) == s6 by { assert es[5..] == [OrphanSecond] && es[6..] == []; }
    assert Run(s4, es[4..]) == s6 by { assert es[4..][1..] == es[5..]; }
    assert Run(s3, es[3..]) == s6 by { assert es[3..][1..] == es[4..]; }
    assert Run(s2, es[2..]) == s6 by { assert es[2..][1..] == es[3..]; }
    assert Run(s1, es[1..]) == s6 by { assert es[1..][1..] == es[2..]; }
  }

  /** When the microphone answers the second click after the first recording was
      paused, the new recorder records while the pause flag stays set, so the
      button offers "Resume" during a recording. */
  lemma LateStartKeepsPauseFlag(st: Recorder)
    requires Orderly(st) && st.media == Some(Recording) && st.pending == 0
    ensures var r := Start(TogglePause(st).(pending := 1), true, Formats);
            r.media == Some(Recording) && r.isRecording && r.isPaused && !Orderly(r)
  {
  }

  /** With an orphaned interval both intervals advance the clock, so a recording
      reaches the limit in half the time. */
  lemma OrphanDoublesClock(st: Recorder)
    requires Consistent(st) && st.ticking && st.orphans > 0 && st.time + 2 < MaxRecordingTime
    ensures OrphanTick(Tick(st)).time == st.time + 2
    ensures OrphanTick(Tick(st)).isRecording
  {
  }

  lemma RecordingTimeBounded(es: seq<Event>)
    ensures Run(Initial, es).time <= MaxRecordingTime
  {
    RunKeepsConsistent(Initial, es);
  }

  function Ticks(st: Recorder, n: nat): Recorder
    decreases n
  {
    if n == 0 then st else Ticks(Tick(st), n - 1)
  }

  /** A running recording left alone stops by itself once the clock reaches the
      limit, with the clock showing exactly the limit. */
  lemma {:induction false} RecordingStopsAtLimit(st: Recorder)
    requires Consistent(st) && st.ticking
    ensures var r := Ticks(st, MaxRecordingTime - st.time);
            !r.isRecording && !r.ticking && r.time == MaxRecordingTime
    decreases MaxRecordingTime - st.time
  {
    var next := Tick(st);
    if st.time + 1 < MaxRecordingTime {
      assert Consistent(next) && next.ticking;
      RecordingStopsAtLimit(next);
      assert MaxRecordingTime - st.time == (MaxRecordingTime - next.time) + 1;
    } else {
      assert Ticks(next, 0) == next;
    }
  }
}
