# React chat app — a Dafny model of its client-side rules

This project models the deterministic rules of the chat client's React components as pure
Dafny functions. It proves properties about them. Each component's event handlers and state
updates become functions from the old state and the event's inputs to the new state:

- **Contact list** (`src/components/List/ChatList.jsx`):
  - building rows from the loaded chatrooms, including the unread flag and the sort by recency;
  - the chat-list update reducer, covering the type-aware preview, the unread counter rule and
    move-to-top;
  - the unread reset when a room becomes active;
  - the add-contact decision;
  - the search listing and the unread badge.
- **Voice recorder** (`src/components/VoiceRecorder.jsx`):
  - a state machine over the recorder object (none, inactive, recording, paused);
  - the start click and the microphone's answer, pause/resume, stop, and the once-per-second
    tick pinned at 60 seconds, including intervals the handle has lost;
  - the recorder's stop event, playback, discard and send;
  - the MIME preference, the file-extension mapping and the `m:ss` label.
- **Voice-note player** (`src/components/voice-note-player.jsx`): its flags, the audio element's
  events, the play/pause toggle guarded by loading and error, and its time label.
- **Detail panel** (`src/components/Detail.jsx`): the expanded-section toggle and the name,
  initials and description fallbacks of `getUserDisplayInfo`.
- **Image uploader** (`src/components/media-upload.jsx`):
  - the file check (an `image/` type, at most 4 MiB, type checked first);
  - the form state through upload, error, send and cancel;
  - the posted image message with its normalised caption.

Modules:

- `Options` (options.dfy) holds the `Option` type for values that may be `null` or `undefined`.
- `Strings` (strings.dfy) holds the JavaScript string behaviour the components rely on:
  - truthiness of optional strings, where an empty string is falsy;
  - `a || b`;
  - `trim()` over the JavaScript whitespace set;
  - `startsWith` and `includes`;
  - decimal rendering and `padStart`.
- `Clock` (clock.dfy) holds the `m:ss` label shared by the recorder and the player, together with
  a reader for it.
- `ChatList`, `VoiceRecorder`, `VoicePlayer`, `Detail` and `MediaUpload` follow the components.

Modelling conventions:

- Values that may be `null`/`undefined` are `Option`s.
- Timestamps are integers (milliseconds).
- The locale clock text of a row is the symbolic `ClockOf(instant)`.
- The local user id, the active room and "now" are parameters. `ChatList` takes its
  `activeChatRoomId` and `setActiveChatRoomId` props as a parent that passes them would.
- Results of network calls arrive as arguments: the created room, the uploaded URL, and whether
  a post succeeded.
- Timers are explicit events (`Second`, `OrphanSecond`, `DeferredPlay`).

Behaviour of the code worth knowing when reading the model:

- The client has no realtime message logic of its own. `src/context/SocketContext.jsx` only
  publishes the socket object, and `src/components/Chat.jsx` shows fixed sample messages. The
  list reads a `chatListUpdate` from that context (`ChatList.jsx:22`); the reducer is modelled
  as it runs on such an update.
- Only the update reducer gives image and audio messages an icon label
  (`ChatList.jsx:166-171`). Rows built on load show the last message's raw content
  (`ChatList.jsx:54`), and `ChatList.FormatRoom` keeps that.
- An inbound message raises a room's counter only when its sender is someone else and the
  local user is not among its readers (`ChatList.jsx:178-183`).
- The update effect depends on the open room, the `activeChatRoomId` prop
  (`ChatList.jsx:15`), as well as on the update (`ChatList.jsx:206`). Any change of that prop,
  to another room or to none, therefore runs the latest update again, after it already ran
  once on arrival. `ChatList.OpenRoom` models this.
  - `ChatList.SwitchingRoomsRecountsLatest` shows that the counter of an inbound message's
    room rises twice.
  - `ChatList.LeavingRoomRecountsLatest` shows that a message which arrived in the open room
    counts as unread once the prop no longer names that room.
- The play that a click on an inactive voice note schedules 100 ms later
  (`voice-note-player.jsx:55`) is the click's own `handlePlay`. It acts on the `isPlaying`
  the click saw, not on the value when it fires. `VoicePlayer.DeferredHandlePlay` models
  this, and `VoicePlayer.DoubleClickBeforeActivationPlays` shows two quick clicks both
  starting playback.
- `handleAddUser` looks for an existing row when clicked (`ChatList.jsx:107`) but adds the new
  row only after the server has answered (`ChatList.jsx:136`). Two overlapping adds of the same
  user both add a row: `ChatList.OverlappingAddsRepeatPartner`.
- The record button stays on screen while `startRecording` waits for the microphone
  (`VoiceRecorder.jsx:114`, `VoiceRecorder.jsx:516`). A second click starts a second recorder
  and a second interval (`VoiceRecorder.jsx:164`), and the interval handle keeps only the
  last one. `VoiceRecorder.ClickStart` and `VoiceRecorder.Start` model the click and the
  answer separately, and `VoiceRecorder.OrphanTick` is a second of an interval the handle lost.
  - `VoiceRecorder.DoubleStartOrphansInterval` shows the clock counting while paused.
  - `VoiceRecorder.OrphanDoublesClock` shows a recording's clock advancing two per second.
  - `VoiceRecorder.LateStartKeepsPauseFlag` shows a recording under a "Resume" button.
  - `VoiceRecorder.RunKeepsOrderly` shows that one start at a time avoids all of this.
- Send in the image uploader stays enabled while the post is out (`media-upload.jsx:79-102`,
  `media-upload.jsx:179-194`). A second Send before the answer posts the same image again:
  `MediaUpload.OverlappingSendsPostTwice`.

## Model

| member | source | states |
|---|---|---|
| ChatList.OtherMember | src/components/List/ChatList.jsx:39 | the result is absent exactly when every member is the local user; otherwise it is the first member who is not |
| ChatList.FormatRoom | src/components/List/ChatList.jsx:38-67 | a loaded room's row keeps the room id and `updatedAt`; unread is 1 iff a last message exists, was not sent by the local user and does not list them as reader, else 0; the preview is the last message's raw content (no icon label), else "No messages yet"; the type is the message's type, else "TEXT"; the time is the clock of the message's creation, else "New chat"; with another participant the name is "first last" and the avatar a non-empty avatar or none, without one the name is "Unknown User" and there is no avatar or partner |
| ChatList.InsertByRecency | src/components/List/ChatList.jsx:70-72 | inserting a row into a newest-first list keeps it newest-first, adds exactly that row (multiset) and grows the length by one |
| ChatList.SortByRecency | src/components/List/ChatList.jsx:70-72 | the sorted list is ordered by `updatedAt`, non-increasing, and is a permutation of the input |
| ChatList.SortIsStable | src/components/List/ChatList.jsx:70-72 | rows with the same `updatedAt` keep their original relative order, as the stable `Array.prototype.sort` does |
| ChatList.LoadContacts | src/components/List/ChatList.jsx:38-72 | one row per loaded room, newest first, and as a multiset exactly the rows `FormatRoom` builds |
| ChatList.LoadedRowsComeFromRooms | src/components/List/ChatList.jsx:38-72 | every loaded row is the row of some loaded room, and no loaded row has more than one unread |
| ChatList.PreviewText | src/components/List/ChatList.jsx:166-171 | an IMAGE update previews as "📷 Image" and an AUDIO one as "🎤 Audio message"; otherwise the preview is the message's non-empty content, else the previous preview |
| ChatList.NextUnread | src/components/List/ChatList.jsx:174-183 | the active room's counter becomes 0; otherwise it rises by exactly one iff the sender is not the local user and the local user is not among the readers, and is unchanged in every other case |
| ChatList.UpdatedRow | src/components/List/ChatList.jsx:185-197 | the updated row keeps id, name, avatar and partner; its type is the message's type when present, else the old one; with a creation time, `updatedAt` is that time and the clock shows it; without one, `updatedAt` is "now" and the old time label stays |
| ChatList.FindRoom | src/components/List/ChatList.jsx:160 | the index found is that of the first row with the id, and none is found exactly when no row has it |
| ChatList.ApplyUpdate | src/components/List/ChatList.jsx:159-205 | an update for a room without a row returns the list unchanged; otherwise the length and the multiset of ids are preserved, the updated row is at index 0 and the remaining rows are the old ones in their old order without the room's row |
| ChatList.ApplyUpdateKeepsDistinct | src/components/List/ChatList.jsx:199-204 | an update never gives a room a second row |
| ChatList.InboundMessagesCount | src/components/List/ChatList.jsx:174-204 | n unread inbound messages for a room that is not open leave that room on top with exactly n more unread |
| ChatList.ResetUnread | src/components/List/ChatList.jsx:209-217 | opening a room zeroes the unread of exactly the rows with its id; every other row, the order and the length are unchanged; with no active room nothing changes |
| ChatList.ResetUnreadIdempotent | src/components/List/ChatList.jsx:209-217 | opening the same room twice is the same as opening it once |
| ChatList.OpenedRoomHasNoUnread | src/components/List/ChatList.jsx:209-217 | after a room is opened, its row shows no unread messages |
| ChatList.UpdateCommutesWithReset | src/components/List/ChatList.jsx:174-177 | while a room is open, its update and the unread reset give the same list in either order |
| ChatList.Receive | src/components/List/ChatList.jsx:154-206 | a new update runs the reducer with the open room and becomes the latest update |
| ChatList.OpenRoom | src/components/List/ChatList.jsx:148-217 | setting the open room it already has changes nothing; changing it, to a room or to none, runs the latest update again with the new open room and then the unread reset, so an opened room ends with no unread; with no room open no reset happens; the length is kept |
| ChatList.SwitchingRoomsRecountsLatest | src/components/List/ChatList.jsx:174-206 | an inbound message for a room other than the old and new open room raises its counter by one on arrival and by one more when the open room changes (also to none), putting the row on top both times |
| ChatList.LeavingRoomRecountsLatest | src/components/List/ChatList.jsx:174-210 | a message that arrived while its room was open leaves the counter at 0; going back to the list with no room open raises it to 1 |
| ChatList.FindPartner | src/components/List/ChatList.jsx:107 | the row found is the first whose partner is the selected user, and none is found exactly when there is no such row |
| ChatList.DecideAdd | src/components/List/ChatList.jsx:107-114 | the add asks the server for a room exactly when the list it sees has no row for the user; otherwise it opens the first such row |
| ChatList.CommitAdd | src/components/List/ChatList.jsx:116-142 | once the server answers, the new row for the created room goes in front of the list as it is then, the user is recorded as added and the search is cleared; a failed request changes nothing |
| ChatList.AddUser | src/components/List/ChatList.jsx:105-145 | a user who already has a row adds nothing and opens that row; otherwise a created room adds exactly one row on top, with unread 0 and the selected user as partner, records the user as added and clears the search; a failed creation changes nothing |
| ChatList.AddUserKeepsPartnersDistinct | src/components/List/ChatList.jsx:107-136 | an add that completes before the next one starts never gives a partner a second row |
| ChatList.OverlappingAddsRepeatPartner | src/components/List/ChatList.jsx:107-136 | two overlapping adds of a user without a row both decide to create a room, and the list ends with two rows for that partner |
| ChatList.OtherUsers | src/components/List/ChatList.jsx:289-290 | the filter keeps exactly the results whose id is not the local user's; a single result is kept or dropped on its own |
| ChatList.OtherUsersAppend | src/components/List/ChatList.jsx:289-290 | filtering joined result lists is joining the filtered lists, so the filter keeps result order and repeats |
| ChatList.SearchRows | src/components/List/ChatList.jsx:289-294 | the listing has one row per filtered result, in the filter's order, so it holds exactly the results other than the local user; each row is marked as added iff the user has a row or was added in this session |
| ChatList.AddedUserIsMarked | src/components/List/ChatList.jsx:136-139 | once a user has been added, the search listing marks them as added |
| ChatList.Badge | src/components/List/ChatList.jsx:388-395 | no badge at zero unread, "99+" exactly above 99, otherwise the count's shortest decimal numeral (`toString`), with no leading zero |
| Clock.Format | src/components/VoiceRecorder.jsx:330-334 | the label is minutes, a colon and two second digits; the seconds part is below 60; minutes·60 + seconds equals the input; there is no leading zero on the minutes |
| Clock.TwoDigitsIsPadded | src/components/VoiceRecorder.jsx:333 | the two second digits of the label are the seconds' numeral padded on the left with "0" to width 2 |
| Clock.ParseFormat | src/components/VoiceRecorder.jsx:330-334 | every label reads back as the number of seconds it was made from |
| Clock.FormatInjective | src/components/VoiceRecorder.jsx:330-334 | different durations get different labels |
| VoiceRecorder.PreferredMime | src/components/VoiceRecorder.jsx:127-132 | "audio/mp4" when supported, else "audio/mpeg" when supported, else "audio/webm;codecs=opus"; the choice is always supported or the webm fallback |
| VoiceRecorder.Extension | src/components/VoiceRecorder.jsx:256-260 | a blob type containing "mp4" uploads as m4a, checked first; else one containing "mpeg" as mp3; else webm |
| VoiceRecorder.ExtensionMatchesFormat | src/components/VoiceRecorder.jsx:127-132 | the recorded format always uploads with its own extension: mp4 as m4a, mpeg as mp3, webm/opus as webm |
| VoiceRecorder.ClickStart | src/components/VoiceRecorder.jsx:516-518 | a click on the start button, shown only while idle, leaves one more start waiting for the microphone (`startRecording` awaits it at line 114); otherwise nothing changes |
| VoiceRecorder.Start | src/components/VoiceRecorder.jsx:112-176 | when a waiting start gets microphone access and a supported type, whatever the recorder is doing by then, it gives a recording recorder in the preferred format with the clock at zero and a new interval, and changes nothing else; the pause flag is not reset, and an interval the handle held while running becomes an orphan; without access, or when not even the webm fallback is supported (the constructor throws and the catch only alerts), only the waiting start is used up |
| VoiceRecorder.OrphanTick | src/components/VoiceRecorder.jsx:164-171 | an interval the handle lost still advances the clock by one below 59, and from 59 pins it at 60 and stops any open recording as `stopRecording` does, whether or not anything is recording; it is never cleared |
| VoiceRecorder.Stop | src/components/VoiceRecorder.jsx:204-215 | only a recording or paused recorder stops, clearing isRecording and isPaused and the interval; any other state is unchanged |
| VoiceRecorder.TogglePause | src/components/VoiceRecorder.jsx:180-201 | swaps recording and paused, stopping or restarting the interval and changing nothing else; no recorder or an inactive one is a no-op |
| VoiceRecorder.Tick | src/components/VoiceRecorder.jsx:164-171 | below 59 a tick advances the clock by one and changes nothing else; from 59 or more it pins the clock at 60, stops the interval and stops the recording as `stopRecording` does |
| VoiceRecorder.OnStopped | src/components/VoiceRecorder.jsx:145-158 | the recorder's stop event produces a blob in the recorder's format and its URL; a waveform is made only when the playback container is mounted and the URL is non-empty (line 219), otherwise the waveform stays as it was; nothing else changes |
| VoiceRecorder.FirstStopMakesNoWaveform | src/components/VoiceRecorder.jsx:218-237 | with the container mounted only while the playback panel shows (lines 427-437), the stop event of a recording without a blob makes no waveform, and the playback button then does nothing |
| VoiceRecorder.TogglePlayback | src/components/VoiceRecorder.jsx:241-246 | playing flips only when a waveform exists; nothing else changes |
| VoiceRecorder.PlaybackFinished | src/components/VoiceRecorder.jsx:235-237 | the end of playback clears `isPlaying` and nothing else |
| VoiceRecorder.Discard | src/components/VoiceRecorder.jsx:316-327 | the blob, URL and waveform are dropped, the clock returns to 0 and playing stops; a recording in progress is stopped as `stopRecording` does, clearing the interval and the pause; nothing else changes |
| VoiceRecorder.Send | src/components/VoiceRecorder.jsx:295-313 | without a recording, or when the upload fails, nothing is sent and nothing changes; otherwise the uploaded URL is sent as AUDIO with the recorded duration and the recorder ends exactly as `Discard` leaves it |
| VoiceRecorder.StepKeepsConsistent | src/components/VoiceRecorder.jsx:112-215 | every event, double starts and orphaned intervals included, keeps `isRecording` in agreement with the recorder, keeps the interval the handle holds running exactly while recording, and keeps the clock within the limit |
| VoiceRecorder.RunKeepsConsistent | src/components/VoiceRecorder.jsx:164-198 | any sequence of events keeps the recorder consistent, so `recordingTime` never exceeds 60 |
| VoiceRecorder.StepKeepsOrderly | src/components/VoiceRecorder.jsx:112-215 | every event except a start click while another start waits keeps the pause flag in agreement with the recorder, leaves no orphaned interval and at most one start waiting, only while not recording |
| VoiceRecorder.RunKeepsOrderly | src/components/VoiceRecorder.jsx:112-215 | in a run where start is never clicked while another start waits, only one interval ever runs, exactly while recording, and the pause flag matches the recorder |
| VoiceRecorder.DoubleStartOrphansInterval | src/components/VoiceRecorder.jsx:112-186 | two clicks before the microphone answers, then pause: the recorder is paused with the interval cleared, yet an orphaned interval advances the clock |
| VoiceRecorder.LateStartKeepsPauseFlag | src/components/VoiceRecorder.jsx:161-186 | a waiting start answered after the first recording was paused records while `isPaused` stays set, so the button shows "Resume" (line 401) |
| VoiceRecorder.OrphanDoublesClock | src/components/VoiceRecorder.jsx:164-171 | with an orphaned interval, one second of each interval advances a recording's clock by two |
| VoiceRecorder.RecordingTimeBounded | src/components/VoiceRecorder.jsx:31 | from the initial state, the clock never exceeds `MAX_RECORDING_TIME` |
| VoiceRecorder.RecordingStopsAtLimit | src/components/VoiceRecorder.jsx:164-171 | a running recording left alone stops by itself with the clock showing exactly 60 |
| VoicePlayer.Mount | src/components/voice-note-player.jsx:12-21 | a new player is loading and not playing, shows no error and time 0, takes the message's duration or 0, and has audio only for a non-empty URL |
| VoicePlayer.HandlePlay | src/components/voice-note-player.jsx:62-73 | without audio nothing happens; otherwise playing flips exactly once, asking the element to pause if it was playing and to play if not |
| VoicePlayer.TogglePlayPause | src/components/voice-note-player.jsx:49-60 | a no-op while loading or after an error; an inactive note that can be activated asks for activation and schedules a play carrying the `isPlaying` seen at the click; otherwise the toggle is `HandlePlay` |
| VoicePlayer.DeferredHandlePlay | src/components/voice-note-player.jsx:55-73 | the scheduled play sets playing to the negation of the flag the click saw, and asks the element to pause exactly when that flag was set and to play otherwise; without audio nothing happens |
| VoicePlayer.DoubleClickBeforeActivationPlays | src/components/voice-note-player.jsx:49-73 | two clicks on a stopped inactive note before the first scheduled play fires both ask the element to play, and the note ends up playing |
| VoicePlayer.OnLoadedMetadata | src/components/voice-note-player.jsx:27-30 | loading ends and the element's duration is taken; nothing else changes |
| VoicePlayer.OnTimeUpdate | src/components/voice-note-player.jsx:32-34 | only the current time changes |
| VoicePlayer.OnEnded | src/components/voice-note-player.jsx:36-39 | the end of playback stops playing and rewinds to 0; nothing else changes |
| VoicePlayer.OnError | src/components/voice-note-player.jsx:41-44 | an error sets the error flag and ends loading; nothing else changes |
| VoicePlayer.FormatTime | src/components/voice-note-player.jsx:75-80 | a missing or zero time reads "0:00"; any other reads back as the same number of seconds |
| VoicePlayer.FormatTimeAgreesWithRecorder | src/components/voice-note-player.jsx:75-80 | the player's label and the recorder's label agree on every duration |
| VoicePlayer.ErrorIsFinal | src/components/voice-note-player.jsx:41-51 | after an error, whatever events follow, the error stays and every toggle is a no-op |
| Detail.Without | src/components/Detail.jsx:38 | the filter keeps exactly the other sections, keeps a list without the section unchanged and keeps it duplicate-free |
| Detail.ToggleSection | src/components/Detail.jsx:37-39 | the section is in the result iff it was not in the input; every other section's membership is unchanged; a duplicate-free list stays duplicate-free; an unlisted section is appended |
| Detail.ToggleTwiceRestoresMembership | src/components/Detail.jsx:37-39 | toggling the same section twice restores which sections are expanded |
| Detail.OpenThenCloseIsIdentity | src/components/Detail.jsx:37-39 | opening and then closing a section gives back exactly the original list |
| Detail.DisplayName | src/components/Detail.jsx:61-65 | the name is the trimmed "first last", or "Unknown User" when that is empty; it never starts or ends with whitespace |
| Detail.NameFallsBackIffBlank | src/components/Detail.jsx:61-65 | the name falls back to "Unknown User" exactly when both name parts are blank |
| Detail.Initials | src/components/Detail.jsx:67 | the visible first characters of the first and last name, in that order; a name starting with white space or empty contributes nothing; "U" when neither contributes |
| Detail.UserDisplayInfo | src/components/Detail.jsx:51-77 | while loading, the fixed loading triple; with no other user, "Unknown User"/"U"; otherwise the name and initials above and the email, else the username, else the fixed text as description |
| Detail.DisplayInfoNeverBlank | src/components/Detail.jsx:51-77 | the panel always shows a non-empty name, one to three initials and a non-empty description |
| Strings.Trim | src/components/Detail.jsx:63 | `trim()` keeps the input from its first visible character (everything before it is whitespace, by `LeadingSpace`), everything cut off at the end is whitespace, and the result neither starts nor ends with whitespace |
| Strings.TrimUnique | src/components/Detail.jsx:63 | white space, then a part with visible ends (or nothing), then white space trims to exactly that part, so the contract of `Trim` determines it |
| Strings.TrimIdempotent | src/components/Detail.jsx:63 | trimming twice is trimming once |
| Strings.TrimEmptyIff | src/components/media-upload.jsx:87 | a string trims to empty exactly when it is all whitespace |
| MediaUpload.Validate | src/components/media-upload.jsx:47-59 | no file is ignored; a non-image type is rejected with the type message whatever its size; an image over 4·1024·1024 bytes is rejected with the size message; every other image, including exactly 4 MiB, is accepted |
| MediaUpload.SelectFile | src/components/media-upload.jsx:47-76 | only an accepted file starts an upload; a rejected or missing one changes nothing |
| MediaUpload.OnPreviewLoaded | src/components/media-upload.jsx:62-65 | the file reader's data URL becomes the preview and nothing else changes |
| MediaUpload.OnUploadProgress | src/components/media-upload.jsx:42-44 | a progress report sets the progress and nothing else |
| MediaUpload.EditCaption | src/components/media-upload.jsx:176 | typing sets the caption and nothing else |
| MediaUpload.OnUploadComplete | src/components/media-upload.jsx:28-34 | a non-empty answer keeps its first URL and ends uploading; an empty answer changes nothing |
| MediaUpload.OnUploadError | src/components/media-upload.jsx:35-41 | an upload error ends uploading and clears progress and preview, keeping the uploaded URL and caption |
| MediaUpload.OnStartFailed | src/components/media-upload.jsx:72-75 | a failure to start the upload clears only the preview |
| MediaUpload.SentCaption | src/components/media-upload.jsx:87 | the caption sent is absent exactly when the typed caption is blank; otherwise it is the trimmed caption, non-empty and without surrounding whitespace |
| MediaUpload.DecideSend | src/components/media-upload.jsx:78-93 | a Send click posts nothing exactly when the uploaded URL, the room or the user is missing; otherwise the post carries the room, the URL, the sender and the normalised caption as the form holds them at the click |
| MediaUpload.FinishSend | src/components/media-upload.jsx:94-106 | a successful answer clears preview, URL, caption and progress of the form as it is by then; a failed one changes nothing |
| MediaUpload.SendImage | src/components/media-upload.jsx:78-107 | a send answered before anything else happens: without an uploaded URL, a room or a user nothing is posted and nothing changes; otherwise the post carries the room, URL, sender and normalised caption, and the form is cleared only when the post succeeded |
| MediaUpload.Cancel | src/components/media-upload.jsx:109-115 | cancel clears preview, uploaded URL, caption and progress, and leaves `uploading` as it was |
| MediaUpload.CancelMatchesSentForm | src/components/media-upload.jsx:98-114 | cancelling leaves the form exactly as a successful send does |
| MediaUpload.NoSecondSend | src/components/media-upload.jsx:79-102 | after a send whose successful answer came back, the same image cannot be posted again |
| MediaUpload.OverlappingSendsPostTwice | src/components/media-upload.jsx:78-102 | two Send clicks before the first answer both post the same image, and the two answers leave the form cleared |
| MediaUpload.SequentialSendsPostOnce | src/components/media-upload.jsx:78-102 | a click, its successful answer, then another click post the image once |
| MediaUpload.UploadedUrlComesFromService | src/components/media-upload.jsx:28-34 | along any run, a URL the form holds is one an upload completion reported |
| MediaUpload.FreshRunUrlComesFromService | src/components/media-upload.jsx:9-34 | from a fresh uploader, any URL the form holds was reported by an upload completion in that run |

## Left out

- The realtime protocol (optimistic sends, fallback timers, typing presence, read-receipt
  merging): the code contains none of it.
- The socket lifecycle and context wiring (`SocketContext.jsx`, `socket.js`): this is transport.
  The reducer takes the update as an explicit argument.
- Authentication and HTTP (`AuthContext.jsx`, `AuthForm.jsx`, `useAxios.jsx`,
  `axios.config.js`, `uploadthing.js`): these are network calls. Their outcomes enter the model
  as arguments: the created room, the uploaded URL, whether a post succeeded, and microphone
  access.
- `toLocaleTimeString` formatting and ISO date parsing: locale- and platform-dependent.
  Times are integers, and a row's clock text is the symbolic `ClockOf(instant)`.
- Waveform drawing, audio analysis, upload progress percentages and rounding, and
  `VoiceNoteBubble.jsx`: floating point and rendering.
- `setInterval`/`setTimeout`: modelled as explicit events (`Second`, `OrphanSecond`,
  `DeferredPlay`). The 100 ms delay before a deferred play is not modelled.
- JSX markup, animations and layout components (`App.jsx`, `Home.jsx`, `List.jsx`,
  `UserInfo.jsx`, `Chat.jsx`).
- The search request itself (`getUserBySearch`): network I/O. Only the listing of its results is
  modelled (`ChatList.SearchRows`).
- The file reader that makes the preview: `MediaUpload.OnPreviewLoaded` takes its data URL as
  an argument.
- ChatList.FormatRoom: an absent first or last name is taken to be `undefined` and reads
  "undefined", as the template string prints it. A name part that is JSON `null` reads "null"
  in the component; `Option` does not tell the two apart.
- ChatList.InboundMessagesCount: counts updates as the reducer applies them. The component also
  runs the latest update again whenever the open room changes, so after room switches a
  counter can exceed the number of messages (`ChatList.SwitchingRoomsRecountsLatest`).
- ChatList.AddUserKeepsPartnersDistinct: holds for adds that do not overlap. Nothing disables
  the button while a request is pending, and overlapping adds repeat a partner
  (`ChatList.OverlappingAddsRepeatPartner`).
- Detail.Initials: characters are whole code points. The component's `name?.[0]` takes one
  UTF-16 code unit, so for a name that starts with a character outside the Basic Multilingual
  Plane (an emoji, say) it gives half a surrogate pair where the model gives the whole
  character.
- VoiceRecorder.OnStopped: whether the playback container is mounted when the stop event fires
  is an argument; React's render timing is not modelled. The cleanup of the effect keyed on
  the audio URL (`VoiceRecorder.jsx:34-61`) destroys the playback waveform but keeps its
  reference; that is not modelled either.
- VoicePlayer.FormatTime: the player floors the element's floating-point times, so the model
  takes whole seconds. A `NaN` time is not modelled; it reads "0:00" in the component. An
  infinite duration is not modelled either. It reads "Infinity:NaN" in the component, because
  the minutes are `Infinity` and `Infinity % 60` is `NaN`.
- VoicePlayer.OnLoadedMetadata: takes a whole, finite number of seconds. The element reports
  `Infinity` as the duration of a stream of unknown length; a webm recording made by
  `MediaRecorder` is typically one, and webm is the recorder's fallback format
  (`VoiceRecorder.jsx:127-132`). `Math.floor` keeps it infinite.
- VoiceRecorder.Start: the audio context, analyser and media stream setup are not modelled,
  and a failure to get the microphone only uses up the waiting start (the component only
  alerts). After a second start the first `MediaRecorder` and its stream are no longer
  referenced and go on recording; only the interval it leaves behind is modelled
  (`orphans`).
- MediaUpload.NoSecondSend: holds for sends that do not overlap, where the answer comes back
  before the next click. Nothing disables Send during the post, and overlapping sends post the
  image twice (`MediaUpload.OverlappingSendsPostTwice`).
- ChatList.OpenRoom: the model takes the `activeChatRoomId` prop and its setter as a parent
  would pass them. `List.jsx:18` renders `<ChatList/>` with no props, so in the tree as
  shipped the open room is always `undefined`. Clicking a row then throws at
  `ChatList.jsx:149`.
- ChatList.CommitAdd: assumes the `setActiveChatRoomId` prop is passed. In the tree as
  shipped it is not. Adding a user who already has a row throws at `ChatList.jsx:110`. Adding
  a new user throws at `ChatList.jsx:137`, after the row is prepended, so the catch at
  `ChatList.jsx:143` skips the added mark, the dialog close and the search reset.
- VoiceRecorder.Send: the upload's in-progress flag and progress value are not modelled. Only
  the upload's outcome (a URL or a failure) is modelled.
