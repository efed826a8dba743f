/** The image uploader of src/components/media-upload.jsx: which picked files are
    accepted, the form's state as the upload progresses, the image message a send
    posts, and the resets after a send, a cancel and an upload error. The upload
    service and the HTTP post are outside the model: their outcomes arrive as
    parameters. */
module MediaUpload {
  import opened Options
  import opened Strings

  /** The largest accepted image: 4 MiB. */
  const MaxImageBytes: nat := 4 * 1024 * 1024
  const ImagePrefix: string := "image/"
  const NotAnImage: string := "Please select an image file"
  const TooLarge: string := "Image must be less than 4MB"

  /** A picked file: its MIME type and its size in bytes. */
  datatype File = File(mimeType: string, size: nat)

  /** The uploader's state. `preview` is the data URL of the picked image and
      `uploadedUrl` the address the upload service returned. */
  datatype Form = Form(
    uploading: bool,
    preview: Option<string>,
    progress: nat,
    uploadedUrl: Option<string>,
    caption: string)

  /** The state of a freshly opened uploader. */
  const Fresh: Form := Form(false, None, 0, None, "")

  /** What `handleFileSelect` decides about the picked file. */
  datatype Selection = NoFile | Rejected(alert: string) | Accepted

  predicate IsImage(f: File) {
    StartsWith(f.mimeType, ImagePrefix)
  }

  /** The file check: nothing picked is ignored, the type is checked before the
      size, and a file of exactly 4 MiB still passes. */
  function Validate(file: Option<File>): (r: Selection)
    ensures r == NoFile <==> file.None?
    ensures r == Accepted <==> file.Some? && IsImage(file.value) && file.value.size <= MaxImageBytes
    ensures r == Rejected(NotAnImage) <==> file.Some? && !IsImage(file.value)
    ensures r == Rejected(TooLarge) <==> file.Some? && IsImage(file.value) && file.value.size > MaxImageBytes
  {
    assert NotAnImage[0] != TooLarge[0];
    match file
    case None => NoFile
    case Some(f) =>
      if !IsImage(f) then Rejected(NotAnImage)
      else if f.size > MaxImageBytes then Rejected(TooLarge)
      else Accepted
  }

  /** Picking a file: an accepted one starts uploading; otherwise nothing changes. */
  function SelectFile(st: Form, file: Option<File>): (r: Form)
    ensures Validate(file) == Accepted ==> r == st.(uploading := true)
    ensures Validate(file) != Accepted ==> r == st
  {
    if Validate(file) == Accepted then st.(uploading := true) else st
  }

  /** The file reader finished: the preview shows the picked image. */
  function OnPreviewLoaded(st: Form, dataUrl: string): (r: Form)
    ensures r.preview == Some(dataUrl) && r.(preview := st.preview) == st
  {
    st.(preview := Some(dataUrl))
  }

  /** Starting the upload threw: only the preview is dropped. */
  function OnStartFailed(st: Form): (r: Form)
    ensures r.preview.None? && r.(preview := st.preview) == st
  {
    st.(preview := None)
  }

  /** `onUploadProgress`. */
  function OnUploadProgress(st: Form, percent: nat): (r: Form)
    ensures r.progress == percent && r.(progress := st.progress) == st
  {
    st.(progress := percent)
  }

  /** `onClientUploadComplete`: the first returned file's address is kept and
      uploading ends; an empty answer changes nothing. */
  function OnUploadComplete(st: Form, urls: seq<string>): (r: Form)
    ensures |urls| == 0 ==> r == st
    ensures |urls| > 0 ==> !r.uploading && r.uploadedUrl == Some(urls[0])
    ensures r.preview == st.preview && r.progress == st.progress && r.caption == st.caption
  {
    if |urls| > 0 then st.(uploadedUrl := Some(urls[0]), uploading := false) else st
  }

  /** `onUploadError`: uploading stops, progress and preview are cleared; the
      uploaded address and the caption are kept. */
  function OnUploadError(st: Form): (r: Form)
    ensures !r.uploading && r.progress == 0 && r.preview.None?
    ensures r.uploadedUrl == st.uploadedUrl && r.caption == st.caption
  {
    st.(uploading := false, progress := 0, preview := None)
  }

  /** The caption input changed. */
  function EditCaption(st: Form, text: string): (r: Form)
    ensures r.caption == text && r.(caption := st.caption) == st
  {
    st.(caption := text)
  }

  /** `caption.trim() || null`: the caption sent, or nothing when it is blank. */
  function SentCaption(caption: string): (r: Option<string>)
    ensures r.None? <==> AllWhitespace(caption)
    ensures r.Some? ==> r.value == Trim(caption) && |r.value| > 0
    ensures r.Some? ==> !IsWhitespace(r.value[0]) && !IsWhitespace(r.value[|r.value| - 1])
  {
    TrimEmptyIff(caption);
    var t := Trim(caption);
    if t == "" then None else Some(t)
  }

  /** The image message a send posts. */
  datatype ImageMessage = ImageMessage(
    chatRoomId: string,
    imageUrl: string,
    senderId: string,
    caption: Option<string>)

  /** A send: the message posted, if any, and the form afterwards. */
  datatype SendOutcome = SendOutcome(posted: Option<ImageMessage>, form: Form)

  /** The guard of `handleSendImage`: an uploaded address, a room and a user. */
  predicate CanSend(st: Form, chatRoomId: Option<string>, userId: Option<string>) {
    Truthy(st.uploadedUrl) && Truthy(chatRoomId) && Truthy(userId)
  }

  /** Clears the preview, the uploaded address, the caption and the progress. */
  function Cleared(st: Form): (r: Form)
    ensures r.preview.None? && r.uploadedUrl.None? && r.caption == "" && r.progress == 0
    ensures r.uploading == st.uploading
  {
    st.(preview := None, uploadedUrl := None, caption := "", progress := 0)
  }

  /** A click on Send, or Enter in the caption: `handleSendImage` up to its
      post. Without an uploaded address, a room or a user nothing is posted;
      otherwise the message is built from the form as it is at the click, with
      the normalised caption. Nothing disables Send while the post is out. */
  function DecideSend(st: Form, chatRoomId: Option<string>, userId: Option<string>): (r: Option<ImageMessage>)
    ensures r.None? <==> !CanSend(st, chatRoomId, userId)
    ensures r.Some? ==>
              && r.value.chatRoomId == chatRoomId.value
              && r.value.imageUrl == st.uploadedUrl.value
              && r.value.senderId == userId.value
              && r.value.caption == SentCaption(st.caption)
  {
    if !CanSend(st, chatRoomId, userId) then None
    else Some(ImageMessage(chatRoomId.value, st.uploadedUrl.value, userId.value, SentCaption(st.caption)))
  }

  /** The answer to the post: on success the form as it is by then is cleared;
      a failure only alerts. */
  function FinishSend(st: Form, succeeded: bool): (r: Form)
    ensures succeeded ==> r == Cleared(st)
    ensures !succeeded ==> r == st
  {
    if succeeded then Cleared(st) else st
  }

  /** A send whose answer comes back before anything else happens: without an
      uploaded address, a room or a user nothing is posted and nothing changes;
      otherwise the message with the normalised caption is posted, and the form
      is cleared only when the post succeeded. */
  function SendImage(st: Form, chatRoomId: Option<string>, userId: Option<string>, succeeded: bool): (r: SendOutcome)
    ensures !CanSend(st, chatRoomId, userId) ==> r == SendOutcome(None, st)
    ensures CanSend(st, chatRoomId, userId) ==>
              && r.posted.Some?
              && r.posted.value.chatRoomId == chatRoomId.value
              && r.posted.value.imageUrl == st.uploadedUrl.value
              && r.posted.value.senderId == userId.value
              && r.posted.value.caption == SentCaption(st.caption)
    ensures CanSend(st, chatRoomId, userId) && succeeded ==> r.form == Cleared(st)
    ensures !succeeded ==> r.form == st
  {
    var posted := DecideSend(st, chatRoomId, userId);
    if posted.None? then SendOutcome(None, st)
    else SendOutcome(posted, FinishSend(st, succeeded))
  }

  /** `handleCancel`: the same clearing as after a send; the dialog closes. */
  function Cancel(st: Form): (r: Form)
    ensures r.preview.None? && r.uploadedUrl.None? && r.caption == "" && r.progress == 0
    ensures r.uploading == st.uploading
  {
    Cleared(st)
  }

  /** Cancelling leaves the form exactly as a successful send does. */
  lemma CancelMatchesSentForm(st: Form, chatRoomId: Option<string>, userId: Option<string>)
    requires CanSend(st, chatRoomId, userId)
    ensures Cancel(st) == SendImage(st, chatRoomId, userId, true).form
  {
  }

  /** After a send whose answer came back successfully, the same image cannot be
      posted again. */
  lemma NoSecondSend(st: Form, chatRoomId: Option<string>, userId: Option<string>, succeeded: bool)
    requires CanSend(st, chatRoomId, userId)
    ensures var after := SendImage(st, chatRoomId, userId, true).form;
            SendImage(after, chatRoomId, userId, succeeded) == SendOutcome(None, after)
  {
  }

  // ================================================================ runs of events

  datatype Event =
    | Picked(file: Option<File>)
    | PreviewLoaded(dataUrl: string)
    | StartFailed
    | Progressed(percent: nat)
    | Completed(urls: seq<string>)
    | Errored
    | Typed(text: string)
    | SendClicked(chatRoomId: Option<string>, userId: Option<string>)
    | SendAnswered(succeeded: bool)
    | Cancelled

  function Step(st: Form, e: Event): Form {
    match e
    case Picked(f) => SelectFile(st, f)
    case PreviewLoaded(u) => OnPreviewLoaded(st, u)
    case StartFailed => OnStartFailed(st)
    case Progressed(p) => OnUploadProgress(st, p)
    case Completed(us) => OnUploadComplete(st, us)
    case Errored => OnUploadError(st)
    case Typed(t) => EditCaption(st, t)
    case SendClicked(_, _) => st
    case SendAnswered(ok) => FinishSend(st, ok)
    case Cancelled => Cancel(st)
  }

  function Run(st: Form, es: seq<Event>): Form
    decreases |es|
  {
    if |es| == 0 then st else Run(Step(st, es[0]), es[1..])
  }

  /** The messages posted along a run, in order: one for each Send click that
      passes the guard, built from the form as it is at that click. */
  function Posts(st: Form, es: seq<Event>): seq<ImageMessage>
    decreases |es|
  {
    if |es| == 0 then []
    else
      var now := if es[0].SendClicked? then DecideSend(st, es[0].chatRoomId, es[0].userId) else None;
      (if now.Some? then [now.value] else []) + Posts(Step(st, es[0]), es[1..])
  }

  /** Two sends of the same image that overlap, the second click coming before
      the first answer, both post it; both answers then clear the form. */
  lemma OverlappingSendsPostTwice(st: Form, chatRoomId: Option<string>, userId: Option<string>)
    requires CanSend(st, chatRoomId, userId)
    ensures var es := [SendClicked(chatRoomId, userId), SendClicked(chatRoomId, userId), SendAnswered(true), SendAnswered(true)];
            var m := DecideSend(st, chatRoomId, userId).value;
            && Posts(st, es) == [m, m]
            && m.imageUrl == st.uploadedUrl.value
            && Run(st, es) == Cleared(st)
  {
    var es := [SendClicked(chatRoomId, userId), SendClicked(chatRoomId, userId), SendAnswered(true), SendAnswered(true)];
    var m := DecideSend(st, chatRoomId, userId).value;
    var c := Cleared(st);
    assert es[1..][1..] == es[2..] && es[2..][1..] == es[3..] && es[3..][1..] == [];
    assert Posts(c, es[3..]) == [] && Run(c, es[3..]) == c;
    assert Posts(st, es[2..]) == [] && Run(st, es[2..]) == c;
    assert Posts(st, es[1..]) == [m] && Run(st, es[1..]) == c;
  }

  /** Sends that do not overlap post an image once: after the answer the second
      click finds no address. */
  lemma SequentialSendsPostOnce(st: Form, chatRoomId: Option<string>, userId: Option<string>)
    requires CanSend(st, chatRoomId, userId)
    ensures var es := [SendClicked(chatRoomId, userId), SendAnswered(true), SendClicked(chatRoomId, userId)];
            Posts(st, es) == [DecideSend(st, chatRoomId, userId).value]
  {
    var es := [SendClicked(chatRoomId, userId), SendAnswered(true), SendClicked(chatRoomId, userId)];
    var c := Cleared(st);
    assert es[1..][1..] == es[2..] && es[2..][1..] == [];
    assert Posts(c, es[2..]) == [];
    assert Posts(st, es[1..]) == [];
  }

  /** Every address the form holds came from the upload service: starting from a
      fresh uploader, a present address is one that some completion reported
      first. */
  predicate FromService(st: Form, es: seq<Event>) {
    st.uploadedUrl.Some? ==>
      exists i | 0 <= i < |es| :: es[i].Completed? && |es[i].urls| > 0 && es[i].urls[0] == st.uploadedUrl.value
  }

  lemma {:induction false} UploadedUrlComesFromService(st: Form, seen: seq<Event>, es: seq<Event>)
    requires FromService(st, seen)
    ensures FromService(Run(st, es), seen + es)
    decreases |es|
  {
    if |es| > 0 {
      var next := Step(st, es[0]);
      assert FromService(next, seen + [es[0]]) by {
        if next.uploadedUrl.Some? {
          if es[0].Completed? && |es[0].urls| > 0 {
            assert (seen + [es[0]])[|seen|] == es[0];
          } else {
            assert next.uploadedUrl == st.uploadedUrl;
            var i :| 0 <= i < |seen| && seen[i].Completed? && |seen[i].urls| > 0 && seen[i].urls[0] == st.uploadedUrl.value;
            assert (seen + [es[0]])[i] == seen[i];
          }
        }
      }
      UploadedUrlComesFromService(next, seen + [es[0]], es[1..]);
      assert seen + [es[0]] + es[1..] == seen + es;
    } else {
      assert seen + es == seen;
    }
  }

  /** A fresh uploader holds no address that no completion reported. */
  lemma FreshRunUrlComesFromService(es: seq<Event>)
    ensures FromService(Run(Fresh, es), es)
  {
    UploadedUrlComesFromService(Fresh, [], es);
    assert [] + es == es;
  }
}
