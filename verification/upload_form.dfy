/**
 * The single-file upload form: a drop or a selection keeps the first PNG
 * or JPEG file of at most 10 MiB, the drag handlers drive the highlight
 * flag, and an upload asks the server for a presigned key, posts the file
 * and, on success, confirms the image id it reads off that key.
 */
module UploadForm {
  import opened Wrappers
  import opened Text
  import opened Browser
  import ServerActions

  /** `10 * 1024 * 1024`, the largest accepted file in bytes. */
  const MaxSize: nat := 10 * 1024 * 1024

  /** `allowedTypes.includes(f.type)` with `allowedTypes = ["image/png", "image/jpeg"]`. */
  predicate Allowed(f: File)
  {
    f.fileType == "image/png" || f.fileType == "image/jpeg"
  }

  /** What a drop or a selection makes of its file list. */
  datatype Pick =
    | Empty                  // no file at all: nothing happens
    | NoImage                // no PNG or JPEG among the files
    | TooLarge(file: File)   // the first PNG or JPEG file is over the limit
    | Chosen(file: File)     // the first PNG or JPEG file, within the limit

  /** The filter shared by `handleDrop` and `handleFileSelect`. */
  function PickFile(files: seq<File>): (p: Pick)
    ensures p.Empty? <==> files == []
    ensures p.NoImage? <==> files != [] && forall j :: 0 <= j < |files| ==> !Allowed(files[j])
    ensures p.TooLarge? || p.Chosen? ==>
      exists i :: 0 <= i < |files| && files[i] == p.file && Allowed(p.file)
        && forall j :: 0 <= j < i ==> !Allowed(files[j])
    ensures p.TooLarge? ==> p.file.size > MaxSize
    ensures p.Chosen? ==> p.file.size <= MaxSize
  {
    if files == [] then Empty
    else
      match FindIndex(files, Allowed)
      case None => NoImage
      case Some(i) => if files[i].size > MaxSize then TooLarge(files[i]) else Chosen(files[i])
  }

  /** The alert a pick raises, if any. */
  function AlertOf(p: Pick): seq<string>
  {
    match p
    case NoImage => ["Please select a PNG or JPEG file"]
    case TooLarge(_) => ["File size exceeds 10MB limit"]
    case _ => []
  }

  /** A file of exactly 10 MiB is accepted; one byte more is refused. */
  lemma SizeLimitInclusive(name: string)
    ensures PickFile([File(name, "image/png", MaxSize)]) == Chosen(File(name, "image/png", MaxSize))
    ensures PickFile([File(name, "image/png", MaxSize + 1)]).TooLarge?
  {
  }

  /** `s.split(sep).pop()`: the last piece, which a split always has. */
  function LastPiece(s: string, sep: char): (r: string)
    ensures sep !in r
  {
    var parts := Split(s, sep);
    parts[|parts| - 1]
  }

  /**
   * `fileKey.split("/").pop()?.split(".")[0]`: the last path segment of
   * the key up to its first dot.
   */
  function FormImageId(fileKey: string): (id: string)
    ensures '/' !in id && '.' !in id
    ensures var seg := LastPiece(fileKey, '/');
      id == (var d := IndexOf(seg, '.'); if d < 0 then seg else seg[..d])
  {
    var seg := LastPiece(fileKey, '/');
    SplitHead(seg, '.');
    Split(seg, '.')[0]
  }

  /** The form's state cells. */
  class Form {
    var dragActive: bool
    var file: Option<File>
    var uploading: bool
    var dialogOpen: bool
    var dialogImageId: Option<string>
    /** The alerts shown, in order. */
    var alerts: seq<string>
    /** The image ids `confirmUpload` recorded, in order. */
    var confirmed: seq<string>

    constructor()
      ensures !dragActive && file == None && !uploading
      ensures !dialogOpen && dialogImageId == None && alerts == [] && confirmed == []
    {
      dragActive := false;
      file := None;
      uploading := false;
      dialogOpen := false;
      dialogImageId := None;
      alerts := [];
      confirmed := [];
    }

    /** `handleDrag`: enter and over raise the flag, leave lowers it, other events keep it. */
    method HandleDrag(eventType: string)
      modifies this
      ensures EntersDrag(eventType) ==> dragActive
      ensures LeavesDrag(eventType) ==> !dragActive
      ensures !EntersDrag(eventType) && !LeavesDrag(eventType) ==> dragActive == old(dragActive)
      ensures file == old(file) && uploading == old(uploading) && alerts == old(alerts)
      ensures dialogOpen == old(dialogOpen) && dialogImageId == old(dialogImageId) && confirmed == old(confirmed)
    {
      if EntersDrag(eventType) {
        dragActive := true;
      } else if LeavesDrag(eventType) {
        dragActive := false;
      }
    }

    /** The body both handlers share: keep the picked file, or alert and keep the old one. */
    method Take(files: seq<File>)
      modifies this
      ensures file == if PickFile(files).Chosen? then Some(PickFile(files).file) else old(file)
      ensures alerts == old(alerts) + AlertOf(PickFile(files))
      ensures dragActive == old(dragActive) && uploading == old(uploading)
      ensures dialogOpen == old(dialogOpen) && dialogImageId == old(dialogImageId) && confirmed == old(confirmed)
    {
      var p := PickFile(files);
      match p
      case Empty =>
      case NoImage =>
        alerts := alerts + ["Please select a PNG or JPEG file"];
      case TooLarge(_) =>
        alerts := alerts + ["File size exceeds 10MB limit"];
      case Chosen(f) =>
        file := Some(f);
    }

    /** `handleDrop`: the highlight goes off, then the dropped files are filtered. */
    method HandleDrop(files: seq<File>)
      modifies this
      ensures !dragActive
      ensures file == if PickFile(files).Chosen? then Some(PickFile(files).file) else old(file)
      ensures alerts == old(alerts) + AlertOf(PickFile(files))
      ensures uploading == old(uploading)
      ensures dialogOpen == old(dialogOpen) && dialogImageId == old(dialogImageId) && confirmed == old(confirmed)
    {
      dragActive := false;
      Take(files);
    }

    /** `handleFileSelect`: the picked files are filtered the same way. */
    method HandleFileSelect(files: seq<File>)
      modifies this
      ensures file == if PickFile(files).Chosen? then Some(PickFile(files).file) else old(file)
      ensures alerts == old(alerts) + AlertOf(PickFile(files))
      ensures dragActive == old(dragActive) && uploading == old(uploading)
      ensures dialogOpen == old(dialogOpen) && dialogImageId == old(dialogImageId) && confirmed == old(confirmed)
    {
      Take(files);
    }

    /** `removeFile`: the chosen file is dropped. */
    method RemoveFile()
      modifies this
      ensures file == None
      ensures dragActive == old(dragActive) && uploading == old(uploading) && alerts == old(alerts)
      ensures dialogOpen == old(dialogOpen) && dialogImageId == old(dialogImageId) && confirmed == old(confirmed)
    {
      file := None;
    }

    /**
     * What follows the post: alert on a failed response, or confirm the
     * key's image id and open the dialog; then reset. `confirmError` is
     * what `confirmUpload` throws (no session on the server, a refused
     * insert), or `None`: a throw escapes before the dialog opens and
     * before the reset, so the form stays uploading with its file.
     */
    method Finish(fileKey: string, responseOk: bool, confirmError: Option<string>) returns (thrown: Option<string>)
      modifies this
      ensures thrown == (if responseOk then confirmError else None)
      ensures responseOk && confirmError == None ==>
        confirmed == old(confirmed) + [FormImageId(fileKey)] && dialogOpen
        && dialogImageId == Some(FormImageId(fileKey)) && alerts == old(alerts)
      ensures !responseOk ==>
        alerts == old(alerts) + ["Image Upload Failed Try Again !"] && confirmed == old(confirmed)
        && dialogOpen == old(dialogOpen) && dialogImageId == old(dialogImageId)
      ensures thrown != None ==>
        uploading == old(uploading) && file == old(file) && alerts == old(alerts) && confirmed == old(confirmed)
        && dialogOpen == old(dialogOpen) && dialogImageId == old(dialogImageId)
      ensures thrown == None ==> !uploading && file == None
      ensures dragActive == old(dragActive)
    {
      if !responseOk {
        alerts := alerts + ["Image Upload Failed Try Again !"];
      } else {
        if confirmError != None {
          return confirmError;
        }
        var id := FormImageId(fileKey);
        confirmed := confirmed + [id];
        dialogOpen := true;
        dialogImageId := Some(id);
      }
      uploading := false;
      file := None;
      thrown := None;
    }

    /**
     * `handleUpload`. Without a file nothing happens. Otherwise the form
     * is marked uploading and asks for a presigned key; if that throws,
     * the error escapes and the form stays uploading with its file. Once
     * the post's response arrives (`responseOk` tells whether it was ok)
     * an alert is shown on failure; on success the id read off the key is
     * confirmed, and a throw of `confirmUpload` (`confirmError`) again
     * escapes with the form uploading and its file kept. Otherwise the
     * form ends idle and empty.
     */
    method HandleUpload(session: Option<string>, iso: string, responseOk: bool, confirmError: Option<string>)
      returns (thrown: Option<string>)
      modifies this
      ensures old(file) == None ==>
        thrown == None && file == None && uploading == old(uploading) && alerts == old(alerts)
        && dialogOpen == old(dialogOpen) && dialogImageId == old(dialogImageId) && confirmed == old(confirmed)
      ensures old(file) != None && session == None ==>
        thrown == Some("Unauthorized") && uploading && file == old(file) && alerts == old(alerts)
        && dialogOpen == old(dialogOpen) && dialogImageId == old(dialogImageId) && confirmed == old(confirmed)
      ensures old(file) != None && session != None && responseOk && confirmError != None ==>
        thrown == confirmError && uploading && file == old(file) && alerts == old(alerts)
        && dialogOpen == old(dialogOpen) && dialogImageId == old(dialogImageId) && confirmed == old(confirmed)
      ensures old(file) != None && session != None && (!responseOk || confirmError == None) ==>
        thrown == None && !uploading && file == None
      ensures old(file) != None && session != None && responseOk && confirmError == None ==>
        var id := FormImageId(ServerActions.FetchPresignedUrl(session, old(file).value.name, iso).value);
        confirmed == old(confirmed) + [id] && dialogOpen && dialogImageId == Some(id) && alerts == old(alerts)
      ensures old(file) != None && session != None && !responseOk ==>
        alerts == old(alerts) + ["Image Upload Failed Try Again !"] && confirmed == old(confirmed)
        && dialogOpen == old(dialogOpen) && dialogImageId == old(dialogImageId)
      ensures dragActive == old(dragActive)
    {
      if file == None {
        return None;
      }
      uploading := true;
      var presigned := ServerActions.FetchPresignedUrl(session, file.value.name, iso);
      if presigned.Failure? {
        return Some(presigned.error);
      }
      thrown := Finish(presigned.value, responseOk, confirmError);
    }
  }
}
