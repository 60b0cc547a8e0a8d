/**
 * What the two upload components see of the browser: the files of a drop
 * or of the file picker, each with its name, MIME type and size in bytes.
 */
module Browser {

  /** A `File` of the dropped or selected list. */
  datatype File = File(name: string, fileType: string, size: nat)

  /** The drag events both components listen to; any other type string is some other event. */
  predicate EntersDrag(eventType: string)
  {
    eventType == "dragenter" || eventType == "dragover"
  }

  predicate LeavesDrag(eventType: string)
  {
    eventType == "dragleave"
  }
}
