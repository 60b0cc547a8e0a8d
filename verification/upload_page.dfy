/**
 * The multi-file upload page: a list of selected image files that drops
 * and selections append to, single entries can be removed from and
 * "Clear All" empties, with the drag highlight and the uploading flag.
 */
module UploadPage {
  import opened Text
  import opened Browser

  /** `file.type.startsWith("image/")`. */
  predicate IsImage(f: File)
  {
    StartsWith(f.fileType, "image/")
  }

  /** `files.filter(f => f.type.startsWith("image/"))`. */
  function Images(files: seq<File>): (r: seq<File>)
    ensures |r| <= |files|
    ensures forall j :: 0 <= j < |r| ==> IsImage(r[j])
    ensures forall f :: f in r <==> f in files && IsImage(f)
    decreases |files|
  {
    if files == [] then []
    else
      var init := Images(files[..|files| - 1]);
      var last := files[|files| - 1];
      assert files == files[..|files| - 1] + [last];
      if IsImage(last) then init + [last] else init
  }

  /** Filtering distributes over concatenation, so the kept files stay in their order. */
  lemma {:induction false} ImagesAppend(a: seq<File>, b: seq<File>)
    ensures Images(a + b) == Images(a) + Images(b)
    decreases |b|
  {
    if b == [] {
      assert a + b == a;
    } else {
      var b' := b[..|b| - 1];
      ImagesAppend(a, b');
      assert (a + b)[..|a + b| - 1] == a + b';
      assert (a + b)[|a + b| - 1] == b[|b| - 1];
    }
  }

  /** The filter over one more file keeps it exactly when it is an image. */
  lemma ImagesSnoc(files: seq<File>, i: nat)
    requires i < |files|
    ensures Images(files[..i + 1]) == if IsImage(files[i]) then Images(files[..i]) + [files[i]] else Images(files[..i])
  {
    assert files[..i + 1][..i] == files[..i];
  }

  /** A list of images passes the filter whole. */
  lemma {:induction false} ImagesKeepsImages(files: seq<File>)
    requires forall j :: 0 <= j < |files| ==> IsImage(files[j])
    ensures Images(files) == files
    decreases |files|
  {
    if files != [] {
      var n := |files| - 1;
      ImagesKeepsImages(files[..n]);
      ImagesSnoc(files, n);
      assert files[..n + 1] == files;
    }
  }

  /** `prev.filter((_, i) => i !== index)`: the list without position `index`, if there is one. */
  function Without(files: seq<File>, index: int): (r: seq<File>)
    ensures 0 <= index < |files| ==>
      && |r| == |files| - 1
      && (forall j :: 0 <= j < index ==> r[j] == files[j])
      && (forall j :: index <= j < |r| ==> r[j] == files[j + 1])
    ensures !(0 <= index < |files|) ==> r == files
  {
    if 0 <= index < |files| then files[..index] + files[index + 1..] else files
  }

  /** The page's state cells. */
  class Page {
    var dragActive: bool
    var files: seq<File>
    var uploading: bool

    constructor()
      ensures !dragActive && files == [] && !uploading
    {
      dragActive := false;
      files := [];
      uploading := false;
    }

    /** `handleDrag`: enter and over raise the flag, leave lowers it, other events keep it. */
    method HandleDrag(eventType: string)
      modifies this
      ensures EntersDrag(eventType) ==> dragActive
      ensures LeavesDrag(eventType) ==> !dragActive
      ensures !EntersDrag(eventType) && !LeavesDrag(eventType) ==> dragActive == old(dragActive)
      ensures files == old(files) && uploading == old(uploading)
    {
      if EntersDrag(eventType) {
        dragActive := true;
      } else if LeavesDrag(eventType) {
        dragActive := false;
      }
    }

    /** Appends the image files among `incoming`, in their order, after the files already listed. */
    method Append(incoming: seq<File>)
      modifies this
      ensures files == old(files) + Images(incoming)
      ensures dragActive == old(dragActive) && uploading == old(uploading)
    {
      var kept: seq<File> := [];
      var i := 0;
      while i < |incoming|
        invariant 0 <= i <= |incoming|
        invariant kept == Images(incoming[..i])
        invariant unchanged(this)
      {
        ImagesSnoc(incoming, i);
        if IsImage(incoming[i]) {
          kept := kept + [incoming[i]];
        }
        i := i + 1;
      }
      assert incoming[..i] == incoming;
      files := files + kept;
    }

    /** `handleDrop`: the highlight goes off; a non-empty drop appends its image files. */
    method HandleDrop(incoming: seq<File>)
      modifies this
      ensures !dragActive
      ensures files == old(files) + Images(incoming)
      ensures uploading == old(uploading)
    {
      dragActive := false;
      if incoming != [] {
        Append(incoming);
      }
    }

    /** `handleFileSelect`: a non-empty selection appends its image files. */
    method HandleFileSelect(incoming: seq<File>)
      modifies this
      ensures files == old(files) + Images(incoming)
      ensures dragActive == old(dragActive) && uploading == old(uploading)
    {
      if incoming != [] {
        Append(incoming);
      }
    }

    /** `removeFile(index)`: one pass keeping every position but `index`. */
    method RemoveFile(index: int)
      modifies this
      ensures files == Without(old(files), index)
      ensures dragActive == old(dragActive) && uploading == old(uploading)
    {
      var kept: seq<File> := [];
      var i := 0;
      while i < |files|
        invariant 0 <= i <= |files|
        invariant kept == if 0 <= index < i then files[..index] + files[index + 1..i] else files[..i]
        invariant unchanged(this)
      {
        if i != index {
          if 0 <= index < i {
            assert files[index + 1..i + 1] == files[index + 1..i] + [files[i]];
          } else {
            assert files[..i + 1] == files[..i] + [files[i]];
          }
          kept := kept + [files[i]];
        } else {
          assert files[index + 1..i + 1] == [];
        }
        i := i + 1;
      }
      assert files[..i] == files;
      files := kept;
    }

    /** "Clear All". */
    method ClearAll()
      modifies this
      ensures files == []
      ensures dragActive == old(dragActive) && uploading == old(uploading)
    {
      files := [];
    }

    /**
     * `handleUpload`: nothing for an empty list; otherwise the page ends
     * idle with an empty list. The flag raised for the simulated delay is
     * lowered again before anything can observe it here, so only the end
     * state is modelled.
     */
    method HandleUpload()
      modifies this
      ensures old(files) == [] ==> files == [] && uploading == old(uploading)
      ensures old(files) != [] ==> files == [] && !uploading
      ensures dragActive == old(dragActive)
    {
      if files == [] {
        return;
      }
      uploading := false;
      files := [];
    }
  }
}
