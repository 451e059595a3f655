/** The upload widget (components/FileUpload.tsx): the checks a batch of
    files goes through, the per-batch cap, and the selection the widget
    keeps and reports to its page. */
module FileUpload {
  import opened Seqs
  import opened JsText
  import opened Utils

  /** What the widget reads of a `File`. */
  datatype FileInfo = FileInfo(name: string, size: int, mimeType: string)

  /** The result of `validateFiles`. */
  datatype Outcome = Outcome(validFiles: seq<FileInfo>, errors: seq<string>)

  /** One file's checks: the size first, then the type; a failure is
      reported as "<name>: <error>". */
  function CheckFile(file: FileInfo, accept: seq<string>): (r: Validation)
    ensures r.Valid? <==>
              ValidateFileSize(file.size).Valid? && ValidateFileType(file.name, file.mimeType, accept).Valid?
    ensures ValidateFileSize(file.size).Invalid? ==> r == Invalid(file.name + ": " + FileSizeError)
    ensures ValidateFileSize(file.size).Valid? && ValidateFileType(file.name, file.mimeType, accept).Invalid? ==>
              r == Invalid(file.name + ": " + FileTypeError(accept))
  {
    match ValidateFileSize(file.size)
    case Invalid(e) => Invalid(file.name + ": " + e)
    case Valid =>
      match ValidateFileType(file.name, file.mimeType, accept)
      case Invalid(e) => Invalid(file.name + ": " + e)
      case Valid => Valid
  }

  /** The files that pass their checks, in input order. */
  function Accepted(files: seq<FileInfo>, accept: seq<string>): seq<FileInfo>
  {
    if |files| == 0 then []
    else
      var n := |files| - 1;
      Accepted(files[..n], accept) + (if CheckFile(files[n], accept).Valid? then [files[n]] else [])
  }

  /** The error of each file that fails, in input order. */
  function Rejections(files: seq<FileInfo>, accept: seq<string>): seq<string>
  {
    if |files| == 0 then []
    else
      var n := |files| - 1;
      Rejections(files[..n], accept)
      + (match CheckFile(files[n], accept) case Invalid(e) => [e] case Valid => [])
  }

  /** `list.slice(0, n)`: a negative `n` counts from the end. */
  function SliceTo<T>(xs: seq<T>, n: int): (r: seq<T>)
    ensures |r| <= |xs| && r == xs[..|r|]
    ensures 0 <= n ==> |r| == if n < |xs| then n else |xs|
    ensures n < 0 ==> |r| == if |xs| + n < 0 then 0 else |xs| + n
  {
    if 0 <= n then (if n < |xs| then xs[..n] else xs)
    else if |xs| + n < 0 then []
    else xs[..|xs| + n]
  }

  /** The message added when a batch holds more valid files than allowed. */
  function TooManyFiles(maxFiles: int): string
  {
    "Maximum " + IntToDecimal(maxFiles) + " files allowed"
  }

  /** What `validateFiles` returns: the valid files, cut to the first
      `maxFiles`, and the errors, with one more when the cut was needed. */
  function Validated(files: seq<FileInfo>, accept: seq<string>, maxFiles: int): (o: Outcome)
    ensures |o.validFiles| <= |Accepted(files, accept)|
    ensures o.validFiles == Accepted(files, accept)[..|o.validFiles|]
    ensures 0 <= maxFiles ==> |o.validFiles| <= maxFiles
    ensures |Accepted(files, accept)| <= maxFiles ==> o.validFiles == Accepted(files, accept)
    ensures 0 <= maxFiles < |Accepted(files, accept)| ==> o.validFiles == Accepted(files, accept)[..maxFiles]
    ensures maxFiles < 0 ==> |o.validFiles| == if |Accepted(files, accept)| + maxFiles < 0 then 0 else |Accepted(files, accept)| + maxFiles
    ensures |Accepted(files, accept)| <= maxFiles ==> o.errors == Rejections(files, accept)
    ensures |Accepted(files, accept)| > maxFiles ==> o.errors == Rejections(files, accept) + [TooManyFiles(maxFiles)]
  {
    var valid := Accepted(files, accept);
    var errors := Rejections(files, accept);
    if |valid| > maxFiles then Outcome(SliceTo(valid, maxFiles), errors + [TooManyFiles(maxFiles)])
    else Outcome(valid, errors)
  }

  /** `validateFiles`: one pass over the batch, then the cap. */
  method ValidateFiles(files: seq<FileInfo>, accept: seq<string>, maxFiles: int) returns (o: Outcome)
    ensures o == Validated(files, accept, maxFiles)
  {
    var validFiles: seq<FileInfo> := [];
    var newErrors: seq<string> := [];
    for i := 0 to |files|
      invariant validFiles == Accepted(files[..i], accept)
      invariant newErrors == Rejections(files[..i], accept)
    {
      assert files[..i + 1][..i] == files[..i];
      var file := files[i];
      var sizeCheck := ValidateFileSize(file.size);
      if sizeCheck.Invalid? {
        newErrors := newErrors + [file.name + ": " + sizeCheck.error];
        continue;
      }
      var typeCheck := ValidateFileType(file.name, file.mimeType, accept);
      if typeCheck.Invalid? {
        newErrors := newErrors + [file.name + ": " + typeCheck.error];
        continue;
      }
      validFiles := validFiles + [file];
    }
    assert files[..|files|] == files;
    if |validFiles| > maxFiles {
      newErrors := newErrors + [TooManyFiles(maxFiles)];
      return Outcome(SliceTo(validFiles, maxFiles), newErrors);
    }
    return Outcome(validFiles, newErrors);
  }

  /** Every file of a batch is either accepted or reported once. */
  lemma {:induction false} OneOutcomePerFile(files: seq<FileInfo>, accept: seq<string>)
    ensures |Accepted(files, accept)| + |Rejections(files, accept)| == |files|
  {
    if |files| > 0 {
      OneOutcomePerFile(files[..|files| - 1], accept);
    }
  }

  /** Accepting is a filter: the accepted files of two batches in a row are
      those of the first followed by those of the second. */
  lemma {:induction false} AcceptedAppend(a: seq<FileInfo>, b: seq<FileInfo>, accept: seq<string>)
    ensures Accepted(a + b, accept) == Accepted(a, accept) + Accepted(b, accept)
  {
    if |b| > 0 {
      var n := |b| - 1;
      assert (a + b)[..|a + b| - 1] == a + b[..n];
      AcceptedAppend(a, b[..n], accept);
    } else {
      assert a + b == a;
    }
  }

  /** A file on its own is accepted exactly when it passes its checks. */
  lemma AcceptedSingle(file: FileInfo, accept: seq<string>)
    ensures Accepted([file], accept) == if CheckFile(file, accept).Valid? then [file] else []
  {
    assert [file][..0] == [];
  }

  /** The accepted files are files of the batch that pass their checks, and
      every such file is accepted. */
  lemma {:induction false} AcceptedMembers(files: seq<FileInfo>, accept: seq<string>)
    ensures forall f :: f in Accepted(files, accept) <==> f in files && CheckFile(f, accept).Valid?
  {
    if |files| > 0 {
      var n := |files| - 1;
      AcceptedMembers(files[..n], accept);
      assert files == files[..n] + [files[n]];
    }
  }

  // ---------------------------------------------------------------------
  // The widget's state

  /** The selected files (also handed to the page) and the errors shown. */
  datatype UploadState = UploadState(selected: seq<FileInfo>, errors: seq<string>)

  /** `handleFiles`: the batch's errors replace the shown ones; the
      selection changes only when some file is valid, by appending the
      batch in multiple mode and replacing the selection otherwise. */
  function HandleFiles(state: UploadState, files: seq<FileInfo>, accept: seq<string>,
                       multiple: bool, maxFiles: int): (s: UploadState)
    ensures s.errors == Validated(files, accept, maxFiles).errors
    ensures |Validated(files, accept, maxFiles).validFiles| == 0 ==> s.selected == state.selected
    ensures |Validated(files, accept, maxFiles).validFiles| > 0 && multiple ==>
              s.selected == state.selected + Validated(files, accept, maxFiles).validFiles
    ensures |Validated(files, accept, maxFiles).validFiles| > 0 && !multiple ==>
              s.selected == Validated(files, accept, maxFiles).validFiles
  {
    var outcome := Validated(files, accept, maxFiles);
    if |outcome.validFiles| > 0 then
      UploadState(if multiple then state.selected + outcome.validFiles else outcome.validFiles, outcome.errors)
    else
      state.(errors := outcome.errors)
  }

  /** `list.filter((_, i) => i !== index)`. */
  function Without<T>(xs: seq<T>, index: int): (r: seq<T>)
    ensures 0 <= index < |xs| ==> r == RemoveAt(xs, index)
    ensures !(0 <= index < |xs|) ==> r == xs
  {
    if |xs| == 0 then []
    else
      var n := |xs| - 1;
      var r := Without(xs[..n], index) + (if n == index then [] else [xs[n]]);
      assert xs == xs[..n] + [xs[n]];
      r
  }

  /** `removeFile`: the file at `index` leaves the selection; an index
      that is no position leaves it as it is. The errors stay. */
  function RemoveFile(state: UploadState, index: int): (s: UploadState)
    ensures 0 <= index < |state.selected| ==> s.selected == RemoveAt(state.selected, index)
    ensures !(0 <= index < |state.selected|) ==> s.selected == state.selected
    ensures s.errors == state.errors
  {
    state.(selected := Without(state.selected, index))
  }

  /** `clearAll`: no files and no errors. */
  function ClearAll(state: UploadState): (s: UploadState)
    ensures s.selected == [] && s.errors == []
  {
    UploadState([], [])
  }

  /** Every selected file passed the checks. */
  ghost predicate AllAcceptable(selected: seq<FileInfo>, accept: seq<string>)
  {
    forall i :: 0 <= i < |selected| ==> CheckFile(selected[i], accept).Valid?
  }

  /** Handling a batch, removing a file and clearing keep a selection in
      which every file passed the checks. */
  lemma SelectionStaysAcceptable(state: UploadState, files: seq<FileInfo>, accept: seq<string>,
                                 multiple: bool, maxFiles: int, index: int)
    requires AllAcceptable(state.selected, accept)
    ensures AllAcceptable(HandleFiles(state, files, accept, multiple, maxFiles).selected, accept)
    ensures AllAcceptable(RemoveFile(state, index).selected, accept)
    ensures AllAcceptable(ClearAll(state).selected, accept)
  {
    var valid := Validated(files, accept, maxFiles).validFiles;
    AcceptedMembers(files, accept);
    forall i | 0 <= i < |valid| ensures CheckFile(valid[i], accept).Valid? {
      assert valid[i] in Accepted(files, accept);
    }
  }

  /** Outside multiple mode, a non-negative cap also bounds the selection. */
  lemma SingleModeStaysCapped(state: UploadState, files: seq<FileInfo>, accept: seq<string>, maxFiles: int)
    requires 0 <= maxFiles && |state.selected| <= maxFiles
    ensures |HandleFiles(state, files, accept, false, maxFiles).selected| <= maxFiles
  {
  }

  /** The cap holds per batch only: in multiple mode a second full batch
      brings the selection to twice the cap. */
  lemma CapIsPerBatch(state: UploadState, files: seq<FileInfo>, accept: seq<string>, maxFiles: int)
    requires 0 < maxFiles && |state.selected| == maxFiles
    requires |Accepted(files, accept)| == maxFiles
    ensures |HandleFiles(state, files, accept, true, maxFiles).selected| == 2 * maxFiles
  {
  }
}
