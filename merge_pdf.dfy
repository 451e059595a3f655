/** The merge-pdf tool (app/tools/merge-pdf/page.tsx): the reorderable list
    of uploaded files, the drop handler that reorders it, and the checks
    before merging. A PDF file is modelled by its pages. */
module MergePdfTool {
  import opened Wrappers
  import opened Seqs
  import opened JsText
  import opened Utils
  import opened PdfUtils

  /** One entry of the list: the file and its generated id. */
  datatype UploadedFile = UploadedFile(doc: seq<Page>, id: string)

  /** `removeFile(id)`: `prev.filter(f => f.id !== id)`. */
  function RemoveById(prev: seq<UploadedFile>, id: string): (r: seq<UploadedFile>)
    ensures |r| <= |prev|
  {
    if |prev| == 0 then []
    else
      var n := |prev| - 1;
      RemoveById(prev[..n], id) + (if prev[n].id == id then [] else [prev[n]])
  }

  /** Removing by id keeps exactly the entries with another id. */
  lemma {:induction false} RemoveByIdMembers(prev: seq<UploadedFile>, id: string)
    ensures forall f :: f in RemoveById(prev, id) <==> f in prev && f.id != id
  {
    if |prev| > 0 {
      var n := |prev| - 1;
      RemoveByIdMembers(prev[..n], id);
      assert prev == prev[..n] + [prev[n]];
    }
  }

  /** No two entries share an id. */
  predicate UniqueIds(files: seq<UploadedFile>)
  {
    forall i, j :: 0 <= i < j < |files| ==> files[i].id != files[j].id
  }

  /** With unique ids, removing by id removes exactly the entry's position
      and keeps the others in order. */
  lemma {:induction false} RemoveByIdIsRemoveAt(prev: seq<UploadedFile>, i: nat)
    requires i < |prev| && UniqueIds(prev)
    ensures RemoveById(prev, prev[i].id) == RemoveAt(prev, i)
  {
    var n := |prev| - 1;
    var id := prev[i].id;
    if i == n {
      RemoveByIdKeepsAll(prev[..n], id);
      assert prev[..n] == RemoveAt(prev, i);
    } else {
      RemoveByIdIsRemoveAt(prev[..n], i);
      assert RemoveAt(prev[..n], i) + [prev[n]] == RemoveAt(prev, i);
    }
  }

  /** Removing an id no entry has changes nothing. */
  lemma {:induction false} RemoveByIdKeepsAll(prev: seq<UploadedFile>, id: string)
    requires forall k :: 0 <= k < |prev| ==> prev[k].id != id
    ensures RemoveById(prev, id) == prev
  {
    if |prev| > 0 {
      var n := |prev| - 1;
      RemoveByIdKeepsAll(prev[..n], id);
      assert prev == prev[..n] + [prev[n]];
    }
  }

  /** `moveFile(from, to)`: a copy of the list from which the entry at
      `from` is spliced out and then spliced back in at `to`. The result is
      the same entries, the moved one now at `to` and the others in their
      old relative order. */
  method MoveFile(prev: seq<UploadedFile>, from: nat, to: nat) returns (r: seq<UploadedFile>)
    requires from < |prev| && to < |prev|
    ensures |r| == |prev|
    ensures multiset(r) == multiset(prev)
    ensures r[to] == prev[from]
    ensures RemoveAt(r, to) == RemoveAt(prev, from)
  {
    var newFiles := prev;
    var removed := newFiles[from];
    newFiles := newFiles[..from] + newFiles[from + 1..];
    assert newFiles == RemoveAt(prev, from);
    RemoveAtMultiset(prev, from);
    InsertAtMultiset(newFiles, to, removed);
    newFiles := newFiles[..to] + [removed] + newFiles[to..];
    assert RemoveAt(newFiles, to) == RemoveAt(prev, from);
    r := newFiles;
  }

  /** Where `splice(start, 1)` removes from in a list of length `n`: a start
      that is not a number counts as 0, a negative one counts from the end,
      and one past the end removes nothing (the result is `n`). */
  function SpliceStart(start: Option<int>, n: nat): (k: nat)
    ensures k <= n
    ensures start.Some? && 0 <= start.value <= n ==> k == start.value
    ensures start.None? ==> k == 0
  {
    match start
    case None => 0
    case Some(s) =>
      if s < 0 then (if n + s < 0 then 0 else n + s)
      else if s > n then n
      else s
  }

  /** The index an item writes when its drag starts is read back as that
      index. */
  lemma DraggedIndexReadBack(i: nat, n: nat)
    requires i < n
    ensures SpliceStart(ParseInt(NatToDecimal(i)), n) == i
  {
    ParseDecimal(i);
  }

  /** The drop handler of the item at `index`: the dragged text is read as
      an index; when it differs from `index` the list is reordered. `None`
      is the case where the splice removes nothing and the list receives an
      `undefined` entry instead. */
  method Drop(prev: seq<UploadedFile>, data: string, index: nat) returns (r: Option<seq<UploadedFile>>)
    requires index < |prev|
    ensures ParseInt(data) == Some(index) ==> r == Some(prev)
    ensures ParseInt(data) != Some(index) && SpliceStart(ParseInt(data), |prev|) == |prev| ==> r.None?
    ensures ParseInt(data) != Some(index) && SpliceStart(ParseInt(data), |prev|) < |prev| ==>
              r.Some? && |r.value| == |prev| && multiset(r.value) == multiset(prev)
              && r.value[index] == prev[SpliceStart(ParseInt(data), |prev|)]
              && RemoveAt(r.value, index) == RemoveAt(prev, SpliceStart(ParseInt(data), |prev|))
  {
    var fromIndex := ParseInt(data);
    if fromIndex == Some(index) {
      return Some(prev);
    }
    var from := SpliceStart(fromIndex, |prev|);
    if from == |prev| {
      return None;
    }
    var moved := MoveFile(prev, from, index);
    return Some(moved);
  }

  // ---------------------------------------------------------------------
  // handleMerge

  /** `handleMerge`'s checks, in order: at least two files, then the rate
      limit. */
  function MergeGuard(count: nat, rate: RateStatus): (d: Decision)
    ensures d.Proceed? <==> count >= 2 && rate.allowed
    ensures count < 2 ==> d == Refuse("Please select at least 2 PDF files to merge")
    ensures count >= 2 ==> d == RateLimitGate(rate)
  {
    if count < 2 then Refuse("Please select at least 2 PDF files to merge") else RateLimitGate(rate)
  }

  /** `files.map(f => f.file)`: the documents in displayed order. */
  function Docs(files: seq<UploadedFile>): (r: seq<seq<Page>>)
    ensures |r| == |files|
    ensures forall i :: 0 <= i < |files| ==> r[i] == files[i].doc
  {
    seq(|files|, i requires 0 <= i < |files| => files[i].doc)
  }

  /** `handleMerge`: refused with a message, or the pages of the files
      merged in the order the list shows them. */
  method HandleMerge(files: seq<UploadedFile>, rate: RateStatus) returns (r: Result<seq<Page>, string>)
    ensures r.Ok? <==> |files| >= 2 && rate.allowed
    ensures r.Err? ==> r.error == MergeGuard(|files|, rate).message
    ensures r.Ok? ==> r.value == Flatten(Docs(files))
  {
    match MergeGuard(|files|, rate)
    case Refuse(message) =>
      return Err(message);
    case Proceed =>
      var merged := MergePdfs(Docs(files));
      return Ok(merged);
  }
}
