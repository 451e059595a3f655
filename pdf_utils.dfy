/** The page-index logic of lib/pdf-utils.ts: merging, splitting, deleting
    and rotating pages, over documents seen as sequences of abstract pages. */
module PdfUtils {
  import opened Wrappers
  import opened Seqs

  /** A page: its content, opaque here, and its rotation in degrees. */
  datatype Page = Page(content: nat, rotation: int)

  /** What the library calls throw: a copy of a page index the document does
      not have, and a removal at a negative index. */
  datatype PdfError = MissingPage | IndexOutOfRange

  // ---------------------------------------------------------------------
  // mergePDFs

  /** `mergePDFs`: the pages of every document, document after document. */
  method MergePdfs(docs: seq<seq<Page>>) returns (merged: seq<Page>)
    ensures merged == Flatten(docs)
  {
    merged := [];
    for i := 0 to |docs|
      invariant merged == Flatten(docs[..i])
    {
      var pages := docs[i];
      for j := 0 to |pages|
        invariant merged == Flatten(docs[..i]) + pages[..j]
      {
        merged := merged + [pages[j]];
      }
      assert pages[..|pages|] == pages;
      FlattenSnoc(docs, i);
    }
    assert docs[..|docs|] == docs;
  }

  /** In the merged document, the pages of document `i` follow the pages of
      the documents before it, in their own order. */
  lemma MergedLayout(docs: seq<seq<Page>>, i: nat)
    requires i < |docs|
    ensures |Flatten(docs)| == TotalLen(docs)
    ensures TotalLen(docs[..i]) + |docs[i]| <= |Flatten(docs)|
    ensures Flatten(docs)[TotalLen(docs[..i])..TotalLen(docs[..i]) + |docs[i]|] == docs[i]
  {
    FlattenLength(docs);
    FlattenAt(docs, i);
  }

  // ---------------------------------------------------------------------
  // splitPDF

  /** A one-based inclusive page range. */
  datatype PageRange = PageRange(start: int, end: int)

  /** The zero-based indices a range asks for: `end - start + 1` of them
      from `start - 1`, none when `end < start`. */
  function RangeIndices(range: PageRange): (ix: seq<int>)
    ensures |ix| == if range.end < range.start then 0 else range.end - range.start + 1
    ensures forall k :: 0 <= k < |ix| ==> ix[k] == range.start - 1 + k
  {
    var n := if range.end < range.start then 0 else range.end - range.start + 1;
    seq(n, k => range.start - 1 + k)
  }

  /** `copyPages`: the pages at the given indices, in that order; an index
      the document does not have fails. */
  function CopyPages(doc: seq<Page>, ix: seq<int>): (r: Result<seq<Page>, PdfError>)
    ensures (forall k :: 0 <= k < |ix| ==> 0 <= ix[k] < |doc|) <==> r.Ok?
    ensures r.Ok? ==> |r.value| == |ix| && forall k :: 0 <= k < |ix| ==> r.value[k] == doc[ix[k]]
    ensures r.Err? ==> r.error == MissingPage
  {
    if forall k :: 0 <= k < |ix| ==> 0 <= ix[k] < |doc| then Ok(seq(|ix|, k requires 0 <= k < |ix| => doc[ix[k]]))
    else Err(MissingPage)
  }

  /** The outputs of `splitPDF` for the ranges in order, or the failure of
      the first range that asks for a missing page. */
  function SplitDocument(doc: seq<Page>, ranges: seq<PageRange>): Result<seq<seq<Page>>, PdfError>
  {
    if |ranges| == 0 then Ok([])
    else
      match SplitDocument(doc, ranges[..|ranges| - 1])
      case Err(e) => Err(e)
      case Ok(outs) =>
        match CopyPages(doc, RangeIndices(ranges[|ranges| - 1]))
        case Err(e) => Err(e)
        case Ok(pages) => Ok(outs + [pages])
  }

  /** A range can be served: it is empty, or all its pages exist. */
  predicate ValidRange(doc: seq<Page>, range: PageRange)
  {
    range.end < range.start || (1 <= range.start && range.end <= |doc|)
  }

  /** The pages a valid range selects: pages `start` to `end`, none when
      `end < start`. */
  function Extract(doc: seq<Page>, range: PageRange): seq<Page>
    requires ValidRange(doc, range)
  {
    if range.end < range.start then [] else doc[range.start - 1..range.end]
  }

  /** Copying a range's pages succeeds exactly when the range is valid, and
      then gives the pages it selects. */
  lemma CopyRange(doc: seq<Page>, range: PageRange)
    ensures CopyPages(doc, RangeIndices(range)).Ok? <==> ValidRange(doc, range)
    ensures ValidRange(doc, range) ==> CopyPages(doc, RangeIndices(range)).value == Extract(doc, range)
  {
    var ix := RangeIndices(range);
    if |ix| > 0 {
      assert ix[0] == range.start - 1 && ix[|ix| - 1] == range.end - 1;
    }
  }

  /** Splitting succeeds exactly when every range is valid; otherwise it
      fails on a missing page. */
  lemma {:induction false} SplitSucceeds(doc: seq<Page>, ranges: seq<PageRange>)
    ensures SplitDocument(doc, ranges).Ok? <==> forall i :: 0 <= i < |ranges| ==> ValidRange(doc, ranges[i])
    ensures SplitDocument(doc, ranges).Err? ==> SplitDocument(doc, ranges).error == MissingPage
  {
    if |ranges| > 0 {
      var n := |ranges| - 1;
      SplitSucceeds(doc, ranges[..n]);
      assert forall i :: 0 <= i < n ==> ranges[..n][i] == ranges[i];
      CopyRange(doc, ranges[n]);
    }
  }

  /** A successful split has one output per range, in range order, holding
      that range's pages. */
  lemma {:induction false} SplitContents(doc: seq<Page>, ranges: seq<PageRange>)
    requires SplitDocument(doc, ranges).Ok?
    ensures forall i :: 0 <= i < |ranges| ==> ValidRange(doc, ranges[i])
    ensures |SplitDocument(doc, ranges).value| == |ranges|
    ensures forall i :: 0 <= i < |ranges| ==> SplitDocument(doc, ranges).value[i] == Extract(doc, ranges[i])
  {
    SplitSucceeds(doc, ranges);
    if |ranges| > 0 {
      var n := |ranges| - 1;
      SplitContents(doc, ranges[..n]);
      assert forall i :: 0 <= i < n ==> ranges[..n][i] == ranges[i];
      CopyRange(doc, ranges[n]);
    }
  }

  /** Splitting succeeds exactly when every range is valid, and then gives
      one output per range, in range order, holding that range's pages. */
  lemma SplitOutputs(doc: seq<Page>, ranges: seq<PageRange>)
    ensures SplitDocument(doc, ranges).Ok? <==> forall i :: 0 <= i < |ranges| ==> ValidRange(doc, ranges[i])
    ensures SplitDocument(doc, ranges).Err? ==> SplitDocument(doc, ranges).error == MissingPage
    ensures SplitDocument(doc, ranges).Ok? ==>
              && |SplitDocument(doc, ranges).value| == |ranges|
              && forall i :: 0 <= i < |ranges| ==> SplitDocument(doc, ranges).value[i] == Extract(doc, ranges[i])
  {
    SplitSucceeds(doc, ranges);
    if SplitDocument(doc, ranges).Ok? {
      SplitContents(doc, ranges);
    }
  }

  /** Once a range fails, the whole split fails. */
  lemma {:induction false} SplitFailsFrom(doc: seq<Page>, ranges: seq<PageRange>, i: nat)
    requires i <= |ranges| && SplitDocument(doc, ranges[..i]).Err?
    ensures SplitDocument(doc, ranges) == Err(MissingPage)
  {
    SplitSucceeds(doc, ranges[..i]);
    SplitSucceeds(doc, ranges);
    var j :| 0 <= j < i && !ValidRange(doc, ranges[..i][j]);
    assert ranges[..i][j] == ranges[j];
  }

  /** `splitPDF`: for each range, builds its index list, copies those pages
      into a new document and collects the documents. */
  method SplitPdf(doc: seq<Page>, ranges: seq<PageRange>) returns (r: Result<seq<seq<Page>>, PdfError>)
    ensures r == SplitDocument(doc, ranges)
  {
    var results: seq<seq<Page>> := [];
    for i := 0 to |ranges|
      invariant SplitDocument(doc, ranges[..i]) == Ok(results)
    {
      var range := ranges[i];
      var count := if range.end - range.start + 1 < 0 then 0 else range.end - range.start + 1;
      var indices: seq<int> := [];
      for k := 0 to count
        invariant |indices| == k
        invariant forall q :: 0 <= q < k ==> indices[q] == range.start + q - 1
      {
        indices := indices + [range.start + k - 1];
      }
      assert indices == RangeIndices(range);
      var copied: seq<Page> := [];
      for k := 0 to |indices|
        invariant |copied| == k
        invariant forall q :: 0 <= q < k ==> 0 <= indices[q] < |doc| && copied[q] == doc[indices[q]]
      {
        var index := indices[k];
        if index < 0 || index >= |doc| {
          assert ranges[..i + 1][..i] == ranges[..i];
          assert SplitDocument(doc, ranges[..i + 1]).Err?;
          SplitFailsFrom(doc, ranges, i + 1);
          return Err(MissingPage);
        }
        copied := copied + [doc[index]];
      }
      assert ranges[..i + 1][..i] == ranges[..i];
      assert CopyPages(doc, indices).Ok?;
      assert CopyPages(doc, indices).value == copied;
      results := results + [copied];
    }
    assert ranges[..|ranges|] == ranges;
    return Ok(results);
  }

  // ---------------------------------------------------------------------
  // deletePDFPages

  /** Visiting the indices in the given order, removes the page at each one
      that is below the current page count; a negative index makes the
      removal fail. */
  function RemoveEach(doc: seq<Page>, ks: seq<int>): (r: Result<seq<Page>, PdfError>)
    ensures r.Err? <==> exists j :: 0 <= j < |ks| && ks[j] < 0
    ensures r.Err? ==> r.error == IndexOutOfRange
    ensures r.Ok? ==> |doc| - |ks| <= |r.value| <= |doc|
  {
    if |ks| == 0 then Ok(doc)
    else if ks[0] < 0 then Err(IndexOutOfRange)
    else
      var r := RemoveEach(if ks[0] < |doc| then RemoveAt(doc, ks[0]) else doc, ks[1..]);
      assert forall j :: 1 <= j < |ks| ==> ks[j] == ks[1..][j - 1];
      r
  }

  /** `deletePDFPages`: sorts a copy of the indices in descending order and
      removes them one by one, skipping indices at or past the page count. */
  method DeletePdfPages(doc: seq<Page>, pageIndices: seq<int>) returns (r: Result<seq<Page>, PdfError>)
    ensures r == RemoveEach(doc, SortBy(pageIndices, Negate))
  {
    var sorted := SortBy(pageIndices, Negate);
    var pages := doc;
    for i := 0 to |sorted|
      invariant RemoveEach(pages, sorted[i..]) == RemoveEach(doc, sorted)
    {
      var index := sorted[i];
      assert sorted[i..][1..] == sorted[i + 1..];
      if index < |pages| {
        if index < 0 {
          return Err(IndexOutOfRange);
        }
        pages := RemoveAt(pages, index);
      }
    }
    return Ok(pages);
  }

  /** The pages whose positions are not in `drop`, in their order. */
  function Keep(doc: seq<Page>, drop: set<int>): seq<Page>
  {
    if |doc| == 0 then []
    else Keep(doc[..|doc| - 1], drop) + (if |doc| - 1 in drop then [] else [doc[|doc| - 1]])
  }

  /** Only the positions the document has matter to `Keep`. */
  lemma {:induction false} KeepSame(doc: seq<Page>, s: set<int>, t: set<int>)
    requires forall i :: 0 <= i < |doc| ==> (i in s <==> i in t)
    ensures Keep(doc, s) == Keep(doc, t)
  {
    if |doc| > 0 {
      KeepSame(doc[..|doc| - 1], s, t);
    }
  }

  /** When every dropped position is below `m`, the pages from `m` on are kept whole. */
  lemma {:induction false} KeepBelow(doc: seq<Page>, drop: set<int>, m: nat)
    requires m <= |doc|
    requires forall i :: i in drop ==> i < m
    ensures Keep(doc, drop) == Keep(doc[..m], drop) + doc[m..]
  {
    if |doc| > m {
      var n := |doc| - 1;
      KeepBelow(doc[..n], drop, m);
      assert doc[..n][..m] == doc[..m];
      assert doc[m..] == doc[..n][m..] + [doc[n]];
    } else {
      assert doc[..m] == doc;
    }
  }

  /** Removing position `k` and then positions below it keeps the same pages
      as filtering out all of them. */
  lemma RemoveThenKeep(doc: seq<Page>, k: nat, rest: set<int>)
    requires forall i :: i in rest ==> 0 <= i < k
    ensures k < |doc| ==> Keep(RemoveAt(doc, k), rest) == Keep(doc, rest + {k})
    ensures k >= |doc| ==> Keep(doc, rest) == Keep(doc, rest + {k})
  {
    if k < |doc| {
      var d := RemoveAt(doc, k);
      KeepBelow(d, rest, k);
      assert d[..k] == doc[..k] && d[k..] == doc[k + 1..];
      KeepBelow(doc, rest + {k}, k + 1);
      assert doc[..k + 1][..k] == doc[..k];
      KeepSame(doc[..k], rest + {k}, rest);
    } else {
      KeepSame(doc, rest, rest + {k});
    }
  }

  /** Removing strictly decreasing non-negative indices one after another
      keeps exactly the pages at the other positions. */
  lemma {:induction false} DescendingRemovalKeeps(doc: seq<Page>, ks: seq<int>)
    requires forall i, j :: 0 <= i < j < |ks| ==> ks[i] > ks[j]
    requires forall i :: 0 <= i < |ks| ==> ks[i] >= 0
    ensures RemoveEach(doc, ks) == Ok(Keep(doc, set x | x in ks))
  {
    if |ks| == 0 {
      assert (set x | x in ks) == {};
      KeepSame(doc, {}, set x | x in ks);
      assert Keep(doc, {}) == doc by {
        KeepNone(doc);
      }
    } else {
      var k, rest := ks[0], ks[1..];
      var next := if k < |doc| then RemoveAt(doc, k) else doc;
      DescendingRemovalKeeps(next, rest);
      var s := set x | x in rest;
      assert (set x | x in ks) == s + {k} by {
        assert ks == [k] + rest;
      }
      forall i | i in s ensures 0 <= i < k {
        var j :| 0 <= j < |rest| && rest[j] == i;
        assert rest[j] == ks[j + 1];
      }
      RemoveThenKeep(doc, k, s);
    }
  }

  /** Filtering nothing keeps every page. */
  lemma {:induction false} KeepNone(doc: seq<Page>)
    ensures Keep(doc, {}) == doc
  {
    if |doc| > 0 {
      KeepNone(doc[..|doc| - 1]);
      assert doc == doc[..|doc| - 1] + [doc[|doc| - 1]];
    }
  }

  /** For distinct non-negative indices, deletion in descending order leaves
      the original pages minus exactly those positions, in their order. */
  lemma DeleteIsFilter(doc: seq<Page>, pageIndices: seq<int>)
    requires Distinct(pageIndices)
    requires forall i :: 0 <= i < |pageIndices| ==> pageIndices[i] >= 0
    ensures RemoveEach(doc, SortBy(pageIndices, Negate)) == Ok(Keep(doc, set x | x in pageIndices))
  {
    var sorted := SortBy(pageIndices, Negate);
    SortDistinct(pageIndices, Negate);
    forall i | 0 <= i < |sorted| ensures sorted[i] >= 0 && sorted[i] in pageIndices {
      assert sorted[i] in multiset(sorted);
    }
    forall i, j | 0 <= i < j < |sorted| ensures sorted[i] > sorted[j] {
      assert Negate(sorted[i]) <= Negate(sorted[j]);
    }
    assert (set x | x in sorted) == (set x | x in pageIndices) by {
      forall x ensures x in sorted <==> x in pageIndices {
        assert x in sorted <==> x in multiset(sorted);
        assert x in pageIndices <==> x in multiset(pageIndices);
      }
    }
    DescendingRemovalKeeps(doc, sorted);
  }

  // ---------------------------------------------------------------------
  // rotatePDF

  /** The indices `rotatePDF` visits: the given list, or every page in
      order when no list is given. */
  function Targets(pageCount: nat, pageIndices: Option<seq<int>>): (r: seq<int>)
    ensures pageIndices.Some? ==> r == pageIndices.value
    ensures pageIndices.None? ==> |r| == pageCount && forall i :: 0 <= i < pageCount ==> r[i] == i
  {
    match pageIndices
    case Some(ix) => ix
    case None => seq(pageCount, i => i)
  }

  /** `rotatePDF`: sets the rotation of every targeted page the document
      has, replacing the previous angle and leaving the other pages alone;
      indices past the end are ignored and a negative index fails. */
  method RotatePdf(doc: seq<Page>, rotation: int, pageIndices: Option<seq<int>>)
    returns (r: Result<seq<Page>, PdfError>)
    requires rotation == 90 || rotation == 180 || rotation == 270
    ensures r.Ok? || r == Err(MissingPage)
    ensures var targets := Targets(|doc|, pageIndices);
            (exists j :: 0 <= j < |targets| && targets[j] < 0) <==> r == Err(MissingPage)
    ensures var targets := Targets(|doc|, pageIndices);
            r.Ok? ==> && |r.value| == |doc|
                      && forall i :: 0 <= i < |doc| ==>
                           r.value[i] == if i in targets then doc[i].(rotation := rotation) else doc[i]
    ensures pageIndices.None? ==>
              && r.Ok? && |r.value| == |doc|
              && forall i :: 0 <= i < |doc| ==> r.value[i] == doc[i].(rotation := rotation)
  {
    var targets := Targets(|doc|, pageIndices);
    var pages := new Page[|doc|](i requires 0 <= i < |doc| => doc[i]);
    for j := 0 to |targets|
      invariant forall q :: 0 <= q < j ==> targets[q] >= 0
      invariant forall i :: 0 <= i < |doc| ==>
                  pages[i] == if i in targets[..j] then doc[i].(rotation := rotation) else doc[i]
    {
      var index := targets[j];
      assert targets[..j + 1] == targets[..j] + [index];
      if index < pages.Length {
        if index < 0 {
          return Err(MissingPage);
        }
        pages[index] := pages[index].(rotation := rotation);
      }
    }
    assert targets[..|targets|] == targets;
    if pageIndices.None? {
      RotateAllTargetsEveryPage(|doc|);
    }
    return Ok(pages[..]);
  }

  /** With no index list every page is a target and no target is negative,
      which is why `RotatePdf` then succeeds and turns every page. */
  lemma RotateAllTargetsEveryPage(pageCount: nat)
    ensures forall i :: 0 <= i < pageCount ==> i in Targets(pageCount, None)
    ensures forall j :: 0 <= j < pageCount ==> Targets(pageCount, None)[j] >= 0
  {
    var t := Targets(pageCount, None);
    forall i | 0 <= i < pageCount ensures i in t {
      assert t[i] == i;
    }
  }
}
