/** The split-pdf tool (app/tools/split-pdf/page.tsx): the page ranges it
    asks `splitPDF` for, the clamping of the typed page numbers, the checks
    before splitting and the names of the output files. */
module SplitPdfTool {
  import opened Wrappers
  import opened Seqs
  import opened JsText
  import opened Utils
  import opened PdfUtils

  datatype Mode = All | Range

  /** The page's form state. */
  datatype Form = Form(pageCount: int, mode: Mode, startPage: int, endPage: int)

  /** The state before any file is loaded. */
  const InitialForm: Form := Form(0, All, 1, 1)

  /** Loading a document records its page count and moves the end of the
      range to its last page; the mode and the start are kept. */
  function OnLoaded(form: Form, count: nat): (f: Form)
    ensures f.pageCount == count && f.endPage == count
    ensures f.mode == form.mode && f.startPage == form.startPage
  {
    form.(pageCount := count, endPage := count)
  }

  /** `Array.from({ length: n }, …)` makes no element for a negative length. */
  function Count(n: int): nat
  {
    if n < 0 then 0 else n
  }

  /** "All" mode: one single-page range per page, pages 1 to pageCount. */
  function AllRanges(pageCount: int): (r: seq<PageRange>)
    ensures |r| == Count(pageCount)
    ensures forall i :: 0 <= i < |r| ==> r[i] == PageRange(i + 1, i + 1)
  {
    seq(Count(pageCount), i => PageRange(i + 1, i + 1))
  }

  /** "Range" mode: one single-page range per page from startPage to
      endPage, none when endPage < startPage. */
  function RangeModeRanges(startPage: int, endPage: int): (r: seq<PageRange>)
    ensures |r| == Count(endPage - startPage + 1)
    ensures forall i :: 0 <= i < |r| ==> r[i] == PageRange(startPage + i, startPage + i)
  {
    seq(Count(endPage - startPage + 1), i => PageRange(startPage + i, startPage + i))
  }

  /** The ranges `handleSplit` passes to `splitPDF` for the form's mode. */
  function Ranges(form: Form): seq<PageRange>
  {
    match form.mode
    case All => AllRanges(form.pageCount)
    case Range => RangeModeRanges(form.startPage, form.endPage)
  }

  /** Right after loading, the range mode's default range is the whole
      document, so both modes ask for the same ranges. */
  lemma LoadedRangeIsAll(count: nat)
    ensures var f := OnLoaded(InitialForm, count);
            RangeModeRanges(f.startPage, f.endPage) == AllRanges(f.pageCount)
  {
  }

  /** Ranges of one page each, the pages `first`, `first + 1`, … of the
      document, split into one single-page document per range. */
  lemma SingletonRangesSplit(doc: seq<Page>, ranges: seq<PageRange>, first: int)
    requires 1 <= first && (|ranges| > 0 ==> first - 1 + |ranges| <= |doc|)
    requires forall i :: 0 <= i < |ranges| ==> ranges[i] == PageRange(first + i, first + i)
    ensures SplitDocument(doc, ranges).Ok?
    ensures |SplitDocument(doc, ranges).value| == |ranges|
    ensures forall i :: 0 <= i < |ranges| ==> SplitDocument(doc, ranges).value[i] == [doc[first - 1 + i]]
  {
    forall i | 0 <= i < |ranges| ensures ValidRange(doc, ranges[i]) {
    }
    SplitOutputs(doc, ranges);
    forall i | 0 <= i < |ranges| ensures SplitDocument(doc, ranges).value[i] == [doc[first - 1 + i]] {
      assert Extract(doc, ranges[i]) == doc[first - 1 + i..first + i];
    }
  }

  /** Splitting every page of a document with the "all" ranges gives one
      single-page document per page, in page order. */
  lemma AllModeSplitsEachPage(doc: seq<Page>)
    ensures SplitDocument(doc, AllRanges(|doc|)).Ok?
    ensures |SplitDocument(doc, AllRanges(|doc|)).value| == |doc|
    ensures forall i :: 0 <= i < |doc| ==> SplitDocument(doc, AllRanges(|doc|)).value[i] == [doc[i]]
  {
    SingletonRangesSplit(doc, AllRanges(|doc|), 1);
  }

  /** A range of existing pages splits into one single-page document per
      page of the range, output i holding page startPage + i. */
  lemma RangeModeSplitsEachPage(doc: seq<Page>, startPage: int, endPage: int)
    requires 1 <= startPage && endPage <= |doc|
    ensures SplitDocument(doc, RangeModeRanges(startPage, endPage)).Ok?
    ensures |SplitDocument(doc, RangeModeRanges(startPage, endPage)).value| == Count(endPage - startPage + 1)
    ensures forall i :: 0 <= i < Count(endPage - startPage + 1) ==>
              SplitDocument(doc, RangeModeRanges(startPage, endPage)).value[i] == [doc[startPage - 1 + i]]
  {
    SingletonRangesSplit(doc, RangeModeRanges(startPage, endPage), startPage);
  }

  // ---------------------------------------------------------------------
  // The page number inputs

  /** `Math.max(1, Math.min(pageCount, parseInt(text) || 1))`: a typed page
      number, clamped into 1..pageCount; text that is not a number, and 0,
      read as 1. */
  function ClampPage(text: string, pageCount: int): (r: int)
    ensures r >= 1
    ensures pageCount >= 1 ==> r <= pageCount
    ensures ParseInt(text).None? ==> r == 1
    ensures ParseInt(text).Some? && 1 <= ParseInt(text).value <= pageCount ==> r == ParseInt(text).value
    ensures ParseInt(text).Some? && ParseInt(text).value > pageCount ==> r == if pageCount >= 1 then pageCount else 1
    ensures ParseInt(text).Some? && ParseInt(text).value < 1 ==> r == 1
  {
    var typed := match ParseInt(text) case Some(v) => if v == 0 then 1 else v case None => 1;
    var capped := if pageCount < typed then pageCount else typed;
    if capped < 1 then 1 else capped
  }

  /** With a loaded document, pages typed into both inputs always name a
      range `splitPDF` can serve. */
  lemma ClampedRangeSplits(doc: seq<Page>, startText: string, endText: string)
    requires |doc| >= 1
    ensures SplitDocument(doc, RangeModeRanges(ClampPage(startText, |doc|), ClampPage(endText, |doc|))).Ok?
  {
    RangeModeSplitsEachPage(doc, ClampPage(startText, |doc|), ClampPage(endText, |doc|));
  }

  // ---------------------------------------------------------------------
  // handleSplit

  /** `handleSplit`'s checks, in order: a file, then the rate limit. */
  function SplitGuard(hasFile: bool, rate: RateStatus): (d: Decision)
    ensures d.Proceed? <==> hasFile && rate.allowed
    ensures !hasFile ==> d == Refuse("Please select a PDF file")
    ensures hasFile ==> d == RateLimitGate(rate)
  {
    if !hasFile then Refuse("Please select a PDF file") else RateLimitGate(rate)
  }

  /** Why `handleSplit` produced no outputs: a check refused, or `splitPDF`
      threw (its message is pdf-lib's own). */
  datatype SplitFailure = Refused(message: string) | Failed(error: PdfError)

  /** What `handleSplit` does: a refusal, or the outputs of `splitPDF` for
      the form's ranges. */
  function HandleSplit(hasFile: bool, form: Form, doc: seq<Page>, rate: RateStatus): (r: Result<seq<seq<Page>>, SplitFailure>)
    ensures !SplitGuard(hasFile, rate).Proceed? ==> r == Err(Refused(SplitGuard(hasFile, rate).message))
    ensures SplitGuard(hasFile, rate).Proceed? ==>
              match SplitDocument(doc, Ranges(form))
              case Ok(outputs) => r == Ok(outputs)
              case Err(e) => r == Err(Failed(e))
  {
    match SplitGuard(hasFile, rate)
    case Refuse(message) => Err(Refused(message))
    case Proceed =>
      match SplitDocument(doc, Ranges(form))
      case Ok(outputs) => Ok(outputs)
      case Err(e) => Err(Failed(e))
  }

  // ---------------------------------------------------------------------
  // Output names

  /** `name.replace('.pdf', '')`: the first ".pdf" anywhere in the name is
      dropped. */
  function BaseName(name: string): string
  {
    ReplaceFirst(name, ".pdf", "")
  }

  /** The name of output `index` (zero-based): `<base>_page_<index + 1>.pdf`. */
  function OutputName(name: string, index: nat): string
  {
    BaseName(name) + "_page_" + NatToDecimal(index + 1) + ".pdf"
  }

  /** The names of the first `count` outputs. */
  function OutputNames(name: string, count: nat): (r: seq<string>)
    ensures |r| == count
    ensures forall i :: 0 <= i < count ==> r[i] == OutputName(name, i)
  {
    seq(count, i requires 0 <= i < count => OutputName(name, i))
  }

  /** The name of the archive holding all outputs. */
  function ZipName(name: string): string
  {
    BaseName(name) + "_split.zip"
  }

  /** The middle of two strings with the same prefix and suffix decides
      whether they are equal. */
  lemma SameFrame(a: string, x: string, y: string, c: string)
    requires a + x + c == a + y + c
    ensures x == y
  {
    var s := a + x + c;
    assert |x| == |y|;
    assert x == s[|a|..|a| + |x|];
    assert y == (a + y + c)[|a|..|a| + |y|];
  }

  /** No two outputs get the same name. */
  lemma OutputNamesDistinct(name: string, count: nat)
    ensures Distinct(OutputNames(name, count))
  {
    var names := OutputNames(name, count);
    forall i, j | 0 <= i < j < count ensures names[i] != names[j] {
      if names[i] == names[j] {
        var a := BaseName(name) + "_page_";
        assert a + NatToDecimal(i + 1) + ".pdf" == a + NatToDecimal(j + 1) + ".pdf";
        SameFrame(a, NatToDecimal(i + 1), NatToDecimal(j + 1), ".pdf");
        DecimalInjective(i + 1, j + 1);
      }
    }
  }

  /** Outputs are numbered by their position in the output list, not by the
      page they hold: in range mode output i holds page startPage + i but is
      named after i + 1. */
  lemma RangeOutputsNamedByPosition(doc: seq<Page>, name: string, startPage: int, endPage: int, i: nat)
    requires 1 <= startPage && endPage <= |doc|
    requires i < Count(endPage - startPage + 1)
    ensures SplitDocument(doc, RangeModeRanges(startPage, endPage)).Ok?
    ensures |SplitDocument(doc, RangeModeRanges(startPage, endPage)).value| == Count(endPage - startPage + 1)
    ensures SplitDocument(doc, RangeModeRanges(startPage, endPage)).value[i] == [doc[startPage - 1 + i]]
    ensures OutputNames(name, |SplitDocument(doc, RangeModeRanges(startPage, endPage)).value|)[i]
            == BaseName(name) + "_page_" + NatToDecimal(i + 1) + ".pdf"
  {
    RangeModeSplitsEachPage(doc, startPage, endPage);
  }
}
