/** The page-list parser and the delete guards of the delete-pages tool
    (app/tools/delete-pages/page.tsx). */
module DeletePages {
  import opened Wrappers
  import opened Seqs
  import opened JsText
  import opened Utils
  import opened PdfUtils

  /** `input.split(',').map(p => p.trim())`. */
  function Parts(input: string): (r: seq<string>)
    ensures |r| == |Split(input, ',')|
    ensures forall j :: 0 <= j < |r| ==> r[j] == Trim(Split(input, ',')[j])
  {
    var ps := Split(input, ',');
    seq(|ps|, j requires 0 <= j < |ps| => Trim(ps[j]))
  }

  /** What one part asks for. */
  datatype Request = Span(first: int, last: int) | Single(page: int) | Nothing

  /** A part holding '-' is a range made of its first two '-'-separated
      fields, dropped unless both parse as numbers; any other part is a
      single page, dropped unless it parses. */
  function Interpret(part: string): Request
  {
    if '-' in part then
      var fields := Split(part, '-');
      match (ParseInt(Trim(fields[0])), ParseInt(Trim(fields[1])))
      case (Some(a), Some(b)) => Span(a, b)
      case _ => Nothing
    else
      match ParseInt(part)
      case Some(p) => Single(p)
      case None => Nothing
  }

  /** What each part of the input asks for, in order. */
  function Requests(input: string): (r: seq<Request>)
    ensures |r| == |Parts(input)|
    ensures forall j :: 0 <= j < |r| ==> r[j] == Interpret(Parts(input)[j])
  {
    var parts := Parts(input);
    seq(|parts|, j requires 0 <= j < |parts| => Interpret(parts[j]))
  }

  /** The request names the one-based page `p`. */
  predicate Names(req: Request, p: int)
  {
    match req
    case Span(a, b) => a <= p <= b
    case Single(q) => q == p
    case Nothing => false
  }

  /** Some request among the first `j` names page `p`. */
  predicate NamedBefore(reqs: seq<Request>, j: nat, p: int)
    requires j <= |reqs|
  {
    j > 0 && (NamedBefore(reqs, j - 1, p) || Names(reqs[j - 1], p))
  }

  lemma {:induction false} NamedBeforeExists(reqs: seq<Request>, j: nat, p: int)
    requires j <= |reqs|
    ensures NamedBefore(reqs, j, p) <==> exists jj :: 0 <= jj < j && Names(reqs[jj], p)
  {
    if j > 0 {
      NamedBeforeExists(reqs, j - 1, p);
    }
  }

  /** `pages` is the ascending list, without repeats, of the zero-based
      indices of the pages in 1..pageCount that some request names. */
  ghost predicate Selects(reqs: seq<Request>, pageCount: int, pages: seq<int>)
  {
    StrictlyIncreasing(pages) &&
    forall k :: k in pages <==>
      0 <= k < pageCount && exists j :: 0 <= j < |reqs| && Names(reqs[j], k + 1)
  }

  /** `parsePageNumbers`: the pages that some part of the input names. */
  method ParsePageNumbers(input: string, pageCount: int) returns (pages: seq<int>)
    ensures Selects(Requests(input), pageCount, pages)
  {
    pages := CollectPages(Requests(input), pageCount);
  }

  /** The loop of `parsePageNumbers` over the interpreted parts: each page
      named once, then sorted. */
  method CollectPages(reqs: seq<Request>, pageCount: int) returns (pages: seq<int>)
    ensures Selects(reqs, pageCount, pages)
  {
    var found: seq<int> := [];
    for j := 0 to |reqs|
      invariant Distinct(found)
      invariant forall k :: k in found <==> 0 <= k < pageCount && NamedBefore(reqs, j, k + 1)
    {
      match reqs[j]
      case Span(start, end) =>
        var i := start;
        while i <= end
          invariant start <= i && (i <= end + 1 || i == start)
          invariant Distinct(found)
          invariant forall k :: k in found <==>
                      0 <= k < pageCount && (NamedBefore(reqs, j, k + 1) || start <= k + 1 < i)
          decreases end - i
        {
          found := PushPage(found, i, pageCount);
          i := i + 1;
        }
      case Single(page) =>
        found := PushPage(found, page, pageCount);
      case Nothing =>
    }
    pages := SortPages(found);
    forall p {
      NamedBeforeExists(reqs, |reqs|, p);
    }
  }

  /** One step of the loop: the zero-based index of page `p` is appended
      when `p` is in 1..pageCount and not there yet. */
  method PushPage(found: seq<int>, p: int, pageCount: int) returns (r: seq<int>)
    requires Distinct(found)
    ensures Distinct(r)
    ensures forall k :: k in r <==> k in found || (k == p - 1 && 1 <= p <= pageCount)
  {
    r := found;
    if p >= 1 && p <= pageCount && !(p - 1 in found) {
      r := found + [p - 1];
    }
  }

  /** `pages.sort((a, b) => a - b)` on a list without repeats. */
  method SortPages(found: seq<int>) returns (pages: seq<int>)
    requires Distinct(found)
    ensures StrictlyIncreasing(pages)
    ensures forall k :: k in pages <==> k in found
  {
    pages := SortBy(found, Identity);
    SortDistinct(found, Identity);
    forall k ensures k in pages <==> k in found {
      assert k in pages <==> k in multiset(pages);
      assert k in found <==> k in multiset(found);
    }
  }

  /** A decimal page number names exactly that page. */
  lemma PlainNumberPart(p: nat)
    ensures Interpret(NatToDecimal(p)) == Single(p)
  {
    var d := NatToDecimal(p);
    assert '-' !in d by {
      assert forall k :: 0 <= k < |d| ==> IsDigit(d[k], 10);
    }
    ParseDecimal(p);
  }

  /** Text without white space at either end is left alone by trim. */
  lemma TrimUnchanged(s: string)
    requires |s| > 0 && !IsWhite(s[0]) && !IsWhite(s[|s| - 1])
    ensures Trim(s) == s
  {
    assert TrimStart(s) == s;
  }

  /** A number written in decimal holds no '-' and parses back, trimmed
      or not. */
  lemma DecimalField(n: nat)
    ensures '-' !in NatToDecimal(n)
    ensures ParseInt(Trim(NatToDecimal(n))) == Some(n)
  {
    var d := NatToDecimal(n);
    assert forall k :: 0 <= k < |d| ==> IsDigit(d[k], 10);
    TrimUnchanged(d);
    ParseDecimal(n);
  }

  /** The first two '-'-separated fields of "x-y…" are x and y. */
  lemma RangeFields(x: string, y: string, tail: string)
    requires '-' !in x && '-' !in y
    requires tail == "" || tail[0] == '-'
    ensures '-' in x + "-" + y + tail
    ensures |Split(x + "-" + y + tail, '-')| >= 2
    ensures Split(x + "-" + y + tail, '-')[0] == x
    ensures Split(x + "-" + y + tail, '-')[1] == y
  {
    var part := x + "-" + y + tail;
    assert part[|x|] == '-';
    assert part == x + ['-'] + (y + tail);
    SplitFirst(x, '-', y + tail);
    SplitHead(y, '-', tail);
  }

  /** "a-b" names the pages a..b (none when a > b); fields after the
      second are ignored, so "a-b-c" is read the same way. */
  lemma RangePart(a: nat, b: nat, tail: string)
    requires tail == "" || tail[0] == '-'
    ensures Interpret(NatToDecimal(a) + "-" + NatToDecimal(b) + tail) == Span(a, b)
  {
    DecimalField(a);
    DecimalField(b);
    RangeFields(NatToDecimal(a), NatToDecimal(b), tail);
  }

  /** A part such as "-3" is read as a range with an empty start and is
      dropped. */
  lemma LeadingDashDropped()
    ensures Interpret("-3") == Nothing
  {
    assert IndexOf("-3", '-') == 0;
    assert Split("-3", '-')[0] == "";
  }

  /** `handleDelete`'s checks, in order: a file, a non-empty selection, a
      selection that leaves a page, then the rate limit. */
  function DeleteGuard(hasFile: bool, pagesToDelete: seq<int>, pageCount: int, rate: RateStatus): (d: Decision)
    ensures d.Proceed? <==> hasFile && 0 < |pagesToDelete| < pageCount && rate.allowed
    ensures !hasFile ==> d == Refuse("Please select a PDF file")
    ensures hasFile && |pagesToDelete| == 0 ==> d == Refuse("Please specify pages to delete")
    ensures hasFile && 0 < |pagesToDelete| && |pagesToDelete| >= pageCount ==> d == Refuse("Cannot delete all pages")
    ensures hasFile && 0 < |pagesToDelete| < pageCount ==> d == RateLimitGate(rate)
  {
    if !hasFile then Refuse("Please select a PDF file")
    else if |pagesToDelete| == 0 then Refuse("Please specify pages to delete")
    else if |pagesToDelete| >= pageCount then Refuse("Cannot delete all pages")
    else RateLimitGate(rate)
  }

  /** Deleting a parsed selection that the guard lets through removes
      exactly the selected pages and never empties the document. */
  lemma DeleteLeavesPages(doc: seq<Page>, pages: seq<int>, rate: RateStatus)
    requires StrictlyIncreasing(pages)
    requires forall i :: 0 <= i < |pages| ==> 0 <= pages[i] < |doc|
    requires DeleteGuard(true, pages, |doc|, rate).Proceed?
    ensures RemoveEach(doc, SortBy(pages, Negate)) == Ok(Keep(doc, set x | x in pages))
    ensures |Keep(doc, set x | x in pages)| >= 1
  {
    DeleteIsFilter(doc, pages);
  }
}
