/** The image-to-ico tool (app/tools/image-to-ico/page.tsx): the list of
    selected icon sizes, how a click on a size changes it, and the checks
    before converting. */
module ImageToIcoTool {
  import opened Seqs
  import opened Utils
  import opened ImageUtils

  /** The selection the page starts with: 16×16, 32×32 and 48×48. */
  const InitialSizes: seq<IcoSize> := [IcoSize(16, 16), IcoSize(32, 32), IcoSize(48, 48)]

  /** `isSizeSelected`: some entry has the size's width and height. */
  function IsSizeSelected(selected: seq<IcoSize>, size: IcoSize): (r: bool)
    ensures r <==> exists i :: 0 <= i < |selected| && selected[i].width == size.width && selected[i].height == size.height
  {
    if |selected| == 0 then false
    else
      var n := |selected| - 1;
      var r := IsSizeSelected(selected[..n], size) || (selected[n].width == size.width && selected[n].height == size.height);
      assert selected == selected[..n] + [selected[n]];
      r
  }

  /** The width, the sort key of the selection. */
  function Width(size: IcoSize): int
  {
    size.width
  }

  /** `prev.filter(s => !(s.width === size.width && s.height === size.height))`. */
  function WithoutSize(prev: seq<IcoSize>, size: IcoSize): (r: seq<IcoSize>)
    ensures |r| <= |prev|
  {
    if |prev| == 0 then []
    else
      var n := |prev| - 1;
      WithoutSize(prev[..n], size) + (if prev[n] == size then [] else [prev[n]])
  }

  /** `toggleSize`: a selected size is removed unless it is the only entry;
      an unselected one is added and the list sorted by width. */
  function ToggleSize(prev: seq<IcoSize>, size: IcoSize): seq<IcoSize>
  {
    if IsSizeSelected(prev, size) then
      if |prev| == 1 then prev else WithoutSize(prev, size)
    else
      SortBy(prev + [size], Width)
  }

  /** Removing a size keeps every other entry, in order, and drops every
      entry of that size. */
  lemma {:induction false} WithoutSizeMembers(prev: seq<IcoSize>, size: IcoSize)
    ensures forall s :: s in WithoutSize(prev, size) <==> s in prev && s != size
  {
    if |prev| > 0 {
      var n := |prev| - 1;
      WithoutSizeMembers(prev[..n], size);
      assert prev == prev[..n] + [prev[n]];
    }
  }

  /** Filtering keeps the remaining entries in their order, so a list sorted
      by width stays sorted. */
  lemma {:induction false} WithoutSizeSorted(prev: seq<IcoSize>, size: IcoSize)
    requires SortedBy(prev, Width)
    ensures SortedBy(WithoutSize(prev, size), Width)
  {
    if |prev| > 0 {
      var n := |prev| - 1;
      assert SortedBy(prev[..n], Width);
      WithoutSizeSorted(prev[..n], size);
      WithoutSizeMembers(prev[..n], size);
      var r := WithoutSize(prev[..n], size);
      forall k | 0 <= k < |r| ensures Width(r[k]) <= Width(prev[n]) {
        assert r[k] in prev[..n];
      }
    }
  }

  /** A selection with no size twice loses only the toggled size's entry. */
  lemma {:induction false} WithoutSizeDistinct(prev: seq<IcoSize>, size: IcoSize)
    requires Distinct(prev)
    ensures Distinct(WithoutSize(prev, size))
  {
    if |prev| > 0 {
      var n := |prev| - 1;
      WithoutSizeDistinct(prev[..n], size);
      WithoutSizeMembers(prev[..n], size);
      var r := WithoutSize(prev[..n], size);
      forall k | 0 <= k < |r| ensures r[k] != prev[n] {
        assert r[k] in prev[..n];
      }
    }
  }

  /** In a list without repeats, a present size is one entry of it: the
      filter removes exactly one. */
  lemma {:induction false} WithoutSizeLength(prev: seq<IcoSize>, size: IcoSize)
    requires Distinct(prev) && size in prev
    ensures |WithoutSize(prev, size)| == |prev| - 1
  {
    var n := |prev| - 1;
    assert prev == prev[..n] + [prev[n]];
    if prev[n] == size {
      assert size !in prev[..n];
      WithoutSizeUnchanged(prev[..n], size);
    } else {
      WithoutSizeLength(prev[..n], size);
    }
  }

  /** Removing a size that is not there changes nothing. */
  lemma {:induction false} WithoutSizeUnchanged(prev: seq<IcoSize>, size: IcoSize)
    requires size !in prev
    ensures WithoutSize(prev, size) == prev
  {
    if |prev| > 0 {
      var n := |prev| - 1;
      assert prev == prev[..n] + [prev[n]];
      WithoutSizeUnchanged(prev[..n], size);
    }
  }

  /** Being selected is being an entry of the list. */
  lemma SelectedIsMember(selected: seq<IcoSize>, size: IcoSize)
    ensures IsSizeSelected(selected, size) <==> size in selected
  {
    if IsSizeSelected(selected, size) {
      var i :| 0 <= i < |selected| && selected[i].width == size.width && selected[i].height == size.height;
      assert selected[i] == size;
    }
  }

  /** A selection the page can reach: sizes without repeats, sorted by width,
      never empty. */
  ghost predicate WellFormed(selected: seq<IcoSize>)
  {
    |selected| > 0 && Distinct(selected) && SortedBy(selected, Width)
  }

  lemma InitialWellFormed()
    ensures WellFormed(InitialSizes)
  {
  }

  /** Toggling keeps the selection well formed: in particular it never
      empties it, and a newly added size lands in width order. */
  lemma ToggleWellFormed(prev: seq<IcoSize>, size: IcoSize)
    requires WellFormed(prev)
    ensures WellFormed(ToggleSize(prev, size))
  {
    SelectedIsMember(prev, size);
    if size in prev {
      if |prev| > 1 {
        WithoutSizeDistinct(prev, size);
        WithoutSizeSorted(prev, size);
        WithoutSizeLength(prev, size);
      }
    } else {
      var added := prev + [size];
      assert Distinct(added);
      SortDistinct(added, Width);
    }
  }

  /** After a toggle the clicked size's selection has flipped, unless it was
      the only entry, which stays; every other size keeps its state. */
  lemma ToggleFlips(prev: seq<IcoSize>, size: IcoSize, other: IcoSize)
    requires other != size
    ensures prev == [size] ==> ToggleSize(prev, size) == prev
    ensures prev != [size] ==>
              IsSizeSelected(ToggleSize(prev, size), size) == !IsSizeSelected(prev, size)
    ensures IsSizeSelected(ToggleSize(prev, size), other) == IsSizeSelected(prev, other)
  {
    var r := ToggleSize(prev, size);
    SelectedIsMember(prev, size);
    SelectedIsMember(prev, other);
    SelectedIsMember(r, size);
    SelectedIsMember(r, other);
    if size in prev {
      if |prev| == 1 {
        assert prev == [size];
      } else {
        WithoutSizeMembers(prev, size);
      }
    } else {
      var added := prev + [size];
      assert size in multiset(SortBy(added, Width));
      assert other in added <==> other in multiset(SortBy(added, Width));
    }
  }

  /** The sizes a sequence of clicks, starting from the initial selection,
      leaves selected. */
  function AfterClicks(clicks: seq<IcoSize>): seq<IcoSize>
  {
    if |clicks| == 0 then InitialSizes
    else ToggleSize(AfterClicks(clicks[..|clicks| - 1]), clicks[|clicks| - 1])
  }

  /** Every selection the page can reach is well formed, so the convert
      button never sees an empty list after the first load. */
  lemma {:induction false} ReachableWellFormed(clicks: seq<IcoSize>)
    ensures WellFormed(AfterClicks(clicks))
  {
    if |clicks| == 0 {
      InitialWellFormed();
    } else {
      ReachableWellFormed(clicks[..|clicks| - 1]);
      ToggleWellFormed(AfterClicks(clicks[..|clicks| - 1]), clicks[|clicks| - 1]);
    }
  }

  /** Clicking only the offered sizes keeps every dimension in 1..256, the
      range in which the ICO writer stores sizes faithfully. */
  lemma {:induction false} OfferedSizesInRange(clicks: seq<IcoSize>)
    requires forall i :: 0 <= i < |clicks| ==> clicks[i] in CommonIcoSizes
    ensures forall s :: s in AfterClicks(clicks) ==> 1 <= s.width <= 256 && 1 <= s.height <= 256
  {
    if |clicks| > 0 {
      var n := |clicks| - 1;
      OfferedSizesInRange(clicks[..n]);
      ToggleKeepsInRange(AfterClicks(clicks[..n]), clicks[n]);
    }
  }

  /** Toggling an offered size into a selection of sizes in 1..256 keeps
      every size in 1..256. */
  lemma ToggleKeepsInRange(prev: seq<IcoSize>, size: IcoSize)
    requires size in CommonIcoSizes
    requires forall s :: s in prev ==> 1 <= s.width <= 256 && 1 <= s.height <= 256
    ensures forall s :: s in ToggleSize(prev, size) ==> 1 <= s.width <= 256 && 1 <= s.height <= 256
  {
    assert 1 <= size.width <= 256 && 1 <= size.height <= 256;
    var r := ToggleSize(prev, size);
    ToggleMembers(prev, size);
    forall s | s in r
      ensures 1 <= s.width <= 256 && 1 <= s.height <= 256
    {
      assert s in prev || s == size;
    }
  }

  /** A toggle adds no size other than the clicked one. */
  lemma ToggleMembers(prev: seq<IcoSize>, size: IcoSize)
    ensures forall s :: s in ToggleSize(prev, size) ==> s in prev || s == size
  {
    SelectedIsMember(prev, size);
    if size in prev {
      WithoutSizeMembers(prev, size);
    } else {
      var added := prev + [size];
      forall s | s in SortBy(added, Width) ensures s in added {
        assert s in multiset(SortBy(added, Width));
      }
    }
  }

  /** An icon built for a selection reached by clicking offered sizes reads
      back with exactly those sizes, in the selection's order. */
  lemma SelectedSizesReadBack(clicks: seq<IcoSize>, images: seq<seq<byte>>)
    requires forall i :: 0 <= i < |clicks| ==> clicks[i] in CommonIcoSizes
    requires |images| == |AfterClicks(clicks)| && |images| < 0x1_0000
    requires 6 + 16 * |images| + TotalLen(images) < 0x1_0000_0000
    ensures ReadIco(IcoFile(images, AfterClicks(clicks))).Ok?
    ensures |ReadIco(IcoFile(images, AfterClicks(clicks))).value| == |images|
    ensures forall i :: 0 <= i < |images| ==>
              var image := ReadIco(IcoFile(images, AfterClicks(clicks))).value[i];
              IcoSize(image.width, image.height) == AfterClicks(clicks)[i] && image.data == images[i]
  {
    var sizes := AfterClicks(clicks);
    OfferedSizesInRange(clicks);
    forall i | 0 <= i < |images| ensures 1 <= sizes[i].width <= 256 && 1 <= sizes[i].height <= 256 {
      assert sizes[i] in sizes;
    }
    RoundTrip(images, sizes);
  }

  // ---------------------------------------------------------------------
  // handleConvert

  /** `handleConvert`'s checks, in order: a file, a non-empty size list,
      then the rate limit. */
  function ConvertGuard(hasFile: bool, sizes: seq<IcoSize>, rate: RateStatus): (d: Decision)
    ensures d.Proceed? <==> hasFile && |sizes| > 0 && rate.allowed
    ensures !hasFile ==> d == Refuse("Please select an image file")
    ensures hasFile && |sizes| == 0 ==> d == Refuse("Please select at least one icon size")
    ensures hasFile && |sizes| > 0 ==> d == RateLimitGate(rate)
  {
    if !hasFile then Refuse("Please select an image file")
    else if |sizes| == 0 then Refuse("Please select at least one icon size")
    else RateLimitGate(rate)
  }
}
