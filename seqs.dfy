/** Sequence helpers shared by the models: concatenation of a list of lists,
    the sort that `Array.prototype.sort` performs with a numeric comparator,
    and removal of one position. */
module Seqs {

  /** Concatenation of `ss` in order (the `reduce`/spread of lists of pages or payloads). */
  function Flatten<T>(ss: seq<seq<T>>): seq<T>
  {
    if |ss| == 0 then [] else Flatten(ss[..|ss| - 1]) + ss[|ss| - 1]
  }

  /** Sum of the lengths of the lists in `ss`. */
  function TotalLen<T>(ss: seq<seq<T>>): nat
  {
    if |ss| == 0 then 0 else TotalLen(ss[..|ss| - 1]) + |ss[|ss| - 1]|
  }

  lemma {:induction false} FlattenLength<T>(ss: seq<seq<T>>)
    ensures |Flatten(ss)| == TotalLen(ss)
  {
    if |ss| > 0 {
      FlattenLength(ss[..|ss| - 1]);
    }
  }

  /** Extending the list by one element appends that element's contents. */
  lemma FlattenSnoc<T>(ss: seq<seq<T>>, i: nat)
    requires i < |ss|
    ensures Flatten(ss[..i + 1]) == Flatten(ss[..i]) + ss[i]
    ensures TotalLen(ss[..i + 1]) == TotalLen(ss[..i]) + |ss[i]|
  {
    assert ss[..i + 1][..i] == ss[..i];
  }

  /** The total length only grows when the prefix grows. */
  lemma {:induction false} TotalLenPrefix<T>(ss: seq<seq<T>>, i: nat)
    requires i <= |ss|
    ensures TotalLen(ss[..i]) <= TotalLen(ss)
  {
    if i < |ss| {
      var n := |ss| - 1;
      TotalLenPrefix(ss[..n], i);
      assert ss[..n][..i] == ss[..i];
      assert TotalLen(ss) == TotalLen(ss[..n]) + |ss[n]|;
    } else {
      assert ss[..i] == ss;
    }
  }

  /** The contents of `ss[i]` sit in `Flatten(ss)` right after those of the
      lists before it. */
  lemma {:induction false} FlattenAt<T>(ss: seq<seq<T>>, i: nat)
    requires i < |ss|
    ensures TotalLen(ss[..i]) + |ss[i]| <= |Flatten(ss)|
    ensures Flatten(ss)[TotalLen(ss[..i])..TotalLen(ss[..i]) + |ss[i]|] == ss[i]
  {
    var n := |ss| - 1;
    FlattenLength(ss);
    FlattenLength(ss[..n]);
    assert ss[..n + 1] == ss;
    FlattenSnoc(ss, n);
    if i == n {
    } else {
      FlattenAt(ss[..n], i);
      assert ss[..n][..i] == ss[..i];
      assert ss[..n][i] == ss[i];
    }
  }

  /** When every list has length `w`, the i-th list starts at `w * i`. */
  lemma {:induction false} TotalLenUniform<T>(ss: seq<seq<T>>, w: nat, i: nat)
    requires i <= |ss|
    requires forall k :: 0 <= k < |ss| ==> |ss[k]| == w
    ensures TotalLen(ss[..i]) == w * i
  {
    if i > 0 {
      TotalLenUniform(ss, w, i - 1);
      FlattenSnoc(ss, i - 1);
    }
  }

  /** Flattening distributes over concatenation of the outer list. */
  lemma {:induction false} FlattenAppend<T>(xs: seq<seq<T>>, ys: seq<seq<T>>)
    ensures Flatten(xs + ys) == Flatten(xs) + Flatten(ys)
  {
    if |ys| > 0 {
      var n := |ys| - 1;
      assert (xs + ys)[..|xs + ys| - 1] == xs + ys[..n];
      FlattenAppend(xs, ys[..n]);
    } else {
      assert xs + ys == xs;
    }
  }

  // ---------------------------------------------------------------------
  // Sorting by a numeric key: `xs.sort((a, b) => key(a) - key(b))`.

  /** Ascending order of the keys. */
  ghost predicate SortedBy<T>(xs: seq<T>, key: T -> int)
  {
    forall i, j :: 0 <= i < j < |xs| ==> key(xs[i]) <= key(xs[j])
  }

  function Identity(x: int): int { x }

  function Negate(x: int): int { -x }

  /** Inserts `x` after every element whose key is at most `key(x)`, which
      keeps the sort stable. */
  function Insert<T>(x: T, ys: seq<T>, key: T -> int): (r: seq<T>)
    requires SortedBy(ys, key)
    ensures multiset(r) == multiset(ys) + multiset{x}
    ensures SortedBy(r, key)
  {
    if |ys| == 0 then [x]
    else if key(x) < key(ys[0]) then [x] + ys
    else
      var rest := Insert(x, ys[1..], key);
      InsertBehind(x, ys, rest, key);
      [ys[0]] + rest
  }

  /** The head of a sorted list, placed before the sorted insertion of `x` into
      its tail, keeps the list sorted. */
  lemma InsertBehind<T>(x: T, ys: seq<T>, rest: seq<T>, key: T -> int)
    requires |ys| > 0 && SortedBy(ys, key) && key(ys[0]) <= key(x)
    requires multiset(rest) == multiset(ys[1..]) + multiset{x}
    requires SortedBy(rest, key)
    ensures multiset([ys[0]] + rest) == multiset(ys) + multiset{x}
    ensures SortedBy([ys[0]] + rest, key)
  {
    assert ys == [ys[0]] + ys[1..];
    forall k | 0 <= k < |rest| ensures key(ys[0]) <= key(rest[k]) {
      assert rest[k] in multiset(rest);
      if rest[k] != x {
        assert rest[k] in multiset(ys[1..]);
        var j :| 0 <= j < |ys[1..]| && ys[1..][j] == rest[k];
        assert ys[j + 1] == rest[k];
      }
    }
  }

  /** The result of `Array.prototype.sort` with the comparator
      `(a, b) => key(a) - key(b)`: a stable insertion sort. The contract
      states order and permutation only; stability (elements with equal keys
      keep their input order) follows from `Insert` but is not stated. */
  function SortBy<T>(xs: seq<T>, key: T -> int): (r: seq<T>)
    ensures multiset(r) == multiset(xs)
    ensures SortedBy(r, key)
    ensures |r| == |xs|
  {
    if |xs| == 0 then []
    else
      var n := |xs| - 1;
      assert xs == xs[..n] + [xs[n]];
      var r := Insert(xs[n], SortBy(xs[..n], key), key);
      assert |r| == |multiset(r)|;
      r
  }

  /** No value occurs twice. */
  predicate Distinct<T(==)>(xs: seq<T>)
  {
    forall i, j :: 0 <= i < j < |xs| ==> xs[i] != xs[j]
  }

  predicate StrictlyIncreasing(xs: seq<int>)
  {
    forall i, j :: 0 <= i < j < |xs| ==> xs[i] < xs[j]
  }

  /** Sorting keeps the values distinct. */
  lemma SortDistinct<T>(xs: seq<T>, key: T -> int)
    requires Distinct(xs)
    ensures Distinct(SortBy(xs, key))
  {
    var r := SortBy(xs, key);
    forall i, j | 0 <= i < j < |r| ensures r[i] != r[j] {
      if r[i] == r[j] {
        MultisetTwice(r, i, j);
        DistinctMultiset(xs, r[i]);
        assert false;
      }
    }
  }

  /** A value at two positions occurs at least twice. */
  lemma {:induction false} MultisetTwice<T>(xs: seq<T>, i: nat, j: nat)
    requires i < j < |xs| && xs[i] == xs[j]
    ensures multiset(xs)[xs[i]] >= 2
  {
    var a, b, c := xs[..i], xs[i..j], xs[j..];
    assert xs == a + b + c;
    assert b[0] == xs[i] && c[0] == xs[j];
    assert b == [b[0]] + b[1..];
    assert c == [c[0]] + c[1..];
    assert multiset(b)[xs[i]] >= 1;
    assert multiset(c)[xs[i]] >= 1;
  }

  /** In a list of distinct values every value occurs at most once. */
  lemma {:induction false} DistinctMultiset<T>(xs: seq<T>, v: T)
    requires Distinct(xs)
    ensures multiset(xs)[v] <= 1
  {
    if |xs| > 0 {
      assert xs == [xs[0]] + xs[1..];
      DistinctMultiset(xs[1..], v);
      if v == xs[0] {
        assert v !in xs[1..];
      }
    }
  }

  // ---------------------------------------------------------------------
  // Removal of one position: `list.filter((_, i) => i !== index)`.

  function RemoveAt<T>(xs: seq<T>, i: nat): (r: seq<T>)
    requires i < |xs|
    ensures |r| == |xs| - 1
    ensures forall k :: 0 <= k < i ==> r[k] == xs[k]
    ensures forall k :: i <= k < |r| ==> r[k] == xs[k + 1]
  {
    xs[..i] + xs[i + 1..]
  }

  /** Removing a position takes exactly that element out of the multiset. */
  lemma RemoveAtMultiset<T>(xs: seq<T>, i: nat)
    requires i < |xs|
    ensures multiset(xs) == multiset(RemoveAt(xs, i)) + multiset{xs[i]}
  {
    assert xs == xs[..i] + [xs[i]] + xs[i + 1..];
  }

  /** Inserting at a position adds exactly that element to the multiset. */
  lemma InsertAtMultiset<T>(xs: seq<T>, i: nat, x: T)
    requires i <= |xs|
    ensures multiset(xs[..i] + [x] + xs[i..]) == multiset(xs) + multiset{x}
  {
    assert xs == xs[..i] + xs[i..];
  }
}
