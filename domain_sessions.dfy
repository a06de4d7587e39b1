/** domain/sessions.go: the older SortSessionsByTime, a hand-written quicksort
    that reorders a slice in place over index ranges, earliest expiry first.
    Its Session record has the same fields as internal/domain's, so the model
    shares that datatype and its key (ExpiresAt.Unix()). */
module DomainSessions {
  import opened InternalDomainSessions

  /** Non-decreasing in the key: earliest expiry first. */
  ghost predicate SortedAscending(s: seq<Session>)
  {
    forall i, j :: 0 <= i < j < |s| ==> Key(s[i]) <= Key(s[j])
  }

  /** The `less` slice of lines 21-27: in their original order, the sessions
      whose key does not exceed the pivot's (equal keys go left). */
  function Lesser(s: seq<Session>, pivot: int): (r: seq<Session>)
    ensures |r| <= |s|
  {
    if |s| == 0 then []
    else if Key(s[0]) <= pivot then [s[0]] + Lesser(s[1..], pivot)
    else Lesser(s[1..], pivot)
  }

  /** The `greater` slice: in their original order, the sessions whose key is
      strictly above the pivot's. */
  function Greater(s: seq<Session>, pivot: int): (r: seq<Session>)
    ensures |r| <= |s|
  {
    if |s| == 0 then []
    else if Key(s[0]) > pivot then [s[0]] + Greater(s[1..], pivot)
    else Greater(s[1..], pivot)
  }

  /** One more session scanned by the loop of lines 21-27 is appended to the
      side its key sends it to. */
  lemma {:induction false} LesserSnoc(s: seq<Session>, x: Session, pivot: int)
    ensures Key(x) <= pivot ==> Lesser(s + [x], pivot) == Lesser(s, pivot) + [x]
    ensures Key(x) > pivot ==> Lesser(s + [x], pivot) == Lesser(s, pivot)
  {
    if |s| == 0 {
      assert [x][1..] == [];
    } else {
      LesserSnoc(s[1..], x, pivot);
      assert (s + [x])[1..] == s[1..] + [x];
    }
  }

  lemma {:induction false} GreaterSnoc(s: seq<Session>, x: Session, pivot: int)
    ensures Key(x) > pivot ==> Greater(s + [x], pivot) == Greater(s, pivot) + [x]
    ensures Key(x) <= pivot ==> Greater(s + [x], pivot) == Greater(s, pivot)
  {
    if |s| == 0 {
      assert [x][1..] == [];
    } else {
      GreaterSnoc(s[1..], x, pivot);
      assert (s + [x])[1..] == s[1..] + [x];
    }
  }

  /** Everything sent left has a key at most the pivot's (line 22's strict
      comparison sends equal keys left). */
  lemma {:induction false} LesserBound(s: seq<Session>, pivot: int)
    ensures forall i :: 0 <= i < |Lesser(s, pivot)| ==> Key(Lesser(s, pivot)[i]) <= pivot
  {
    if |s| > 0 {
      LesserBound(s[1..], pivot);
    }
  }

  /** Everything sent right has a key strictly above the pivot's. */
  lemma {:induction false} GreaterBound(s: seq<Session>, pivot: int)
    ensures forall i :: 0 <= i < |Greater(s, pivot)| ==> Key(Greater(s, pivot)[i]) > pivot
  {
    if |s| > 0 {
      GreaterBound(s[1..], pivot);
    }
  }

  /** What quickSortSessions leaves in a range holding s: the first element
      is the pivot, the rest are split into Lesser and Greater, and each side
      is sorted the same way. */
  function QuickSort(s: seq<Session>): (r: seq<Session>)
    ensures |r| == |s|
    decreases |s|
  {
    if |s| <= 1 then s
    else
      var pivot := s[0];
      PartitionLength(s[1..], Key(pivot));
      QuickSort(Lesser(s[1..], Key(pivot))) + [pivot] + QuickSort(Greater(s[1..], Key(pivot)))
  }

  /** The two sides of a partition together hold exactly the partitioned
      sessions. */
  lemma {:induction false} PartitionSplits(s: seq<Session>, pivot: int)
    ensures multiset(Lesser(s, pivot)) + multiset(Greater(s, pivot)) == multiset(s)
  {
    if |s| > 0 {
      PartitionSplits(s[1..], pivot);
      assert s == [s[0]] + s[1..];
    }
  }

  /** Hence no session is lost or duplicated: the sides fill the range
      minus the pivot slot. */
  lemma PartitionLength(s: seq<Session>, pivot: int)
    ensures |Lesser(s, pivot)| + |Greater(s, pivot)| == |s|
  {
    PartitionSplits(s, pivot);
    assert |multiset(Lesser(s, pivot)) + multiset(Greater(s, pivot))| == |multiset(s)|;
  }

  /** The sort is a permutation of its input. */
  lemma {:induction false} QuickSortPermutes(s: seq<Session>)
    ensures multiset(QuickSort(s)) == multiset(s)
    decreases |s|
  {
    if |s| > 1 {
      var pivot := s[0];
      var rest := s[1..];
      var lo, hi := Lesser(rest, Key(pivot)), Greater(rest, Key(pivot));
      QuickSortPermutes(lo);
      QuickSortPermutes(hi);
      PartitionSplits(rest, Key(pivot));
      QuickSortStep(s);
      assert multiset(QuickSort(s)) == multiset(QuickSort(lo)) + multiset{pivot} + multiset(QuickSort(hi));
      assert s == [pivot] + rest;
    }
  }

  /** The sort leaves its input earliest expiry first. */
  lemma {:induction false} QuickSortSorted(s: seq<Session>)
    ensures SortedAscending(QuickSort(s))
    decreases |s|
  {
    if |s| > 1 {
      var pivot := s[0];
      var lo := Lesser(s[1..], Key(pivot));
      var hi := Greater(s[1..], Key(pivot));
      QuickSortSorted(lo);
      QuickSortSorted(hi);
      QuickSortPermutes(lo);
      QuickSortPermutes(hi);
      LesserBound(s[1..], Key(pivot));
      GreaterBound(s[1..], Key(pivot));
      KeysBoundedByPermutation(lo, QuickSort(lo), Key(pivot));
      KeysAboveByPermutation(hi, QuickSort(hi), Key(pivot));
      SortedAroundPivot(QuickSort(lo), pivot, QuickSort(hi));
    }
  }

  lemma KeysBoundedByPermutation(s: seq<Session>, t: seq<Session>, bound: int)
    requires multiset(t) == multiset(s)
    requires forall i :: 0 <= i < |s| ==> Key(s[i]) <= bound
    ensures forall i :: 0 <= i < |t| ==> Key(t[i]) <= bound
  {
    forall i | 0 <= i < |t| ensures Key(t[i]) <= bound {
      assert t[i] in multiset(s);
    }
  }

  lemma KeysAboveByPermutation(s: seq<Session>, t: seq<Session>, bound: int)
    requires multiset(t) == multiset(s)
    requires forall i :: 0 <= i < |s| ==> Key(s[i]) > bound
    ensures forall i :: 0 <= i < |t| ==> Key(t[i]) > bound
  {
    forall i | 0 <= i < |t| ensures Key(t[i]) > bound {
      assert t[i] in multiset(s);
    }
  }

  /** A sorted left side whose keys do not exceed the pivot's, the pivot, then
      a sorted right side whose keys exceed it: sorted. */
  lemma SortedAroundPivot(l: seq<Session>, pivot: Session, h: seq<Session>)
    requires SortedAscending(l) && SortedAscending(h)
    requires forall i :: 0 <= i < |l| ==> Key(l[i]) <= Key(pivot)
    requires forall i :: 0 <= i < |h| ==> Key(h[i]) > Key(pivot)
    ensures SortedAscending(l + [pivot] + h)
  {
    var r := l + [pivot] + h;
    forall i, j | 0 <= i < j < |r| ensures Key(r[i]) <= Key(r[j]) {
      if j < |l| {
        assert r[i] == l[i] && r[j] == l[j];
      } else if i > |l| {
        assert r[i] == h[i - |l| - 1] && r[j] == h[j - |l| - 1];
      } else if i < |l| {
        assert r[i] == l[i];
        if j > |l| { assert r[j] == h[j - |l| - 1]; }
      } else {
        assert r[j] == h[j - |l| - 1];
      }
    }
  }

  /** The range partitioned as lines 19-34 leave it: less, pivot, greater. */
  function Partitioned(s: seq<Session>): (r: seq<Session>)
    requires |s| >= 1
    ensures |r| == |s|
  {
    PartitionLength(s[1..], Key(s[0]));
    Lesser(s[1..], Key(s[0])) + [s[0]] + Greater(s[1..], Key(s[0]))
  }

  /** x with src written over it from index at on, one element at a time. */
  ghost function Overwrite(x: seq<Session>, at: nat, src: seq<Session>): (r: seq<Session>)
    requires at + |src| <= |x|
    ensures |r| == |x|
    decreases |src|
  {
    if |src| == 0 then x else Overwrite(x[at := src[0]], at + 1, src[1..])
  }

  lemma {:induction false} OverwriteIndex(x: seq<Session>, at: nat, src: seq<Session>)
    requires at + |src| <= |x|
    ensures forall k :: 0 <= k < |x| ==>
              Overwrite(x, at, src)[k] == if at <= k < at + |src| then src[k - at] else x[k]
    decreases |src|
  {
    if |src| > 0 {
      OverwriteIndex(x[at := src[0]], at + 1, src[1..]);
    }
  }

  /** Overwriting a range with what it holds changes nothing. */
  lemma OverwriteSame(x: seq<Session>, at: nat, end: nat)
    requires at <= end <= |x|
    ensures Overwrite(x, at, x[at..end]) == x
  {
    OverwriteIndex(x, at, x[at..end]);
  }

  /** Two adjacent writes are one write of both. */
  lemma OverwriteTwice(x: seq<Session>, at: nat, u: seq<Session>, v: seq<Session>)
    requires at + |u| + |v| <= |x|
    ensures at + |u| + |v| <= |Overwrite(x, at, u)|
    ensures Overwrite(Overwrite(x, at, u), at + |u|, v) == Overwrite(x, at, u + v)
  {
    OverwriteIndex(x, at, u);
    OverwriteIndex(Overwrite(x, at, u), at + |u|, v);
    OverwriteIndex(x, at, u + v);
  }

  /** Array element assignment is a one-element write. */
  lemma UpdateIsOverwrite(x: seq<Session>, i: nat, v: Session)
    requires i < |x|
    ensures x[i := v] == Overwrite(x, i, [v])
  {
    OverwriteIndex(x, i, [v]);
  }

  /** After a write, the written range holds what was written, and a range
      outside it keeps what it held. */
  lemma OverwriteSlice(x: seq<Session>, at: nat, src: seq<Session>)
    requires at + |src| <= |x|
    ensures Overwrite(x, at, src)[at..at + |src|] == src
  {
    OverwriteIndex(x, at, src);
  }

  lemma OverwriteBeyond(x: seq<Session>, at: nat, src: seq<Session>, i: nat, j: nat)
    requires at + |src| <= i <= j <= |x|
    ensures Overwrite(x, at, src)[i..j] == x[i..j]
  {
    OverwriteIndex(x, at, src);
  }

  /** Lines 19-34: with the first element of the range as pivot, copy the
      others into `less` and `greater`, then write back less, pivot, greater.
      Returns the pivot's new index; nothing outside the range changes. */
  method Partition(a: array<Session>, start: nat, end: nat) returns (p: nat)
    requires start < end <= a.Length
    modifies a
    ensures p == start + |Lesser(old(a[..])[start + 1..end], Key(old(a[..])[start]))| < end
    ensures a[..] == Overwrite(old(a[..]), start, Partitioned(old(a[..])[start..end]))
  {
    ghost var x := a[..];
    var pivot := a[start];
    var less, greater := Collect(a, start, end);
    assert a[start..end][1..] == a[start + 1..end] && a[start..end][0] == pivot;
    PartitionLength(a[start + 1..end], Key(pivot));
    CopyInto(a, start, less);
    p := start + |less|;
    ghost var y := a[..];
    a[p] := pivot;
    assert a[..] == y[p := pivot];
    UpdateIsOverwrite(y, p, pivot);
    OverwriteTwice(x, start, less, [pivot]);
    CopyInto(a, p + 1, greater);
    OverwriteTwice(x, start, less + [pivot], greater);
  }

  /** Lines 20-27: the loop that fills `less` and `greater`. */
  method Collect(a: array<Session>, start: nat, end: nat) returns (less: seq<Session>, greater: seq<Session>)
    requires start < end <= a.Length
    ensures less == Lesser(a[start + 1..end], Key(a[start]))
    ensures greater == Greater(a[start + 1..end], Key(a[start]))
  {
    var pivot := a[start];
    less, greater := [], [];
    var i := start + 1;
    while i < end
      invariant start + 1 <= i <= end
      invariant less == Lesser(a[start + 1..i], Key(pivot))
      invariant greater == Greater(a[start + 1..i], Key(pivot))
    {
      assert a[start + 1..i + 1] == a[start + 1..i] + [a[i]];
      LesserSnoc(a[start + 1..i], a[i], Key(pivot));
      GreaterSnoc(a[start + 1..i], a[i], Key(pivot));
      if Key(a[i]) > Key(pivot) {
        greater := greater + [a[i]];
      } else {
        less := less + [a[i]];
      }
      i := i + 1;
    }
  }

  /** Lines 28-30 and 32-34: write src into a from index at on. */
  method CopyInto(a: array<Session>, at: nat, src: seq<Session>)
    requires at + |src| <= a.Length
    modifies a
    ensures a[..] == Overwrite(old(a[..]), at, src)
  {
    ghost var x := a[..];
    var i := 0;
    while i < |src|
      invariant 0 <= i <= |src|
      invariant a[..] == Overwrite(x, at, src[..i])
    {
      ghost var y := a[..];
      a[at + i] := src[i];
      assert a[..] == y[at + i := src[i]];
      UpdateIsOverwrite(y, at + i, src[i]);
      OverwriteTwice(x, at, src[..i], [src[i]]);
      assert src[..i] + [src[i]] == src[..i + 1];
      i := i + 1;
    }
    assert src[..i] == src;
  }

  /** quickSortSessions(sessions, start, end): sorts the range [start, end)
      and touches nothing outside it; a range of length at most 1 is left as
      it is. */
  method QuickSortSessions(a: array<Session>, start: nat, end: nat)
    requires start <= end <= a.Length
    modifies a
    ensures a[..] == Overwrite(old(a[..]), start, QuickSort(old(a[..])[start..end]))
    decreases end - start
  {
    ghost var x := a[..];
    if end - start <= 1 {
      OverwriteSame(x, start, end);
      return;
    }
    var p := Partition(a, start, end);
    ghost var y := a[..];
    QuickSortSessions(a, start, p);
    ghost var z := a[..];
    QuickSortSessions(a, p + 1, end);
    SortAfterPartition(x, start, end, p, y, z, a[..]);
  }

  /** Where the partition leaves the two sides. */
  lemma PartitionedSides(x: seq<Session>, start: nat, end: nat, p: nat, y: seq<Session>)
    requires start < end <= |x|
    requires p == start + |Lesser(x[start + 1..end], Key(x[start]))| < end
    requires y == Overwrite(x, start, Partitioned(x[start..end]))
    ensures y[start..p] == Lesser(x[start + 1..end], Key(x[start]))
    ensures y[p + 1..end] == Greater(x[start + 1..end], Key(x[start]))
  {
    var s := x[start..end];
    assert s[1..] == x[start + 1..end] && s[0] == x[start];
    var lo, hi := Lesser(s[1..], Key(s[0])), Greater(s[1..], Key(s[0]));
    OverwriteIndex(x, start, Partitioned(s));
    assert y[start..p] == lo by {
      forall k | 0 <= k < |lo| ensures y[start..p][k] == lo[k] {
        assert Partitioned(s)[k] == lo[k];
      }
    }
    assert y[p + 1..end] == hi by {
      forall k | 0 <= k < |hi| ensures y[p + 1..end][k] == hi[k] {
        assert Partitioned(s)[|lo| + 1 + k] == hi[k];
      }
    }
  }

  /** The three states of quickSortSessions: partitioned (y), left part sorted
      (z), right part sorted (w). The last is the range sorted. */
  lemma SortAfterPartition(x: seq<Session>, start: nat, end: nat, p: nat, y: seq<Session>, z: seq<Session>, w: seq<Session>)
    requires start < end <= |x|
    requires p == start + |Lesser(x[start + 1..end], Key(x[start]))| < end
    requires y == Overwrite(x, start, Partitioned(x[start..end]))
    requires z == Overwrite(y, start, QuickSort(y[start..p]))
    requires w == Overwrite(z, p + 1, QuickSort(z[p + 1..end]))
    ensures w == Overwrite(x, start, QuickSort(x[start..end]))
  {
    var s := x[start..end];
    var m := x[start];
    var lo, hi := Lesser(x[start + 1..end], Key(m)), Greater(x[start + 1..end], Key(m));
    PartitionedSides(x, start, end, p, y);
    var slo, shi := QuickSort(lo), QuickSort(hi);
    OverwriteBeyond(y, start, slo, p + 1, end);
    assert s[1..] == x[start + 1..end] && s[0] == m;
    PartitionLength(x[start + 1..end], Key(m));
    assert Partitioned(s) == lo + [m] + hi;
    assert z == Overwrite(y, start, slo);
    assert z[p + 1..end] == hi;
    assert w == Overwrite(z, start + |lo| + 1, shi);
    ComposeSides(x, start, lo, m, hi, slo, shi, y, z, w);
    QuickSortStep(s);
  }

  /** Writing the sorted sides over the partitioned range is writing their
      concatenation around the pivot. */
  lemma ComposeSides(x: seq<Session>, at: nat, lo: seq<Session>, m: Session, hi: seq<Session>,
                     slo: seq<Session>, shi: seq<Session>, y: seq<Session>, z: seq<Session>, w: seq<Session>)
    requires at + |lo| + 1 + |hi| <= |x| && |slo| == |lo| && |shi| == |hi|
    requires y == Overwrite(x, at, lo + [m] + hi)
    requires z == Overwrite(y, at, slo)
    requires w == Overwrite(z, at + |lo| + 1, shi)
    ensures w == Overwrite(x, at, slo + [m] + shi)
  {
    OverwriteIndex(x, at, lo + [m] + hi);
    OverwriteIndex(y, at, slo);
    OverwriteIndex(z, at + |lo| + 1, shi);
    var r := slo + [m] + shi;
    OverwriteIndex(x, at, r);
    forall k | 0 <= k < |x| ensures w[k] == Overwrite(x, at, r)[k] {
      if at <= k < at + |lo| {
        assert r[k - at] == slo[k - at];
      } else if k == at + |lo| {
        assert r[k - at] == m && y[k] == (lo + [m] + hi)[k - at];
      } else if at + |lo| < k < at + |lo| + 1 + |hi| {
        assert r[k - at] == shi[k - at - |lo| - 1];
      }
    }
  }

  /** The defining equation, for every non-empty range (a single session is
      its own pivot with empty sides). */
  lemma QuickSortStep(s: seq<Session>)
    requires |s| >= 1
    ensures QuickSort(s) == QuickSort(Lesser(s[1..], Key(s[0]))) + [s[0]]
                            + QuickSort(Greater(s[1..], Key(s[0])))
  {
    if |s| == 1 {
      assert s[1..] == [];
      assert s == [s[0]];
    }
  }

  /** A sort of [start, end) orders that range earliest first, keeps the same
      sessions in it, and leaves the rest of the slice as it was. */
  lemma SortedRange(x: seq<Session>, start: nat, end: nat)
    requires start <= end <= |x|
    ensures |QuickSort(x[start..end])| == end - start
    ensures |Overwrite(x, start, QuickSort(x[start..end]))| == |x|
    ensures SortedAscending(Overwrite(x, start, QuickSort(x[start..end]))[start..end])
    ensures multiset(Overwrite(x, start, QuickSort(x[start..end]))[start..end]) == multiset(x[start..end])
    ensures forall k :: 0 <= k < |x| && !(start <= k < end) ==>
              Overwrite(x, start, QuickSort(x[start..end]))[k] == x[k]
  {
    var q := QuickSort(x[start..end]);
    OverwriteIndex(x, start, q);
    OverwriteSlice(x, start, q);
    QuickSortSorted(x[start..end]);
    QuickSortPermutes(x[start..end]);
    assert Overwrite(x, start, q)[start..end] == q;
  }

  /** SortSessionsByTime(&sessions): the whole slice, earliest expiry first. */
  method SortSessionsByTime(a: array<Session>)
    modifies a
    ensures a[..] == QuickSort(old(a[..]))
    ensures SortedAscending(a[..])
    ensures multiset(a[..]) == multiset(old(a[..]))
  {
    ghost var x := a[..];
    QuickSortSessions(a, 0, a.Length);
    assert x[0..a.Length] == x;
    SortedRange(x, 0, a.Length);
    OverwriteSlice(x, 0, QuickSort(x));
    assert a[..][0..a.Length] == a[..];
  }
}
