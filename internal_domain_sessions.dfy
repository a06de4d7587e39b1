/** internal/domain/sessions.go: the Session and Tokens records and
    SortSessionsByTime, which orders a slice in place, latest expiry first. */
module InternalDomainSessions {
  import opened Common

  datatype Session = Session(UserId: int, RefreshToken: string, ExpiresAt: Time)

  datatype Tokens = Tokens(AccessToken: string, RefreshToken: string)

  /** The sort key: ExpiresAt.Unix(), whole seconds only. */
  function Key(s: Session): int { Unix(s.ExpiresAt) }

  /** Non-increasing in the key: latest expiry first. */
  ghost predicate SortedDescending(s: seq<Session>)
  {
    forall i, j :: 0 <= i < j < |s| ==> Key(s[i]) >= Key(s[j])
  }

  /** Only whole seconds count: sessions whose expiries differ only in the
      nanoseconds have the same key. */
  lemma SameSecondSameKey(a: Session, b: Session)
    requires Unix(a.ExpiresAt) == Unix(b.ExpiresAt)
    ensures Key(a) == Key(b)
  {
  }

  /** sort.Slice(sessions, less) with less(i, j) = key(i) > key(j). sort.Slice
      is not stable and its algorithm is unspecified, so the model promises
      what any run promises: a permutation, ordered latest first, in place.
      The body is a selection sort. */
  method SortSessionsByTime(a: array<Session>)
    modifies a
    ensures SortedDescending(a[..])
    ensures multiset(a[..]) == multiset(old(a[..]))
  {
    var i := 0;
    while i < a.Length
      invariant 0 <= i <= a.Length
      invariant SortedDescending(a[..i])
      invariant forall k, l :: 0 <= k < i <= l < a.Length ==> Key(a[k]) >= Key(a[l])
      invariant multiset(a[..]) == multiset(old(a[..]))
    {
      var m := IndexOfLatest(a, i);
      Swap(a, i, m);
      i := i + 1;
    }
  }

  /** The position of a latest-expiring session in a[from..]. */
  method IndexOfLatest(a: array<Session>, from: nat) returns (m: nat)
    requires from < a.Length
    ensures from <= m < a.Length
    ensures forall l :: from <= l < a.Length ==> Key(a[m]) >= Key(a[l])
  {
    m := from;
    var j := from + 1;
    while j < a.Length
      invariant from <= m < a.Length && from + 1 <= j <= a.Length
      invariant forall l :: from <= l < j ==> Key(a[m]) >= Key(a[l])
    {
      if Key(a[j]) > Key(a[m]) {
        m := j;
      }
      j := j + 1;
    }
  }

  method Swap(a: array<Session>, i: nat, j: nat)
    requires i < a.Length && j < a.Length
    modifies a
    ensures a[i] == old(a[j]) && a[j] == old(a[i])
    ensures forall k :: 0 <= k < a.Length && k != i && k != j ==> a[k] == old(a[k])
    ensures multiset(a[..]) == multiset(old(a[..]))
  {
    a[i], a[j] := a[j], a[i];
  }

  function Keys(s: seq<Session>): (r: seq<int>)
    ensures |r| == |s| && forall i :: 0 <= i < |s| ==> r[i] == Key(s[i])
  {
    if |s| == 0 then [] else [Key(s[0])] + Keys(s[1..])
  }

  /** Whatever order sort.Slice picks among equal keys, the sequence of keys it
      leaves is determined by the input: two latest-first permutations of the
      same sessions have the same keys, position by position. */
  lemma {:induction false} SortedPermutationsAgree(s: seq<Session>, t: seq<Session>)
    requires SortedDescending(s) && SortedDescending(t)
    requires multiset(s) == multiset(t)
    ensures Keys(s) == Keys(t)
    decreases |s|
  {
    assert |s| == |multiset(s)| == |multiset(t)| == |t|;
    if |s| > 0 {
      assert t[0] in multiset(s) && s[0] in multiset(t);
      var j :| 0 <= j < |t| && t[j] == s[0];
      var i :| 0 <= i < |s| && s[i] == t[0];
      assert Key(s[0]) == Key(t[0]);
      var t' := RemoveAt(t, j);
      RemoveAtMultiset(t, j);
      assert s == [s[0]] + s[1..];
      assert multiset(s[1..]) == multiset(s) - multiset{s[0]};
      RemoveAtSorted(t, j);
      TailSorted(s);
      SortedPermutationsAgree(s[1..], t');
      RemoveTopKeys(t, j);
    }
  }

  function RemoveAt(t: seq<Session>, j: nat): (r: seq<Session>)
    requires j < |t|
    ensures |r| == |t| - 1
    ensures forall k :: 0 <= k < j ==> r[k] == t[k]
    ensures forall k :: j <= k < |r| ==> r[k] == t[k + 1]
  {
    t[..j] + t[j + 1..]
  }

  lemma RemoveAtMultiset(t: seq<Session>, j: nat)
    requires j < |t|
    ensures multiset(RemoveAt(t, j)) == multiset(t) - multiset{t[j]}
  {
    assert t == t[..j] + [t[j]] + t[j + 1..];
  }

  lemma RemoveAtSorted(t: seq<Session>, j: nat)
    requires j < |t| && SortedDescending(t)
    ensures SortedDescending(RemoveAt(t, j))
  {
    var r := RemoveAt(t, j);
    forall p, q | 0 <= p < q < |r| ensures Key(r[p]) >= Key(r[q]) {
      var p' := if p < j then p else p + 1;
      var q' := if q < j then q else q + 1;
      assert r[p] == t[p'] && r[q] == t[q'];
    }
  }

  lemma TailSorted(s: seq<Session>)
    requires |s| > 0 && SortedDescending(s)
    ensures SortedDescending(s[1..])
  {
    forall p, q | 0 <= p < q < |s| - 1 ensures Key(s[1..][p]) >= Key(s[1..][q]) {
      assert s[1..][p] == s[p + 1] && s[1..][q] == s[q + 1];
    }
  }

  /** Taking out any session that shares the top key leaves the keys that
      taking out the first one would. */
  lemma RemoveTopKeys(t: seq<Session>, j: nat)
    requires j < |t| && SortedDescending(t)
    ensures Keys(t) == [Key(t[j])] + Keys(RemoveAt(t, j)) || Key(t[j]) != Key(t[0])
  {
    if Key(t[j]) == Key(t[0]) {
      var r := RemoveAt(t, j);
      var a := Keys(t);
      var b := [Key(t[j])] + Keys(r);
      assert |a| == |b|;
      forall k | 0 <= k < |a| ensures a[k] == b[k] {
        if 0 < k <= j {
          assert b[k] == Key(r[k - 1]) == Key(t[k - 1]);
          assert Key(t[0]) >= Key(t[k - 1]) >= Key(t[k]) >= Key(t[j]);
        } else if k > j {
          assert b[k] == Key(r[k - 1]) == Key(t[k]);
        }
      }
    }
  }
}
