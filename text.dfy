/** strings.Split on a one-character separator, strings.Join, and ASCII case
    folding. */
module Text {

  /** Number of occurrences of c in s. */
  function Count(s: string, c: char): nat
  {
    if |s| == 0 then 0 else (if s[0] == c then 1 else 0) + Count(s[1..], c)
  }

  /** strings.Split(s, string(c)): the pieces between occurrences of c; the
      empty string gives one empty piece. */
  function Split(s: string, c: char): (parts: seq<string>)
    ensures |parts| >= 1
    decreases |s|
  {
    if |s| == 0 then [""]
    else if s[0] == c then [""] + Split(s[1..], c)
    else
      var rest := Split(s[1..], c);
      [[s[0]] + rest[0]] + rest[1..]
  }

  /** strings.Join(parts, sep). */
  function Join(parts: seq<string>, sep: string): string
  {
    if |parts| == 0 then ""
    else if |parts| == 1 then parts[0]
    else parts[0] + sep + Join(parts[1..], sep)
  }

  ghost predicate NoneContains(parts: seq<string>, c: char)
  {
    forall i, j :: 0 <= i < |parts| && 0 <= j < |parts[i]| ==> parts[i][j] != c
  }

  /** Split cuts at every separator: one more piece than separators, and no
      piece contains one. */
  lemma {:induction false} SplitPieces(s: string, c: char)
    ensures |Split(s, c)| == Count(s, c) + 1
    ensures NoneContains(Split(s, c), c)
    decreases |s|
  {
    if |s| > 0 {
      SplitPieces(s[1..], c);
      var rest := Split(s[1..], c);
      if s[0] != c {
        var parts := Split(s, c);
        forall i, j | 0 <= i < |parts| && 0 <= j < |parts[i]| ensures parts[i][j] != c {
          if i == 0 {
            if j > 0 { assert parts[0][j] == rest[0][j - 1]; }
          } else {
            assert parts[i] == rest[i];
          }
        }
      }
    }
  }

  /** Joining the pieces with the separator gives the string back. */
  lemma {:induction false} JoinSplit(s: string, c: char)
    ensures Join(Split(s, c), [c]) == s
    decreases |s|
  {
    if |s| > 0 {
      JoinSplit(s[1..], c);
      var rest := Split(s[1..], c);
      if s[0] == c {
        assert Split(s, c) == [""] + rest;
        assert [c] + Join(rest, [c]) == s;
      } else {
        var parts := Split(s, c);
        if |rest| == 1 {
          assert Join(parts, [c]) == [s[0]] + rest[0];
        } else {
          assert parts[1..] == rest[1..];
          assert Join(rest, [c]) == rest[0] + [c] + Join(rest[1..], [c]);
          assert Join(parts, [c]) == [s[0]] + rest[0] + [c] + Join(rest[1..], [c]);
        }
      }
    }
  }

  /** Splitting a join of separator-free pieces gives the pieces back. */
  lemma {:induction false} SplitJoin(parts: seq<string>, c: char)
    requires |parts| >= 1 && NoneContains(parts, c)
    ensures Split(Join(parts, [c]), c) == parts
    decreases |parts|, |parts[0]|
  {
    if |parts| == 1 {
      SplitNoSeparator(parts[0], c);
    } else {
      var p := parts[0];
      var tail := Join(parts[1..], [c]);
      assert NoneContains(parts[1..], c) by {
        forall i, j | 0 <= i < |parts[1..]| && 0 <= j < |parts[1..][i]| ensures parts[1..][i][j] != c {
          assert parts[1..][i] == parts[i + 1];
        }
      }
      SplitJoin(parts[1..], c);
      assert Join(parts, [c]) == p + [c] + tail;
      SplitAfterPrefix(p, c, tail);
      assert [""] + parts[1..] == [""] + Split(tail, c);
      if |p| == 0 {
        assert parts == [p] + parts[1..];
      } else {
        assert parts == [p] + parts[1..];
      }
    }
  }

  lemma {:induction false} SplitNoSeparator(s: string, c: char)
    requires forall j :: 0 <= j < |s| ==> s[j] != c
    ensures Split(s, c) == [s]
    decreases |s|
  {
    if |s| > 0 {
      SplitNoSeparator(s[1..], c);
      assert [s[0]] + s[1..] == s;
    }
  }

  /** A separator-free prefix p followed by c and t splits into p and the pieces of t. */
  lemma {:induction false} SplitAfterPrefix(p: string, c: char, t: string)
    requires forall j :: 0 <= j < |p| ==> p[j] != c
    ensures Split(p + [c] + t, c) == [p] + Split(t, c)
    decreases |p|
  {
    if |p| == 0 {
      assert p + [c] + t == [c] + t;
      assert ([c] + t)[1..] == t;
    } else {
      SplitAfterPrefix(p[1..], c, t);
      var s := p + [c] + t;
      assert s[0] == p[0];
      assert s[1..] == p[1..] + [c] + t;
      assert [p[0]] + p[1..] == p;
    }
  }

  /** A character in neither the pieces nor the separator is not in their
      join. */
  lemma {:induction false} JoinAvoids(parts: seq<string>, sep: string, x: char)
    requires NoneContains(parts, x) && forall j :: 0 <= j < |sep| ==> sep[j] != x
    ensures forall k :: 0 <= k < |Join(parts, sep)| ==> Join(parts, sep)[k] != x
    decreases |parts|
  {
    if |parts| > 1 {
      assert NoneContains(parts[1..], x) by {
        forall i, j | 0 <= i < |parts[1..]| && 0 <= j < |parts[1..][i]| ensures parts[1..][i][j] != x {
          assert parts[1..][i] == parts[i + 1];
        }
      }
      JoinAvoids(parts[1..], sep, x);
      var rest := Join(parts[1..], sep);
      assert Join(parts, sep) == parts[0] + sep + rest;
      forall k | 0 <= k < |Join(parts, sep)| ensures Join(parts, sep)[k] != x {
        if k < |parts[0]| {
          assert Join(parts, sep)[k] == parts[0][k];
        } else if k < |parts[0]| + |sep| {
          assert Join(parts, sep)[k] == sep[k - |parts[0]|];
        } else {
          assert Join(parts, sep)[k] == rest[k - |parts[0]| - |sep|];
        }
      }
    } else if |parts| == 1 {
      assert forall k :: 0 <= k < |parts[0]| ==> parts[0][k] != x;
    }
  }

  /** Occurrences add up over a concatenation. */
  lemma {:induction false} CountAppend(a: string, b: string, c: char)
    ensures Count(a + b, c) == Count(a, c) + Count(b, c)
    decreases |a|
  {
    if |a| == 0 {
      assert a + b == b;
    } else {
      assert (a + b)[1..] == a[1..] + b;
      CountAppend(a[1..], b, c);
    }
  }

  /** A string without c has no occurrence of it. */
  lemma {:induction false} CountAbsent(s: string, c: char)
    requires forall j :: 0 <= j < |s| ==> s[j] != c
    ensures Count(s, c) == 0
    decreases |s|
  {
    if |s| > 0 {
      CountAbsent(s[1..], c);
    }
  }

  function ToLowerAscii(s: string): (r: string)
    ensures |r| == |s|
    ensures forall i :: 0 <= i < |s| ==> r[i] == LowerAscii(s[i])
  {
    if |s| == 0 then "" else [LowerAscii(s[0])] + ToLowerAscii(s[1..])
  }

  function LowerAscii(c: char): (r: char)
    ensures 'A' <= c <= 'Z' ==> r as int == c as int + 32
    ensures !('A' <= c <= 'Z') ==> r == c
  {
    if 'A' <= c <= 'Z' then (c as int + 32) as char else c
  }

  /** ASCII case-insensitive comparison (strings.EqualFold restricted to ASCII). */
  predicate EqualFoldAscii(a: string, b: string)
  {
    ToLowerAscii(a) == ToLowerAscii(b)
  }
}
