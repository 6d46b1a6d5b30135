// Splitting on a separator and joining with one, with the semantics of
// Python's `str.split(sep)` / `sep.join(parts)` and JavaScript's
// `s.split(sep)` / `parts.join(sep)` for a non-empty literal separator.
module Split {
  import opened Text

  /** The pieces of `s` between the leftmost non-overlapping occurrences of `sep`. */
  function SplitOn(s: string, sep: string): (r: seq<string>)
    requires |sep| > 0
    ensures |r| >= 1
    decreases |s|
  {
    if |s| < |sep| then [s]
    else if s[..|sep|] == sep then [""] + SplitOn(s[|sep|..], sep)
    else
      var rest := SplitOn(s[1..], sep);
      [[s[0]] + rest[0]] + rest[1..]
  }

  function Join(parts: seq<string>, sep: string): string
    decreases |parts|
  {
    if |parts| == 0 then ""
    else if |parts| == 1 then parts[0]
    else parts[0] + sep + Join(parts[1..], sep)
  }

  /** No occurrence of `sep` starts in the first `n` positions of `s`. */
  predicate NoMatchBefore(s: string, sep: string, n: int)
  {
    forall i :: 0 <= i < n ==> !OccursAt(s, sep, i)
  }

  // ---------------------------------------------------------------------

  lemma {:induction false} SplitAfterSeparator(sep: string, t: string)
    requires |sep| > 0
    ensures SplitOn(sep + t, sep) == [""] + SplitOn(t, sep)
  {
    assert (sep + t)[..|sep|] == sep;
    assert (sep + t)[|sep|..] == t;
  }

  /** A prefix in which no separator starts becomes part of the first piece. */
  lemma {:induction false} SplitUnmatchedPrefix(a: string, t: string, sep: string)
    requires |sep| > 0
    requires NoMatchBefore(a + t, sep, |a|)
    ensures SplitOn(a + t, sep) == [a + SplitOn(t, sep)[0]] + SplitOn(t, sep)[1..]
    decreases |a|
  {
    if a == [] {
      assert a + t == t;
      assert SplitOn(t, sep) == [SplitOn(t, sep)[0]] + SplitOn(t, sep)[1..];
      assert a + SplitOn(t, sep)[0] == SplitOn(t, sep)[0];
    } else {
      var s := a + t;
      if |s| < |sep| {
        assert SplitOn(t, sep) == [t];
      } else {
        assert !OccursAt(s, sep, 0);
        assert s[1..] == a[1..] + t;
        forall i | 0 <= i < |a[1..]|
          ensures !OccursAt(a[1..] + t, sep, i)
        {
          assert !OccursAt(s, sep, i + 1);
          if i + 1 + |sep| <= |s| {
            assert s[i + 1..i + 1 + |sep|] == (a[1..] + t)[i..i + |sep|];
          }
        }
        SplitUnmatchedPrefix(a[1..], t, sep);
        assert [s[0]] + (a[1..] + SplitOn(t, sep)[0]) == a + SplitOn(t, sep)[0];
      }
    }
  }

  /** A piece free of the separator followed by the separator is split off whole. */
  lemma SplitPiece(a: string, t: string, sep: string)
    requires |sep| > 0
    requires NoMatchBefore(a + sep + t, sep, |a|)
    ensures SplitOn(a + sep + t, sep) == [a] + SplitOn(t, sep)
  {
    assert a + sep + t == a + (sep + t);
    SplitUnmatchedPrefix(a, sep + t, sep);
    SplitAfterSeparator(sep, t);
    var r := SplitOn(sep + t, sep);
    assert r[0] == "" && r[1..] == SplitOn(t, sep);
    assert a + r[0] == a;
  }

  /** A string without any occurrence of the separator is one piece. */
  lemma SplitWhole(s: string, sep: string)
    requires |sep| > 0
    requires NoMatchBefore(s, sep, |s|)
    ensures SplitOn(s, sep) == [s]
  {
    assert s + "" == s;
    SplitUnmatchedPrefix(s, "", sep);
  }

  lemma NoMatchOfAbsentChar(s: string, t: string, c: char, n: int)
    requires forall i :: 0 <= i < n && i < |s| ==> s[i] != c
    requires n <= |s|
    ensures NoMatchBefore(s + t, [c], n)
  {
    forall i | 0 <= i < n
      ensures !OccursAt(s + t, [c], i)
    {
      assert (s + t)[i] == s[i];
      assert (s + t)[i..i + 1] == [s[i]];
    }
  }

  lemma JoinExtendFirst(x: string, rest: seq<string>, sep: string)
    requires |rest| >= 1
    ensures Join([x + rest[0]] + rest[1..], sep) == x + Join(rest, sep)
  {
    var r := [x + rest[0]] + rest[1..];
    if |rest| > 1 {
      assert r[1..] == rest[1..];
    }
  }

  /** Joining one more piece appends the separator and the piece. */
  lemma {:induction false} JoinSnoc(xs: seq<string>, y: string, sep: string)
    requires |xs| >= 1
    ensures Join(xs + [y], sep) == Join(xs, sep) + sep + y
    decreases |xs|
  {
    if |xs| > 1 {
      assert (xs + [y])[1..] == xs[1..] + [y];
      JoinSnoc(xs[1..], y, sep);
    } else {
      assert (xs + [y])[1..] == [y];
    }
  }

  /** Splitting and joining with the same separator gives the string back. */
  lemma {:induction false} JoinSplit(s: string, sep: string)
    requires |sep| > 0
    ensures Join(SplitOn(s, sep), sep) == s
    decreases |s|
  {
    if |s| < |sep| {
    } else if s[..|sep|] == sep {
      JoinSplit(s[|sep|..], sep);
      var rest := SplitOn(s[|sep|..], sep);
      assert SplitOn(s, sep) == [""] + rest;
      assert ([""] + rest)[1..] == rest;
      assert s == sep + s[|sep|..];
    } else {
      var rest := SplitOn(s[1..], sep);
      JoinSplit(s[1..], sep);
      JoinExtendFirst([s[0]], rest, sep);
      assert s == [s[0]] + s[1..];
    }
  }

  /** Joining pieces that do not contain a one-character separator and splitting
      again gives the pieces back. */
  lemma {:induction false} SplitJoin(parts: seq<string>, c: char)
    requires |parts| >= 1
    requires forall k, i :: 0 <= k < |parts| && 0 <= i < |parts[k]| ==> parts[k][i] != c
    ensures SplitOn(Join(parts, [c]), [c]) == parts
    decreases |parts|
  {
    if |parts| == 1 {
      NoMatchOfAbsentChar(parts[0], "", c, |parts[0]|);
      assert parts[0] + "" == parts[0];
      SplitWhole(parts[0], [c]);
    } else {
      var tail := Join(parts[1..], [c]);
      NoMatchOfAbsentChar(parts[0], [c] + tail, c, |parts[0]|);
      assert parts[0] + [c] + tail == parts[0] + ([c] + tail);
      SplitPiece(parts[0], tail, [c]);
      SplitJoin(parts[1..], c);
      assert parts == [parts[0]] + parts[1..];
    }
  }

  lemma CharOfOccurrence(s: string, sep: string, i: int, j: int)
    requires OccursAt(s, sep, i) && 0 <= j < |sep|
    ensures s[i + j] == sep[j]
  {
    assert s[i..i + |sep|][j] == s[i + j];
  }

  /** An occurrence of a separator that does not contain `c` lies on one side of a `c`. */
  lemma OccurrenceAvoidsChar(x: string, c: char, y: string, sep: string, i: int)
    requires |sep| > 0
    requires forall j :: 0 <= j < |sep| ==> sep[j] != c
    requires OccursAt(x + [c] + y, sep, i)
    ensures (i + |sep| <= |x| && OccursAt(x, sep, i)) || (i > |x| && OccursAt(y, sep, i - |x| - 1))
  {
    var s := x + [c] + y;
    if i <= |x| && |x| < i + |sep| {
      CharOfOccurrence(s, sep, i, |x| - i);
      assert false;
    }
    if i + |sep| <= |x| {
      assert s[i..i + |sep|] == x[i..i + |sep|];
    } else {
      assert s[i..i + |sep|] == y[i - |x| - 1..i - |x| - 1 + |sep|];
    }
  }

  /** No piece of a split contains a character the string does not. */
  lemma {:induction false} SplitPiecesAvoid(s: string, c: char, d: char)
    requires d !in s
    ensures forall k :: 0 <= k < |SplitOn(s, [c])| ==> d !in SplitOn(s, [c])[k]
    decreases |s|
  {
    if |s| >= 1 {
      SplitPiecesAvoid(s[1..], c, d);
      if s[..1] != [c] {
        var rest := SplitOn(s[1..], [c]);
        assert forall k :: 0 <= k < |SplitOn(s, [c])| ==> SplitOn(s, [c])[k] == if k == 0 then [s[0]] + rest[0] else rest[k];
      }
    }
  }

  /** No piece of a split on one character contains it. */
  lemma {:induction false} SplitPiecesNoSeparator(s: string, c: char)
    ensures forall k :: 0 <= k < |SplitOn(s, [c])| ==> c !in SplitOn(s, [c])[k]
    decreases |s|
  {
    if |s| >= 1 {
      SplitPiecesNoSeparator(s[1..], c);
      if s[..1] != [c] {
        var rest := SplitOn(s[1..], [c]);
        assert forall k :: 0 <= k < |SplitOn(s, [c])| ==> SplitOn(s, [c])[k] == if k == 0 then [s[0]] + rest[0] else rest[k];
      }
    }
  }
}
