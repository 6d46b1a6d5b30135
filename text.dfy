// Character classes and string operations used by every stage of the
// pipeline.  Case mapping and the whitespace class are ASCII: the Python and
// TypeScript code applies Unicode rules, which this model does not follow.
module Text {
  import opened Wrappers

  predicate IsDigit(c: char) { '0' <= c <= '9' }
  predicate IsUpper(c: char) { 'A' <= c <= 'Z' }
  predicate IsLower(c: char) { 'a' <= c <= 'z' }
  /** Python's `str.isalnum` and the regex class `[a-zA-Z0-9]`. */
  predicate IsAlnum(c: char) { IsDigit(c) || IsUpper(c) || IsLower(c) }
  /** The regex class `\w`, which decides where `\b` holds. */
  predicate IsWordChar(c: char) { IsAlnum(c) || c == '_' }
  /** The regex class `\s`, and what `strip()` / `trim()` remove. */
  predicate IsSpace(c: char)
  {
    c == ' ' || c == '\t' || c == '\n' || c == '\r' || c == '\U{0B}' || c == '\U{0C}'
  }

  function ToLower(c: char): char { if IsUpper(c) then (c as int + 32) as char else c }
  function ToUpper(c: char): char { if IsLower(c) then (c as int - 32) as char else c }

  function Lower(s: string): string { seq(|s|, i requires 0 <= i < |s| => ToLower(s[i])) }
  function Upper(s: string): string { seq(|s|, i requires 0 <= i < |s| => ToUpper(s[i])) }

  /** `lstrip()` */
  function TrimStart(s: string): (r: string)
    ensures |r| <= |s|
  {
    if |s| > 0 && IsSpace(s[0]) then TrimStart(s[1..]) else s
  }

  /** `rstrip()` */
  function TrimEnd(s: string): string
  {
    if |s| > 0 && IsSpace(s[|s| - 1]) then TrimEnd(s[..|s| - 1]) else s
  }

  /** Python's `strip()` and JavaScript's `trim()`. */
  function Trim(s: string): string { TrimEnd(TrimStart(s)) }

  /** JavaScript's `!s.trim()` and Python's `not s.strip()`. */
  predicate IsBlank(s: string) { Trim(s) == "" }

  predicate OccursAt(s: string, t: string, i: int)
  {
    0 <= i && i + |t| <= |s| && s[i..i + |t|] == t
  }

  /** Python's `t in s` and JavaScript's `s.includes(t)`. */
  predicate Contains(s: string, t: string)
  {
    exists i | 0 <= i <= |s| :: OccursAt(s, t, i)
  }

  predicate StartsWith(s: string, p: string) { |p| <= |s| && s[..|p|] == p }

  predicate EndsWith(s: string, p: string) { |p| <= |s| && s[|s| - |p|..] == p }

  /** `s.replace(a, b)` for single characters. */
  function ReplaceChar(s: string, a: char, b: char): string
  {
    seq(|s|, i requires 0 <= i < |s| => if s[i] == a then b else s[i])
  }

  /** `s.replace(pat, rep)` for a non-empty pattern: every occurrence, left to right. */
  function ReplaceAll(s: string, pat: string, rep: string): string
    requires |pat| > 0
    decreases |s|
  {
    if |s| < |pat| then s
    else if s[..|pat|] == pat then rep + ReplaceAll(s[|pat|..], pat, rep)
    else [s[0]] + ReplaceAll(s[1..], pat, rep)
  }

  /** Keeps only the characters that satisfy `keep` (a `re.sub` with a negated class). */
  function Filter(s: string, keep: char -> bool): string
  {
    if s == [] then [] else (if keep(s[0]) then [s[0]] else []) + Filter(s[1..], keep)
  }

  /** `re.sub(r'\s+', ' ', s)` and `s.replace(/\s+/g, ' ')`. */
  function CollapseSpaces(s: string): string
    decreases |s|
  {
    if s == [] then []
    else if IsSpace(s[0]) then [' '] + CollapseSpaces(TrimStart(s[1..]))
    else [s[0]] + CollapseSpaces(s[1..])
  }

  /** The last component of a '/'-separated path. */
  function BaseName(path: string): string
    decreases |path|
  {
    if path == [] then []
    else if path[|path| - 1] == '/' then []
    else BaseName(path[..|path| - 1]) + [path[|path| - 1]]
  }

  /** Position of the last occurrence of `c`. */
  function LastIndex(s: string, c: char): (r: Option<nat>)
    ensures r.Some? ==> r.value < |s| && s[r.value] == c
    ensures r.None? ==> forall i :: 0 <= i < |s| ==> s[i] != c
    ensures r.Some? ==> forall i :: r.value < i < |s| ==> s[i] != c
  {
    if s == [] then None
    else if s[|s| - 1] == c then Some(|s| - 1)
    else LastIndex(s[..|s| - 1], c)
  }

  /** `pathlib.Path(path).stem`: the last component without its last suffix; a
      leading or trailing dot does not start a suffix. */
  function Stem(path: string): string
  {
    var name := BaseName(path);
    match LastIndex(name, '.')
    case Some(i) => if 0 < i < |name| - 1 then name[..i] else name
    case None => name
  }

  // ---------------------------------------------------------------------
  // Facts about the operations above

  lemma {:induction false} TrimStartShape(s: string)
    ensures |TrimStart(s)| <= |s|
    ensures TrimStart(s) == s[|s| - |TrimStart(s)|..]
    ensures TrimStart(s) == [] || !IsSpace(TrimStart(s)[0])
    ensures forall i :: 0 <= i < |s| - |TrimStart(s)| ==> IsSpace(s[i])
    decreases |s|
  {
    if |s| > 0 && IsSpace(s[0]) {
      TrimStartShape(s[1..]);
    }
  }

  lemma {:induction false} TrimEndShape(s: string)
    ensures |TrimEnd(s)| <= |s|
    ensures TrimEnd(s) == s[..|TrimEnd(s)|]
    ensures TrimEnd(s) == [] || !IsSpace(TrimEnd(s)[|TrimEnd(s)| - 1])
    ensures forall i :: |TrimEnd(s)| <= i < |s| ==> IsSpace(s[i])
    decreases |s|
  {
    if |s| > 0 && IsSpace(s[|s| - 1]) {
      TrimEndShape(s[..|s| - 1]);
    }
  }

  lemma TrimEndKeepsStart(s: string)
    requires s == [] || !IsSpace(s[0])
    ensures TrimEnd(s) == [] || !IsSpace(TrimEnd(s)[0])
  {
    TrimEndShape(s);
    if TrimEnd(s) != [] {
      assert TrimEnd(s)[0] == s[0];
    }
  }

  /** Trimming leaves no whitespace at either end. */
  lemma TrimEnds(s: string)
    ensures Trim(s) == [] || (!IsSpace(Trim(s)[0]) && !IsSpace(Trim(s)[|Trim(s)| - 1]))
  {
    TrimStartShape(s);
    TrimEndKeepsStart(TrimStart(s));
    TrimEndShape(TrimStart(s));
  }

  lemma {:induction false} TrimStartNoop(s: string)
    requires s == [] || !IsSpace(s[0])
    ensures TrimStart(s) == s
  {
  }

  lemma {:induction false} TrimEndNoop(s: string)
    requires s == [] || !IsSpace(s[|s| - 1])
    ensures TrimEnd(s) == s
  {
  }

  /** A string with no whitespace at either end is its own trim. */
  lemma TrimNoop(s: string)
    requires s == [] || (!IsSpace(s[0]) && !IsSpace(s[|s| - 1]))
    ensures Trim(s) == s
  {
    TrimStartNoop(s);
    TrimEndNoop(s);
  }

  lemma TrimIdempotent(s: string)
    ensures Trim(Trim(s)) == Trim(s)
  {
    TrimEnds(s);
    TrimNoop(Trim(s));
  }

  /** A string without whitespace characters is its own trim. */
  lemma TrimNoSpaces(s: string)
    requires forall i :: 0 <= i < |s| ==> !IsSpace(s[i])
    ensures Trim(s) == s
  {
    TrimNoop(s);
  }

  /** A string with a character other than whitespace is not blank. */
  lemma NotSpaceNotBlank(s: string, k: nat)
    requires k < |s| && !IsSpace(s[k])
    ensures Trim(s) != ""
  {
    var a := TrimStart(s);
    TrimStartShape(s);
    TrimEndShape(a);
    assert k >= |s| - |a|;
    assert a[k - (|s| - |a|)] == s[k];
  }

  lemma {:induction false} TrimStartSpace(s: string)
    ensures TrimStart([' '] + s) == TrimStart(s)
  {
    assert ([' '] + s)[1..] == s;
  }

  lemma {:induction false} FilterKeeps(s: string, keep: char -> bool)
    ensures forall i :: 0 <= i < |Filter(s, keep)| ==> keep(Filter(s, keep)[i]) && Filter(s, keep)[i] in s
    ensures |Filter(s, keep)| <= |s|
    decreases |s|
  {
    if s != [] {
      FilterKeeps(s[1..], keep);
    }
  }

  /** Filtering a string whose characters all pass changes nothing. */
  lemma {:induction false} FilterAllKept(s: string, keep: char -> bool)
    requires forall i :: 0 <= i < |s| ==> keep(s[i])
    ensures Filter(s, keep) == s
    decreases |s|
  {
    if s != [] {
      FilterAllKept(s[1..], keep);
    }
  }

  lemma {:induction false} FilterAppend(a: string, b: string, keep: char -> bool)
    ensures Filter(a + b, keep) == Filter(a, keep) + Filter(b, keep)
    decreases |a|
  {
    if a != [] {
      assert (a + b)[1..] == a[1..] + b;
      FilterAppend(a[1..], b, keep);
    } else {
      assert a + b == b;
    }
  }

  lemma {:induction false} CollapseNoSpaces(s: string)
    ensures forall i :: 0 <= i < |CollapseSpaces(s)| ==> CollapseSpaces(s)[i] == ' ' || !IsSpace(CollapseSpaces(s)[i])
    ensures CollapseSpaces(s) == [] <==> s == []
    ensures s != [] && !IsSpace(s[0]) ==> CollapseSpaces(s)[0] == s[0]
    ensures s != [] && IsSpace(s[0]) ==> CollapseSpaces(s)[0] == ' '
    decreases |s|
  {
    if s != [] {
      if IsSpace(s[0]) {
        TrimStartShape(s[1..]);
        CollapseNoSpaces(TrimStart(s[1..]));
      } else {
        CollapseNoSpaces(s[1..]);
      }
    }
  }

  /** No upper-case letter (what `lower()` leaves). */
  predicate NoUpper(s: string) { forall i :: 0 <= i < |s| ==> !IsUpper(s[i]) }

  /** Whitespace occurs only as single spaces (what `re.sub(r'\s+', ' ', s)` leaves). */
  predicate Collapsed(s: string)
  {
    forall i :: 0 <= i < |s| && IsSpace(s[i]) ==> s[i] == ' ' && (i + 1 < |s| ==> !IsSpace(s[i + 1]))
  }

  lemma LowerNoUpper(s: string)
    ensures NoUpper(Lower(s))
  {
  }

  lemma LowerNoop(s: string)
    requires NoUpper(s)
    ensures Lower(s) == s
  {
  }

  lemma UpperAppend(a: string, b: string)
    ensures Upper(a + b) == Upper(a) + Upper(b)
  {
  }

  lemma UpperIdempotent(s: string)
    ensures Upper(Upper(s)) == Upper(s)
  {
  }

  /** Trimming only removes characters. */
  lemma TrimChars(s: string)
    ensures forall i :: 0 <= i < |Trim(s)| ==> Trim(s)[i] in s
  {
    var a := TrimStart(s);
    TrimStartShape(s);
    TrimEndShape(a);
    forall i | 0 <= i < |Trim(s)|
      ensures Trim(s)[i] in s
    {
      assert Trim(s)[i] == a[i];
      assert a[i] == s[|s| - |a| + i];
    }
  }

  /** Collapsing only removes characters or writes a space. */
  lemma {:induction false} CollapseChars(s: string)
    ensures forall i :: 0 <= i < |CollapseSpaces(s)| ==> CollapseSpaces(s)[i] == ' ' || CollapseSpaces(s)[i] in s
    decreases |s|
  {
    if s != [] {
      if IsSpace(s[0]) {
        var t := TrimStart(s[1..]);
        TrimStartShape(s[1..]);
        CollapseChars(t);
        forall c | c in t
          ensures c in s
        {
          var k :| 0 <= k < |t| && t[k] == c;
          assert c == s[1..][|s[1..]| - |t| + k];
        }
      } else {
        CollapseChars(s[1..]);
      }
    }
  }

  /** The result of collapsing has single spaces only. */
  lemma {:induction false} CollapseCollapsed(s: string)
    ensures Collapsed(CollapseSpaces(s))
    decreases |s|
  {
    if s != [] {
      if IsSpace(s[0]) {
        var t := TrimStart(s[1..]);
        TrimStartShape(s[1..]);
        CollapseCollapsed(t);
        CollapseNoSpaces(t);
      } else {
        CollapseCollapsed(s[1..]);
        CollapseNoSpaces(s[1..]);
      }
    }
  }

  /** Collapsing a string with single spaces only changes nothing. */
  lemma {:induction false} CollapsedNoop(s: string)
    requires Collapsed(s)
    ensures CollapseSpaces(s) == s
    decreases |s|
  {
    if s != [] {
      assert Collapsed(s[1..]) by {
        forall i | 0 <= i < |s[1..]| && IsSpace(s[1..][i])
          ensures s[1..][i] == ' ' && (i + 1 < |s[1..]| ==> !IsSpace(s[1..][i + 1]))
        {
          assert s[1..][i] == s[i + 1];
        }
      }
      if IsSpace(s[0]) {
        TrimStartNoop(s[1..]);
      }
      CollapsedNoop(s[1..]);
      assert s == [s[0]] + s[1..];
    }
  }

  /** A string that ends in a non-space character keeps that last character. */
  lemma {:induction false} CollapseLast(s: string)
    requires s != [] && !IsSpace(s[|s| - 1])
    ensures CollapseSpaces(s) != [] && CollapseSpaces(s)[|CollapseSpaces(s)| - 1] == s[|s| - 1]
    decreases |s|
  {
    if IsSpace(s[0]) {
      var t := TrimStart(s[1..]);
      TrimStartShape(s[1..]);
      assert !IsSpace(s[1..][|s| - 2]);
      assert |t| > 0;
      assert t[|t| - 1] == s[|s| - 1];
      CollapseLast(t);
    } else if |s| > 1 {
      assert s[1..][|s| - 2] == s[|s| - 1];
      CollapseLast(s[1..]);
    }
  }

  /** Upper-casing does not move whitespace, so a trimmed string stays trimmed. */
  lemma UpperTrimmed(s: string)
    ensures Trim(Upper(Trim(s))) == Upper(Trim(s))
  {
    var t := Trim(s);
    TrimEnds(s);
    assert forall c :: IsSpace(ToUpper(c)) <==> IsSpace(c);
    TrimNoop(Upper(t));
  }

  /** Case-insensitive containment does not depend on the direction of the
      case mapping (ASCII). */
  lemma ContainsIgnoringCase(s: string, t: string)
    requires Contains(Upper(s), Upper(t))
    ensures Contains(Lower(s), Lower(t))
  {
    var i :| 0 <= i <= |Upper(s)| && OccursAt(Upper(s), Upper(t), i);
    forall k | 0 <= k < |t|
      ensures Lower(s)[i + k] == Lower(t)[k]
    {
      assert Upper(s)[i..i + |t|][k] == Upper(t)[k];
      assert ToUpper(s[i + k]) == ToUpper(t[k]);
    }
    assert Lower(s)[i..i + |t|] == Lower(t);
    assert OccursAt(Lower(s), Lower(t), i);
  }
}
