// Comma-separated lists as the configuration editor's text fields hold
// them: `text.split(",").map((v) => v.trim()).filter((v) => v.length > 0)`
// to read a field, `items.join(", ")` to show one.
module CommaLists {
  import opened Text
  import opened Split

  /** Pieces trimmed, blank ones dropped. */
  function NonBlankPieces(pieces: seq<string>): seq<string>
  {
    if pieces == [] then []
    else (if Trim(pieces[0]) != "" then [Trim(pieces[0])] else []) + NonBlankPieces(pieces[1..])
  }

  /** The entries of a comma-separated field. */
  function Items(text: string): seq<string>
  {
    NonBlankPieces(SplitOn(text, ","))
  }

  /** An entry as a field yields it: not blank, trimmed, without a comma. */
  predicate Entry(v: string)
  {
    v != "" && Trim(v) == v && ',' !in v
  }

  predicate AllEntries(vs: seq<string>)
  {
    forall k :: 0 <= k < |vs| ==> Entry(vs[k])
  }

  /** Every entry is a trimmed non-blank piece, and keeps out any character
      that no piece has. */
  lemma {:induction false} NonBlankPiecesShape(pieces: seq<string>, d: char)
    requires forall k :: 0 <= k < |pieces| ==> d !in pieces[k]
    ensures forall k :: 0 <= k < |NonBlankPieces(pieces)| ==>
              var v := NonBlankPieces(pieces)[k];
              v != "" && Trim(v) == v && d !in v
  {
    if pieces != [] {
      NonBlankPiecesShape(pieces[1..], d);
      TrimIdempotent(pieces[0]);
      TrimChars(pieces[0]);
    }
  }

  /** Every entry read from a field is an entry. */
  lemma ItemsAreEntries(text: string)
    ensures AllEntries(Items(text))
  {
    SplitPiecesNoSeparator(text, ',');
    NonBlankPiecesShape(SplitOn(text, ","), ',');
  }

  /** A character absent from the text is absent from every entry. */
  lemma ItemsAvoid(text: string, d: char)
    requires d !in text
    ensures forall k :: 0 <= k < |Items(text)| ==> d !in Items(text)[k]
  {
    SplitPiecesAvoid(text, ',', d);
    NonBlankPiecesShape(SplitOn(text, ","), d);
  }

  /** A field made only of commas and whitespace has no entries. */
  lemma ItemsOfSeparatorsOnly(text: string)
    requires forall i :: 0 <= i < |text| ==> text[i] == ',' || IsSpace(text[i])
    ensures Items(text) == []
  {
    var pieces := SplitOn(text, ",");
    SplitPiecesNoSeparator(text, ',');
    forall k | 0 <= k < |pieces|
      ensures Trim(pieces[k]) == ""
    {
      forall i | 0 <= i < |pieces[k]|
        ensures IsSpace(pieces[k][i])
      {
        var x := pieces[k][i];
        if x !in text {
          SplitPiecesAvoid(text, ',', x);
        }
      }
      AllSpaceBlank(pieces[k]);
    }
    NonBlankPiecesAllBlank(pieces);
  }

  /** Whitespace alone trims to nothing. */
  lemma AllSpaceBlank(s: string)
    requires forall i :: 0 <= i < |s| ==> IsSpace(s[i])
    ensures Trim(s) == ""
  {
    TrimStartShape(s);
  }

  lemma {:induction false} NonBlankPiecesAllBlank(pieces: seq<string>)
    requires forall k :: 0 <= k < |pieces| ==> Trim(pieces[k]) == ""
    ensures NonBlankPieces(pieces) == []
  {
    if pieces != [] {
      NonBlankPiecesAllBlank(pieces[1..]);
    }
  }

  /** A piece that is not blank leaves something behind. */
  lemma {:induction false} NonBlankPiecesNonEmpty(vs: seq<string>, k: nat)
    requires k < |vs| && Trim(vs[k]) != ""
    ensures |NonBlankPieces(vs)| > 0
  {
    if k > 0 && Trim(vs[0]) == "" {
      NonBlankPiecesNonEmpty(vs[1..], k - 1);
    }
  }

  lemma {:induction false} NonBlankPiecesIdempotent(vs: seq<string>)
    ensures NonBlankPieces(NonBlankPieces(vs)) == NonBlankPieces(vs)
  {
    if vs != [] {
      NonBlankPiecesIdempotent(vs[1..]);
      TrimIdempotent(vs[0]);
      var rest := NonBlankPieces(vs[1..]);
      if Trim(vs[0]) != "" {
        var once := [Trim(vs[0])] + rest;
        assert NonBlankPieces(vs) == once;
        assert once[0] == Trim(vs[0]) && once[1..] == rest;
      } else {
        assert NonBlankPieces(vs) == [] + rest == rest;
      }
    }
  }

  lemma {:induction false} NoCommaInEntries(vs: seq<string>)
    requires AllEntries(vs)
    ensures forall k, i :: 0 <= k < |vs| && 0 <= i < |vs[k]| ==> vs[k][i] != ','
  {
    forall k, i | 0 <= k < |vs| && 0 <= i < |vs[k]|
      ensures vs[k][i] != ','
    {
      assert Entry(vs[k]);
    }
  }

  /** A trimmed entry keeps its value behind the blank put after each
      comma. */
  lemma TrimAfterBlank(p: string, v: string)
    requires p == "" || p == " "
    requires Entry(v)
    ensures Trim(p + v) == v
  {
    if p == " " {
      TrimStartSpace(v);
      assert [' '] + v == p + v;
    } else {
      assert p + v == v;
    }
  }

  lemma {:induction false} JoinedPieces(p: string, vs: seq<string>)
    requires p == "" || p == " "
    requires |vs| >= 1 && AllEntries(vs)
    ensures NonBlankPieces(SplitOn(p + Join(vs, ", "), ",")) == vs
    decreases |vs|
  {
    if |vs| == 1 {
      assert p + Join(vs, ", ") == p + vs[0];
      JoinedOne(p, vs[0]);
    } else {
      var tail := " " + Join(vs[1..], ", ");
      assert AllEntries(vs[1..]) by {
        forall k | 0 <= k < |vs| - 1 ensures Entry(vs[1..][k]) { assert vs[1..][k] == vs[k + 1]; }
      }
      JoinedStep(p, vs[0], Join(vs[1..], ", "));
      JoinedPieces(" ", vs[1..]);
      assert vs == [vs[0]] + vs[1..];
    }
  }

  /** A field holding one entry, after the blank or at the start. */
  lemma JoinedOne(p: string, v: string)
    requires p == "" || p == " "
    requires Entry(v)
    ensures NonBlankPieces(SplitOn(p + v, ",")) == [v]
  {
    TrimAfterBlank(p, v);
    var head := p + v;
    assert forall i :: 0 <= i < |head| ==> head[i] != ',';
    NoMatchOfAbsentChar(head, "", ',', |head|);
    assert head + "" == head;
    SplitWhole(head, ",");
    assert NonBlankPieces([head]) == [v];
  }

  /** The first entry of a field holding more than one. */
  lemma JoinedStep(p: string, v: string, rest: string)
    requires p == "" || p == " "
    requires Entry(v)
    ensures NonBlankPieces(SplitOn(p + (v + ", " + rest), ","))
              == [v] + NonBlankPieces(SplitOn(" " + rest, ","))
  {
    TrimAfterBlank(p, v);
    var head, tail := p + v, " " + rest;
    assert forall i :: 0 <= i < |head| ==> head[i] != ',';
    assert p + (v + ", " + rest) == head + "," + tail;
    NoMatchOfAbsentChar(head, "," + tail, ',', |head|);
    assert head + "," + tail == head + ("," + tail);
    SplitPiece(head, tail, ",");
  }

  /** Reading back a field written with `join(", ")` gives the entries
      back. */
  lemma ItemsJoinRoundTrip(vs: seq<string>)
    requires AllEntries(vs)
    ensures Items(Join(vs, ", ")) == vs
  {
    if vs == [] {
      assert SplitOn("", ",") == [""];
      TrimNoop("");
    } else {
      JoinedPieces("", vs);
      assert "" + Join(vs, ", ") == Join(vs, ", ");
    }
  }

  /** Joining entries that avoid a character that the separator avoids
      too gives a text without it. */
  lemma {:induction false} JoinNoChar(vs: seq<string>, sep: string, c: char)
    requires c !in sep
    requires forall k, i :: 0 <= k < |vs| && 0 <= i < |vs[k]| ==> vs[k][i] != c
    ensures c !in Join(vs, sep)
    decreases |vs|
  {
    if |vs| > 1 {
      JoinNoChar(vs[1..], sep, c);
      assert c !in vs[0];
    } else if |vs| == 1 {
      assert c !in vs[0];
    }
  }
}
