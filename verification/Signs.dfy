/** A sign's four lines, the one text the client edits, and back. */
module Signs {
  import opened Wire

  const LINES := 4
  const NEWLINE: Byte := 10

  /** A text without the newlines at its end. */
  function TrimRight(s: Bytes): (r: Bytes)
    ensures r <= s && Firm(r)
  {
    if s != [] && s[|s| - 1] == NEWLINE then TrimRight(s[..|s| - 1]) else s
  }

  /** It takes away newlines from the end, and all of them. */
  lemma {:induction false} TrimRightExactly(s: Bytes)
    ensures var r := TrimRight(s);
            && r <= s && (r == [] || r[|r| - 1] != 10)
            && forall k :: |r| <= k < |s| ==> s[k] == 10
  {
    if s == [] || s[|s| - 1] != NEWLINE {
    } else {
      TrimRightExactly(s[..|s| - 1]);
    }
  }

  /** Not ending in a newline. */
  predicate Firm(s: Bytes) {
    s == [] || s[|s| - 1] != NEWLINE
  }

  function Join(lines: seq<Bytes>): Bytes
    requires lines != []
  {
    if |lines| == 1 then lines[0] else lines[0] + [NEWLINE] + Join(lines[1..])
  }

  /** The one text a side is shown as. */
  function SideText(lines: seq<Bytes>): Bytes
    requires lines != []
  {
    TrimRight(Join(lines))
  }

  function FirstNewline(s: Bytes): (i: nat)
    ensures i <= |s| && NEWLINE !in s[..i]
    ensures i < |s| ==> s[i] == NEWLINE
  {
    if s == [] || s[0] == NEWLINE then 0 else 1 + FirstNewline(s[1..])
  }

  /** At most n pieces between newlines, the last one unsplit. */
  function SplitN(s: Bytes, n: nat): (r: seq<Bytes>)
    requires n > 0
    ensures 0 < |r| <= n
  {
    var i := FirstNewline(s);
    if n == 1 || i == |s| then [s] else [s[..i]] + SplitN(s[i + 1..], n - 1)
  }

  /** The first n lines of a text, the last of them with all that follows; empty where there are fewer. */
  function LinesOf(s: Bytes, n: nat): (r: seq<Bytes>)
    requires n > 0
    ensures |r| == n
    decreases n
  {
    if n == 1 then [s]
    else
      var i := FirstNewline(s);
      [s[..i]] + LinesOf(if i < |s| then s[i + 1..] else [], n - 1)
  }

  function Empties(n: nat): (r: seq<Bytes>)
    ensures |r| == n && forall k :: 0 <= k < n ==> r[k] == []
  {
    seq(n, _ => [])
  }

  lemma {:induction false} EmptyLines(n: nat)
    requires n > 0
    ensures LinesOf([], n) == Empties(n)
  {
    if n == 1 {
    } else {
      EmptyLines(n - 1);
    }
  }

  lemma SplitStep(s: Bytes, n: nat)
    requires n > 1
    ensures var i := FirstNewline(s);
            && SplitN(s, n) == (if i == |s| then [s] else [s[..i]] + SplitN(s[i + 1..], n - 1))
            && LinesOf(s, n) == [s[..i]] + LinesOf(if i < |s| then s[i + 1..] else [], n - 1)
  {
    hide FirstNewline;
  }

  lemma OneLine(s: Bytes)
    ensures SplitN(s, 1) == [s] && LinesOf(s, 1) == [s] && [s] + Empties(0) == [s]
  {
    hide FirstNewline;
  }

  lemma PiecesInFront(a: Bytes, pieces: seq<Bytes>, more: seq<Bytes>)
    ensures [a] + (pieces + more) == ([a] + pieces) + more
  {
  }

  lemma {:induction false} SplitPadded(s: Bytes, n: nat)
    requires n > 0
    ensures LinesOf(s, n) == SplitN(s, n) + Empties(n - |SplitN(s, n)|)
  {
    hide *;
    if n == 1 {
      OneLine(s);
    } else {
      SplitStep(s, n);
      var i := FirstNewline(s);
      if i == |s| {
        EmptyLines(n - 1);
        assert s[..i] == s;
      } else {
        var t := s[i + 1..];
        SplitPadded(t, n - 1);
        PiecesInFront(s[..i], SplitN(t, n - 1), Empties(n - 1 - |SplitN(t, n - 1)|));
      }
    }
  }

  method SignLines(text: Bytes) returns (lines: array<Bytes>)
    ensures fresh(lines) && lines[..] == LinesOf(text, 4)
  {
    hide SplitN, LinesOf, Empties;
    lines := new Bytes[LINES](_ => []);
    var pieces := SplitN(text, LINES);
    for i := 0 to |pieces|
      invariant forall k :: 0 <= k < LINES ==> lines[k] == if k < i then pieces[k] else []
    {
      lines[i] := pieces[i];
    }
    SplitPadded(text, LINES);
    assert lines[..] == pieces + Empties(LINES - |pieces|);
  }

  lemma {:induction false} TrimJoined(a: Bytes, b: Bytes)
    ensures TrimRight(a + [NEWLINE] + b) == if TrimRight(b) == [] then TrimRight(a) else a + [NEWLINE] + TrimRight(b)
  {
    var s := a + [NEWLINE] + b;
    if b == [] {
      assert s[..|s| - 1] == a;
    } else if b[|b| - 1] == NEWLINE {
      assert s[..|s| - 1] == a + [NEWLINE] + b[..|b| - 1];
      TrimJoined(a, b[..|b| - 1]);
    }
  }

  lemma JoinMore(a: Bytes, lines: seq<Bytes>)
    requires lines != []
    ensures Join([a] + lines) == a + [NEWLINE] + Join(lines)
  {
    assert ([a] + lines)[1..] == lines;
  }

  /** What the client typed is stored as lines and shown again as typed, without the newlines at its end. */
  lemma {:induction false} TypedTextShown(text: Bytes, n: nat)
    requires n > 0
    ensures SideText(LinesOf(text, n)) == TrimRight(text)
    decreases n
  {
    hide FirstNewline, TrimRight, Join;
    if n == 1 {
      JoinOne(text);
    } else {
      SplitStep(text, n);
      hide LinesOf;
      var i := FirstNewline(text);
      var a, rest := text[..i], if i < |text| then text[i + 1..] else [];
      var more := LinesOf(rest, n - 1);
      JoinMore(a, more);
      TypedTextShown(rest, n - 1);
      TrimJoined(a, Join(more));
      if i < |text| {
        assert text == a + [NEWLINE] + rest;
        TrimJoined(a, rest);
      } else {
        TrimmedEmpty();
        assert a == text;
      }
    }
  }

  lemma JoinOne(a: Bytes)
    ensures Join([a]) == a
  {
  }

  function Newlines(s: Bytes): nat {
    if s == [] then 0 else Newlines(s[1..]) + if s[0] == 10 then 1 else 0
  }

  lemma {:induction false} NewlinesAfter(a: Bytes, b: Bytes)
    requires NEWLINE !in a
    ensures Newlines(a) == 0 && Newlines(a + [NEWLINE] + b) == 1 + Newlines(b)
  {
    if a == [] {
      assert ([NEWLINE] + b)[1..] == b && a + [NEWLINE] + b == [NEWLINE] + b;
    } else {
      NewlinesAfter(a[1..], b);
      assert (a + [NEWLINE] + b)[1..] == a[1..] + [NEWLINE] + b;
    }
  }

  /** The newlines of the lines a text has too few. */
  function Missing(s: Bytes, n: nat): Bytes
    requires n > 0
  {
    seq(if Newlines(s) < n - 1 then n - 1 - Newlines(s) else 0, _ => 10)
  }

  /**
    * The n lines of a text hold all of it, newlines at its end included: joined they are the
    * text again, with a newline for each line it was short of. Only the last line has newlines.
    */
  lemma {:induction false} LinesHoldText(text: Bytes, n: nat)
    requires n > 0
    ensures Join(LinesOf(text, n)) == text + Missing(text, n)
    ensures forall k :: 0 <= k < n - 1 ==> 10 !in LinesOf(text, n)[k]
    decreases n
  {
    hide FirstNewline, Join, Missing;
    if n == 1 {
      JoinOne(text);
      NoneMissing(text);
    } else {
      var i := FirstNewline(text);
      var a, rest := text[..i], if i < |text| then text[i + 1..] else [];
      var more := LinesOf(rest, n - 1);
      assert LinesOf(text, n) == [a] + more;
      JoinMore(a, more);
      LinesHoldText(rest, n - 1);
      MissingMore(a, rest, n);
      assert text == if i < |text| then a + [NEWLINE] + rest else a;
    }
  }

  lemma NoneMissing(s: Bytes)
    ensures s + Missing(s, 1) == s
  {
  }

  /** One newline more in the text is one line less missing. */
  lemma MissingMore(a: Bytes, rest: Bytes, n: nat)
    requires n > 1 && NEWLINE !in a
    ensures Missing(a + [NEWLINE] + rest, n) == Missing(rest, n - 1)
    ensures a + [NEWLINE] + (rest + Missing(rest, n - 1)) == a + [NEWLINE] + rest + Missing(rest, n - 1)
    ensures rest == [] ==> a + [NEWLINE] + (rest + Missing(rest, n - 1)) == a + Missing(a, n)
  {
    NewlinesAfter(a, rest);
    hide Newlines;
    NoNewlines();
    if rest == [] {
      assert Missing(a, n) == [NEWLINE] + Missing(rest, n - 1);
    }
  }

  lemma NoNewlines()
    ensures Newlines([]) == 0
  {
  }

  /** Lines a text can hold: only the last may have a newline in it, and not at its end. */
  ghost predicate Separable(lines: seq<Bytes>) {
    && (forall k :: 0 <= k < |lines| - 1 ==> 10 !in lines[k])
    && (lines != [] && lines[|lines| - 1] != [] ==> lines[|lines| - 1][|lines[|lines| - 1]| - 1] != 10)
  }

  lemma SeparableParts(lines: seq<Bytes>)
    requires lines != [] && Separable(lines)
    ensures if |lines| == 1 then Firm(lines[0]) else NEWLINE !in lines[0] && Separable(lines[1..])
  {
  }

  lemma LinesInFront(a: Bytes, text: Bytes, n: nat)
    requires n > 1 && NEWLINE !in a
    ensures LinesOf(if text == [] then a else a + [NEWLINE] + text, n) == [a] + LinesOf(text, n - 1)
  {
    hide LinesOf;
    if text == [] {
      NothingToTrim(a);
      SplitStep(a, n);
      assert a[..|a|] == a;
    } else {
      SplitsAt(a, text);
      SplitStep(a + [NEWLINE] + text, n);
    }
  }

  lemma {:induction false} HeldLines(lines: seq<Bytes>)
    requires lines != [] && Separable(lines)
    ensures LinesOf(SideText(lines), |lines|) == lines
  {
    hide *;
    SeparableParts(lines);
    var a, more := lines[0], lines[1..];
    if |lines| == 1 {
      assert lines == [a];
      NothingMoreToTrim(a);
      JoinOne(a);
      OneLine(a);
      SideTextIs(lines);
    } else {
      HeldLines(more);
      assert lines == [a] + more;
      JoinMore(a, more);
      TrimJoined(a, Join(more));
      NothingToTrim(a);
      SideTextIs(lines);
      SideTextIs(more);
      LinesInFront(a, SideText(more), |lines|);
    }
  }

  lemma SideTextIs(lines: seq<Bytes>)
    requires lines != []
    ensures SideText(lines) == TrimRight(Join(lines))
  {
    hide TrimRight, Join;
  }

  lemma NothingMoreToTrim(a: Bytes)
    requires Firm(a)
    ensures TrimRight(a) == a
  {
  }

  lemma TrimmedEmpty()
    ensures TrimRight([]) == []
  {
  }

  lemma NothingToTrim(a: Bytes)
    requires NEWLINE !in a
    ensures TrimRight(a) == a && FirstNewline(a) == |a|
  {
    FirstNewlineAt(a, |a|);
  }

  lemma SplitsAt(a: Bytes, b: Bytes)
    requires NEWLINE !in a
    ensures var s := a + [NEWLINE] + b; FirstNewline(s) == |a| && s[..|a|] == a && s[|a| + 1..] == b
  {
    FirstNewlineAt(a + [NEWLINE] + b, |a|);
  }

  lemma {:induction false} FirstNewlineAt(s: Bytes, i: nat)
    requires i <= |s| && (forall k :: 0 <= k < i ==> s[k] != NEWLINE) && (i < |s| ==> s[i] == NEWLINE)
    ensures FirstNewline(s) == i
  {
    if i == 0 {
    } else {
      FirstNewlineAt(s[1..], i - 1);
    }
  }

  lemma SeparableMore(a: Bytes, more: seq<Bytes>)
    requires NEWLINE !in a && more != [] && Separable(more)
    ensures Separable([a] + more)
  {
    assert forall k :: 0 < k <= |more| ==> ([a] + more)[k] == more[k - 1];
  }

  lemma SeparableOne(a: Bytes)
    requires Firm(a)
    ensures Separable([a])
  {
  }

  lemma FirmEnd(text: Bytes, i: nat)
    requires Firm(text) && i < |text|
    ensures Firm(text[i + 1..])
  {
  }

  lemma {:induction false} SplitIsHeld(text: Bytes, n: nat)
    requires n > 0 && Firm(text)
    ensures Separable(LinesOf(text, n))
    decreases n
  {
    hide Separable, Firm, FirstNewline;
    if n == 1 {
      SeparableOne(text);
    } else {
      var i := FirstNewline(text);
      var rest := if i < |text| then text[i + 1..] else [];
      assert Firm(rest) by {
        if i < |text| {
          FirmEnd(text, i);
        } else {
          NothingToTrim([]);
        }
      }
      SplitIsHeld(rest, n - 1);
      SeparableMore(text[..i], LinesOf(rest, n - 1));
    }
  }

  /**
    * A side's lines come back from the text it is shown as exactly when no line but the last
    * has a newline in it and the last does not end in one.
    */
  lemma ShownLinesComeBack(lines: seq<Bytes>)
    requires |lines| == 4
    ensures LinesOf(SideText(lines), 4) == lines <==> Separable(lines)
  {
    if Separable(lines) {
      HeldLines(lines);
    }
    SplitIsHeld(SideText(lines), 4);
  }
}
