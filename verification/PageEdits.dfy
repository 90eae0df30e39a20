/** Page-by-page editing of a book and quill. */
module PageEdits {
  import opened Wire
  import opened MachineInts
  import opened Books

  const EMPTY := Page([])

  datatype Action = ReplacePage | AddPage | DeletePage | SwapPages | Sign | Unknown(code: nat)

  datatype Edit = Edit(action: Action, page: int, page2: int, text: Page)

  /** What counts as a blank page is left open; the empty page does. */
  ghost predicate Blankness(blank: Page -> bool) {
    blank(Page([]))
  }

  // ---------------------------------------------------------------------------------
  // One edit
  // ---------------------------------------------------------------------------------

  /** The pages without the blank ones at the end. */
  function Trim(blank: Page -> bool, ps: seq<Page>): (r: seq<Page>)
    ensures |r| <= |ps| && r == ps[..|r|]
    ensures Trimmed(blank, r)
    ensures forall n :: |r| <= n < |ps| ==> blank(ps[n])
  {
    if ps != [] && blank(ps[|ps| - 1]) then Trim(blank, ps[..|ps| - 1]) else ps
  }

  predicate Trimmed(blank: Page -> bool, ps: seq<Page>) {
    ps == [] || !blank(ps[|ps| - 1])
  }

  /** The pages with empty ones behind them, up to n pages. */
  function Pad(ps: seq<Page>, n: nat): (r: seq<Page>)
    ensures |r| == if |ps| < n then n else |ps|
    ensures forall k :: 0 <= k < |r| ==> r[k] == At(ps, k)
  {
    ps + seq(if |ps| < n then n - |ps| else 0, _ => EMPTY)
  }

  predicate Accepts(pages: seq<Page>, e: Edit) {
    && 0 <= e.page < MAX_PAGES
    && match e.action
       case ReplacePage => true
       case AddPage => true
       case DeletePage => e.page < |pages|
       case SwapPages => e.page < |pages| && 0 <= e.page2 < |pages|
       case Sign => true
       case Unknown(_) => false
  }

  function Inserted(ps: seq<Page>, p: nat, text: Page): (r: seq<Page>)
    requires p <= |ps|
    ensures |r| == |ps| + 1
  {
    ps[..p] + [text] + ps[p..]
  }

  function Swapped(ps: seq<Page>, p: nat, q: nat): (r: seq<Page>)
    requires p < |ps| && q < |ps|
    ensures |r| == |ps|
  {
    ps[p := ps[q]][q := ps[p]]
  }

  function Untrimmed(pages: seq<Page>, e: Edit): (r: seq<Page>)
    requires Accepts(pages, e)
  {
    match e.action
    case ReplacePage =>
      var padded := Pad(pages, e.page);
      if e.page < |padded| then padded[e.page := e.text] else Inserted(padded, e.page, e.text)
    case AddPage => Inserted(Pad(pages, e.page), e.page, e.text)
    case DeletePage => pages[..e.page] + pages[e.page + 1..]
    case SwapPages => Swapped(pages, e.page, e.page2)
    case Sign => pages
  }

  /** The page list after an edit; a refused edit leaves it alone. */
  function Edited(blank: Page -> bool, pages: seq<Page>, e: Edit): seq<Page> {
    if Accepts(pages, e) then Trim(blank, Untrimmed(pages, e)) else pages
  }

  /** The end of a buffer moved up one place, and the page put before it. */
  method InsertPage(out: array<Page>, n: nat, p: nat, text: Page)
    requires p <= n < out.Length
    modifies out
    ensures out[..n + 1] == Inserted(old(out[..n]), p, text)
  {
    forall k | p < k <= n {
      out[k] := out[k - 1];
    }
    out[p] := text;
  }

  /** The end of a buffer moved down over a page. */
  method DeletePageAt(out: array<Page>, n: nat, p: nat)
    requires p < n <= out.Length
    modifies out
    ensures out[..n - 1] == old(out[..p] + out[p + 1..n])
  {
    ghost var was := out[..n];
    forall k | p <= k < n - 1 {
      out[k] := out[k + 1];
    }
    assert forall k :: 0 <= k < n - 1 ==> out[k] == if k < p then was[k] else was[k + 1];
    assert was[..p] == old(out[..p]) && was[p + 1..] == old(out[p + 1..n]);
    assert out[..n - 1] == was[..p] + was[p + 1..];
  }

  /** A copy with room for an edit of page p. */
  method CopyPages(pages: array<Page>, p: nat) returns (out: array<Page>)
    ensures fresh(out) && out.Length > p && out.Length > pages.Length
    ensures out[..pages.Length] == pages[..]
  {
    out := new Page[(if pages.Length < p then p else pages.Length) + 1];
    forall k | 0 <= k < pages.Length {
      out[k] := pages[k];
    }
  }

  method PadPages(out: array<Page>, len: nat, p: nat) returns (n: nat)
    requires len <= out.Length && p <= out.Length
    modifies out
    ensures n == (if len < p then p else len) && out[..n] == Pad(old(out[..len]), p)
  {
    n := len;
    ghost var was := out[..len];
    while n < p
      invariant len <= n <= if len < p then p else len
      invariant forall k :: 0 <= k < n ==> out[k] == At(was, k)
    {
      out[n] := EMPTY;
      n := n + 1;
    }
  }

  method TrimPages(blank: Page -> bool, out: array<Page>, len: nat) returns (n: nat)
    requires len <= out.Length
    ensures n <= len && out[..n] == Trim(blank, out[..len])
  {
    n := len;
    while n > 0 && blank(out[n - 1])
      invariant n <= len && Trim(blank, out[..n]) == Trim(blank, out[..len])
    {
      assert out[..n][..n - 1] == out[..n - 1];
      n := n - 1;
    }
  }

  /**
    * The first n pages of out are the edited list. An accepted edit works on a copy, so the
    * caller's list keeps its pages; a refused one gives the caller's list back.
    */
  method EditPages(blank: Page -> bool, pages: array<Page>, e: Edit) returns (out: array<Page>, n: nat, ok: bool)
    ensures ok == Accepts(pages[..], e)
    ensures n <= out.Length && out[..n] == Edited(blank, pages[..], e)
    ensures if ok then fresh(out) else out == pages
  {
    hide Trim, Pad, Inserted;
    if e.page < 0 || e.page >= MAX_PAGES {
      return pages, pages.Length, false;
    }
    out := CopyPages(pages, e.page);
    n := pages.Length;
    match e.action {
      case ReplacePage =>
        n := PadPages(out, n, e.page);
        if e.page < n {
          out[e.page] := e.text;
          assert out[..n] == Pad(pages[..], e.page)[e.page := e.text];
        } else {
          InsertPage(out, n, e.page, e.text);
          n := n + 1;
        }
      case AddPage =>
        n := PadPages(out, n, e.page);
        InsertPage(out, n, e.page, e.text);
        n := n + 1;
      case DeletePage =>
        if e.page >= n {
          return pages, n, false;
        }
        DeletePageAt(out, n, e.page);
        n := n - 1;
      case SwapPages =>
        if e.page >= n || e.page2 < 0 || e.page2 >= n {
          return pages, n, false;
        }
        out[e.page], out[e.page2] := out[e.page2], out[e.page];
        assert out[..n] == Swapped(pages[..], e.page, e.page2);
      case Sign =>
      case Unknown(_) =>
        return pages, n, false;
    }
    assert out[..n] == Untrimmed(pages[..], e);
    n := TrimPages(blank, out, n);
    ok := true;
  }

  // ---------------------------------------------------------------------------------
  // A book as a map from page numbers to pages
  // ---------------------------------------------------------------------------------

  // From here on the limit of 100 pages and the empty page are written out, apart from the
  // editor's names for them.

  type Sheet = nat -> Page

  /** The page under a number: empty past the end. */
  function At(ps: seq<Page>, n: nat): Page {
    if n < |ps| then ps[n] else Page([])
  }

  function SheetOf(ps: seq<Page>): Sheet {
    (n: nat) => At(ps, n)
  }

  /** What an edit is on such a map: a point update, an insertion, a shift, a transposition. */
  function UpdatedAt(v: Sheet, e: Edit, n: nat): Page
    requires e.page >= 0 && (e.action == SwapPages ==> e.page2 >= 0)
  {
    match e.action
    case ReplacePage => if n == e.page then e.text else v(n)
    case AddPage => if n < e.page then v(n) else if n == e.page then e.text else v(n - 1)
    case DeletePage => if n < e.page then v(n) else v(n + 1)
    case SwapPages => if n == e.page then v(e.page2) else if n == e.page2 then v(e.page) else v(n)
    case Sign => v(n)
    case Unknown(_) => v(n)
  }

  function Updated(v: Sheet, e: Edit): Sheet
    requires e.page >= 0 && (e.action == SwapPages ==> e.page2 >= 0)
  {
    (n: nat) => UpdatedAt(v, e, n)
  }

  /** The trimmed list of exactly the pages of v up to its last non-blank one. */
  ghost predicate Represents(blank: Page -> bool, ps: seq<Page>, v: Sheet) {
    && Trimmed(blank, ps)
    && (forall n :: 0 <= n < |ps| ==> ps[n] == v(n))
    && (forall n :: n >= |ps| ==> blank(v(n)))
  }

  lemma RepresentsNoLonger(blank: Page -> bool, ps: seq<Page>, qs: seq<Page>, v: Sheet)
    requires Represents(blank, ps, v) && Represents(blank, qs, v)
    ensures |ps| <= |qs|
  {
    if ps != [] {
      assert !blank(v(|ps| - 1));
    }
  }

  /** At most one page list represents a map. */
  lemma RepresentsUnique(blank: Page -> bool, ps: seq<Page>, qs: seq<Page>, v: Sheet)
    requires Represents(blank, ps, v) && Represents(blank, qs, v)
    ensures ps == qs
  {
    RepresentsNoLonger(blank, ps, qs, v);
    RepresentsNoLonger(blank, qs, ps, v);
  }

  lemma UntrimmedIsUpdate(pages: seq<Page>, e: Edit, n: nat)
    requires Accepts(pages, e)
    ensures At(Untrimmed(pages, e), n) == Updated(SheetOf(pages), e)(n)
  {
  }

  /** An accepted edit gives the one list that represents the edited map. */
  lemma EditIsUpdate(blank: Page -> bool, pages: seq<Page>, e: Edit)
    requires Blankness(blank) && Accepts(pages, e)
    ensures Represents(blank, Edited(blank, pages, e), Updated(SheetOf(pages), e))
  {
    var raw := Untrimmed(pages, e);
    var out := Trim(blank, raw);
    forall n: nat ensures n < |out| ==> out[n] == Updated(SheetOf(pages), e)(n)
                  ensures n >= |out| ==> blank(Updated(SheetOf(pages), e)(n))
    {
      UntrimmedIsUpdate(pages, e, n);
    }
  }

  // ---------------------------------------------------------------------------------
  // Runs of edits
  // ---------------------------------------------------------------------------------

  /** The same page, or two blank ones. */
  predicate Same(blank: Page -> bool, a: Page, b: Page) {
    a == b || (blank(a) && blank(b))
  }

  ghost predicate Looks(blank: Page -> bool, ps: seq<Page>, v: Sheet) {
    forall n: nat :: Same(blank, At(ps, n), v(n))
  }

  /** Some page numbered p or later is not blank. */
  ghost predicate Reaches(blank: Page -> bool, v: Sheet, p: nat) {
    exists n: nat :: n >= p && !blank(v(n))
  }

  /** Whether an edit takes effect, told from the map alone. */
  ghost predicate AcceptsSheet(blank: Page -> bool, v: Sheet, e: Edit) {
    && 0 <= e.page < 100 && !e.action.Unknown?
    && (e.action == DeletePage ==> Reaches(blank, v, e.page))
    && (e.action == SwapPages ==> e.page2 >= 0 && Reaches(blank, v, e.page) && Reaches(blank, v, e.page2))
  }

  function Run(blank: Page -> bool, pages: seq<Page>, edits: seq<Edit>): seq<Page>
    decreases edits
  {
    if edits == [] then pages else Run(blank, Edited(blank, pages, edits[0]), edits[1..])
  }

  ghost function RunSheet(blank: Page -> bool, v: Sheet, edits: seq<Edit>): Sheet
    decreases edits
  {
    if edits == [] then v
    else RunSheet(blank, if AcceptsSheet(blank, v, edits[0]) then Updated(v, edits[0]) else v, edits[1..])
  }

  /** Which edits of a run take effect. */
  function Taken(blank: Page -> bool, pages: seq<Page>, edits: seq<Edit>): seq<bool>
    decreases edits
  {
    if edits == [] then []
    else [Accepts(pages, edits[0])] + Taken(blank, Edited(blank, pages, edits[0]), edits[1..])
  }

  ghost function TakenSheet(blank: Page -> bool, v: Sheet, edits: seq<Edit>): seq<bool>
    decreases edits
  {
    if edits == [] then []
    else
      var ok := AcceptsSheet(blank, v, edits[0]);
      [ok] + TakenSheet(blank, if ok then Updated(v, edits[0]) else v, edits[1..])
  }

  lemma ReachesInRange(blank: Page -> bool, ps: seq<Page>, v: Sheet, p: nat)
    requires Blankness(blank) && Trimmed(blank, ps) && Looks(blank, ps, v)
    ensures Reaches(blank, v, p) <==> p < |ps|
  {
    if p < |ps| {
      assert Same(blank, At(ps, |ps| - 1), v(|ps| - 1));
      assert !blank(v(|ps| - 1));
    }
    if Reaches(blank, v, p) {
      var n: nat :| n >= p && !blank(v(n));
      assert Same(blank, At(ps, n), v(n));
    }
  }

  lemma UpdatedSame(blank: Page -> bool, v: Sheet, w: Sheet, e: Edit, n: nat)
    requires e.page >= 0 && (e.action == SwapPages ==> e.page2 >= 0)
    requires forall k: nat :: Same(blank, v(k), w(k))
    ensures Same(blank, UpdatedAt(v, e, n), UpdatedAt(w, e, n))
  {
    hide Same;
    if e.action == SwapPages {
      assert Same(blank, v(e.page), w(e.page)) && Same(blank, v(e.page2), w(e.page2));
    }
    SameReflexive(blank, e.text);
  }

  lemma SameReflexive(blank: Page -> bool, a: Page)
    ensures Same(blank, a, a)
  {
  }

  lemma LooksLikeItself(blank: Page -> bool, ps: seq<Page>)
    ensures Looks(blank, ps, SheetOf(ps))
  {
  }

  lemma EditedLooks(blank: Page -> bool, pages: seq<Page>, v: Sheet, e: Edit)
    requires Blankness(blank) && Looks(blank, pages, v) && Accepts(pages, e)
    ensures Looks(blank, Edited(blank, pages, e), Updated(v, e))
  {
    hide Edited, UpdatedAt;
    EditIsUpdate(blank, pages, e);
    var out, w := Edited(blank, pages, e), SheetOf(pages);
    forall n: nat ensures Same(blank, At(out, n), Updated(v, e)(n)) {
      UpdatedSame(blank, w, v, e, n);
      assert Updated(w, e)(n) == UpdatedAt(w, e, n);
      assert n >= |out| ==> blank(Updated(w, e)(n));
    }
  }

  /**
    * Over any run of edits of a trimmed book the page list keeps to the map: it looks like the
    * map edited by point updates, insertions, shifts and transpositions, takes exactly the
    * edits the map takes, and never ends in a blank page.
    */
  lemma {:induction false} RunRefines(blank: Page -> bool, pages: seq<Page>, v: Sheet, edits: seq<Edit>)
    requires Blankness(blank) && Trimmed(blank, pages) && Looks(blank, pages, v)
    ensures Trimmed(blank, Run(blank, pages, edits))
    ensures Looks(blank, Run(blank, pages, edits), RunSheet(blank, v, edits))
    ensures Taken(blank, pages, edits) == TakenSheet(blank, v, edits)
    decreases edits
  {
    hide Edited, Updated, Looks;
    if edits == [] {
    } else {
      var e := edits[0];
      if e.page >= 0 {
        ReachesInRange(blank, pages, v, e.page);
      }
      if e.page2 >= 0 {
        ReachesInRange(blank, pages, v, e.page2);
      }
      assert Accepts(pages, e) == AcceptsSheet(blank, v, e);
      if Accepts(pages, e) {
        EditedLooks(blank, pages, v, e);
        EditIsUpdate(blank, pages, e);
        RunRefines(blank, Edited(blank, pages, e), Updated(v, e), edits[1..]);
      } else {
        RefusedLeavesAlone(blank, pages, e);
        RunRefines(blank, pages, v, edits[1..]);
      }
    }
  }

  /** The first edit of a run that takes effect, if any. */
  function FirstAccepted(pages: seq<Page>, edits: seq<Edit>): (k: nat)
    ensures k <= |edits|
    ensures k < |edits| ==> Accepts(pages, edits[k])
    ensures forall i :: 0 <= i < k ==> !Accepts(pages, edits[i])
  {
    if edits == [] || Accepts(pages, edits[0]) then 0 else 1 + FirstAccepted(pages, edits[1..])
  }

  /**
    * A run from any book, blank pages at its end or not: nothing happens up to the first edit
    * whose page numbers are in range; that one is done on the map of all its pages, and from
    * there on the list keeps to the map.
    */
  lemma {:induction false} RunFromAny(blank: Page -> bool, pages: seq<Page>, edits: seq<Edit>)
    requires Blankness(blank)
    ensures var k := FirstAccepted(pages, edits);
            var out := Run(blank, pages, edits);
            if k == |edits| then out == pages && Taken(blank, pages, edits) == seq(k, _ => false)
            else
              var v := Updated(SheetOf(pages), edits[k]);
              && Trimmed(blank, out) && Looks(blank, out, RunSheet(blank, v, edits[k + 1..]))
              && Taken(blank, pages, edits) == seq(k, _ => false) + [true] + TakenSheet(blank, v, edits[k + 1..])
    decreases edits
  {
    hide Edited, Updated, Looks, Trimmed, RunSheet, TakenSheet;
    if edits == [] {
    } else {
      var e := edits[0];
      if Accepts(pages, e) {
        EditIsUpdate(blank, pages, e);
        LooksLikeItself(blank, pages);
        EditedLooks(blank, pages, SheetOf(pages), e);
        var v := Updated(SheetOf(pages), e);
        RunRefines(blank, Edited(blank, pages, e), v, edits[1..]);
      } else {
        RefusedLeavesAlone(blank, pages, e);
        RunFromAny(blank, pages, edits[1..]);
        var k := FirstAccepted(pages, edits[1..]);
        assert seq(k + 1, _ => false) == [false] + seq(k, _ => false);
        assert k < |edits[1..]| ==> edits[1..][k] == edits[k + 1] && edits[1..][k + 1..] == edits[k + 2..];
      }
    }
  }

  /** Of two pages, the second blank, a swap is in range, though the map has nothing to see there. */
  lemma BlankEndTaken(blank: Page -> bool, text: Page, space: Page)
    requires Blankness(blank) && !blank(text) && blank(space)
    ensures var swap := Edit(SwapPages, 0, 1, Page([]));
            && Accepts([text, space], swap) && Edited(blank, [text, space], swap) == [space, text]
            && !AcceptsSheet(blank, SheetOf([text, space]), swap)
  {
    var pages, swap := [text, space], Edit(SwapPages, 0, 1, Page([]));
    assert Untrimmed(pages, swap) == [space, text];
    forall n: nat | n >= 1 ensures blank(SheetOf(pages)(n)) {
      assert SheetOf(pages)(n) == if n == 1 then space else Page([]);
    }
  }

  /** Two trimmed books that look alike have as many pages, and still look alike after any run. */
  lemma {:induction false} LookAlikesStayAlike(blank: Page -> bool, ps: seq<Page>, qs: seq<Page>, edits: seq<Edit>)
    requires Blankness(blank) && Trimmed(blank, ps) && Trimmed(blank, qs)
    requires Looks(blank, ps, SheetOf(qs))
    ensures var a, b := Run(blank, ps, edits), Run(blank, qs, edits);
            |a| == |b| && forall n :: 0 <= n < |a| ==> Same(blank, a[n], b[n])
  {
    RunRefines(blank, ps, SheetOf(qs), edits);
    RunRefines(blank, qs, SheetOf(qs), edits);
    var a, b, v := Run(blank, ps, edits), Run(blank, qs, edits), RunSheet(blank, SheetOf(qs), edits);
    SameSize(blank, a, b, v);
  }

  lemma SameSize(blank: Page -> bool, a: seq<Page>, b: seq<Page>, v: Sheet)
    requires Blankness(blank) && Trimmed(blank, a) && Trimmed(blank, b)
    requires Looks(blank, a, v) && Looks(blank, b, v)
    ensures |a| == |b| && forall n :: 0 <= n < |a| ==> Same(blank, a[n], b[n])
  {
    ReachesInRange(blank, a, v, |a|);
    ReachesInRange(blank, b, v, |a|);
    ReachesInRange(blank, a, v, |b|);
    ReachesInRange(blank, b, v, |b|);
    forall n | 0 <= n < |a| ensures Same(blank, a[n], b[n]) {
      assert Same(blank, At(a, n), v(n)) && Same(blank, At(b, n), v(n));
    }
  }

  // ---------------------------------------------------------------------------------
  // Laws
  // ---------------------------------------------------------------------------------

  function Replace(p: nat, text: Page): Edit {
    Edit(ReplacePage, p, 0, text)
  }

  /** Two replaces, seen on the map. */
  lemma TwoReplaces(blank: Page -> bool, pages: seq<Page>, p: nat, x: Page, q: nat, y: Page)
    requires Blankness(blank) && p < 100 && q < 100
    ensures var out := Run(blank, pages, [Replace(p, x), Replace(q, y)]);
            Trimmed(blank, out)
            && Looks(blank, out, (n: nat) => if n == q then y else if n == p then x else At(pages, n))
  {
    hide Edited;
    var v := SheetOf(pages);
    var first := Edited(blank, pages, Replace(p, x));
    EditedLooks(blank, pages, v, Replace(p, x));
    EditedLooks(blank, first, Updated(v, Replace(p, x)), Replace(q, y));
    EditIsUpdate(blank, first, Replace(q, y));
    TwoEdits(blank, pages, Replace(p, x), Replace(q, y));
    var out := Edited(blank, first, Replace(q, y));
    forall n: nat
      ensures Same(blank, At(out, n), if n == q then y else if n == p then x else At(pages, n))
    {
      assert Same(blank, At(out, n), Updated(Updated(v, Replace(p, x)), Replace(q, y))(n));
    }
  }

  /** Replaces on distinct pages commute, up to blank pages. */
  lemma ReplacesCommute(blank: Page -> bool, pages: seq<Page>, p: nat, x: Page, q: nat, y: Page)
    requires Blankness(blank) && p < 100 && q < 100 && p != q
    ensures var a := Run(blank, pages, [Replace(p, x), Replace(q, y)]);
            var b := Run(blank, pages, [Replace(q, y), Replace(p, x)]);
            |a| == |b| && forall n :: 0 <= n < |a| ==> Same(blank, a[n], b[n])
  {
    hide Run, Looks;
    TwoReplaces(blank, pages, p, x, q, y);
    TwoReplaces(blank, pages, q, y, p, x);
    var v := (n: nat) => if n == q then y else if n == p then x else At(pages, n);
    var w := (n: nat) => if n == p then x else if n == q then y else At(pages, n);
    var a := Run(blank, pages, [Replace(p, x), Replace(q, y)]);
    var b := Run(blank, pages, [Replace(q, y), Replace(p, x)]);
    LooksPointwise(blank, b, w, v);
    SameSize(blank, a, b, v);
  }

  lemma LooksPointwise(blank: Page -> bool, ps: seq<Page>, v: Sheet, w: Sheet)
    requires Looks(blank, ps, v) && forall n: nat :: v(n) == w(n)
    ensures Looks(blank, ps, w)
  {
    forall n: nat ensures Same(blank, At(ps, n), w(n)) {
      assert Same(blank, At(ps, n), v(n));
    }
  }

  /** Of two replaces on one page the last wins, up to blank pages. */
  lemma {:induction false} LastReplaceWins(blank: Page -> bool, pages: seq<Page>, p: nat, x: Page, y: Page)
    requires Blankness(blank) && p < 100
    ensures var a := Run(blank, pages, [Replace(p, x), Replace(p, y)]);
            var b := Edited(blank, pages, Replace(p, y));
            |a| == |b| && forall n :: 0 <= n < |a| ==> Same(blank, a[n], b[n])
  {
    hide Run, Looks, Edited;
    TwoReplaces(blank, pages, p, x, p, y);
    LooksLikeItself(blank, pages);
    EditedLooks(blank, pages, SheetOf(pages), Replace(p, y));
    EditIsUpdate(blank, pages, Replace(p, y));
    var v := (n: nat) => if n == p then y else if n == p then x else At(pages, n);
    LooksPointwise(blank, Edited(blank, pages, Replace(p, y)), Updated(SheetOf(pages), Replace(p, y)), v);
    SameSize(blank, Run(blank, pages, [Replace(p, x), Replace(p, y)]), Edited(blank, pages, Replace(p, y)), v);
  }

  /** The page under n once page p has been replaced. */
  function Rewritten(pages: seq<Page>, p: nat, x: Page, n: nat): Page {
    if n == p then x else At(pages, n)
  }

  /** With page p replaced there is nothing but blank pages from n on. */
  ghost predicate BlankFrom(blank: Page -> bool, pages: seq<Page>, p: nat, x: Page, n: nat) {
    forall m: nat :: m >= n ==> blank(Rewritten(pages, p, x, m))
  }

  /**
    * With page p replaced, the blank pages at the end that lie in front of q are empty ones:
    * padding up to q puts back just what trimming took.
    */
  ghost predicate LosesNothing(blank: Page -> bool, pages: seq<Page>, p: nat, x: Page, q: nat) {
    forall n: nat :: n < q && BlankFrom(blank, pages, p, x, n) ==> Rewritten(pages, p, x, n) == Page([])
  }

  /** A replace trims from the first page on from which all are blank. */
  lemma TrimmedFrom(blank: Page -> bool, pages: seq<Page>, p: nat, x: Page, n: nat)
    requires Blankness(blank) && p < 100
    ensures |Edited(blank, pages, Replace(p, x))| <= n <==> BlankFrom(blank, pages, p, x, n)
  {
    hide Edited;
    var e, out := Replace(p, x), Edited(blank, pages, Replace(p, x));
    EditIsUpdate(blank, pages, e);
    forall m: nat ensures Updated(SheetOf(pages), e)(m) == Rewritten(pages, p, x, m) {
    }
    LastNotBlank(blank, out);
    if n < |out| {
      assert !blank(Rewritten(pages, p, x, |out| - 1));
    }
  }

  /** Page by page, what two replaces leave: the second text, and what the first edit kept. */
  lemma TwoReplacesAt(blank: Page -> bool, pages: seq<Page>, p: nat, x: Page, q: nat, y: Page)
    requires Blankness(blank) && p < 100 && q < 100
    ensures var first := Edited(blank, pages, Replace(p, x));
            var out := Run(blank, pages, [Replace(p, x), Replace(q, y)]);
            && Trimmed(blank, out)
            && (!blank(y) ==> q < |out|)
            && (forall n :: 0 <= n < |out| ==>
                  out[n] == if n == q then y else if n >= |first| then Page([]) else Rewritten(pages, p, x, n))
  {
    hide Edited;
    var first := Edited(blank, pages, Replace(p, x));
    TwoEdits(blank, pages, Replace(p, x), Replace(q, y));
    EditIsUpdate(blank, pages, Replace(p, x));
    EditIsUpdate(blank, first, Replace(q, y));
    var v, w := Updated(SheetOf(pages), Replace(p, x)), Updated(SheetOf(first), Replace(q, y));
    assert w(q) == y;
    forall n: nat ensures n != q ==> w(n) == if n >= |first| then Page([]) else v(n) {
    }
  }

  /** Every page of out is the one last written to it, or the book's own. */
  ghost predicate BothReplaced(pages: seq<Page>, p: nat, x: Page, q: nat, y: Page, out: seq<Page>) {
    forall n :: 0 <= n < |out| ==> out[n] == if n == q then y else Rewritten(pages, p, x, n)
  }

  /** Two replaces leave exactly the pages replaced, unless the second pads over what the first trimmed. */
  lemma TwoReplacesExactly(blank: Page -> bool, pages: seq<Page>, p: nat, x: Page, q: nat, y: Page)
    requires Blankness(blank) && p < 100 && q < 100
    ensures var out := Run(blank, pages, [Replace(p, x), Replace(q, y)]);
            BothReplaced(pages, p, x, q, y, out) <==> (!blank(y) ==> LosesNothing(blank, pages, p, x, q))
  {
    hide Edited, Run, Trimmed, BlankFrom;
    TwoReplacesAt(blank, pages, p, x, q, y);
    var first := Edited(blank, pages, Replace(p, x));
    var out := Run(blank, pages, [Replace(p, x), Replace(q, y)]);
    assert out != [] ==> !blank(out[|out| - 1]) by { LastNotBlank(blank, out); }
    assert |out| <= |first| || (!blank(y) && |out| == q + 1);
    forall n: nat ensures |first| <= n <==> BlankFrom(blank, pages, p, x, n) {
      TrimmedFrom(blank, pages, p, x, n);
    }
    if !blank(y) && BothReplaced(pages, p, x, q, y, out) {
      forall n: nat | n < q && BlankFrom(blank, pages, p, x, n) ensures Rewritten(pages, p, x, n) == Page([]) {
        assert out[n] == Page([]);
      }
    }
  }

  lemma LastNotBlank(blank: Page -> bool, ps: seq<Page>)
    requires Trimmed(blank, ps)
    ensures ps != [] ==> !blank(ps[|ps| - 1])
  {
  }

  /**
    * Replaces on distinct pages commute outright, blank pages included, exactly when neither
    * text that is not blank is put behind something the other replace trims away.
    */
  lemma {:induction false} ReplacesCommuteExactly(blank: Page -> bool, pages: seq<Page>, p: nat, x: Page, q: nat, y: Page)
    requires Blankness(blank) && p < 100 && q < 100 && p != q
    ensures Run(blank, pages, [Replace(p, x), Replace(q, y)]) == Run(blank, pages, [Replace(q, y), Replace(p, x)])
            <==> && (!blank(y) ==> LosesNothing(blank, pages, p, x, q))
                 && (!blank(x) ==> LosesNothing(blank, pages, q, y, p))
  {
    hide Edited, Run, Trimmed, LosesNothing;
    ReplacesCommute(blank, pages, p, x, q, y);
    TwoReplacesAt(blank, pages, p, x, q, y);
    TwoReplacesAt(blank, pages, q, y, p, x);
    TwoReplacesExactly(blank, pages, p, x, q, y);
    TwoReplacesExactly(blank, pages, q, y, p, x);
    if !blank(x) && !blank(y) {
      ReplacedIsKept(blank, pages, p, x);
      ReplacedIsKept(blank, pages, q, y);
    }
    var a := Run(blank, pages, [Replace(p, x), Replace(q, y)]);
    var b := Run(blank, pages, [Replace(q, y), Replace(p, x)]);
    LastNotBlank(blank, a);
  }

  lemma ReplacedIsKept(blank: Page -> bool, pages: seq<Page>, p: nat, x: Page)
    requires Blankness(blank) && p < 100 && !blank(x)
    ensures p < |Edited(blank, pages, Replace(p, x))|
  {
    hide Edited;
    EditIsUpdate(blank, pages, Replace(p, x));
    assert Updated(SheetOf(pages), Replace(p, x))(p) == x;
  }

  /** Of two replaces on one page the last wins outright exactly when it pads over nothing the first trimmed. */
  lemma {:induction false} LastReplaceWinsExactly(blank: Page -> bool, pages: seq<Page>, p: nat, x: Page, y: Page)
    requires Blankness(blank) && p < 100
    ensures Run(blank, pages, [Replace(p, x), Replace(p, y)]) == Edited(blank, pages, Replace(p, y))
            <==> (!blank(y) ==> LosesNothing(blank, pages, p, x, p))
  {
    hide Edited, Run, Trimmed, LosesNothing;
    LastReplaceWins(blank, pages, p, x, y);
    TwoReplacesExactly(blank, pages, p, x, p, y);
    EditIsUpdate(blank, pages, Replace(p, y));
    var v := Updated(SheetOf(pages), Replace(p, y));
    forall n: nat ensures v(n) == if n == p then y else At(pages, n) {
    }
  }

  /** In particular replaces on distinct pages of a trimmed book commute outright when neither text is blank. */
  lemma {:induction false} FirmReplacesCommute(blank: Page -> bool, pages: seq<Page>, p: nat, x: Page, q: nat, y: Page)
    requires Blankness(blank) && Trimmed(blank, pages) && p < 100 && q < 100 && p != q
    requires !blank(x) && !blank(y)
    ensures Run(blank, pages, [Replace(p, x), Replace(q, y)]) == Run(blank, pages, [Replace(q, y), Replace(p, x)])
  {
    hide Run;
    FirmReplaceLosesNothing(blank, pages, p, x, q);
    FirmReplaceLosesNothing(blank, pages, q, y, p);
    ReplacesCommuteExactly(blank, pages, p, x, q, y);
  }

  lemma FirmReplaceLosesNothing(blank: Page -> bool, pages: seq<Page>, p: nat, x: Page, q: nat)
    requires Blankness(blank) && Trimmed(blank, pages) && p < 100 && !blank(x)
    ensures LosesNothing(blank, pages, p, x, q)
  {
    forall n: nat | n < q && BlankFrom(blank, pages, p, x, n) ensures Rewritten(pages, p, x, n) == Page([]) {
      assert n <= p ==> blank(Rewritten(pages, p, x, p));
      assert n < |pages| ==> blank(Rewritten(pages, p, x, |pages| - 1));
    }
  }

  /** And so do replaces of two pages in front of one that is not blank, in any book, whatever the texts. */
  lemma {:induction false} InnerReplacesCommute(
    blank: Page -> bool, pages: seq<Page>, p: nat, x: Page, q: nat, y: Page, k: nat
  )
    requires Blankness(blank) && p < 100 && q < 100 && p != q
    requires p < k && q < k < |pages| && !blank(pages[k])
    ensures Run(blank, pages, [Replace(p, x), Replace(q, y)]) == Run(blank, pages, [Replace(q, y), Replace(p, x)])
  {
    hide Run;
    assert Rewritten(pages, p, x, k) == pages[k] && Rewritten(pages, q, y, k) == pages[k];
    ReplacesCommuteExactly(blank, pages, p, x, q, y);
  }

  lemma TwoEdits(blank: Page -> bool, pages: seq<Page>, e: Edit, f: Edit)
    ensures Run(blank, pages, [e, f]) == Edited(blank, Edited(blank, pages, e), f)
  {
    hide Edited;
    assert [e, f][1..] == [f] && [f][1..] == [];
    assert Run(blank, pages, [e, f]) == Run(blank, Edited(blank, pages, e), [f]);
  }

  /** The commuting is only up to blank pages: a blank but not empty page may be lost to trimming. */
  lemma ReplacesNeedNotCommuteExactly(blank: Page -> bool, space: Page, text: Page)
    requires Blankness(blank) && blank(space) && space != Page([]) && !blank(text)
    ensures Run(blank, [], [Replace(0, space), Replace(1, text)]) == [Page([]), text]
    ensures Run(blank, [], [Replace(1, text), Replace(0, space)]) == [space, text]
  {
    TwoEdits(blank, [], Replace(0, space), Replace(1, text));
    TwoEdits(blank, [], Replace(1, text), Replace(0, space));
    assert Untrimmed([], Replace(0, space)) == [space] && Trim(blank, [space]) == [];
    assert Untrimmed([], Replace(1, text)) == [Page([]), text];
    assert Untrimmed([Page([]), text], Replace(0, space)) == [space, text];
  }

  /** A book that ends in a blank page may lose it to a replace even when neither text is blank. */
  lemma FirmReplacesNeedTrimmed(blank: Page -> bool, first: Page, space: Page, x: Page, y: Page)
    requires Blankness(blank) && blank(space) && space != Page([]) && !blank(x) && !blank(y)
    ensures Run(blank, [first, space], [Replace(0, x), Replace(2, y)]) == [x, Page([]), y]
    ensures Run(blank, [first, space], [Replace(2, y), Replace(0, x)]) == [x, space, y]
  {
    hide Run, Edited;
    var pages := [first, space];
    TwoEdits(blank, pages, Replace(0, x), Replace(2, y));
    TwoEdits(blank, pages, Replace(2, y), Replace(0, x));
    ReplaceTrims(blank, pages, 0, x, [x, space]);
    assert Trim(blank, [x, space]) == [x] by {
      BlankDropped(blank, [x], space);
      TrimLast(blank, [x]);
    }
    ReplaceTrims(blank, [x], 2, y, [x, Page([]), y]);
    TrimLast(blank, [x, Page([]), y]);
    ReplaceTrims(blank, pages, 2, y, [first, space, y]);
    TrimLast(blank, [first, space, y]);
    ReplaceTrims(blank, [first, space, y], 0, x, [x, space, y]);
    TrimLast(blank, [x, space, y]);
  }

  lemma ReplaceTrims(blank: Page -> bool, pages: seq<Page>, p: nat, x: Page, out: seq<Page>)
    requires p < 100 && out == (if p < |pages| then pages[p := x] else Pad(pages, p) + [x])
    ensures Edited(blank, pages, Replace(p, x)) == Trim(blank, out)
  {
    hide Trim, Pad;
    var padded := Pad(pages, p);
    if p < |pages| {
      assert padded == pages;
    } else {
      assert padded[..p] == padded && padded[p..] == [];
      assert Inserted(padded, p, x) == padded + [x];
    }
    assert Untrimmed(pages, Replace(p, x)) == out;
  }

  lemma BlankDropped(blank: Page -> bool, ps: seq<Page>, space: Page)
    requires blank(space)
    ensures Trim(blank, ps + [space]) == Trim(blank, ps)
  {
    assert (ps + [space])[..|ps|] == ps;
  }

  /**
    * Adding a page and deleting it again gives the pages back, wherever it was and whatever it
    * said, but for blank ones at the end.
    */
  lemma AddThenDelete(blank: Page -> bool, pages: seq<Page>, p: nat, text: Page)
    requires Blankness(blank) && p < 100
    ensures var added := Edited(blank, pages, Edit(AddPage, p, 0, text));
            Edited(blank, added, Edit(DeletePage, p, 0, Page([]))) == Trim(blank, pages)
  {
    hide Edited, Trimmed, Trim;
    var add, del := Edit(AddPage, p, 0, text), Edit(DeletePage, p, 0, Page([]));
    var added := Edited(blank, pages, add);
    var v := SheetOf(pages);
    EditIsUpdate(blank, pages, add);
    TrimRepresents(blank, pages);
    if p < |added| {
      EditIsUpdate(blank, added, del);
      var back := Edited(blank, added, del);
      DeletingShortens(blank, added, p);
      forall n: nat ensures n < |back| ==> back[n] == v(n) ensures n >= |back| ==> blank(v(n)) {
        AddedThenShifted(blank, pages, added, p, text, n);
        assert Updated(SheetOf(added), del)(n) == At(added, if n < p then n else n + 1);
      }
      RepresentsUnique(blank, back, Trim(blank, pages), v);
    } else {
      forall n: nat ensures n < |added| ==> added[n] == v(n) ensures n >= |added| ==> blank(v(n)) {
        assert Updated(v, add)(n) == UpdatedAt(v, add, n) && Updated(v, add)(n + 1) == UpdatedAt(v, add, n + 1);
        assert n >= |added| ==> blank(Updated(v, add)(n + 1));
      }
      RepresentsUnique(blank, added, Trim(blank, pages), v);
      RefusedLeavesAlone(blank, added, del);
    }
  }

  lemma TrimRepresents(blank: Page -> bool, pages: seq<Page>)
    requires Blankness(blank)
    ensures Represents(blank, Trim(blank, pages), SheetOf(pages))
  {
  }

  lemma DeletingShortens(blank: Page -> bool, pages: seq<Page>, p: nat)
    requires p < |pages| && p < 100
    ensures |Edited(blank, pages, Edit(DeletePage, p, 0, Page([])))| < |pages|
  {
  }

  lemma RefusedLeavesAlone(blank: Page -> bool, pages: seq<Page>, e: Edit)
    requires !Accepts(pages, e)
    ensures Edited(blank, pages, e) == pages
  {
  }

  /** The map under the added page, read around it. */
  lemma AddedThenShifted(blank: Page -> bool, pages: seq<Page>, added: seq<Page>, p: nat, text: Page, n: nat)
    requires Blankness(blank)
    requires Represents(blank, added, Updated(SheetOf(pages), Edit(AddPage, p, 0, text))) && p < |added|
    ensures Same(blank, At(added, if n < p then n else n + 1), At(pages, n))
    ensures (if n < p then n else n + 1) < |added| ==> At(added, if n < p then n else n + 1) == At(pages, n)
  {
    var m := if n < p then n else n + 1;
    var w := Updated(SheetOf(pages), Edit(AddPage, p, 0, text));
    assert w(m) == At(pages, n);
    assert m >= |added| ==> blank(w(m));
  }

  /**
    * Swapping two pages twice restores the book exactly when it did not end in a blank page
    * and neither does it once they are swapped.
    */
  lemma {:induction false} SwapTwice(blank: Page -> bool, pages: seq<Page>, p: nat, q: nat)
    requires Blankness(blank) && p < 100 && p < |pages| && q < |pages|
    ensures var swap := Edit(SwapPages, p, q, Page([]));
            Run(blank, pages, [swap, swap]) == pages
            <==> && Trimmed(blank, pages)
                 && (p == |pages| - 1 ==> !blank(pages[q])) && (q == |pages| - 1 ==> !blank(pages[p]))
  {
    var swap := Edit(SwapPages, p, q, Page([]));
    TwoEdits(blank, pages, swap, swap);
    FirstSwap(blank, pages, p, q);
    var once := Edited(blank, pages, swap);
    EditIsUpdate(blank, pages, swap);
    hide Edited;
    if Accepts(once, swap) {
      EditIsUpdate(blank, once, swap);
    } else {
      RefusedLeavesAlone(blank, once, swap);
    }
    if |once| == |pages| {
      SwappedBack(pages, p, q);
      FirstSwap(blank, once, p, q);
    }
  }

  lemma FirstSwap(blank: Page -> bool, pages: seq<Page>, p: nat, q: nat)
    requires p < 100 && p < |pages| && q < |pages|
    ensures var swapped := Swapped(pages, p, q);
            var once := Edited(blank, pages, Edit(SwapPages, p, q, Page([])));
            if blank(swapped[|pages| - 1]) then |once| < |pages| else once == swapped
  {
    hide Trim, Swapped;
    var swap := Edit(SwapPages, p, q, Page([]));
    TrimLast(blank, Swapped(pages, p, q));
    assert Untrimmed(pages, swap) == Swapped(pages, p, q);
  }

  lemma TrimLast(blank: Page -> bool, ps: seq<Page>)
    requires ps != []
    ensures if blank(ps[|ps| - 1]) then |Trim(blank, ps)| < |ps| else Trim(blank, ps) == ps
  {
  }

  lemma SwappedBack(pages: seq<Page>, p: nat, q: nat)
    requires p < |pages| && q < |pages|
    ensures Swapped(Swapped(pages, p, q), p, q) == pages
  {
  }

  /** How many pages an edit can leave: past 100 only by adding, and then one more than before. */
  lemma EditedLength(blank: Page -> bool, pages: seq<Page>, e: Edit)
    ensures |Edited(blank, pages, e)| <= if |pages| + 1 > 100 then |pages| + 1 else 100
    ensures |Edited(blank, pages, e)| > 100 && |pages| <= 100 ==>
              && Accepts(pages, e) && e.action == AddPage
              && |pages| == 100 && |Edited(blank, pages, e)| == 101
    ensures e.action != AddPage ==> |Edited(blank, pages, e)| <= if |pages| > 100 then |pages| else 100
  {
  }

  // ---------------------------------------------------------------------------------
  // Edited books on the wire
  // ---------------------------------------------------------------------------------

  const HOTBAR_FIRST := 36

  /** What the world is told of an edit: the hotbar slot, all pages, and a title when signing. */
  datatype EditFrame = EditFrame(slot: int, pages: seq<Page>, title: Option<Bytes>)

  /** The pages an edit starts from: those of a book and quill, none for anything else. */
  function StartPages(components: Bytes): seq<Page> {
    match BookAt(components)
    case Fail => []
    case Got(b, _) => if b.written then [] else b.pages
  }

  /**
    * A book and quill of at most 100 pages is edited from its pages; a longer one, a written
    * one, any other first component or a component list that adds nothing from none.
    */
  lemma EditStartsFrom(added: Int32, removed: Int32, id: Int32, pages: seq<StringPage>, body: Bytes, rest: Bytes)
    requires |pages| < TWO_TO_31
    ensures StartPages(EncodeHead(added, removed, 45) + (EncodeWritable(pages) + rest))
            == if added > 0 && |pages| <= 100 then Texts(pages) else []
    ensures id != 45 ==> StartPages(EncodeHead(added, removed, id) + body) == []
  {
    hide BookAt, EncodeHead, EncodeWritable, WritableAt;
    WritableRoundTrip(added, removed, pages, rest);
    if id != 45 {
      HeadRoundTrip(added, removed, id, body);
      assert WrittenAt(body).Got? ==> WrittenAt(body).value.written;
    }
  }

  method EditBook(blank: Page -> bool, slots: seq<Stack>, slot: int, e: Edit, title: Bytes)
    returns (frame: Option<EditFrame>)
    ensures frame == if 0 <= slot < |slots| && slots[slot].count > 0 && Accepts(StartPages(slots[slot].components), e)
                     then Some(EditFrame(slot - 36, Edited(blank, StartPages(slots[slot].components), e),
                                         if e.action.Sign? then Some(title) else None))
                     else None
  {
    hide BookAt, Accepts, Edited;
    if slot < 0 || slot >= |slots| || slots[slot].count <= 0 {
      return None;
    }
    var start: seq<Page> := [];
    var book := ParseBook(slots[slot].components);
    if book.Some? && !book.value.written {
      start := book.value.pages;
    }
    var pages := new Page[|start|](k requires 0 <= k < |start| => start[k]);
    assert pages[..] == start;
    var out, n, ok := EditPages(blank, pages, e);
    if !ok {
      return None;
    }
    return Some(EditFrame(slot - HOTBAR_FIRST, out[..n], if e.action == Sign then Some(title) else None));
  }

  /** Pages as the components of a book and quill, without filtered variants. */
  function Unfiltered(ps: seq<Page>): (r: seq<WirePage>)
    ensures |r| == |ps| && forall i :: 0 <= i < |ps| ==> r[i] == WirePage(ps[i].text, Filtered(0, []))
  {
    seq(|ps|, i requires 0 <= i < |ps| => WirePage(ps[i].text, Filtered(0, [])))
  }

  ghost predicate Storable(ps: seq<Page>) {
    |ps| < TWO_TO_31 && forall i :: 0 <= i < |ps| ==> |ps[i].text| < TWO_TO_31
  }

  function Stored(ps: seq<Page>): Bytes
    requires Storable(ps)
  {
    EncodeHead(1, 0, 45) + EncodeWritable(Unfiltered(ps))
  }

  /**
    * Whatever a stack's components are, the pages of an edit of it, stored as a book and quill
    * again, read back as they are and the next edit starts from them, exactly unless a page was
    * added in front of the last, non-blank page of 100; then the book is lost.
    */
  lemma EditedBookReadsBack(blank: Page -> bool, components: Bytes, e: Edit, rest: Bytes)
    requires Storable(Edited(blank, StartPages(components), e))
    ensures var pages := StartPages(components);
            var out := Edited(blank, pages, e);
            var overfull := e.action == AddPage && 0 <= e.page < 100
                            && |pages| == 100 && !blank(pages[99]);
            && BookAt(Stored(out) + rest) == (if overfull then Fail else Got(Book(false, [], [], 0, out), rest))
            && StartPages(Stored(out) + rest) == if overfull then [] else out
  {
    hide BookAt, EncodeHead, EncodeWritable, Edited;
    var pages := StartPages(components);
    var out := Edited(blank, pages, e);
    if pages != [] {
      ReadBookHasFewPages(components);
    }
    WritableRoundTrip(1, 0, Unfiltered(out), rest);
    assert Stored(out) + rest == EncodeHead(1, 0, 45) + (EncodeWritable(Unfiltered(out)) + rest);
    assert Texts(Unfiltered(out)) == out;
    Overfilled(blank, pages, e);
  }

  lemma Overfilled(blank: Page -> bool, pages: seq<Page>, e: Edit)
    requires |pages| <= 100
    ensures |Edited(blank, pages, e)| > 100
            <==> e.action == AddPage && 0 <= e.page < 100
                 && |pages| == 100 && !blank(pages[99])
  {
    EditedLength(blank, pages, e);
    if e.action == AddPage && 0 <= e.page < 100 && |pages| == 100 {
      var raw := Untrimmed(pages, e);
      assert raw[100] == pages[99];
    }
  }

  lemma ReadBookHasFewPages(s: Bytes)
    requires BookAt(s).Got?
    ensures |BookAt(s).value.pages| <= 100
  {
    var t := VarIntAt(VarIntAt(s).rest).rest;
    var u := VarIntAt(t).rest;
    if VarIntAt(t).value == 46 {
      var v := FilteredAt(StringAt(u).rest).rest;
      var w := VarIntAt(StringAt(v).rest).rest;
      PagesLength(WrittenPageAt, w);
    } else {
      PagesLength(WritablePageAt, u);
    }
  }

  lemma PagesLength(page: Bytes -> Read<Page>, s: Bytes)
    requires PagesAt(page, s).Got?
    ensures |PagesAt(page, s).value| <= 100
  {
    RepeatLength(page, VarIntAt(s).value, [], VarIntAt(s).rest);
  }

  lemma {:induction false} RepeatLength<T>(read: Bytes -> Read<T>, n: nat, done: seq<T>, s: Bytes)
    requires RepeatAt(read, n, done, s).Got?
    ensures |RepeatAt(read, n, done, s).value| == |done| + n
  {
    if n == 0 {
    } else {
      RepeatLength(read, n - 1, done + [read(s).value], read(s).rest);
    }
  }
}
