/** The advancement book over its whole life: trees and progress frames in any order. */
module AdvHistory {
  import opened Advancements

  datatype Step = TreeStep(tree: seq<AdvNode>) | FrameStep(frame: Frame)

  predicate Resets(s: Step) {
    s.FrameStep? && s.frame.reset
  }

  /** The nodes a new book knows after some steps. */
  function Known(h: seq<Step>): Nodes {
    if h == [] then map[]
    else
      var init, last := h[..|h| - 1], h[|h| - 1];
      match last
      case TreeStep(tree) => Loaded(Known(init), tree)
      case FrameStep(_) => Known(init)
  }

  /** What it has received and noticed by then. */
  function Life(h: seq<Step>): Tally {
    if h == [] then NOTHING
    else
      var init, last := h[..|h| - 1], h[|h| - 1];
      match last
      case TreeStep(_) => Life(init)
      case FrameStep(f) => AfterFrame(Known(init), Life(init), f)
  }

  /** The entries that still count: those since the last reset, its own included. */
  function StillCounted(h: seq<Step>): seq<Entry> {
    if h == [] then []
    else
      var init, last := h[..|h| - 1], h[|h| - 1];
      match last
      case TreeStep(_) => StillCounted(init)
      case FrameStep(f) => if f.reset then f.entries else StillCounted(init) + f.entries
  }

  /** The toasts sent since the last reset. */
  function Sent(h: seq<Step>): seq<AdvNode> {
    if h == [] then []
    else
      var init, last := h[..|h| - 1], h[|h| - 1];
      match last
      case TreeStep(_) => Sent(init)
      case FrameStep(f) => if f.reset then [] else Sent(init) + FrameToasts(Known(init), Life(init), f)
  }

  /** Step k reports the criterion for the advancement, and no step after it up to i resets. */
  ghost predicate CameAt(h: seq<Step>, i: nat, k: nat, id: string, c: string)
    requires k <= i < |h|
  {
    && h[k].FrameStep?
    && (exists m :: && 0 <= m < |h[k].frame.entries|
                    && h[k].frame.entries[m].id == id && c in h[k].frame.entries[m].done)
    && forall later :: k < later <= i ==> !Resets(h[later])
  }

  /** The criterion has been received for the advancement by step i, since the last reset then. */
  ghost predicate CameBy(h: seq<Step>, i: nat, id: string, c: string)
    requires i < |h|
  {
    exists k :: 0 <= k <= i && CameAt(h, i, k, id, c)
  }

  ghost predicate GroupCameBy(h: seq<Step>, i: nat, id: string, group: seq<string>)
    requires i < |h|
  {
    exists j :: 0 <= j < |group| && CameBy(h, i, id, group[j])
  }

  /**
    * Step i is a frame that names the advancement; its node was known at that moment, has a
    * requirement group, and by the end of the frame a criterion of each group had been
    * received since the last reset; no later frame resets.
    */
  ghost predicate NoticedAt(h: seq<Step>, i: nat, id: string)
    requires i < |h|
  {
    var nodes := Known(h[..i]);
    && h[i].FrameStep? && Mentions(h[i].frame.entries, id)
    && id in nodes && |nodes[id].reqs| > 0
    && (forall g :: 0 <= g < |nodes[id].reqs| ==> GroupCameBy(h, i, id, nodes[id].reqs[g]))
    && forall k :: i < k < |h| ==> !Resets(h[k])
  }

  /** By the last step a criterion has come with it, or before it when it does not reset. */
  lemma CameStep(h: seq<Step>, id: string, c: string)
    requires |h| > 1
    ensures var n := |h| - 1;
            CameBy(h, n, id, c) <==> (CameBy(h[..n], n - 1, id, c) && !Resets(h[n])) || CameAt(h, n, n, id, c)
  {
    var n := |h| - 1;
    var init := h[..n];
    forall k | 0 <= k < n ensures CameAt(h, n, k, id, c) <==> CameAt(init, n - 1, k, id, c) && !Resets(h[n]) {
      assert h[k] == init[k];
      assert forall later :: k < later < n ==> h[later] == init[later];
    }
    hide CameAt;
    if CameBy(init, n - 1, id, c) && !Resets(h[n]) {
      var k :| 0 <= k <= n - 1 && CameAt(init, n - 1, k, id, c);
      assert CameAt(h, n, k, id, c);
    }
    if CameBy(h, n, id, c) && !CameAt(h, n, n, id, c) {
      var k :| 0 <= k <= n && CameAt(h, n, k, id, c);
      assert CameAt(init, n - 1, k, id, c);
    }
  }

  lemma CameLast(h: seq<Step>, id: string, c: string)
    requires h != []
    ensures CameAt(h, |h| - 1, |h| - 1, id, c)
            <==> h[|h| - 1].FrameStep? && c in Criteria(h[|h| - 1].frame.entries, id)
  {
    if h[|h| - 1].FrameStep? {
      CriteriaAreIn(h[|h| - 1].frame.entries, id, c);
    }
  }

  lemma {:induction false} CountedCame(h: seq<Step>, id: string, c: string)
    requires h != []
    ensures c in Criteria(StillCounted(h), id) <==> CameBy(h, |h| - 1, id, c)
  {
    var n := |h| - 1;
    var init, last := h[..n], h[n];
    CameLast(h, id, c);
    NothingCounted(id);
    hide CameAt, Criteria;
    if last.FrameStep? {
      CriteriaConcat(StillCounted(init), last.frame.entries, id);
    }
    if init == [] {
    } else {
      CountedCame(init, id, c);
      CameStep(h, id, c);
      hide CameBy;
    }
  }

  lemma CameByPrefix(h: seq<Step>, i: nat, id: string, c: string)
    requires i < |h|
    ensures c in Criteria(StillCounted(h[..i + 1]), id) <==> CameBy(h, i, id, c)
  {
    var early := h[..i + 1];
    CountedCame(early, id, c);
    forall k | 0 <= k <= i ensures CameAt(h, i, k, id, c) <==> CameAt(early, i, k, id, c) {
      assert h[k] == early[k];
      assert forall later :: k < later <= i ==> h[later] == early[later];
    }
  }

  /** Noticing, told by the criteria counted. */
  lemma NoticedBySatisfying(h: seq<Step>, i: nat, id: string)
    requires i < |h|
    ensures NoticedAt(h, i, id)
            <==> && h[i].FrameStep? && Mentions(h[i].frame.entries, id)
                 && Satisfied(Known(h[..i]), id, Criteria(StillCounted(h[..i + 1]), id))
                 && forall k :: i < k < |h| ==> !Resets(h[k])
  {
    hide Satisfied, CameBy;
    var criteria := Criteria(StillCounted(h[..i + 1]), id);
    SatisfiedByGroup(Known(h[..i]), id, criteria);
    forall group: seq<string> ensures Touched(group, criteria) == GroupCameBy(h, i, id, group) {
      forall j | 0 <= j < |group| ensures group[j] in criteria <==> CameBy(h, i, id, group[j]) {
        CameByPrefix(h, i, id, group[j]);
      }
    }
  }

  lemma NoticedEarlier(h: seq<Step>, i: nat, id: string)
    requires i < |h| - 1
    ensures NoticedAt(h, i, id) <==> NoticedAt(h[..|h| - 1], i, id) && !Resets(h[|h| - 1])
  {
    var init := h[..|h| - 1];
    NoticedBySatisfying(h, i, id);
    NoticedBySatisfying(init, i, id);
    hide NoticedAt;
    assert init[..i] == h[..i] && init[..i + 1] == h[..i + 1];
    assert forall k :: 0 <= k < |init| ==> init[k] == h[k];
  }

  /**
    * Over any life of the book, trees late or early, an advancement is complete exactly when
    * some frame since the last reset named it, its node being known at that moment and each of
    * that node's groups, at least one, holding a criterion received from the reset to that frame;
    * the criteria known for it are those received since the reset.
    */
  lemma {:induction false} CompleteByHistory(h: seq<Step>, id: string)
    ensures forall c :: c in Received(Life(h), id) <==> h != [] && CameBy(h, |h| - 1, id, c)
    ensures id in Life(h).complete <==> exists i :: 0 <= i < |h| && NoticedAt(h, i, id)
  {
    hide CameBy, NoticedAt, Life;
    LifeCounted(h, id);
    NothingCounted(id);
    if h != [] {
      forall c ensures c in Criteria(StillCounted(h), id) <==> CameBy(h, |h| - 1, id, c) {
        CountedCame(h, id, c);
      }
    }
  }

  lemma {:induction false} LifeCounted(h: seq<Step>, id: string)
    ensures Received(Life(h), id) == Criteria(StillCounted(h), id)
    ensures id in Life(h).complete <==> exists i :: 0 <= i < |h| && NoticedAt(h, i, id)
  {
    hide Satisfied, AfterEntries, Mentions, NoticedAt, Criteria;
    if h == [] {
      NothingCounted(id);
    } else {
      var n := |h| - 1;
      var init, last := h[..n], h[n];
      assert h[..n + 1] == h;
      LifeCounted(init, id);
      forall i: nat | i < n ensures NoticedAt(h, i, id) <==> NoticedAt(init, i, id) && !Resets(last) {
        NoticedEarlier(h, i, id);
      }
      NoticedLast(h, id);
      if last.FrameStep? {
        var f := last.frame;
        var start := if f.reset then NOTHING else Life(init);
        NothingCounted(id);
        CompleteAfter(Known(init), start, f.entries, id);
        ReceivedAfter(Known(init), start, f.entries, id);
        CriteriaConcat(StillCounted(init), f.entries, id);
      }
    }
  }

  lemma NothingCounted(id: string)
    ensures Criteria([], id) == {} && Received(NOTHING, id) == {}
  {
  }

  lemma NoticedLast(h: seq<Step>, id: string)
    requires h != []
    ensures var n := |h| - 1;
            NoticedAt(h, n, id)
            <==> h[n].FrameStep? && Mentions(h[n].frame.entries, id)
                 && Satisfied(Known(h[..n]), id, Criteria(StillCounted(h), id))
  {
    assert h[..|h| - 1 + 1] == h;
    NoticedBySatisfying(h, |h| - 1, id);
  }

  ghost predicate Supplies(s: Step, id: string) {
    s.TreeStep? && exists m :: 0 <= m < |s.tree| && s.tree[m].id == id
  }

  /** The node known for an id is the last one of the last tree that has one; without such a tree there is none. */
  lemma {:induction false} KnownIsLast(h: seq<Step>, id: string)
    ensures (forall k :: 0 <= k < |h| ==> !Supplies(h[k], id)) ==> id !in Known(h)
    ensures forall k, m :: LastSupply(h, k, m, id) ==> id in Known(h) && Known(h)[id] == h[k].tree[m]
  {
    if h == [] {
    } else {
      var n := |h| - 1;
      var init, last := h[..n], h[n];
      KnownIsLast(init, id);
      if last.TreeStep? {
        UnloadedAlone(Known(init), last.tree, id);
      }
      assert forall k :: 0 <= k < n ==> h[k] == init[k];
      forall k, m | LastSupply(h, k, m, id) ensures id in Known(h) && Known(h)[id] == h[k].tree[m] {
        if k < n {
          SuppliedEarlier(h, k, m, id);
        }
        KnownByStep(h, k, m, id);
      }
    }
  }

  /** Node m of step k is the last one loaded for the id. */
  ghost predicate LastSupply(h: seq<Step>, k: int, m: int, id: string) {
    && 0 <= k < |h| && h[k].TreeStep? && 0 <= m < |h[k].tree| && h[k].tree[m].id == id
    && (forall j :: m < j < |h[k].tree| ==> h[k].tree[j].id != id)
    && forall l :: k < l < |h| ==> !Supplies(h[l], id)
  }

  lemma SuppliedEarlier(h: seq<Step>, k: int, m: int, id: string)
    requires LastSupply(h, k, m, id) && k < |h| - 1
    ensures LastSupply(h[..|h| - 1], k, m, id) && !Supplies(h[|h| - 1], id)
  {
    var init := h[..|h| - 1];
    assert init[k] == h[k] && forall l :: k < l < |init| ==> init[l] == h[l];
  }

  lemma KnownByStep(h: seq<Step>, k: int, m: int, id: string)
    requires LastSupply(h, k, m, id)
    requires k < |h| - 1 ==>
               id in Known(h[..|h| - 1]) && Known(h[..|h| - 1])[id] == h[k].tree[m] && !Supplies(h[|h| - 1], id)
    ensures id in Known(h) && Known(h)[id] == h[k].tree[m]
  {
    var n := |h| - 1;
    var before, last := Known(h[..n]), h[n];
    if k == n {
      LoadedIsLast(before, last.tree, m);
    } else if last.TreeStep? {
      UnloadedAlone(before, last.tree, id);
    }
  }

  // ---------------------------------------------------------------------------------
  // Toasts
  // ---------------------------------------------------------------------------------

  lemma {:induction false} KnownFiled(h: seq<Step>)
    ensures Filed(Known(h))
  {
    if h == [] {
    } else {
      var init, last := h[..|h| - 1], h[|h| - 1];
      KnownFiled(init);
      if last.TreeStep? {
        LoadedFiled(Known(init), last.tree);
      }
    }
  }

  /** How many toasts name an advancement. */
  function Named(toasts: seq<AdvNode>, id: string): nat {
    if toasts == [] then 0
    else Named(toasts[..|toasts| - 1], id) + if toasts[|toasts| - 1].id == id then 1 else 0
  }

  lemma {:induction false} NamedConcat(a: seq<AdvNode>, b: seq<AdvNode>, id: string)
    ensures Named(a + b, id) == Named(a, id) + Named(b, id)
  {
    if b == [] {
      assert a + b == a;
    } else {
      assert (a + b)[..|a + b| - 1] == a + b[..|b| - 1];
      NamedConcat(a, b[..|b| - 1], id);
    }
  }

  lemma {:induction false} NamedByEntries(nodes: Nodes, p: Tally, es: seq<Entry>, id: string)
    requires Filed(nodes)
    ensures Named(ToastsOf(nodes, p, es), id)
            == if && id in nodes && nodes[id].hasDisplay && nodes[id].showToast
                  && id in AfterEntries(nodes, p, es).complete && id !in p.complete
               then 1 else 0
  {
    hide Satisfied;
    if es == [] {
    } else {
      var init, e := es[..|es| - 1], es[|es| - 1];
      var mid := AfterEntries(nodes, p, init);
      NamedByEntries(nodes, p, init, id);
      CompletionsStay(nodes, p, init);
      NamedConcat(ToastsOf(nodes, p, init), ToastOf(nodes, mid, e), id);
      NamedByEntry(nodes, mid, e, id);
    }
  }

  lemma NamedByEntry(nodes: Nodes, p: Tally, e: Entry, id: string)
    requires Filed(nodes)
    ensures Named(ToastOf(nodes, p, e), id)
            == if && id in nodes && nodes[id].hasDisplay && nodes[id].showToast
                  && id in AfterEntry(nodes, p, e).complete && id !in p.complete
               then 1 else 0
  {
    var toast := ToastOf(nodes, p, e);
    assert toast != [] ==> toast[..0] == [];
  }

  ghost predicate FirstNotice(h: seq<Step>, i: nat, id: string)
    requires i < |h|
  {
    NoticedAt(h, i, id) && forall k :: 0 <= k < i ==> !NoticedAt(h, k, id)
  }

  /** The frame that noticed the advancement first is no snapshot, and its node wanted a toast. */
  ghost predicate Announces(h: seq<Step>, i: nat, id: string)
    requires i < |h|
  {
    && FirstNotice(h, i, id) && !Resets(h[i])
    && id in Known(h[..i]) && Known(h[..i])[id].hasDisplay && Known(h[..i])[id].showToast
  }

  /**
    * Over any life of the book an advancement has been announced since the last reset at most
    * once, and once exactly when the first frame to notice it was an increment and the node
    * known at that moment wants a toast.
    */
  lemma {:induction false} AnnouncedByHistory(h: seq<Step>, id: string)
    ensures Named(Sent(h), id) == if exists i :: 0 <= i < |h| && Announces(h, i, id) then 1 else 0
  {
    hide Satisfied, AfterEntries, ToastsOf, Mentions, NoticedAt, Known, Life;
    if h == [] {
    } else {
      var n := |h| - 1;
      var init, last := h[..n], h[n];
      AnnouncedByHistory(init, id);
      forall i: nat | i < n ensures NoticedAt(h, i, id) <==> NoticedAt(init, i, id) && !Resets(last) {
        NoticedEarlier(h, i, id);
      }
      forall i: nat | i < n ensures Announces(h, i, id) <==> Announces(init, i, id) && !Resets(last) {
        assert init[..i] == h[..i];
      }
      LifeCounted(init, id);
      LifeCounted(h, id);
      LifeStep(h);
      NoticedLast(h, id);
      if last.FrameStep? && !last.frame.reset {
        KnownFiled(init);
        NamedByEntries(Known(init), Life(init), last.frame.entries, id);
        NamedConcat(Sent(init), FrameToasts(Known(init), Life(init), last.frame), id);
        CompletionsStay(Known(init), Life(init), last.frame.entries);
        LastAnnounces(h, id);
        assert id in Life(init).complete || forall i: nat :: i < n ==> !Announces(init, i, id);
      }
    }
  }

  /** The last step, an increment, announces exactly what it completes and what wants a toast. */
  lemma LastAnnounces(h: seq<Step>, id: string)
    requires h != [] && h[|h| - 1].FrameStep? && !Resets(h[|h| - 1])
    ensures var n := |h| - 1;
            var nodes := Known(h[..n]);
            Announces(h, n, id)
            <==> && id in Life(h).complete && id !in Life(h[..n]).complete
                 && id in nodes && nodes[id].hasDisplay && nodes[id].showToast
  {
    hide NoticedAt, Known, Life;
    var n := |h| - 1;
    LifeCounted(h[..n], id);
    LifeCounted(h, id);
    forall i: nat | i < n ensures NoticedAt(h, i, id) <==> NoticedAt(h[..n], i, id) {
      NoticedEarlier(h, i, id);
    }
    if id in Life(h[..n]).complete {
      var i: nat :| i < n && NoticedAt(h[..n], i, id);
      assert NoticedAt(h, i, id);
    }
  }

  lemma LifeStep(h: seq<Step>)
    requires h != []
    ensures var init, last := h[..|h| - 1], h[|h| - 1];
            Life(h) == match last
                       case TreeStep(_) => Life(init)
                       case FrameStep(f) => AfterFrame(Known(init), Life(init), f)
  {
  }
}
