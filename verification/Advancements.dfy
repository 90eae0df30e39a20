/** Advancement progress, and the toasts its completions are announced with. */
module Advancements {
  import opened Ordering

  datatype AdvNode = AdvNode(
    id: string, reqs: seq<seq<string>>, hasDisplay: bool, showToast: bool, title: string, frame: int)

  type Nodes = map<string, AdvNode>

  /** The criteria one progress frame reports for one advancement. */
  datatype Entry = Entry(id: string, done: set<string>)

  datatype Frame = Frame(reset: bool, entries: seq<Entry>)

  /** The player's part of the book: criteria received, and completions noticed. */
  datatype Tally = Tally(done: map<string, set<string>>, complete: set<string>)

  const NOTHING := Tally(map[], {})

  // ---------------------------------------------------------------------------------
  // What a frame does
  // ---------------------------------------------------------------------------------

  predicate Hit(group: seq<string>, criteria: set<string>) {
    exists c :: c in group && c in criteria
  }

  /** Every requirement group, and there is one, has an obtained criterion. */
  predicate DoneBy(reqs: seq<seq<string>>, criteria: set<string>) {
    reqs != [] && forall g :: g in reqs ==> Hit(g, criteria)
  }

  predicate Satisfied(nodes: Nodes, id: string, criteria: set<string>) {
    id in nodes && DoneBy(nodes[id].reqs, criteria)
  }

  /** The group holds, at some place, one of the criteria. */
  ghost predicate Touched(group: seq<string>, criteria: set<string>) {
    exists j :: 0 <= j < |group| && group[j] in criteria
  }

  lemma HitIsTouched(group: seq<string>, criteria: set<string>)
    ensures Hit(group, criteria) <==> Touched(group, criteria)
  {
    if Hit(group, criteria) {
      var c :| c in group && c in criteria;
      var j :| 0 <= j < |group| && group[j] == c;
    }
  }

  /** Done, told place by place: there is a group, and each is touched. */
  lemma SatisfiedByGroup(nodes: Nodes, id: string, criteria: set<string>)
    ensures Satisfied(nodes, id, criteria)
            <==> && id in nodes && |nodes[id].reqs| > 0
                 && forall i :: 0 <= i < |nodes[id].reqs| ==> Touched(nodes[id].reqs[i], criteria)
  {
    hide Hit, Touched;
    if id in nodes {
      var reqs := nodes[id].reqs;
      forall i | 0 <= i < |reqs| ensures reqs[i] in reqs && Hit(reqs[i], criteria) == Touched(reqs[i], criteria) {
        HitIsTouched(reqs[i], criteria);
      }
      forall g | g in reqs ensures exists i :: 0 <= i < |reqs| && reqs[i] == g {
      }
    }
  }

  function Received(p: Tally, id: string): set<string> {
    if id in p.done then p.done[id] else {}
  }

  predicate WantsToast(n: AdvNode) {
    n.hasDisplay && n.showToast
  }

  function AfterEntry(nodes: Nodes, p: Tally, e: Entry): Tally {
    var criteria := Received(p, e.id) + e.done;
    Tally(p.done[e.id := criteria],
             if Satisfied(nodes, e.id, criteria) then p.complete + {e.id} else p.complete)
  }

  /** The toast an entry sets off: none, or that of the advancement it completes. */
  function ToastOf(nodes: Nodes, p: Tally, e: Entry): seq<AdvNode> {
    if e.id !in p.complete && Satisfied(nodes, e.id, Received(p, e.id) + e.done) && WantsToast(nodes[e.id])
    then [nodes[e.id]] else []
  }

  function AfterEntries(nodes: Nodes, p: Tally, es: seq<Entry>): Tally {
    if es == [] then p else AfterEntry(nodes, AfterEntries(nodes, p, es[..|es| - 1]), es[|es| - 1])
  }

  function ToastsOf(nodes: Nodes, p: Tally, es: seq<Entry>): seq<AdvNode> {
    if es == [] then []
    else
      var init := es[..|es| - 1];
      ToastsOf(nodes, p, init) + ToastOf(nodes, AfterEntries(nodes, p, init), es[|es| - 1])
  }

  lemma NoEntries(nodes: Nodes, p: Tally)
    ensures AfterEntries(nodes, p, []) == p && ToastsOf(nodes, p, []) == []
  {
  }

  lemma OneMoreEntry(nodes: Nodes, p: Tally, es: seq<Entry>, i: nat)
    requires i < |es|
    ensures var mid := AfterEntries(nodes, p, es[..i]);
            && AfterEntries(nodes, p, es[..i + 1]) == AfterEntry(nodes, mid, es[i])
            && ToastsOf(nodes, p, es[..i + 1]) == ToastsOf(nodes, p, es[..i]) + ToastOf(nodes, mid, es[i])
  {
    assert es[..i + 1][..i] == es[..i];
  }

  lemma SatisfiedHasNode(nodes: Nodes, id: string, criteria: set<string>)
    requires Satisfied(nodes, id, criteria)
    ensures id in nodes
  {
  }

  function AfterFrame(nodes: Nodes, p: Tally, f: Frame): Tally {
    AfterEntries(nodes, if f.reset then NOTHING else p, f.entries)
  }

  function FrameToasts(nodes: Nodes, p: Tally, f: Frame): seq<AdvNode> {
    if f.reset then [] else ToastsOf(nodes, p, f.entries)
  }

  function Loaded(nodes: Nodes, tree: seq<AdvNode>): Nodes {
    if tree == [] then nodes
    else Loaded(nodes, tree[..|tree| - 1])[tree[|tree| - 1].id := tree[|tree| - 1]]
  }

  // ---------------------------------------------------------------------------------
  // The book
  // ---------------------------------------------------------------------------------

  class AdvBook {
    var nodes: Nodes
    var done: map<string, set<string>>
    var complete: set<string>

    function State(): Tally
      reads this
    {
      Tally(done, complete)
    }

    constructor ()
      ensures nodes == map[] && State() == NOTHING
    {
      nodes, done, complete := map[], map[], {};
    }

    method Tree(tree: seq<AdvNode>)
      modifies this`nodes
      ensures nodes == Loaded(old(nodes), tree)
    {
      for i := 0 to |tree|
        invariant nodes == Loaded(old(nodes), tree[..i])
      {
        assert tree[..i + 1][..i] == tree[..i];
        nodes := nodes[tree[i].id := tree[i]];
      }
      assert tree[..|tree|] == tree;
    }

    method IsDone(id: string) returns (isDone: bool)
      ensures isDone == Satisfied(nodes, id, Received(State(), id))
      ensures isDone <==> && id in nodes && |nodes[id].reqs| > 0
                          && forall i :: 0 <= i < |nodes[id].reqs| ==> Touched(nodes[id].reqs[i], Received(State(), id))
    {
      SatisfiedByGroup(nodes, id, Received(State(), id));
      if id !in nodes || |nodes[id].reqs| == 0 {
        return false;
      }
      var reqs := nodes[id].reqs;
      var d := if id in done then done[id] else {};
      for i := 0 to |reqs|
        invariant forall k :: 0 <= k < i ==> Hit(reqs[k], d)
      {
        var group := reqs[i];
        var hit := false;
        for j := 0 to |group|
          invariant !hit
          invariant forall k :: 0 <= k < j ==> group[k] !in d
        {
          if group[j] in d {
            assert group[j] in group;
            hit := true;
            break;
          }
        }
        if !hit {
          assert group in reqs;
          return false;
        }
      }
      return true;
    }

    /** Adds the criteria of one entry, one by one. */
    method Record(e: Entry)
      modifies this`done
      ensures done == old(done)[e.id := Received(old(State()), e.id) + e.done]
    {
      ghost var before := State();
      if e.id !in done {
        done := done[e.id := {}];
      }
      var left := e.done;
      while left != {}
        invariant left <= e.done
        invariant e.id in done && done == before.done[e.id := done[e.id]]
        invariant done[e.id] == Received(before, e.id) + (e.done - left)
      {
        var c :| c in left;
        done := done[e.id := done[e.id] + {c}];
        left := left - {c};
      }
      assert done[e.id] == Received(before, e.id) + e.done;
    }

    method Progress(f: Frame) returns (toasts: seq<AdvNode>)
      modifies this`done, this`complete
      ensures State() == AfterFrame(nodes, old(State()), f)
      ensures toasts == FrameToasts(nodes, old(State()), f)
    {
      hide Satisfied, AfterEntries, ToastsOf;
      if f.reset {
        done := map[];
        complete := {};
      }
      ghost var start := State();
      NoEntries(nodes, start);
      toasts := [];
      for i := 0 to |f.entries|
        invariant State() == AfterEntries(nodes, start, f.entries[..i])
        invariant toasts == if f.reset then [] else ToastsOf(nodes, start, f.entries[..i])
      {
        var e := f.entries[i];
        ghost var before := State();
        OneMoreEntry(nodes, start, f.entries, i);
        Record(e);
        var isDone := IsDone(e.id);
        if e.id in complete || !isDone {
          assert e.id in complete ==> complete + {e.id} == complete;
          continue;
        }
        complete := complete + {e.id};
        assert e.id in nodes by { SatisfiedHasNode(nodes, e.id, Received(State(), e.id)); }
        if e.id in nodes && !f.reset && nodes[e.id].hasDisplay && nodes[e.id].showToast {
          toasts := toasts + [nodes[e.id]];
        }
      }
      assert f.entries[..|f.entries|] == f.entries;
    }
  }

  // ---------------------------------------------------------------------------------
  // The book agrees with the batch definition
  // ---------------------------------------------------------------------------------

  /** All criteria some entries report for an advancement. */
  function Criteria(es: seq<Entry>, id: string): set<string> {
    if es == [] then {}
    else
      Criteria(es[..|es| - 1], id) + if es[|es| - 1].id == id then es[|es| - 1].done else {}
  }

  /** Noticed complete is the same as being done by what was received. */
  ghost predicate Coherent(nodes: Nodes, p: Tally) {
    forall id :: id in p.complete <==> Satisfied(nodes, id, Received(p, id))
  }

  lemma MoreCriteria(nodes: Nodes, id: string, c: set<string>, d: set<string>)
    requires Satisfied(nodes, id, c) && c <= d
    ensures Satisfied(nodes, id, d)
  {
    forall g | g in nodes[id].reqs ensures Hit(g, d) {
      assert Hit(g, c);
    }
  }

  lemma NothingCoherent(nodes: Nodes)
    ensures Coherent(nodes, NOTHING)
  {
    forall id ensures !Satisfied(nodes, id, {}) {
      if id in nodes && nodes[id].reqs != [] {
        assert nodes[id].reqs[0] in nodes[id].reqs && !Hit(nodes[id].reqs[0], {});
      }
    }
  }

  lemma EntryKeepsCoherence(nodes: Nodes, p: Tally, e: Entry)
    requires Coherent(nodes, p)
    ensures Coherent(nodes, AfterEntry(nodes, p, e))
  {
    var q := AfterEntry(nodes, p, e);
    if e.id in p.complete {
      MoreCriteria(nodes, e.id, Received(p, e.id), Received(q, e.id));
    }
    forall id ensures id in q.complete <==> Satisfied(nodes, id, Received(q, id)) {
      assert id != e.id ==> Received(q, id) == Received(p, id);
    }
  }

  lemma {:induction false} EntriesKeepCoherence(nodes: Nodes, p: Tally, es: seq<Entry>)
    requires Coherent(nodes, p)
    ensures Coherent(nodes, AfterEntries(nodes, p, es))
  {
    if es == [] {
    } else {
      EntriesKeepCoherence(nodes, p, es[..|es| - 1]);
      EntryKeepsCoherence(nodes, AfterEntries(nodes, p, es[..|es| - 1]), es[|es| - 1]);
    }
  }

  lemma {:induction false} ReceivedAfter(nodes: Nodes, p: Tally, es: seq<Entry>, id: string)
    ensures Received(AfterEntries(nodes, p, es), id) == Received(p, id) + Criteria(es, id)
  {
    if es == [] {
    } else {
      ReceivedAfter(nodes, p, es[..|es| - 1], id);
    }
  }

  function Run(nodes: Nodes, p: Tally, fs: seq<Frame>): Tally {
    if fs == [] then p else AfterFrame(nodes, Run(nodes, p, fs[..|fs| - 1]), fs[|fs| - 1])
  }

  /** The entries that still count after some frames: those since the last reset, its own included. */
  function Counted(fs: seq<Frame>): seq<Entry> {
    if fs == [] then []
    else
      var last := fs[|fs| - 1];
      if last.reset then last.entries else Counted(fs[..|fs| - 1]) + last.entries
  }

  lemma {:induction false} CriteriaConcat(a: seq<Entry>, b: seq<Entry>, id: string)
    ensures Criteria(a + b, id) == Criteria(a, id) + Criteria(b, id)
  {
    if b == [] {
      assert a + b == a;
    } else {
      assert (a + b)[..|a + b| - 1] == a + b[..|b| - 1];
      CriteriaConcat(a, b[..|b| - 1], id);
    }
  }

  /** Frame k reports the criterion for the id, and no later frame resets. */
  ghost predicate ReportedAt(fs: seq<Frame>, id: string, c: string, k: nat)
    requires k < |fs|
  {
    && (exists m :: 0 <= m < |fs[k].entries| && fs[k].entries[m].id == id && c in fs[k].entries[m].done)
    && forall later :: k < later < |fs| ==> !fs[later].reset
  }

  /** Some entry since the last reset, the resetting frame's included, reports the criterion for the id. */
  ghost predicate Reported(fs: seq<Frame>, id: string, c: string) {
    exists k :: 0 <= k < |fs| && ReportedAt(fs, id, c, k)
  }

  ghost predicate GroupReported(fs: seq<Frame>, id: string, group: seq<string>) {
    exists j :: 0 <= j < |group| && Reported(fs, id, group[j])
  }

  lemma {:induction false} CriteriaAreIn(es: seq<Entry>, id: string, c: string)
    ensures c in Criteria(es, id) <==> exists m :: 0 <= m < |es| && es[m].id == id && c in es[m].done
  {
    if es == [] {
    } else {
      CriteriaAreIn(es[..|es| - 1], id, c);
    }
  }

  lemma {:induction false} CountedAreReported(fs: seq<Frame>, id: string, c: string)
    ensures c in Criteria(Counted(fs), id) <==> Reported(fs, id, c)
  {
    if fs == [] {
    } else {
      var n := |fs| - 1;
      var init, last := fs[..n], fs[n];
      CountedAreReported(init, id, c);
      CriteriaConcat(Counted(init), last.entries, id);
      ReportedLast(fs, id, c);
      hide Criteria;
      forall k | 0 <= k < n ensures ReportedAt(fs, id, c, k) <==> ReportedAt(init, id, c, k) && !last.reset {
        assert fs[k] == init[k];
        assert forall later :: k < later < n ==> fs[later] == init[later];
      }
    }
  }

  lemma ReportedLast(fs: seq<Frame>, id: string, c: string)
    requires fs != []
    ensures ReportedAt(fs, id, c, |fs| - 1) <==> c in Criteria(fs[|fs| - 1].entries, id)
  {
    CriteriaAreIn(fs[|fs| - 1].entries, id, c);
  }

  /**
    * After any frames read under one tree into a new book, resets included, the criteria of an
    * advancement are those reported for it since the last reset, and it is noticed complete
    * exactly when its node is known, has a requirement group, and every group holds one of them.
    */
  lemma {:induction false} BookIsBatch(nodes: Nodes, fs: seq<Frame>, id: string)
    ensures var p := Run(nodes, NOTHING, fs);
            && (forall c :: c in Received(p, id) <==> Reported(fs, id, c))
            && (id in p.complete
                <==> && id in nodes && |nodes[id].reqs| > 0
                     && forall i :: 0 <= i < |nodes[id].reqs| ==> GroupReported(fs, id, nodes[id].reqs[i]))
  {
    hide Satisfied, Reported;
    RunCoherent(nodes, fs);
    RunReceived(nodes, fs, id);
    forall c ensures c in Received(Run(nodes, NOTHING, fs), id) <==> Reported(fs, id, c) {
      CountedAreReported(fs, id, c);
    }
    var criteria := Criteria(Counted(fs), id);
    SatisfiedByGroup(nodes, id, criteria);
    forall group: seq<string> ensures Touched(group, criteria) == GroupReported(fs, id, group) {
      forall j | 0 <= j < |group| ensures group[j] in criteria <==> Reported(fs, id, group[j]) {
        CountedAreReported(fs, id, group[j]);
      }
    }
  }

  /** A group nothing of which was reported keeps the advancement incomplete, whatever else was. */
  lemma UntouchedGroup(nodes: Nodes, fs: seq<Frame>, id: string, g: nat)
    requires id in nodes && g < |nodes[id].reqs|
    requires forall c :: c in nodes[id].reqs[g] ==> !Reported(fs, id, c)
    ensures id !in Run(nodes, NOTHING, fs).complete
  {
    BookIsBatch(nodes, fs, id);
    assert !GroupReported(fs, id, nodes[id].reqs[g]);
  }

  /** One reported criterion of every group is enough. */
  lemma OneOfEachGroup(nodes: Nodes, fs: seq<Frame>, id: string, picks: seq<nat>)
    requires id in nodes && |picks| == |nodes[id].reqs| > 0
    requires forall i :: 0 <= i < |picks| ==>
               picks[i] < |nodes[id].reqs[i]| && Reported(fs, id, nodes[id].reqs[i][picks[i]])
    ensures id in Run(nodes, NOTHING, fs).complete
  {
    hide Reported;
    BookIsBatch(nodes, fs, id);
    forall i | 0 <= i < |picks| ensures GroupReported(fs, id, nodes[id].reqs[i]) {
    }
  }

  lemma {:induction false} RunCoherent(nodes: Nodes, fs: seq<Frame>)
    ensures Coherent(nodes, Run(nodes, NOTHING, fs))
  {
    NothingCoherent(nodes);
    if fs == [] {
    } else {
      var last := fs[|fs| - 1];
      RunCoherent(nodes, fs[..|fs| - 1]);
      EntriesKeepCoherence(nodes, if last.reset then NOTHING else Run(nodes, NOTHING, fs[..|fs| - 1]), last.entries);
    }
  }

  lemma {:induction false} RunReceived(nodes: Nodes, fs: seq<Frame>, id: string)
    ensures Received(Run(nodes, NOTHING, fs), id) == Criteria(Counted(fs), id)
  {
    if fs == [] {
    } else {
      var init, last := fs[..|fs| - 1], fs[|fs| - 1];
      RunReceived(nodes, init, id);
      CriteriaConcat(Counted(init), last.entries, id);
      ReceivedAfter(nodes, if last.reset then NOTHING else Run(nodes, NOTHING, init), last.entries, id);
    }
  }

  // ---------------------------------------------------------------------------------
  // Each completion is announced exactly once
  // ---------------------------------------------------------------------------------

  /** Nodes are filed under their own ids. */
  ghost predicate Filed(nodes: Nodes) {
    forall id :: id in nodes ==> nodes[id].id == id
  }

  lemma {:induction false} LoadedFiled(nodes: Nodes, tree: seq<AdvNode>)
    requires Filed(nodes)
    ensures Filed(Loaded(nodes, tree))
  {
    if tree == [] {
    } else {
      LoadedFiled(nodes, tree[..|tree| - 1]);
    }
  }

  /** An advancement of the tree that wants a toast and was completed between p and q. */
  ghost predicate Newly(nodes: Nodes, p: Tally, q: Tally, n: AdvNode) {
    && n.id in nodes && nodes[n.id] == n && n.hasDisplay && n.showToast
    && n.id in q.complete && n.id !in p.complete
  }

  /**
    * The toasts of some increments, however they are framed, hold each advancement that
    * wants a toast and was completed by them exactly once, and nothing else.
    */
  lemma {:induction false} ToastedOnce(nodes: Nodes, p: Tally, es: seq<Entry>, n: AdvNode)
    requires Filed(nodes)
    ensures multiset(ToastsOf(nodes, p, es))[n] == if Newly(nodes, p, AfterEntries(nodes, p, es), n) then 1 else 0
  {
    if es == [] {
    } else {
      var init, e := es[..|es| - 1], es[|es| - 1];
      var mid := AfterEntries(nodes, p, init);
      ToastedOnce(nodes, p, init, n);
      CompletionsStay(nodes, p, init);
      assert multiset(ToastOf(nodes, mid, e))[n]
             == if Newly(nodes, mid, AfterEntry(nodes, mid, e), n) then 1 else 0;
    }
  }

  lemma {:induction false} CompletionsStay(nodes: Nodes, p: Tally, es: seq<Entry>)
    ensures p.complete <= AfterEntries(nodes, p, es).complete
  {
    if es == [] {
    } else {
      CompletionsStay(nodes, p, es[..|es| - 1]);
    }
  }

  /** The increments of an epoch, one frame after another. */
  function Increments(fs: seq<Frame>): seq<Entry> {
    if fs == [] then [] else Increments(fs[..|fs| - 1]) + fs[|fs| - 1].entries
  }

  function RunToasts(nodes: Nodes, p: Tally, fs: seq<Frame>): seq<AdvNode> {
    if fs == [] then []
    else
      RunToasts(nodes, p, fs[..|fs| - 1]) + FrameToasts(nodes, Run(nodes, p, fs[..|fs| - 1]), fs[|fs| - 1])
  }

  lemma {:induction false} EntriesSplit(nodes: Nodes, p: Tally, a: seq<Entry>, b: seq<Entry>)
    ensures AfterEntries(nodes, p, a + b) == AfterEntries(nodes, AfterEntries(nodes, p, a), b)
    ensures ToastsOf(nodes, p, a + b) == ToastsOf(nodes, p, a) + ToastsOf(nodes, AfterEntries(nodes, p, a), b)
  {
    hide AfterEntry, ToastOf;
    if b == [] {
      assert a + b == a;
    } else {
      var init := b[..|b| - 1];
      assert (a + b)[..|a + b| - 1] == a + init;
      EntriesSplit(nodes, p, a, init);
    }
  }

  /** Splitting an increment in two frames changes neither the book nor the toasts. */
  lemma FrameSplit(nodes: Nodes, p: Tally, a: seq<Entry>, b: seq<Entry>)
    ensures var whole := Frame(false, a + b);
            var mid := AfterFrame(nodes, p, Frame(false, a));
            && AfterFrame(nodes, mid, Frame(false, b)) == AfterFrame(nodes, p, whole)
            && FrameToasts(nodes, p, Frame(false, a)) + FrameToasts(nodes, mid, Frame(false, b))
               == FrameToasts(nodes, p, whole)
  {
    EntriesSplit(nodes, p, a, b);
  }

  lemma {:induction false} FramesAreEntries(nodes: Nodes, p: Tally, fs: seq<Frame>)
    requires forall f :: f in fs ==> !f.reset
    ensures Run(nodes, p, fs) == AfterEntries(nodes, p, Increments(fs))
    ensures RunToasts(nodes, p, fs) == ToastsOf(nodes, p, Increments(fs))
  {
    if fs == [] {
    } else {
      var init, last := fs[..|fs| - 1], fs[|fs| - 1];
      assert !last.reset;
      FramesAreEntries(nodes, p, init);
      EntriesSplit(nodes, p, Increments(init), last.entries);
    }
  }

  /**
    * Over an epoch (an opening snapshot, or a new book, then increments) each advancement
    * that wants a toast is announced exactly once when the criteria of the whole epoch
    * complete it and those of the snapshot alone did not, and otherwise never.
    */
  lemma EpochToasts(nodes: Nodes, before: Tally, snapshot: seq<Entry>, fs: seq<Frame>, n: AdvNode)
    requires Filed(nodes) && forall f :: f in fs ==> !f.reset
    ensures var atStart := AfterFrame(nodes, before, Frame(true, snapshot));
            var toasts := FrameToasts(nodes, before, Frame(true, snapshot)) + RunToasts(nodes, atStart, fs);
            multiset(toasts)[n]
            == if && n.id in nodes && nodes[n.id] == n && n.hasDisplay && n.showToast
                  && Satisfied(nodes, n.id, Criteria(snapshot + Increments(fs), n.id))
                  && !Satisfied(nodes, n.id, Criteria(snapshot, n.id))
               then 1 else 0
  {
    var es := Increments(fs);
    var atStart := AfterEntries(nodes, NOTHING, snapshot);
    var closed := AfterEntries(nodes, atStart, es);
    FramesAreEntries(nodes, atStart, fs);
    ToastedOnce(nodes, atStart, es, n);
    NothingCoherent(nodes);
    EntriesKeepCoherence(nodes, NOTHING, snapshot);
    EntriesKeepCoherence(nodes, atStart, es);
    ReceivedAfter(nodes, NOTHING, snapshot, n.id);
    ReceivedAfter(nodes, atStart, es, n.id);
    CriteriaConcat(snapshot, es, n.id);
    assert Received(atStart, n.id) == Criteria(snapshot, n.id);
    assert Received(closed, n.id) == Criteria(snapshot + es, n.id);
    assert [] + RunToasts(nodes, atStart, fs) == RunToasts(nodes, atStart, fs);
  }

  // ---------------------------------------------------------------------------------
  // Increments from any state
  // ---------------------------------------------------------------------------------

  /** Some entry names the advancement. */
  ghost predicate Mentions(es: seq<Entry>, id: string) {
    exists e :: e in es && e.id == id
  }

  /**
    * From any state, right or not, increments leave an advancement noticed complete exactly
    * when it was so before, or one of them names it and all its criteria, received before or
    * with them, hit every requirement group.
    */
  lemma {:induction false} CompleteAfter(nodes: Nodes, p: Tally, es: seq<Entry>, id: string)
    ensures id in AfterEntries(nodes, p, es).complete
            <==> id in p.complete || (Mentions(es, id) && Satisfied(nodes, id, Received(p, id) + Criteria(es, id)))
  {
    hide Satisfied;
    if es == [] {
    } else {
      var init, e := es[..|es| - 1], es[|es| - 1];
      assert es == init + [e];
      CompleteAfter(nodes, p, init, id);
      ReceivedAfter(nodes, p, init, id);
      assert e in es;
      assert Mentions(es, id) <==> Mentions(init, id) || e.id == id;
      var mid := AfterEntries(nodes, p, init);
      var c := Received(p, id) + Criteria(init, id);
      assert AfterEntries(nodes, p, es) == AfterEntry(nodes, mid, e);
      assert Received(p, id) + Criteria(es, id) == if e.id == id then c + e.done else c;
      if e.id == id {
        if Satisfied(nodes, id, c) {
          MoreCriteria(nodes, id, c, c + e.done);
        }
      }
    }
  }

  /**
    * And they announce an advancement exactly once when it wants a toast and they are the
    * ones to make it noticed, and otherwise never.
    */
  lemma {:induction false} ToastsFromAnyState(nodes: Nodes, p: Tally, es: seq<Entry>, n: AdvNode)
    requires Filed(nodes)
    ensures multiset(ToastsOf(nodes, p, es))[n]
            == if && n.id in nodes && nodes[n.id] == n && n.hasDisplay && n.showToast && n.id !in p.complete
                  && Mentions(es, n.id) && Satisfied(nodes, n.id, Received(p, n.id) + Criteria(es, n.id))
               then 1 else 0
  {
    ToastedOnce(nodes, p, es, n);
    CompleteAfter(nodes, p, es, n.id);
  }

  // ---------------------------------------------------------------------------------
  // The order of increments
  // ---------------------------------------------------------------------------------

  lemma {:induction false} CriteriaDetach(es: seq<Entry>, k: nat, id: string)
    requires k < |es|
    ensures Criteria(es, id) == (if es[k].id == id then es[k].done else {}) + Criteria(Without(es, k), id)
  {
    var n := |es| - 1;
    if k == n {
      assert Without(es, k) == es[..n];
    } else {
      WithoutLast(es, k);
      CriteriaDetach(es[..n], k, id);
    }
  }

  lemma CriteriaOrderBlind(a: seq<Entry>, b: seq<Entry>, id: string)
    requires multiset(a) == multiset(b)
    ensures Criteria(a, id) == Criteria(b, id)
  {
    var fold := (es: seq<Entry>) => Criteria(es, id);
    var step := (e: Entry, c: set<string>) => (if e.id == id then e.done else {}) + c;
    forall es: seq<Entry>, k | 0 <= k < |es| ensures fold(es) == step(es[k], fold(Without(es, k))) {
      CriteriaDetach(es, k, id);
    }
    OrderBlind(fold, step, a, b);
  }

  lemma {:induction false} FiledAfter(nodes: Nodes, p: Tally, es: seq<Entry>, id: string)
    ensures id in AfterEntries(nodes, p, es).done <==> id in p.done || exists e :: e in es && e.id == id
  {
    if es == [] {
    } else {
      var init, e := es[..|es| - 1], es[|es| - 1];
      assert es == init + [e];
      FiledAfter(nodes, p, init, id);
    }
  }

  lemma OrderUnseenById(nodes: Nodes, p: Tally, a: seq<Entry>, b: seq<Entry>, id: string)
    requires multiset(a) == multiset(b)
    ensures var qa, qb := AfterEntries(nodes, p, a), AfterEntries(nodes, p, b);
            && (id in qa.done <==> id in qb.done) && Received(qa, id) == Received(qb, id)
            && (id in qa.complete <==> id in qb.complete)
  {
    hide AfterEntries;
    CompleteAfter(nodes, p, a, id);
    CompleteAfter(nodes, p, b, id);
    FiledAfter(nodes, p, a, id);
    FiledAfter(nodes, p, b, id);
    forall e ensures e in a <==> e in b {
      assert e in multiset(a) <==> e in multiset(b);
    }
    ReceivedAfter(nodes, p, a, id);
    ReceivedAfter(nodes, p, b, id);
    CriteriaOrderBlind(a, b, id);
  }

  lemma SameTally(p: Tally, q: Tally)
    requires forall id :: (id in p.done <==> id in q.done) && Received(p, id) == Received(q, id)
    requires forall id :: id in p.complete <==> id in q.complete
    ensures p == q
  {
    forall id | id in p.done ensures id in q.done && p.done[id] == q.done[id] {
      assert Received(p, id) == Received(q, id);
    }
    assert p.done.Keys == q.done.Keys && p.complete == q.complete;
  }

  /**
    * Increments in another order, from any state: the same book and, up to their order, the
    * same toasts.
    */
  lemma {:induction false} OrderUnseen(nodes: Nodes, p: Tally, a: seq<Entry>, b: seq<Entry>)
    requires Filed(nodes) && multiset(a) == multiset(b)
    ensures AfterEntries(nodes, p, a) == AfterEntries(nodes, p, b)
    ensures multiset(ToastsOf(nodes, p, a)) == multiset(ToastsOf(nodes, p, b))
  {
    hide AfterEntries, ToastsOf, Filed;
    var qa, qb := AfterEntries(nodes, p, a), AfterEntries(nodes, p, b);
    forall id
      ensures (id in qa.done <==> id in qb.done) && Received(qa, id) == Received(qb, id)
      ensures id in qa.complete <==> id in qb.complete
    {
      OrderUnseenById(nodes, p, a, b, id);
    }
    SameTally(qa, qb);
    forall n ensures multiset(ToastsOf(nodes, p, a))[n] == multiset(ToastsOf(nodes, p, b))[n] {
      ToastedOnce(nodes, p, a, n);
      ToastedOnce(nodes, p, b, n);
    }
  }

  // ---------------------------------------------------------------------------------
  // A tree that arrives late
  // ---------------------------------------------------------------------------------

  /**
    * Loading tree nodes does not look at the criteria already received, so the book stays
    * right exactly when, for each id loaded, the node it ends up with is done by those
    * criteria just in case the id was already noticed complete.
    */
  lemma TreeKeepsCoherence(nodes: Nodes, tree: seq<AdvNode>, p: Tally)
    requires Coherent(nodes, p)
    ensures var loaded := Loaded(nodes, tree);
            Coherent(loaded, p)
            <==> forall n :: n in tree ==>
                   n.id in loaded && (DoneBy(loaded[n.id].reqs, Received(p, n.id)) <==> n.id in p.complete)
  {
    var loaded := Loaded(nodes, tree);
    forall id
      ensures (exists n :: n in tree && n.id == id)
              || ((id in loaded <==> id in nodes) && (id in nodes ==> loaded[id] == nodes[id]))
    {
      UnloadedAlone(nodes, tree, id);
    }
    forall n | n in tree ensures n.id in loaded {
      LoadedPresent(nodes, tree, n);
    }
    if forall n :: n in tree ==> (DoneBy(loaded[n.id].reqs, Received(p, n.id)) <==> n.id in p.complete) {
      forall id ensures id in p.complete <==> Satisfied(loaded, id, Received(p, id)) {
        if !exists n :: n in tree && n.id == id {
          assert Satisfied(loaded, id, Received(p, id)) == Satisfied(nodes, id, Received(p, id));
        }
      }
    }
  }

  lemma {:induction false} UnloadedAlone(nodes: Nodes, tree: seq<AdvNode>, id: string)
    ensures (exists n :: n in tree && n.id == id)
            || ((id in Loaded(nodes, tree) <==> id in nodes) && (id in nodes ==> Loaded(nodes, tree)[id] == nodes[id]))
  {
    if tree == [] {
    } else {
      var init, last := tree[..|tree| - 1], tree[|tree| - 1];
      assert tree == init + [last];
      assert last in tree;
      UnloadedAlone(nodes, init, id);
    }
  }

  /** An id's node is the last one loaded under it. */
  lemma {:induction false} LoadedIsLast(nodes: Nodes, tree: seq<AdvNode>, i: nat)
    requires i < |tree| && forall j :: i < j < |tree| ==> tree[j].id != tree[i].id
    ensures tree[i].id in Loaded(nodes, tree) && Loaded(nodes, tree)[tree[i].id] == tree[i]
  {
    if i == |tree| - 1 {
    } else {
      LoadedIsLast(nodes, tree[..|tree| - 1], i);
    }
  }

  lemma {:induction false} LoadedPresent(nodes: Nodes, tree: seq<AdvNode>, n: AdvNode)
    requires n in tree
    ensures n.id in Loaded(nodes, tree)
  {
    var init, last := tree[..|tree| - 1], tree[|tree| - 1];
    assert tree == init + [last];
    if n == last {
    } else {
      LoadedPresent(nodes, init, n);
    }
  }

  /**
    * What increments after a late tree make of a book that was right under the tree before:
    * an advancement is noticed exactly when the old tree had noticed it, or an entry that
    * comes after the new tree names it and the new node is done by all its criteria.
    */
  lemma RunAfterTree(nodes: Nodes, tree: seq<AdvNode>, p: Tally, es: seq<Entry>, id: string)
    requires Coherent(nodes, p)
    ensures var loaded := Loaded(nodes, tree);
            var all := Received(p, id) + Criteria(es, id);
            id in AfterEntries(loaded, p, es).complete
            <==> Satisfied(nodes, id, Received(p, id)) || (Mentions(es, id) && Satisfied(loaded, id, all))
  {
    CompleteAfter(Loaded(nodes, tree), p, es, id);
  }

  /** For an id without criteria so far the tree is never late: the book is right about it after any increments. */
  lemma TreeInTime(nodes: Nodes, p: Tally, es: seq<Entry>, id: string)
    requires Received(p, id) == {} && id !in p.complete
    ensures id in AfterEntries(nodes, p, es).complete <==> Satisfied(nodes, id, Criteria(es, id))
  {
    CompleteAfter(nodes, p, es, id);
    assert Received(p, id) + Criteria(es, id) == Criteria(es, id);
    if !Mentions(es, id) {
      NoMentionNoCriteria(es, id);
      NothingCoherent(nodes);
      assert Received(NOTHING, id) == {};
    }
  }

  lemma {:induction false} NoMentionNoCriteria(es: seq<Entry>, id: string)
    requires !Mentions(es, id)
    ensures Criteria(es, id) == {}
  {
    if es == [] {
    } else {
      var init, last := es[..|es| - 1], es[|es| - 1];
      assert es == init + [last];
      assert last in es;
      NoMentionNoCriteria(init, id);
    }
  }

  /**
    * A late tree in one run: the criterion arrives, then the node that it does. Nothing is
    * noticed then, nor by increments that do not name the advancement; the first entry that
    * does, even one without criteria, has it noticed and announced once.
    */
  lemma LateTreeWaits(id: string, c: string, n: AdvNode, es: seq<Entry>)
    requires n.id == id && n.reqs == [[c]] && n.hasDisplay && n.showToast
    ensures var p := AfterFrame(map[], NOTHING, Frame(false, [Entry(id, {c})]));
            var nodes := Loaded(map[], [n]);
            && Satisfied(nodes, id, Received(p, id)) && !Coherent(nodes, p)
            && (id in AfterEntries(nodes, p, es).complete <==> Mentions(es, id))
            && multiset(ToastsOf(nodes, p, es))[n] == if Mentions(es, id) then 1 else 0
  {
    var e := Entry(id, {c});
    var none: Nodes := map[];
    var nodes := Loaded(none, [n]);
    var p := AfterFrame(none, NOTHING, Frame(false, [e]));
    OneEntry(none, NOTHING, e);
    assert nodes == map[id := n] by { assert [n][..0] == [] && Loaded(none, [n][..0]) == none; }
    assert Received(p, id) == {c} && id !in p.complete;
    assert n.reqs[0] in n.reqs && c in n.reqs[0];
    assert Satisfied(nodes, id, {c});
    MoreCriteria(nodes, id, {c}, {c} + Criteria(es, id));
    CompleteAfter(nodes, p, es, id);
    ToastsFromAnyState(nodes, p, es, n);
  }

  lemma OneEntry(nodes: Nodes, p: Tally, e: Entry)
    ensures AfterEntries(nodes, p, [e]) == AfterEntry(nodes, p, e) && ToastsOf(nodes, p, [e]) == ToastOf(nodes, p, e)
  {
    assert [e][..0] == [] && AfterEntries(nodes, p, [e][..0]) == p && ToastsOf(nodes, p, [e][..0]) == [];
  }
}
