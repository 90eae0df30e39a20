/** Block-crack stages turned into Bedrock's timed crack events. */
module BlockCrack {
  import opened MachineInts

  const FULL := 65535
  const SLOW_START := FULL / 6000

  datatype Key = Key(x: int, y: int, z: int)
  type Int8 = x: int | -128 <= x < 128

  /** One progress frame, with the client tick it arrives at. */
  datatype Frame = Frame(at: Key, progress: Int8, now: int)

  datatype Stage = Stage(tick: int, stage: Int8)

  datatype Event = Start(at: Key, data: int) | Update(at: Key, data: int) | Stop(at: Key)

  // ---------------------------------------------------------------------------------
  // What a frame does
  // ---------------------------------------------------------------------------------

  predicate Cracking(progress: Int8) {
    0 <= progress <= 9
  }

  /** The pace estimate, in the machine's widths: never under one tick a stage. */
  function TicksPerStage(prev: Stage, f: Frame): (t: int)
    ensures t >= 1
  {
    var ticksSince := Wrap32(f.now - prev.tick);
    var stagesSince := Wrap8(f.progress - prev.stage);
    var t := if stagesSince > 0 then TruncDiv(ticksSince, stagesSince) else ticksSince;
    if t < 1 then 1 else t
  }

  function Remaining(f: Frame): (r: int)
    ensures r >= 1
  {
    var r := Wrap8(10 - f.progress);
    if r < 1 then 1 else r
  }

  function UpdateData(prev: Stage, f: Frame): int {
    Wrap32(FULL / Remaining(f) * TicksPerStage(prev, f))
  }

  type Tracked = map<Key, Stage>

  function After(last: Tracked, f: Frame): Tracked {
    if Cracking(f.progress) then last[f.at := Stage(f.now, f.progress)] else last - {f.at}
  }

  function EventOf(last: Tracked, f: Frame): Event {
    if !Cracking(f.progress) then Stop(f.at)
    else if f.at !in last then Start(f.at, SLOW_START)
    else Update(f.at, UpdateData(last[f.at], f))
  }

  class CrackTracker {
    var last: Tracked

    constructor ()
      ensures last == map[]
    {
      last := map[];
    }

    method Packet(f: Frame) returns (event: Event)
      modifies this
      ensures last == After(old(last), f)
      ensures event == EventOf(old(last), f)
    {
      if f.progress < 0 || f.progress > 9 {
        last := last - {f.at};
        return Stop(f.at);
      }
      var seen := f.at in last;
      var prev := if seen then last[f.at] else Stage(0, 0);
      last := last[f.at := Stage(f.now, f.progress)];
      if !seen {
        return Start(f.at, SLOW_START);
      }
      var ticksSince := Wrap32(f.now - prev.tick);
      var stagesSince := Wrap8(f.progress - prev.stage);
      var ticksPerStage := ticksSince;
      if stagesSince > 0 {
        ticksPerStage := TruncDiv(ticksSince, stagesSince);
      }
      if ticksPerStage < 1 {
        ticksPerStage := 1;
      }
      var remaining := Wrap8(10 - f.progress);
      if remaining < 1 {
        remaining := 1;
      }
      return Update(f.at, Wrap32(FULL / remaining * ticksPerStage));
    }
  }

  // ---------------------------------------------------------------------------------
  // Runs
  // ---------------------------------------------------------------------------------

  function Run(last: Tracked, fs: seq<Frame>): Tracked
    decreases fs
  {
    if fs == [] then last else Run(After(last, fs[0]), fs[1..])
  }

  function Events(last: Tracked, fs: seq<Frame>): (es: seq<Event>)
    ensures |es| == |fs|
    ensures forall i :: 0 <= i < |fs| ==> es[i].at == fs[i].at
    decreases fs
  {
    if fs == [] then [] else [EventOf(last, fs[0])] + Events(After(last, fs[0]), fs[1..])
  }

  function FramesAt(fs: seq<Frame>, k: Key): seq<Frame> {
    if fs == [] then [] else (if fs[0].at == k then [fs[0]] else []) + FramesAt(fs[1..], k)
  }

  function EventsAt(es: seq<Event>, k: Key): seq<Event> {
    if es == [] then [] else (if es[0].at == k then [es[0]] else []) + EventsAt(es[1..], k)
  }

  /** Two trackers that agree on a block. */
  ghost predicate AgreeAt(a: Tracked, b: Tracked, k: Key) {
    (k in a <==> k in b) && (k in a ==> a[k] == b[k])
  }

  /**
    * Blocks do not interfere: in any run a block's events are those of a tracker that is
    * given only that block's frames, and it ends up knowing the same about the block.
    */
  lemma {:induction false} BlockAlone(a: Tracked, b: Tracked, fs: seq<Frame>, k: Key)
    requires AgreeAt(a, b, k)
    ensures EventsAt(Events(a, fs), k) == Events(b, FramesAt(fs, k))
    ensures AgreeAt(Run(a, fs), Run(b, FramesAt(fs, k)), k)
    decreases fs
  {
    if fs == [] {
    } else {
      var f := fs[0];
      assert Events(a, fs)[1..] == Events(After(a, f), fs[1..]);
      if f.at == k {
        assert FramesAt(fs, k)[1..] == FramesAt(fs[1..], k);
        BlockAlone(After(a, f), After(b, f), fs[1..], k);
      } else {
        BlockAlone(After(a, f), b, fs[1..], k);
        assert FramesAt(fs, k) == FramesAt(fs[1..], k);
      }
    }
  }

  /** The last frame of a run about a block. */
  function Latest(fs: seq<Frame>, k: Key): (i: int)
    ensures -1 <= i < |fs|
    ensures i >= 0 ==> fs[i].at == k
    ensures forall j :: i < j < |fs| ==> fs[j].at != k
  {
    if fs == [] then -1 else if fs[|fs| - 1].at == k then |fs| - 1 else Latest(fs[..|fs| - 1], k)
  }

  lemma {:induction false} RunSnoc(last: Tracked, fs: seq<Frame>, f: Frame)
    ensures Run(last, fs + [f]) == After(Run(last, fs), f)
    ensures Events(last, fs + [f]) == Events(last, fs) + [EventOf(Run(last, fs), f)]
    decreases fs
  {
    if fs == [] {
      assert fs + [f] == [f] && [f][1..] == [];
    } else {
      assert (fs + [f])[1..] == fs[1..] + [f];
      RunSnoc(After(last, fs[0]), fs[1..], f);
    }
  }

  /**
    * After any run the tracked blocks are exactly those whose latest frame was a crack
    * stage, 0 to 9, each with the tick and the stage of that frame.
    */
  lemma {:induction false} TrackedIsLatest(fs: seq<Frame>, k: Key)
    ensures var i := Latest(fs, k);
            var last := Run(map[], fs);
            && (k in last <==> i >= 0 && 0 <= fs[i].progress <= 9)
            && (k in last ==> last[k] == Stage(fs[i].now, fs[i].progress))
  {
    if fs == [] {
    } else {
      var init, f := fs[..|fs| - 1], fs[|fs| - 1];
      assert fs == init + [f];
      RunSnoc(map[], init, f);
      TrackedIsLatest(init, k);
    }
  }

  lemma {:induction false} EventsPrefix(last: Tracked, fs: seq<Frame>, i: nat)
    requires i < |fs|
    ensures Events(last, fs)[i] == EventOf(Run(last, fs[..i]), fs[i])
    decreases i
  {
    if i == 0 {
    } else {
      assert fs[..i][1..] == fs[1..][..i - 1];
      EventsPrefix(After(last, fs[0]), fs[1..], i - 1);
    }
  }

  /** The ticks a stage took, rounded down, and never less than one. */
  function Pace(ticks: int, stages: int): int {
    if stages > 0 && ticks >= stages then ticks / stages
    else if stages <= 0 && ticks >= 1 then ticks else 1
  }

  /** What an update carries: the int32 that agrees with the exact product in its low 32 bits. */
  ghost predicate Carries(data: int, prev: Stage, f: Frame)
    requires 0 <= f.progress <= 9
  {
    && -0x8000_0000 <= data < 0x8000_0000
    && (data - 65535 / (10 - f.progress) * Pace(Wrap32(f.now - prev.tick), f.progress - prev.stage)) % 0x1_0000_0000 == 0
  }

  lemma PaceOf(prev: Stage, f: Frame)
    requires 0 <= prev.stage <= 9 && 0 <= f.progress <= 9
    ensures TicksPerStage(prev, f) == Pace(Wrap32(f.now - prev.tick), f.progress - prev.stage)
  {
    var ticks, stages := Wrap32(f.now - prev.tick), f.progress - prev.stage;
    if stages > 0 {
      if ticks >= stages {
        QuotientAtLeast(ticks, stages);
      } else if ticks >= 0 {
        SmallQuotient(ticks, stages);
      }
    }
  }

  lemma QuotientAtLeast(n: int, d: int)
    requires 1 <= d <= n
    ensures n / d >= 1
  {
  }

  lemma UpdateCarries(prev: Stage, f: Frame)
    requires 0 <= prev.stage <= 9 && 0 <= f.progress <= 9
    ensures Carries(UpdateData(prev, f), prev, f)
  {
    hide TicksPerStage;
    PaceOf(prev, f);
  }

  /**
    * What the client is told, frame by frame, for stages 0 to 9 and anything else: a stop for
    * no stage; a slow start when the block has no earlier frame or its latest earlier one was no
    * stage; an update otherwise, timed from that latest one.
    */
  lemma {:induction false} EventKinds(fs: seq<Frame>, i: nat)
    requires i < |fs|
    ensures var e := Events(map[], fs)[i];
            var j := Latest(fs[..i], fs[i].at);
            var stage := 0 <= fs[i].progress <= 9;
            var going := j >= 0 && 0 <= fs[j].progress <= 9;
            && (e.Stop? <==> !stage) && (e.Start? <==> stage && !going) && (e.Update? <==> stage && going)
            && (e.Update? ==> Carries(e.data, Stage(fs[j].now, fs[j].progress), fs[i]))
            && (e.Start? ==> e.data == 10)
  {
    hide Carries, UpdateData;
    EventsPrefix(map[], fs, i);
    TrackedIsLatest(fs[..i], fs[i].at);
    var j := Latest(fs[..i], fs[i].at);
    if 0 <= fs[i].progress <= 9 && j >= 0 && 0 <= fs[j].progress <= 9 {
      UpdateCarries(Stage(fs[j].now, fs[j].progress), fs[i]);
    }
  }

  /**
    * An update never comes without a start since the block's last stop: some earlier frame
    * of the block started the crack, and every frame of the block since then was a stage and
    * an update.
    */
  lemma {:induction false} UpdateHasStart(fs: seq<Frame>, i: nat) returns (s: nat)
    requires i < |fs| && Events(map[], fs)[i].Update?
    ensures s < i && fs[s].at == fs[i].at && Events(map[], fs)[s].Start? && 0 <= fs[s].progress <= 9
    ensures forall m :: s < m <= i && fs[m].at == fs[i].at ==>
              Events(map[], fs)[m].Update? && 0 <= fs[m].progress <= 9
  {
    hide Events, Carries;
    EventKinds(fs, i);
    var j := Latest(fs[..i], fs[i].at);
    assert j >= 0 && fs[j].at == fs[i].at;
    EventKinds(fs, j);
    if Events(map[], fs)[j].Start? {
      s := j;
    } else {
      s := UpdateHasStart(fs, j);
    }
    forall m | s < m <= i && fs[m].at == fs[i].at
      ensures Events(map[], fs)[m].Update? && 0 <= fs[m].progress <= 9
    {
      if m < i {
        assert fs[..i][m] == fs[m];
        assert m <= j;
      }
    }
  }

  // ---------------------------------------------------------------------------------
  // The numbers
  // ---------------------------------------------------------------------------------

  /** The event data without any machine width. */
  function ExactData(prev: Stage, f: Frame): int
    requires 0 <= f.progress <= 9
  {
    65535 / (10 - f.progress) * Pace(f.now - prev.tick, f.progress - prev.stage)
  }

  lemma Quotients(p: int)
    requires 0 <= p <= 9
    ensures 6553 <= FULL / (10 - p) <= FULL
  {
  }

  lemma ProductWithin(a: int, t: int, bound: int)
    requires 0 <= a <= FULL && 1 <= t <= bound
    ensures a <= a * t <= FULL * bound
  {
    assert a * t <= a * bound <= FULL * bound;
  }

  lemma QuotientWithin(a: int, b: int)
    requires a >= 0 && b >= 1
    ensures 0 <= a / b <= a
  {
  }

  lemma PaceFits(prev: Stage, f: Frame)
    requires 0 <= prev.stage <= 9 && 0 <= f.progress <= 9
    requires 0 <= f.now - prev.tick <= 32768
    ensures TicksPerStage(prev, f) == Pace(f.now - prev.tick, f.progress - prev.stage)
    ensures 1 <= TicksPerStage(prev, f) <= 32768
  {
    var ticks, stages := f.now - prev.tick, f.progress - prev.stage;
    PaceOf(prev, f);
    if stages > 0 {
      QuotientWithin(ticks, stages);
    }
  }

  /**
    * Between two crack stages at most 32768 ticks apart, in order, no width is exceeded
    * anywhere, and the event data is at least 6553.
    */
  lemma DataFits(prev: Stage, f: Frame)
    requires 0 <= prev.stage <= 9 && 0 <= f.progress <= 9
    requires 0 <= f.now - prev.tick <= 32768
    ensures 1 <= Remaining(f) == 10 - f.progress <= 10
    ensures Wrap8(f.progress - prev.stage) == f.progress - prev.stage
    ensures 1 <= TicksPerStage(prev, f) <= 32768
    ensures UpdateData(prev, f) == ExactData(prev, f) && 6553 <= UpdateData(prev, f) <= 65535 * 32768
  {
    PaceFits(prev, f);
    hide TicksPerStage;
    Quotients(f.progress);
    ProductWithin(FULL / Remaining(f), TicksPerStage(prev, f), 32768);
  }

  /** Every gap between stages, up to this many ticks, is free of overflow. */
  ghost predicate GapsFit(gap: nat) {
    forall prev: Stage, f: Frame ::
      0 <= prev.stage <= 9 && 0 <= f.progress <= 9 && 0 <= f.now - prev.tick <= gap
      ==> UpdateData(prev, f) == ExactData(prev, f)
  }

  /** 32768 ticks is the largest gap that is always free of overflow. */
  lemma LargestGap(gap: nat)
    ensures GapsFit(gap) <==> gap <= 32768
  {
    if gap <= 32768 {
      forall prev: Stage, f: Frame |
        0 <= prev.stage <= 9 && 0 <= f.progress <= 9 && 0 <= f.now - prev.tick <= gap
        ensures UpdateData(prev, f) == ExactData(prev, f)
      {
        DataFits(prev, f);
      }
    } else {
      var prev, f := Stage(0, 9), Frame(Key(0, 0, 0), 9, 32769);
      assert ExactData(prev, f) == FULL * 32769;
      assert FULL * 32769 >= TWO_TO_31 > UpdateData(prev, f);
      assert !GapsFit(gap);
    }
  }

  /** In each block's frames the ticks do not run backwards, nor by more than 32768 at once. */
  ghost predicate Steady(fs: seq<Frame>) {
    forall i :: 0 <= i < |fs| ==>
      var j := Latest(fs[..i], fs[i].at);
      j >= 0 ==> 0 <= fs[i].now - fs[j].now <= 32768
  }

  /** Over any steady run every update carries between 6553 and 65535 * 32768, exactly computed. */
  lemma {:induction false} SteadyRunFits(fs: seq<Frame>, i: nat)
    requires Steady(fs) && i < |fs| && Events(map[], fs)[i].Update?
    ensures var j := Latest(fs[..i], fs[i].at);
            && j >= 0 && 0 <= fs[j].progress <= 9 && 0 <= fs[i].progress <= 9
            && Events(map[], fs)[i].data == ExactData(Stage(fs[j].now, fs[j].progress), fs[i])
            && 6553 <= Events(map[], fs)[i].data < TWO_TO_31
  {
    EventKinds(fs, i);
    EventsPrefix(map[], fs, i);
    TrackedIsLatest(fs[..i], fs[i].at);
    var j := Latest(fs[..i], fs[i].at);
    DataFits(Stage(fs[j].now, fs[j].progress), fs[i]);
  }

  /** What the header comment has an event carry: 65535 over the ticks remaining. */
  function CommentData(prev: Stage, f: Frame): int
    requires 0 <= f.progress <= 9
  {
    65535 / ((10 - f.progress) * Pace(Wrap32(f.now - prev.tick), f.progress - prev.stage))
  }

  /**
    * The code divides by the stages remaining and multiplies by the pace instead, in int32.
    * Whatever the ticks, backward or overflowing ones included, that is the comment's number
    * exactly at a pace of one tick a stage.
    */
  lemma {:induction false} CommentVersusCode(prev: Stage, f: Frame)
    requires 0 <= prev.stage <= 9 && 0 <= f.progress <= 9
    ensures UpdateData(prev, f) == CommentData(prev, f)
            <==> Pace(Wrap32(f.now - prev.tick), f.progress - prev.stage) == 1
  {
    var r, t := Remaining(f), TicksPerStage(prev, f);
    PaceIsInt32(prev, f);
    PaceOf(prev, f);
    hide TicksPerStage, Pace;
    Quotients(f.progress);
    if t > 1 {
      PaceShows(r, t);
    }
  }

  /** A block cracking at 24 ticks a stage: the code sends 174744 where the comment has 303. */
  lemma CommentDiffers()
    ensures var prev, f := Stage(100, 0), Frame(Key(1, 64, 2), 1, 124);
            UpdateData(prev, f) == 174744 && CommentData(prev, f) == 303
  {
    assert Wrap32(24) == 24 && Wrap8(1) == 1 && Wrap8(9) == 9 && 65535 / 9 == 7281 && 65535 / 216 == 303;
  }

  lemma PaceIsInt32(prev: Stage, f: Frame)
    ensures 1 <= TicksPerStage(prev, f) < TWO_TO_31
  {
    var ticks, stages := Wrap32(f.now - prev.tick), Wrap8(f.progress - prev.stage);
    if stages > 0 && ticks >= 0 {
      QuotientWithin(ticks, stages);
    }
  }

  /** At any slower pace the wrapped product is not the quotient of the product. */
  lemma PaceShows(r: int, t: int)
    requires 1 <= r <= 10 && 2 <= t < TWO_TO_31
    ensures Wrap32(FULL / r * t) != FULL / (r * t)
  {
    hide Wrap32;
    if r * t > FULL {
      SmallQuotient(FULL, r * t);
      NoWrapToZero(r, t);
    } else {
      ProductAtLeast(t, r);
      ProductWithin(FULL / r, t, FULL) by { Quotients(10 - r); }
      SlowerIsLarger(FULL, r, t) by { Quotients(10 - r); }
      WrapAbove(FULL / r * t, FULL / (r * t));
    }
  }

  /** A number below 2^32 wraps to itself or below zero. */
  lemma WrapAbove(x: int, y: int)
    requires 0 <= y < x < TWO_TO_32 && y < TWO_TO_31
    ensures Wrap32(x) != y
  {
  }

  lemma SmallQuotient(n: int, d: int)
    requires 0 <= n < d
    ensures n / d == 0
  {
  }

  /** 65535 over 1 to 10 is odd, or twice an odd number, so no pace makes the product vanish in 32 bits. */
  lemma NoWrapToZero(r: int, t: int)
    requires 1 <= r <= 10 && 1 <= t < TWO_TO_31
    ensures Wrap32(FULL / r * t) != 0
  {
    var q := FULL / r;
    if Wrap32(q * t) == 0 {
      var k := WrappedToZero(q * t);
      Pow2At31();
      OddPart(r);
      if q % 2 == 1 {
        OddFactor(q, t, 2 * k, 31);
      } else {
        HalveProduct(t, q / 2, TWO_TO_31, k);
        OddFactor(q / 2, t, k, 31);
      }
      assert false;
    }
  }

  lemma OddPart(r: int)
    requires 1 <= r <= 10
    ensures FULL / r % 2 == 1 || FULL / r / 2 % 2 == 1
  {
    assert FULL / r == [65535, 32767, 21845, 16383, 13107, 10922, 9362, 8191, 7281, 6553][r - 1];
  }

  lemma WrappedToZero(x: int) returns (k: int)
    requires Wrap32(x) == 0
    ensures x == TWO_TO_32 * k
  {
    k := (x + TWO_TO_31) / TWO_TO_32;
  }

  function Pow2(e: nat): int {
    if e == 0 then 1 else 2 * Pow2(e - 1)
  }

  lemma Pow2At31()
    ensures Pow2(31) == TWO_TO_31
  {
    assert Pow2(8) == 256;
    assert Pow2(16) == 65536;
    assert Pow2(24) == 16777216;
  }

  /** A power of two that divides the product of an odd number and t divides t, so t is at least that power. */
  lemma {:induction false} OddFactor(q: int, t: int, k: int, e: nat)
    requires q % 2 == 1 && t >= 1 && q * t == Pow2(e) * k
    ensures t >= Pow2(e)
  {
    if e == 0 {
    } else {
      EvenProduct(Pow2(e - 1), k);
      OddTimesOdd(q, t);
      HalveProduct(q, t / 2, Pow2(e - 1), k);
      OddFactor(q, t / 2, k, e - 1);
    }
  }

  lemma HalveProduct(a: int, b: int, c: int, d: int)
    ensures a * (2 * b) == 2 * c * d ==> a * b == c * d
  {
    assert a * (2 * b) == 2 * (a * b) && 2 * c * d == 2 * (c * d);
  }

  lemma EvenProduct(c: int, d: int)
    ensures 2 * c * d % 2 == 0
  {
    assert 2 * c * d == 2 * (c * d);
  }

  lemma OddTimesOdd(q: int, t: int)
    requires q % 2 == 1
    ensures q * t % 2 == t % 2
  {
    var a := q / 2;
    OddTimes(a, t);
    EvenPlus(a * t, t);
  }

  lemma OddTimes(a: int, t: int)
    ensures (2 * a + 1) * t == 2 * (a * t) + t
  {
  }

  lemma EvenPlus(p: int, t: int)
    ensures (2 * p + t) % 2 == t % 2
  {
  }

  lemma SlowerIsLarger(n: int, r: int, t: int)
    requires r >= 1 && t >= 2 && n / r >= 1
    ensures n / r * t > n / (r * t)
  {
    ProductAtLeast(r, t);
    SmallerQuotient(n, r, r * t);
    ProductAtLeast(n / r, t - 1);
    assert n / r * t == n / r + n / r * (t - 1);
  }

  lemma ProductAtLeast(a: int, t: int)
    requires a >= 0 && t >= 1
    ensures a * t >= a
  {
  }

  lemma SmallerQuotient(n: int, r: int, s: int)
    requires n >= 0 && 1 <= r <= s
    ensures n / s <= n / r
  {
    var q, p := n / s, n / r;
    assert q * r <= q * s <= n by { ProductMonotone(q, r, s); }
    if q > p {
      ProductMonotone(r, p + 1, q);
      assert false;
    }
  }

  lemma ProductMonotone(a: int, b: int, c: int)
    requires a >= 0 && b <= c
    ensures a * b <= a * c
  {
  }
}
