/** Block entities in a chunk: the packets they become, and the banner colours remembered. */
module BlockEntities {
  import opened MachineInts
  import opened Wire
  import opened JavaNbt
  import opened Signs
  import opened EntityContents

  const CAMPFIRE_SLOTS := 4
  const SHELF_SLOTS := 3
  const SIGN := 7
  const HANGING_SIGN := 8
  const BANNER := 20
  const CAMPFIRE := 33
  const SHELF := 40
  const MAX_ENTITIES := 4096

  // ---------------------------------------------------------------------------------
  // Banner block states
  // ---------------------------------------------------------------------------------

  datatype Range = Range(min: nat, max: nat, color: int)

  /** Which block states are banners of which colour, lowest state first. */
  const BANNER_RANGES: seq<Range> := [
    Range(14774, 14789, 0), Range(14790, 14805, 1), Range(14806, 14821, 2), Range(14822, 14837, 3),
    Range(14838, 14853, 4), Range(14854, 14869, 5), Range(14870, 14885, 6), Range(14886, 14901, 7),
    Range(14902, 14917, 8), Range(14918, 14933, 9), Range(14934, 14949, 10), Range(14950, 14965, 11),
    Range(14966, 14981, 12), Range(14982, 14997, 13), Range(14998, 15013, 14), Range(15014, 15029, 15),
    Range(15030, 15033, 0), Range(15034, 15037, 1), Range(15038, 15041, 2), Range(15042, 15045, 3),
    Range(15046, 15049, 4), Range(15050, 15053, 5), Range(15054, 15057, 6), Range(15058, 15061, 7),
    Range(15062, 15065, 8), Range(15066, 15069, 9), Range(15070, 15073, 10), Range(15074, 15077, 11),
    Range(15078, 15081, 12), Range(15082, 15085, 13), Range(15086, 15089, 14), Range(15090, 15093, 15)
  ]

  const FIRST_BANNER := 14774
  const FIRST_WALL_BANNER := 15030
  const LAST_BANNER := 15093

  /** Sixteen standing states a colour, then four wall states a colour. */
  predicate IsBannerState(state: nat) {
    FIRST_BANNER <= state <= LAST_BANNER
  }

  function BannerColor(state: nat): int {
    if !IsBannerState(state) then 0
    else if state < FIRST_WALL_BANNER then (state - FIRST_BANNER) / 16
    else (state - FIRST_WALL_BANNER) / 4
  }

  /** The table row by row: gapless, disjoint, and in colour order twice. */
  lemma RangeRow(i: nat)
    requires i < |BANNER_RANGES|
    ensures |BANNER_RANGES| == 32
    ensures BANNER_RANGES[i]
            == if i < 16 then Range(14774 + 16 * i, 14774 + 16 * i + 15, i)
               else Range(15030 + 4 * (i - 16), 15030 + 4 * (i - 16) + 3, i - 16)
  {
  }

  lemma RowOf(state: nat) returns (i: nat)
    requires IsBannerState(state)
    ensures i < |BANNER_RANGES| && BANNER_RANGES[i].min <= state <= BANNER_RANGES[i].max
  {
    i := if state < FIRST_WALL_BANNER then (state - FIRST_BANNER) / 16 else 16 + (state - FIRST_WALL_BANNER) / 4;
    RangeRow(i);
  }

  /** The first table row holding the state, or none. */
  method BannerBaseFor(state: nat) returns (color: int)
    ensures color == BannerColor(state)
    ensures color == if 14774 <= state < 15030 then (state - 14774) / 16
                     else if 15030 <= state <= 15093 then (state - 15030) / 4 else 0
  {
    hide BANNER_RANGES;
    for i := 0 to |BANNER_RANGES|
      invariant forall j :: 0 <= j < i ==> !(BANNER_RANGES[j].min <= state <= BANNER_RANGES[j].max)
    {
      RangeRow(i);
      if state >= BANNER_RANGES[i].min && state <= BANNER_RANGES[i].max {
        return BANNER_RANGES[i].color;
      }
    }
    if IsBannerState(state) {
      ghost var i := RowOf(state);
      assert false;
    }
    return 0;
  }

  method IsBanner(state: nat) returns (banner: bool)
    ensures banner == IsBannerState(state) == (14774 <= state <= 15093)
  {
    hide BANNER_RANGES;
    for i := 0 to |BANNER_RANGES|
      invariant forall j :: 0 <= j < i ==> !(BANNER_RANGES[j].min <= state <= BANNER_RANGES[j].max)
    {
      RangeRow(i);
      if state >= BANNER_RANGES[i].min && state <= BANNER_RANGES[i].max {
        return true;
      }
    }
    if IsBannerState(state) {
      ghost var i := RowOf(state);
      assert false;
    }
    return false;
  }

  // ---------------------------------------------------------------------------------
  // Positions in a chunk
  // ---------------------------------------------------------------------------------

  /** Where a chunk keeps a block's state: 4096 to a section, 16 to a row; nowhere (-1) for one under the floor. */
  function BlockIndex(minY: int, lx: int, y: int, lz: int): int {
    if y < minY then -1
    else
      var sec, ly := (y - minY) / 16, (y - minY) % 16;
      sec * 4096 + (ly * 16 + lz) * 16 + lx
  }

  datatype Local = Local(lx: int, y: int, lz: int)

  predicate InColumn(minY: int, sections: nat, at: Local) {
    0 <= at.lx < 16 && 0 <= at.lz < 16 && minY <= at.y < minY + 16 * sections
  }

  function BlockAt(minY: int, index: int): Local {
    Local(index % 16, minY + index / 256, index / 16 % 16)
  }

  lemma IndexFlat(minY: int, lx: int, y: int, lz: int)
    requires y >= minY
    ensures BlockIndex(minY, lx, y, lz) == 256 * (y - minY) + 16 * lz + lx
  {
  }

  /**
    * The index is a bijection between the blocks of a column of sections and the numbers
    * below 4096 a section: distinct blocks never share a state and every state has a block.
    */
  lemma IndexBijection(minY: int, sections: nat, at: Local, index: int)
    ensures InColumn(minY, sections, at) ==>
              var i := BlockIndex(minY, at.lx, at.y, at.lz);
              0 <= i < 4096 * sections && BlockAt(minY, i) == at
    ensures 0 <= index < 4096 * sections ==>
              var b := BlockAt(minY, index);
              InColumn(minY, sections, b) && BlockIndex(minY, b.lx, b.y, b.lz) == index
    ensures at.y < minY ==> BlockIndex(minY, at.lx, at.y, at.lz) == -1
  {
    if InColumn(minY, sections, at) {
      IndexFlat(minY, at.lx, at.y, at.lz);
      Digits256(at.y - minY, at.lz, at.lx);
    }
    if 0 <= index < 4096 * sections {
      var b := BlockAt(minY, index);
      IndexFlat(minY, b.lx, b.y, b.lz);
      assert index / 256 == index / 16 / 16;
    }
  }

  lemma Digits256(a: int, b: int, c: int)
    requires 0 <= b < 16 && 0 <= c < 16
    ensures var n := 256 * a + 16 * b + c; n / 256 == a && n / 16 % 16 == b && n % 16 == c
  {
    var n := 256 * a + 16 * b + c;
    assert n / 16 == 16 * a + b;
  }

  // ---------------------------------------------------------------------------------
  // What a section means
  // ---------------------------------------------------------------------------------

  datatype BlockEntity = BlockEntity(xz: Byte, y: int, kind: int, tag: Tag)

  datatype Pos = Pos(x: int, y: int, z: int)

  /** A chunk's coordinates and, when it has them, its block states. */
  datatype Chunk = Chunk(cx: int, cz: int, minY: int, states: Option<seq<nat>>)

  /** The packet a block entity becomes, with what its tag says. */
  datatype Packet =
    | SignPacket(at: Pos, front: SignSide, back: SignSide, waxed: bool, hanging: bool)
    | BannerPacket(at: Pos, base: int, layers: seq<Layer>)
    | CampfirePacket(at: Pos, ids: seq<Bytes>)
    | ShelfPacket(at: Pos, items: seq<Item>)

  function SignedShort(b: Bytes): int
    requires |b| == 2
  {
    var n := BigEndian16(b);
    if n < 0x8000 then n else n - 0x1_0000
  }

  function KindAndTagAt(xz: Byte, y: int, s: Bytes): (r: Read<BlockEntity>)
    ensures r.Got? ==> |r.rest| < |s|
  {
    var (kind, t) :- VarIntAt(s);
    var (tag, u) :- RootAt(t);
    Got(BlockEntity(xz, y, kind, tag), u)
  }

  /** Packed xz, y, type, data. The y buffer is not checked for having been filled. */
  function EntityAt(s: Bytes): (r: Read<BlockEntity>)
    ensures r.Got? ==> |r.rest| < |s|
  {
    var (xz, t) :- ByteAt(s);
    var (yb, u) :- LooseAt(t, 2);
    KindAndTagAt(xz, SignedShort(yb), u)
  }

  /** The entities up to the first torn one, n at most. */
  function EntitiesAt(n: nat, s: Bytes): seq<BlockEntity> {
    if n == 0 then []
    else match EntityAt(s)
         case Fail => []
         case Got(e, t) => [e] + EntitiesAt(n - 1, t)
  }

  function SectionEntities(s: Bytes): seq<BlockEntity> {
    match VarIntAt(s)
    case Fail => []
    case Got(n, t) => if n <= 0 || n > MAX_ENTITIES then [] else EntitiesAt(n, t)
  }

  function LocalX(e: BlockEntity): int {
    e.xz / 16
  }

  function LocalZ(e: BlockEntity): int {
    e.xz % 16
  }

  function WorldPos(c: Chunk, e: BlockEntity): Pos {
    Pos(Wrap32(c.cx * 16 + LocalX(e)), e.y, Wrap32(c.cz * 16 + LocalZ(e)))
  }

  /** The dye colour of the banner block the chunk has at the entity's place, or white. */
  function BaseOf(c: Chunk, e: BlockEntity): int {
    if c.states.None? then 0
    else
      var i := BlockIndex(c.minY, LocalX(e), e.y, LocalZ(e));
      if 0 <= i < |c.states.value| then BannerColor(c.states.value[i]) else 0
  }

  function Render(c: Chunk, e: BlockEntity): seq<Packet> {
    var at := WorldPos(c, e);
    if e.kind == SIGN || e.kind == HANGING_SIGN then
      [SignPacket(at, SideOf(Field(e.tag, Ascii("front_text"))), SideOf(Field(e.tag, Ascii("back_text"))),
                  ByteOr(Field(e.tag, Ascii("is_waxed"))) != 0, e.kind == HANGING_SIGN)]
    else if e.kind == BANNER then
      [BannerPacket(at, BaseOf(c, e), LayersOf(ElemsOr(Field(e.tag, Ascii("patterns")))))]
    else if e.kind == CAMPFIRE then [CampfirePacket(at, Ids(ItemsOf(e.tag, CAMPFIRE_SLOTS)))]
    else if e.kind == SHELF then [ShelfPacket(at, ItemsOf(e.tag, SHELF_SLOTS))]
    else []
  }

  function Ids(items: seq<Item>): (r: seq<Bytes>)
    ensures |r| == |items| && forall k :: 0 <= k < |items| ==> r[k] == items[k].id
  {
    seq(|items|, k requires 0 <= k < |items| => items[k].id)
  }

  function RenderAll(c: Chunk, es: seq<BlockEntity>): seq<Packet> {
    if es == [] then [] else RenderAll(c, es[..|es| - 1]) + Render(c, es[|es| - 1])
  }

  type Bases = map<Pos, int>

  function BasesAfter(c: Chunk, bases: Bases, es: seq<BlockEntity>): Bases {
    if es == [] then bases
    else
      var earlier, e := BasesAfter(c, bases, es[..|es| - 1]), es[|es| - 1];
      if e.kind == BANNER then earlier[WorldPos(c, e) := BaseOf(c, e)] else earlier
  }

  // ---------------------------------------------------------------------------------
  // The walk
  // ---------------------------------------------------------------------------------

  /** The session's banner colours by position, shared with later frames. */
  class BannerMap {
    var bases: Bases

    constructor ()
      ensures bases == map[]
    {
      bases := map[];
    }
  }

  method ReadEntity(r: Reader) returns (entity: Option<BlockEntity>)
    requires r.Valid()
    modifies r`pos
    ensures r.Valid()
    ensures match entity
            case None => EntityAt(old(r.Rest())).Fail?
            case Some(e) => EntityAt(old(r.Rest())) == Got(e, r.Rest())
  {
    hide VarIntAt, RootAt, LooseAt;
    var xz := r.ReadByte();
    if xz.None? {
      return None;
    }
    var yb := ReadLoose(r, 2);
    if yb.None? {
      return None;
    }
    var y := SignedShort(yb.value);
    var kind := r.ReadVarInt();
    if kind.None? {
      return None;
    }
    var tag := ReadJavaNbt(r);
    return if tag.None? then None else Some(BlockEntity(xz.value, y, kind.value, tag.value));
  }

  method BaseInChunk(c: Chunk, e: BlockEntity) returns (base: int)
    ensures base == BaseOf(c, e)
  {
    base := 0;
    if c.states.Some? {
      var i := BlockIndex(c.minY, LocalX(e), e.y, LocalZ(e));
      if i >= 0 && i < |c.states.value| {
        base := BannerBaseFor(c.states.value[i]);
      }
    }
  }

  /** One entity: its packet, and the banner colour it leaves behind. */
  method RenderEntity(c: Chunk, e: BlockEntity, banners: BannerMap?) returns (packets: seq<Packet>)
    modifies banners
    ensures packets == Render(c, e)
    ensures banners != null ==>
              banners.bases == if e.kind == BANNER then old(banners.bases)[WorldPos(c, e) := BaseOf(c, e)]
                               else old(banners.bases)
  {
    hide WorldPos, BaseOf, Field, SideOf, LayersOf, ItemsOf, ElemsOr;
    packets := [];
    var at := WorldPos(c, e);
    if e.kind == SIGN || e.kind == HANGING_SIGN {
      var front := SignSideFromNbt(Field(e.tag, Ascii("front_text")));
      var back := SignSideFromNbt(Field(e.tag, Ascii("back_text")));
      var waxed := ByteOr(Field(e.tag, Ascii("is_waxed"))) != 0;
      packets := [SignPacket(at, front, back, waxed, e.kind == HANGING_SIGN)];
    } else if e.kind == BANNER {
      var base := BaseInChunk(c, e);
      if banners != null {
        banners.bases := banners.bases[at := base];
      }
      var layers := BannerLayers(e.tag);
      packets := [BannerPacket(at, base, layers)];
    } else if e.kind == CAMPFIRE {
      var items := ItemsBySlot(e.tag, CAMPFIRE_SLOTS);
      packets := [CampfirePacket(at, Ids(items[..]))];
    } else if e.kind == SHELF {
      var items := ItemsBySlot(e.tag, SHELF_SLOTS);
      packets := [ShelfPacket(at, items[..])];
    }
  }

  /** The loop over at most n entries. */
  method WalkEntities(c: Chunk, r: Reader, n: nat, banners: BannerMap?) returns (out: seq<Packet>)
    requires r.Valid()
    modifies r`pos, banners
    ensures r.Valid()
    ensures out == RenderAll(c, EntitiesAt(n, old(r.Rest())))
    ensures banners != null ==> banners.bases == BasesAfter(c, old(banners.bases), EntitiesAt(n, old(r.Rest())))
  {
    hide EntityAt, EntitiesAt, WorldPos, BaseOf, Render, RenderAll, BasesAfter;
    ghost var all := EntitiesAt(n, r.Rest());
    NothingRendered(c, if banners == null then map[] else banners.bases);
    out := [];
    for i := 0 to n
      invariant r.Valid() && i <= |all|
      invariant all[i..] == EntitiesAt(n - i, r.Rest())
      invariant out == RenderAll(c, all[..i])
      invariant banners != null ==> banners.bases == BasesAfter(c, old(banners.bases), all[..i])
    {
      FirstEntity(n - i, r.Rest());
      var entity := ReadEntity(r);
      if entity.None? {
        WholeAt(all, i);
        return;
      }
      NextAt(all, i, entity.value, EntitiesAt(n - i - 1, r.Rest()));
      OneMoreRendered(c, if banners == null then map[] else old(banners.bases), all, i);
      var packets := RenderEntity(c, entity.value, banners);
      out := out + packets;
    }
    FirstEntity(0, r.Rest());
    WholeAt(all, n);
  }

  method ChunkBlockEntities(c: Chunk, section: Bytes, banners: BannerMap?) returns (out: seq<Packet>)
    modifies banners
    ensures out == RenderAll(c, SectionEntities(section))
    ensures banners != null ==> banners.bases == BasesAfter(c, old(banners.bases), SectionEntities(section))
  {
    hide VarIntAt, EntitiesAt, RenderAll, BasesAfter;
    NothingRendered(c, if banners == null then map[] else banners.bases);
    if |section| == 0 {
      NoSection(section);
      return [];
    }
    var r := new Reader(section);
    var n := r.ReadVarInt();
    if n.None? || n.value <= 0 || n.value > MAX_ENTITIES {
      return [];
    }
    out := WalkEntities(c, r, n.value, banners);
  }

  lemma FirstEntity(n: nat, s: Bytes)
    ensures EntitiesAt(n, s)
            == if n == 0 then []
               else match EntityAt(s) case Fail => [] case Got(e, t) => [e] + EntitiesAt(n - 1, t)
  {
  }

  lemma WholeAt(es: seq<BlockEntity>, i: nat)
    requires i <= |es| && es[i..] == []
    ensures es[..i] == es
  {
  }

  lemma NextAt(es: seq<BlockEntity>, i: nat, e: BlockEntity, rest: seq<BlockEntity>)
    requires i <= |es| && es[i..] == [e] + rest
    ensures i < |es| && es[i] == e && es[i + 1..] == rest
  {
    assert es[i..][0] == e && es[i..][1..] == rest;
  }

  lemma NothingRendered(c: Chunk, bases: Bases)
    ensures RenderAll(c, []) == [] && BasesAfter(c, bases, []) == bases
  {
  }

  lemma OneMoreRendered(c: Chunk, bases: Bases, es: seq<BlockEntity>, i: nat)
    requires i < |es|
    ensures RenderAll(c, es[..i + 1]) == RenderAll(c, es[..i]) + Render(c, es[i])
    ensures var before := BasesAfter(c, bases, es[..i]);
            BasesAfter(c, bases, es[..i + 1])
            == if es[i].kind == BANNER then before[WorldPos(c, es[i]) := BaseOf(c, es[i])] else before
  {
    hide WorldPos, BaseOf, Render;
    assert es[..i + 1][..i] == es[..i];
  }

  lemma NoSection(section: Bytes)
    requires section == []
    ensures SectionEntities(section) == []
  {
    assert VarIntAt(section).Fail?;
  }

  // ---------------------------------------------------------------------------------
  // Decoding undoes encoding
  // ---------------------------------------------------------------------------------

  /** An entity as it is sent: without data it may carry a lone end tag for its compound. */
  datatype Sent = Sent(entity: BlockEntity, bare: bool)

  predicate Writable(w: Sent) {
    var e := w.entity;
    && -0x8000 <= e.y < 0x8000 && IsInt32(e.kind) && e.tag.Compound? && Encodable(e.tag)
    && (w.bare ==> e.tag == Compound([]))
  }

  type WireEntity = w: Sent | Writable(w) witness Sent(BlockEntity(0, 0, 0, Compound([])), true)

  function EncodeData(w: WireEntity): Bytes {
    if w.bare then [TAG_END] else [TAG_COMPOUND] + Encode(w.entity.tag)
  }

  function EncodeEntity(w: WireEntity): Bytes {
    var e := w.entity;
    [e.xz] + Encode16(if e.y < 0 then e.y + 0x1_0000 else e.y) + EncodeVarInt(e.kind) + EncodeData(w)
  }

  function EncodeSection(es: seq<WireEntity>): Bytes
    requires |es| < TWO_TO_31
  {
    EncodeVarInt(|es|) + EncodeAll(EncodeEntity, es)
  }

  /** The entities in front of the first one whose data the reader refuses. */
  function UpToRefused(es: seq<WireEntity>): seq<BlockEntity> {
    if es == [] || !Readable(es[0].entity.tag) then [] else [es[0].entity] + UpToRefused(es[1..])
  }

  lemma ShortRoundTrip(y: int, rest: Bytes)
    requires -0x8000 <= y < 0x8000
    ensures var b := Encode16(if y < 0 then y + 0x1_0000 else y);
            LooseAt(b + rest, 2) == Got(b, rest) && SignedShort(b) == y
  {
    LooseRoundTrip(Encode16(if y < 0 then y + 0x1_0000 else y), rest);
  }

  lemma EntityRoundTrip(w: WireEntity, rest: Bytes)
    ensures EntityAt(EncodeEntity(w) + rest) == if Readable(w.entity.tag) then Got(w.entity, rest) else Fail
  {
    hide VarIntAt, RootAt, LooseAt, Encode16, SignedShort, EncodeVarInt, EncodeData, Readable;
    var e := w.entity;
    var yb := Encode16(if e.y < 0 then e.y + 0x1_0000 else e.y);
    var data := EncodeData(w);
    var s := EncodeEntity(w) + rest;
    FourParts([e.xz] + yb, EncodeVarInt(e.kind), data, rest);
    assert s == [e.xz] + (yb + (EncodeVarInt(e.kind) + (data + rest)));
    assert s[1..] == yb + (EncodeVarInt(e.kind) + (data + rest));
    ShortRoundTrip(e.y, EncodeVarInt(e.kind) + (data + rest));
    VarIntRoundTrip(e.kind, data + rest);
    DataRoundTrip(w, rest);
  }

  lemma DataRoundTrip(w: WireEntity, rest: Bytes)
    ensures RootAt(EncodeData(w) + rest) == if Readable(w.entity.tag) then Got(w.entity.tag, rest) else Fail
  {
    hide RootAt, Encode;
    RootRoundTrip(w.entity.tag.entries, rest);
    assert Encode(w.entity.tag) == EncodeEntries(w.entity.tag.entries) by { CompoundEncoding(w.entity.tag); }
  }

  lemma CompoundEncoding(tag: Tag)
    requires tag.Compound? && Encodable(tag)
    ensures Encode(tag) == EncodeEntries(tag.entries)
  {
  }

  lemma {:induction false} EntitiesRoundTrip(es: seq<WireEntity>, rest: Bytes)
    ensures EntitiesAt(|es|, EncodeAll(EncodeEntity, es) + rest) == UpToRefused(es)
  {
    hide EntityAt, EntitiesAt, Readable, EncodeEntity;
    var s := EncodeAll(EncodeEntity, es) + rest;
    FirstEntity(|es|, s);
    if es == [] {
    } else {
      var tail := EncodeAll(EncodeEntity, es[1..]) + rest;
      assert s == EncodeEntity(es[0]) + tail;
      EntityRoundTrip(es[0], tail);
      EntitiesRoundTrip(es[1..], rest);
    }
  }

  /**
    * An encoded section of 1 to 4096 entities, with data or without, gives them back in
    * order, whatever follows, up to the first whose data nests too deep or holds too long an
    * array or list; a longer section gives none.
    */
  lemma {:induction false} SectionRoundTrip(es: seq<WireEntity>, rest: Bytes)
    requires |es| < TWO_TO_31
    ensures SectionEntities(EncodeSection(es) + rest) == if |es| > 4096 then [] else UpToRefused(es)
  {
    hide VarIntAt, EntitiesAt, EncodeAll, EncodeVarInt;
    var body := EncodeAll(EncodeEntity, es) + rest;
    assert EncodeSection(es) + rest == EncodeVarInt(|es|) + body;
    VarIntRoundTrip(|es|, body);
    EntitiesRoundTrip(es, rest);
  }

  // ---------------------------------------------------------------------------------
  // Cut sections
  // ---------------------------------------------------------------------------------

  lemma EntityStable(s: Bytes, x: Bytes)
    requires EntityAt(s).Got?
    ensures EntityAt(s + x) == Got(EntityAt(s).value, EntityAt(s).rest + x)
  {
    hide RootAt;
    var t := s[1..];
    assert (s + x)[1..] == t + x;
    assert VarIntAt([]).Fail?;
    LooseStable(t, 2, x);
    hide LooseAt, VarIntAt;
    var u := LooseAt(t, 2).rest;
    VarIntStable();
    StableAt(VarIntAt, u, x);
    RootStable();
    StableAt(RootAt, VarIntAt(u).rest, x);
  }

  lemma {:induction false} EntitiesPrefix(n: nat, s: Bytes, x: Bytes)
    ensures EntitiesAt(n, s) <= EntitiesAt(n, s + x)
  {
    hide EntityAt;
    if n == 0 || EntityAt(s).Fail? {
      assert EntitiesAt(n, s) == [];
    } else {
      EntityStable(s, x);
      EntitiesPrefix(n - 1, EntityAt(s).rest, x);
    }
  }

  lemma {:induction false} RenderConcat(c: Chunk, a: seq<BlockEntity>, b: seq<BlockEntity>)
    ensures RenderAll(c, a + b) == RenderAll(c, a) + RenderAll(c, b)
  {
    hide Render;
    if b == [] {
      assert a + b == a;
    } else {
      assert (a + b)[..|a + b| - 1] == a + b[..|b| - 1];
      RenderConcat(c, a, b[..|b| - 1]);
    }
  }

  lemma {:induction false} BasesConcat(c: Chunk, bases: Bases, a: seq<BlockEntity>, b: seq<BlockEntity>)
    ensures BasesAfter(c, bases, a + b) == BasesAfter(c, BasesAfter(c, bases, a), b)
  {
    hide WorldPos, BaseOf;
    if b == [] {
      assert a + b == a;
    } else {
      assert (a + b)[..|a + b| - 1] == a + b[..|b| - 1];
      BasesConcat(c, bases, a, b[..|b| - 1]);
    }
  }

  /**
    * However any section, well-formed or not, is cut, what is made of it is the beginning of
    * what is made of the whole: its packets are the first packets, and the whole goes on from
    * the banners it remembers.
    */
  lemma {:induction false} CutSectionIsPrefix(c: Chunk, bases: Bases, s: Bytes, k: nat)
    requires k <= |s|
    ensures var cut, whole := SectionEntities(s[..k]), SectionEntities(s);
            && cut <= whole
            && RenderAll(c, cut) <= RenderAll(c, whole)
            && BasesAfter(c, bases, whole) == BasesAfter(c, BasesAfter(c, bases, cut), whole[|cut|..])
  {
    hide VarIntAt, EntitiesAt, RenderAll, BasesAfter;
    var a, x := s[..k], s[k..];
    assert a + x == s;
    VarIntStable();
    StableAt(VarIntAt, a, x);
    if VarIntAt(a).Got? && 0 < VarIntAt(a).value <= MAX_ENTITIES {
      EntitiesPrefix(VarIntAt(a).value, VarIntAt(a).rest, x);
    }
    var cut, whole := SectionEntities(a), SectionEntities(s);
    assert cut <= whole;
    assert whole == cut + whole[|cut|..];
    RenderConcat(c, cut, whole[|cut|..]);
    BasesConcat(c, bases, cut, whole[|cut|..]);
  }

  // ---------------------------------------------------------------------------------
  // Remembered banners
  // ---------------------------------------------------------------------------------

  lemma WrapKeepsLowBits(c: int, l: int)
    requires 0 <= l < 16
    ensures Wrap32(c * 16 + l) % 16 == l
    ensures Wrap32(c * 16 + l) / 16 == c <==> -0x800_0000 <= c < 0x800_0000
  {
    var q := (c * 16 + l + TWO_TO_31) / TWO_TO_32;
    assert Wrap32(c * 16 + l) == 16 * (c - 0x1000_0000 * q) + l;
  }

  /**
    * The world position of a block entity gives back its packed xz byte always, and its
    * chunk exactly when the chunk lies within the block coordinates int32 can hold.
    */
  lemma PositionRecovers(c: Chunk, e: BlockEntity)
    ensures var p := WorldPos(c, e);
            && e.xz == p.x % 16 * 16 + p.z % 16
            && p.y == e.y
            && (p.x / 16 == c.cx && p.z / 16 == c.cz
                <==> -0x800_0000 <= c.cx < 0x800_0000 && -0x800_0000 <= c.cz < 0x800_0000)
  {
    WrapKeepsLowBits(c.cx, LocalX(e));
    WrapKeepsLowBits(c.cz, LocalZ(e));
  }

  lemma SamePlaceSameBase(c: Chunk, d: BlockEntity, e: BlockEntity)
    requires WorldPos(c, d) == WorldPos(c, e)
    ensures BaseOf(c, d) == BaseOf(c, e)
  {
    PositionRecovers(c, d);
    PositionRecovers(c, e);
    assert d.xz == e.xz;
  }

  /**
    * Every banner of a section is remembered at its world position with the colour of the
    * chunk's own block state there; no other position is touched.
    */
  lemma {:induction false} BannersRemembered(c: Chunk, bases: Bases, es: seq<BlockEntity>, p: Pos)
    ensures var after := BasesAfter(c, bases, es);
            && (forall e :: e in es && e.kind == 20 && WorldPos(c, e) == p ==>
                  p in after && after[p] == BaseOf(c, e))
            && ((forall e :: e in es && e.kind == 20 ==> WorldPos(c, e) != p) ==>
                  (p in after <==> p in bases) && (p in bases ==> after[p] == bases[p]))
  {
    hide WorldPos, BaseOf;
    if es == [] {
    } else {
      var init, last := es[..|es| - 1], es[|es| - 1];
      assert es == init + [last];
      BannersRemembered(c, bases, init, p);
      forall e | e in init && e.kind == 20 && WorldPos(c, e) == p && WorldPos(c, last) == p
        ensures BaseOf(c, e) == BaseOf(c, last)
      {
        SamePlaceSameBase(c, e, last);
      }
    }
  }

  /** Within the column the colour remembered is that of the one state stored for the position. */
  lemma BaseIsOfOwnBlock(c: Chunk, sections: nat, e: BlockEntity)
    requires c.states.Some? && |c.states.value| == 4096 * sections
    ensures if c.minY <= e.y < c.minY + 16 * sections
            then var i := BlockIndex(c.minY, LocalX(e), e.y, LocalZ(e));
                 && 0 <= i < |c.states.value|
                 && BlockAt(c.minY, i) == Local(LocalX(e), e.y, LocalZ(e))
                 && BaseOf(c, e) == BannerColor(c.states.value[i])
            else BaseOf(c, e) == 0
  {
    IndexBijection(c.minY, sections, Local(LocalX(e), e.y, LocalZ(e)), 0);
    if e.y >= c.minY {
      IndexFlat(c.minY, LocalX(e), e.y, LocalZ(e));
    }
  }
}
