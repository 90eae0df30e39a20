/**
  * What stands in a chunk, from the bytes of its block-entity section to the packets sent.
  * Kinds, field names, slots and colours are written out here, apart from the decoder's.
  */
module StandingEntities {
  import opened MachineInts
  import opened Wire
  import opened JavaNbt
  import opened Signs
  import opened EntityContents
  import opened BlockEntities

  /** An item in a list, with the slot it names. */
  datatype Placed = Placed(slot: Byte, id: Bytes, count: int)

  /** A sign's side as it is sent: any number of messages, and any byte for the glow. */
  datatype SentSide = SentSide(messages: seq<Bytes>, color: Bytes, glow: Byte)

  datatype Thing =
    | Sign(hanging: bool, front: SentSide, back: SentSide, waxed: Byte)
    | Banner(layers: seq<Layer>)
    | Campfire(items: seq<Placed>)
    | Shelf(items: seq<Placed>)
    | Bare(kind: int)
    | Other(kind: int, tag: Tag)

  datatype Standing = Standing(xz: Byte, y: int, thing: Thing)

  // ---------------------------------------------------------------------------------
  // As it is sent
  // ---------------------------------------------------------------------------------

  predicate FitsSide(side: SentSide) {
    && |side.messages| <= 65536 && |side.color| < 0x1_0000
    && forall line :: line in side.messages ==> |line| < 0x1_0000
  }

  predicate FitsLayer(l: Layer) {
    |l.pattern| < 0x1_0000 && |l.color| < 0x1_0000
  }

  predicate FitsItem(it: Placed) {
    |it.id| < 0x1_0000 && IsInt32(it.count)
  }

  /** Texts and numbers within their widths, and data the reader does not refuse. */
  predicate Fits(t: Thing) {
    match t
    case Sign(_, front, back, _) => FitsSide(front) && FitsSide(back)
    case Banner(layers) => |layers| <= 65536 && forall l :: l in layers ==> FitsLayer(l)
    case Campfire(items) => |items| <= 65536 && forall it :: it in items ==> FitsItem(it)
    case Shelf(items) => |items| <= 65536 && forall it :: it in items ==> FitsItem(it)
    case Bare(kind) => IsInt32(kind)
    case Other(kind, tag) =>
      IsInt32(kind) && kind !in {7, 8, 20, 33, 40} && tag.Compound? && Encodable(tag) && Readable(tag)
  }

  type WireStanding = s: Standing | -0x8000 <= s.y < 0x8000 && Fits(s.thing) witness Standing(0, 0, Bare(0))

  function TextTag(t: Bytes): Tag {
    Text(t)
  }

  function SideTag(side: SentSide): Tag {
    Compound([Entry(Ascii("messages"), List(8, Images(TextTag, side.messages))),
              Entry(Ascii("color"), Text(side.color)),
              Entry(Ascii("has_glowing_text"), Small(side.glow))])
  }

  function LayerTag(l: Layer): Tag {
    Compound([Entry(Ascii("pattern"), Text(l.pattern)), Entry(Ascii("color"), Text(l.color))])
  }

  /** An int's four bytes, the top one first. */
  function IntBytes(n: int): Bytes
    requires IsInt32(n)
  {
    var u := if n < 0 then n + 0x1_0000_0000 else n;
    [u / 0x100_0000, u / 0x1_0000 % 0x100, u / 0x100 % 0x100, u % 0x100]
  }

  function ItemTag(it: Placed): Tag {
    Compound([Entry(Ascii("Slot"), Small(it.slot)), Entry(Ascii("id"), Text(it.id)),
              Entry(Ascii("count"), Number(3, if IsInt32(it.count) then IntBytes(it.count) else []))])
  }

  function KindSent(t: Thing): int {
    match t
    case Sign(hanging, _, _, _) => if hanging then 8 else 7
    case Banner(_) => 20
    case Campfire(_) => 33
    case Shelf(_) => 40
    case Bare(kind) => kind
    case Other(kind, _) => kind
  }

  function TagSent(t: Thing): Tag {
    match t
    case Sign(_, front, back, waxed) =>
      Compound([Entry(Ascii("front_text"), SideTag(front)), Entry(Ascii("back_text"), SideTag(back)),
                Entry(Ascii("is_waxed"), Small(waxed))])
    case Banner(layers) => Compound([Entry(Ascii("patterns"), List(10, Images(LayerTag, layers)))])
    case Campfire(items) => Compound([Entry(Ascii("Items"), List(10, Images(ItemTag, items)))])
    case Shelf(items) => Compound([Entry(Ascii("Items"), List(10, Images(ItemTag, items)))])
    case Bare(_) => Compound([])
    case Other(_, tag) => tag
  }

  function EntityOf(s: Standing): BlockEntity {
    BlockEntity(s.xz, s.y, KindSent(s.thing), TagSent(s.thing))
  }

  // ---------------------------------------------------------------------------------
  // As it is shown
  // ---------------------------------------------------------------------------------

  function PlaceOf(c: Chunk, s: Standing): Pos {
    Pos(Wrap32(16 * c.cx + s.xz / 16), s.y, Wrap32(16 * c.cz + s.xz % 16))
  }

  /** The dye of a banner state, sixteen standing states a colour and four wall states a colour, else white. */
  function DyeOf(state: nat): int {
    if 14774 <= state < 15030 then (state - 14774) / 16
    else if 15030 <= state <= 15093 then (state - 15030) / 4 else 0
  }

  /** The dye of the chunk's own state at a place: 256 states a layer from the floor up, 16 a row, else white. */
  function DyeAt(c: Chunk, xz: Byte, y: int): int {
    match c.states
    case None => 0
    case Some(states) =>
      var i := 256 * (y - c.minY) + 16 * (xz % 16) + xz / 16;
      if y >= c.minY && i < |states| then DyeOf(states[i]) else 0
  }

  /** The last item naming a slot. */
  function LastIn(items: seq<Placed>, slot: nat): Item {
    if items == [] then Item([], 0)
    else
      var last := items[|items| - 1];
      if last.slot == slot then Item(last.id, last.count) else LastIn(items[..|items| - 1], slot)
  }

  /** The first four messages, empty where there are fewer; any glow but 0 is one. */
  function SideShown(side: SentSide): SignSide {
    SignSide([Message(side, 0), Message(side, 1), Message(side, 2), Message(side, 3)], side.color, side.glow != 0)
  }

  function Message(side: SentSide, k: nat): Bytes {
    if k < |side.messages| then side.messages[k] else []
  }

  const BLANK_SIDE := SignSide([[], [], [], []], [], false)

  function PacketsOf(c: Chunk, s: Standing): seq<Packet> {
    var at, dye := PlaceOf(c, s), DyeAt(c, s.xz, s.y);
    match s.thing
    case Sign(hanging, front, back, waxed) => [SignPacket(at, SideShown(front), SideShown(back), waxed != 0, hanging)]
    case Banner(layers) => [BannerPacket(at, dye, layers)]
    case Campfire(items) =>
      [CampfirePacket(at, [LastIn(items, 0).id, LastIn(items, 1).id, LastIn(items, 2).id, LastIn(items, 3).id])]
    case Shelf(items) => [ShelfPacket(at, [LastIn(items, 0), LastIn(items, 1), LastIn(items, 2)])]
    case Bare(kind) =>
      if kind == 7 || kind == 8 then [SignPacket(at, BLANK_SIDE, BLANK_SIDE, false, kind == 8)]
      else if kind == 20 then [BannerPacket(at, dye, [])]
      else if kind == 33 then [CampfirePacket(at, [[], [], [], []])]
      else if kind == 40 then [ShelfPacket(at, [Item([], 0), Item([], 0), Item([], 0)])]
      else []
    case Other(_, _) => []
  }

  // ---------------------------------------------------------------------------------
  // What is sent can be read
  // ---------------------------------------------------------------------------------

  /** A tag that can be sent and read some levels below others. */
  ghost predicate Sendable(tag: Tag, levels: nat) {
    Encodable(tag) && WithinLimits(tag) && Levels(tag) <= levels
  }

  ghost predicate SendableEntries(es: seq<Entry>, levels: nat) {
    EncodableEntries(es) && EntriesWithinLimits(es) && EntryLevels(es) <= levels + 1
  }

  ghost predicate SendableElems(of: Byte, elems: seq<Tag>, levels: nat) {
    EncodableElems(of, elems) && ElemsWithinLimits(elems) && ElemLevels(elems) <= levels + 1
  }

  lemma NoEntriesSent(levels: nat)
    ensures SendableEntries([], levels)
  {
  }

  lemma OneMoreEntry(e: Entry, es: seq<Entry>, levels: nat)
    requires |e.name| < 0x1_0000 && Sendable(e.tag, levels) && SendableEntries(es, levels)
    ensures SendableEntries([e] + es, levels)
  {
    hide Encodable, WithinLimits, Levels;
    assert ([e] + es)[1..] == es;
  }

  lemma {:induction false} ElemsSent(of: Byte, elems: seq<Tag>, levels: nat)
    requires forall k :: 0 <= k < |elems| ==> KindOf(elems[k]) == of && Sendable(elems[k], levels)
    ensures SendableElems(of, elems, levels)
  {
    hide Encodable, WithinLimits, Levels, KindOf;
    if elems == [] {
    } else {
      ElemsSent(of, elems[1..], levels);
    }
  }

  lemma ListSent(of: Byte, elems: seq<Tag>, levels: nat)
    requires |elems| <= 65536
    requires forall k :: 0 <= k < |elems| ==> KindOf(elems[k]) == of && Sendable(elems[k], levels)
    ensures Sendable(List(of, elems), levels + 1)
  {
    ElemsSent(of, elems, levels);
  }

  lemma CompoundSent(es: seq<Entry>, levels: nat)
    requires SendableEntries(es, levels)
    ensures Sendable(Compound(es), levels + 1)
  {
  }

  lemma OneEntrySent(a: Entry, levels: nat)
    requires |a.name| < 0x1_0000 && Sendable(a.tag, levels)
    ensures Sendable(Compound([a]), levels + 1)
  {
    hide Sendable, SendableEntries;
    NoEntriesSent(levels);
    OneMoreEntry(a, [], levels);
    assert [a] + [] == [a];
    CompoundSent([a], levels);
  }

  lemma ThreeEntriesSent(a: Entry, b: Entry, c: Entry, levels: nat)
    requires |a.name| < 0x1_0000 && |b.name| < 0x1_0000 && |c.name| < 0x1_0000
    requires Sendable(a.tag, levels) && Sendable(b.tag, levels) && Sendable(c.tag, levels)
    ensures Sendable(Compound([b, c]), levels + 1) && Sendable(Compound([a, b, c]), levels + 1)
  {
    hide Sendable, SendableEntries;
    NoEntriesSent(levels);
    assert [c] + [] == [c] && [b] + [c] == [b, c] && [a] + [b, c] == [a, b, c];
    OneMoreEntry(c, [], levels);
    OneMoreEntry(b, [c], levels);
    OneMoreEntry(a, [b, c], levels);
    CompoundSent([b, c], levels);
    CompoundSent([a, b, c], levels);
  }

  lemma LeafSent(tag: Tag, levels: nat)
    requires tag.Small? || (tag.Text? && |tag.text| < 0x1_0000) || (tag.Number? && tag.kind == 3 && |tag.raw| == 4)
    ensures Sendable(tag, levels)
  {
  }

  lemma SideSent(side: SentSide)
    requires FitsSide(side)
    ensures Sendable(SideTag(side), 2)
  {
    hide Sendable, Ascii;
    var texts := Images(TextTag, side.messages);
    forall k | 0 <= k < |texts| ensures KindOf(texts[k]) == 8 && Sendable(texts[k], 0) {
      assert side.messages[k] in side.messages;
      LeafSent(texts[k], 0);
    }
    ListSent(8, texts, 0);
    LeafSent(Text(side.color), 1);
    LeafSent(Small(side.glow), 1);
    var es := SideTag(side).entries;
    ThreeEntriesSent(es[0], es[1], es[2], 1);
  }

  lemma LayerSent(l: Layer)
    requires FitsLayer(l)
    ensures Sendable(LayerTag(l), 1)
  {
    hide Sendable, Ascii;
    LeafSent(Text(l.pattern), 0);
    LeafSent(Text(l.color), 0);
    var es := LayerTag(l).entries;
    ThreeEntriesSent(es[0], es[0], es[1], 0);
  }

  lemma ItemSent(it: Placed)
    requires FitsItem(it)
    ensures Sendable(ItemTag(it), 1)
  {
    hide Sendable, Ascii;
    LeafSent(Small(it.slot), 0);
    LeafSent(Text(it.id), 0);
    LeafSent(Number(3, IntBytes(it.count)), 0);
    var es := ItemTag(it).entries;
    ThreeEntriesSent(es[0], es[1], es[2], 0);
  }

  /** A compound whose one field is a list of compounds. */
  lemma ListFieldSent(name: Bytes, tags: seq<Tag>)
    requires |name| < 0x1_0000 && |tags| <= 65536
    requires forall k :: 0 <= k < |tags| ==> tags[k].Compound? && Sendable(tags[k], 1)
    ensures Sendable(Compound([Entry(name, List(10, tags))]), 3)
  {
    hide Sendable;
    ListSent(10, tags, 1);
    OneEntrySent(Entry(name, List(10, tags)), 2);
  }

  lemma ItemsSent(items: seq<Placed>)
    requires |items| <= 65536 && forall it :: it in items ==> FitsItem(it)
    ensures Sendable(Compound([Entry(Ascii("Items"), List(10, Images(ItemTag, items)))]), 3)
  {
    hide *;
    var tags := Images(ItemTag, items);
    forall k | 0 <= k < |tags| ensures tags[k].Compound? && Sendable(tags[k], 1) {
      assert items[k] in items;
      ItemSent(items[k]);
      ItemIsCompound(items[k]);
    }
    ListFieldSent(Ascii("Items"), tags);
  }

  lemma ItemIsCompound(it: Placed)
    ensures ItemTag(it).Compound?
  {
  }

  lemma LayerIsCompound(l: Layer)
    ensures LayerTag(l).Compound?
  {
  }

  lemma LayersSent(layers: seq<Layer>)
    requires |layers| <= 65536 && forall l :: l in layers ==> FitsLayer(l)
    ensures Sendable(Compound([Entry(Ascii("patterns"), List(10, Images(LayerTag, layers)))]), 3)
  {
    hide *;
    var tags := Images(LayerTag, layers);
    forall k | 0 <= k < |tags| ensures tags[k].Compound? && Sendable(tags[k], 1) {
      assert layers[k] in layers;
      LayerSent(layers[k]);
      LayerIsCompound(layers[k]);
    }
    ListFieldSent(Ascii("patterns"), tags);
  }

  lemma ThingSent(t: Thing)
    requires Fits(t)
    ensures IsInt32(KindSent(t)) && TagSent(t).Compound? && Encodable(TagSent(t)) && Readable(TagSent(t))
    ensures t.Bare? ==> TagSent(t) == Compound([])
  {
    hide FitsSide, FitsLayer, FitsItem, SideTag, LayerTag, ItemTag, Ascii;
    match t {
      case Sign(_, front, back, waxed) =>
        SideSent(front);
        SideSent(back);
        LeafSent(Small(waxed), 2);
        var es := TagSent(t).entries;
        ThreeEntriesSent(es[0], es[1], es[2], 2);
      case Banner(layers) => LayersSent(layers);
      case Campfire(items) => ItemsSent(items);
      case Shelf(items) => ItemsSent(items);
      case Bare(_) =>
      case Other(_, _) =>
    }
  }

  // ---------------------------------------------------------------------------------
  // What is read is what was sent
  // ---------------------------------------------------------------------------------

  lemma SideTaken(side: SentSide)
    ensures SideOf(Some(SideTag(side))) == SideShown(side)
  {
    var tag, texts := SideTag(side), Images(TextTag, side.messages);
    FieldIsLast(tag, Ascii("messages"), 0);
    FieldIsLast(tag, Ascii("color"), 1);
    FieldIsLast(tag, Ascii("has_glowing_text"), 2);
    hide Field, SideTag;
    assert ElemsOr(Field(tag, Ascii("messages"))) == texts;
    assert SideOf(Some(tag)).lines == SideShown(side).lines;
  }

  lemma LayerTaken(l: Layer)
    ensures LayerOf(LayerTag(l)) == l && LayerTag(l).Compound?
  {
    FieldIsLast(LayerTag(l), Ascii("pattern"), 0);
    FieldIsLast(LayerTag(l), Ascii("color"), 1);
  }

  lemma NextLayer(tags: seq<Tag>, l: Layer)
    ensures LayersOf(tags + [LayerTag(l)]) == LayersOf(tags) + [l]
  {
    hide LayerTag, LayerOf;
    LayerTaken(l);
    assert (tags + [LayerTag(l)])[..|tags|] == tags;
  }

  lemma {:induction false} LayersTaken(layers: seq<Layer>)
    ensures LayersOf(Images(LayerTag, layers)) == layers
  {
    if layers == [] {
    } else {
      hide LayersOf, LayerTag, Images;
      var init, last := layers[..|layers| - 1], layers[|layers| - 1];
      LayersTaken(init);
      ImagesLast(LayerTag, layers);
      NextLayer(Images(LayerTag, init), last);
      assert layers == init + [last];
    }
  }

  lemma IntTaken(n: int)
    requires IsInt32(n)
    ensures BigEndian32(IntBytes(n)) == n
  {
    var u := if n < 0 then n + 0x1_0000_0000 else n;
    var a, b, c := u / 0x100_0000, u / 0x1_0000, u / 0x100;
    assert c == b * 0x100 + c % 0x100 && b == a * 0x100 + b % 0x100 && u == c * 0x100 + u % 0x100;
  }

  lemma ItemTaken(it: Placed, slot: nat)
    requires FitsItem(it)
    ensures InSlot(ItemTag(it), slot) <==> it.slot == slot
    ensures ItemOf(ItemTag(it)) == Item(it.id, it.count)
  {
    var tag := ItemTag(it);
    FieldIsLast(tag, Ascii("Slot"), 0);
    FieldIsLast(tag, Ascii("id"), 1);
    FieldIsLast(tag, Ascii("count"), 2);
    hide Field, IntBytes, BigEndian32;
    IntTaken(it.count);
  }

  lemma NextItem(list: seq<Tag>, it: Placed, slot: nat)
    requires FitsItem(it)
    ensures ItemIn(list + [ItemTag(it)], slot) == if it.slot == slot then Item(it.id, it.count) else ItemIn(list, slot)
  {
    hide ItemTag, InSlot, ItemOf, FitsItem;
    ItemTaken(it, slot);
    assert (list + [ItemTag(it)])[..|list|] == list;
  }

  lemma {:induction false} ItemsTaken(items: seq<Placed>, slot: nat)
    requires forall it :: it in items ==> FitsItem(it)
    ensures ItemIn(Images(ItemTag, items), slot) == LastIn(items, slot)
  {
    if items == [] {
    } else {
      hide ItemIn, ItemTag, FitsItem, Images;
      var init, last := items[..|items| - 1], items[|items| - 1];
      assert last in items && forall it :: it in init ==> it in items;
      ItemsTaken(init, slot);
      ImagesLast(ItemTag, items);
      NextItem(Images(ItemTag, init), last, slot);
    }
  }

  lemma OneField(name: Bytes, tag: Tag)
    ensures Field(Compound([Entry(name, tag)]), name) == Some(tag)
  {
    FieldIsLast(Compound([Entry(name, tag)]), name, 0);
  }

  lemma NoField(name: Bytes)
    ensures Field(Compound([]), name) == None
  {
  }

  lemma PlaceIs(c: Chunk, s: Standing)
    ensures WorldPos(c, EntityOf(s)) == PlaceOf(c, s) && BaseOf(c, EntityOf(s)) == DyeAt(c, s.xz, s.y)
  {
    if s.y >= c.minY {
      IndexFlat(c.minY, s.xz / 16, s.y, s.xz % 16);
    }
  }

  lemma SignRendered(c: Chunk, s: Standing)
    requires s.thing.Sign? && Fits(s.thing)
    ensures Render(c, EntityOf(s)) == PacketsOf(c, s)
  {
    PlaceIs(c, s);
    hide WorldPos, BaseOf, PlaceOf, DyeAt, SideTag, SideOf, SideShown;
    var tag := TagSent(s.thing);
    FieldIsLast(tag, Ascii("front_text"), 0);
    FieldIsLast(tag, Ascii("back_text"), 1);
    FieldIsLast(tag, Ascii("is_waxed"), 2);
    hide Field;
    SideTaken(s.thing.front);
    SideTaken(s.thing.back);
  }

  lemma BannerRendered(c: Chunk, s: Standing)
    requires s.thing.Banner?
    ensures Render(c, EntityOf(s)) == PacketsOf(c, s)
  {
    PlaceIs(c, s);
    hide WorldPos, BaseOf, PlaceOf, DyeAt, Field, LayersOf;
    OneField(Ascii("patterns"), List(10, Images(LayerTag, s.thing.layers)));
    LayersTaken(s.thing.layers);
  }

  lemma ItemsRendered(items: seq<Placed>)
    requires forall it :: it in items ==> FitsItem(it)
    ensures var tag := Compound([Entry(Ascii("Items"), List(10, Images(ItemTag, items)))]);
            && ItemsOf(tag, 3) == [LastIn(items, 0), LastIn(items, 1), LastIn(items, 2)]
            && Ids(ItemsOf(tag, 4))
               == [LastIn(items, 0).id, LastIn(items, 1).id, LastIn(items, 2).id, LastIn(items, 3).id]
  {
    hide Field, ItemIn, LastIn, FitsItem;
    var tags := Images(ItemTag, items);
    OneField(Ascii("Items"), List(10, tags));
    var tag := Compound([Entry(Ascii("Items"), List(10, tags))]);
    assert ElemsOr(Field(tag, Ascii("Items"))) == tags;
    ItemsTaken(items, 0);
    ItemsTaken(items, 1);
    ItemsTaken(items, 2);
    ItemsTaken(items, 3);
  }

  lemma SlotsRendered(c: Chunk, s: Standing)
    requires (s.thing.Campfire? || s.thing.Shelf?) && Fits(s.thing)
    ensures Render(c, EntityOf(s)) == PacketsOf(c, s)
  {
    PlaceIs(c, s);
    hide WorldPos, BaseOf, PlaceOf, DyeAt, ItemsOf, Ids, LastIn, FitsItem;
    ItemsRendered(s.thing.items);
  }

  lemma BareRendered(c: Chunk, s: Standing)
    requires s.thing.Bare?
    ensures Render(c, EntityOf(s)) == PacketsOf(c, s)
  {
    PlaceIs(c, s);
    hide WorldPos, BaseOf, PlaceOf, DyeAt, Field;
    NoField(Ascii("front_text"));
    NoField(Ascii("back_text"));
    NoField(Ascii("is_waxed"));
    NoField(Ascii("patterns"));
    NoField(Ascii("Items"));
    assert ItemsOf(Compound([]), 3) == [Item([], 0), Item([], 0), Item([], 0)];
    assert Ids(ItemsOf(Compound([]), 4)) == [[], [], [], []];
    assert SideOf(None).lines == [[], [], [], []];
  }

  lemma OtherRendered(c: Chunk, s: Standing)
    requires s.thing.Other? && Fits(s.thing)
    ensures Render(c, EntityOf(s)) == []
  {
    hide Encodable, Readable;
  }

  /** Everything sent is shown as what it is. */
  lemma ThingRendered(c: Chunk, s: WireStanding)
    ensures Render(c, EntityOf(s)) == PacketsOf(c, s)
  {
    hide Render, EntityOf, PlaceOf, DyeAt;
    match s.thing {
      case Sign(_, _, _, _) => SignRendered(c, s);
      case Banner(_) => BannerRendered(c, s);
      case Campfire(_) => SlotsRendered(c, s);
      case Shelf(_) => SlotsRendered(c, s);
      case Bare(_) => BareRendered(c, s);
      case Other(_, _) => OtherRendered(c, s);
    }
  }

  // ---------------------------------------------------------------------------------
  // Whole sections
  // ---------------------------------------------------------------------------------

  lemma StandingSent(s: WireStanding)
    ensures Writable(Sent(EntityOf(s), s.thing.Bare?)) && Readable(EntityOf(s).tag)
  {
    ThingSent(s.thing);
  }

  function Section(standing: seq<WireStanding>): (r: seq<WireEntity>)
    ensures |r| == |standing|
  {
    if standing == [] then []
    else
      StandingSent(standing[0]);
      [Sent(EntityOf(standing[0]), standing[0].thing.Bare?)] + Section(standing[1..])
  }

  function Shown(c: Chunk, standing: seq<WireStanding>): seq<Packet> {
    if standing == [] then [] else PacketsOf(c, standing[0]) + Shown(c, standing[1..])
  }

  lemma FirstOfSection(standing: seq<WireStanding>)
    requires standing != []
    ensures UpToRefused(Section(standing)) == [EntityOf(standing[0])] + UpToRefused(Section(standing[1..]))
  {
    hide Readable, EntityOf, Writable;
    StandingSent(standing[0]);
    assert Section(standing)[1..] == Section(standing[1..]);
  }

  lemma {:induction false} StandingRendered(c: Chunk, standing: seq<WireStanding>)
    ensures RenderAll(c, UpToRefused(Section(standing))) == Shown(c, standing)
  {
    hide Render, EntityOf, PacketsOf;
    if standing == [] {
    } else {
      FirstOfSection(standing);
      hide UpToRefused, Section;
      var first, more := EntityOf(standing[0]), UpToRefused(Section(standing[1..]));
      ThingRendered(c, standing[0]);
      StandingRendered(c, standing[1..]);
      RenderConcat(c, [first], more);
      RenderOne(c, first);
    }
  }

  lemma RenderOne(c: Chunk, e: BlockEntity)
    ensures RenderAll(c, [e]) == Render(c, e)
  {
    hide Render;
    assert [e][..0] == [] && RenderAll(c, [e][..0]) == [];
  }

  lemma NoneRendered(c: Chunk)
    ensures RenderAll(c, []) == []
  {
  }

  /**
    * An encoded section of at most 4096 entries of any kinds becomes the packets of what
    * stands there, in order, whatever follows it; a longer section becomes none.
    */
  lemma {:induction false} SectionShown(c: Chunk, standing: seq<WireStanding>, rest: Bytes)
    requires |standing| < TWO_TO_31
    ensures RenderAll(c, SectionEntities(EncodeSection(Section(standing)) + rest))
            == if |standing| > 4096 then [] else Shown(c, standing)
  {
    hide RenderAll, SectionEntities, EncodeSection, Section, Shown;
    SectionRoundTrip(Section(standing), rest);
    StandingRendered(c, standing);
    NoneRendered(c);
  }

  /**
    * A sign shown as text can be edited line by line: a side's text splits back into the four
    * lines it was sent with exactly when they are separable.
    */
  lemma ShownSignComesBack(c: Chunk, s: WireStanding)
    requires s.thing.Sign?
    ensures var packets := Render(c, EntityOf(s));
            var front, back := SideShown(s.thing.front).lines, SideShown(s.thing.back).lines;
            && |packets| == 1 && packets[0].SignPacket?
            && (LinesOf(SideText(packets[0].front.lines), 4) == front <==> Separable(front))
            && (LinesOf(SideText(packets[0].back.lines), 4) == back <==> Separable(back))
  {
    hide Render, EntityOf, LinesOf, SideText, Separable;
    ThingRendered(c, s);
    ShownLinesComeBack(SideShown(s.thing.front).lines);
    ShownLinesComeBack(SideShown(s.thing.back).lines);
  }

  // ---------------------------------------------------------------------------------
  // Banners, in any section
  // ---------------------------------------------------------------------------------

  function Banners(packets: seq<Packet>): seq<Packet> {
    if packets == [] then []
    else
      var last := packets[|packets| - 1];
      Banners(packets[..|packets| - 1]) + if last.BannerPacket? then [last] else []
  }

  function BannerEntries(es: seq<BlockEntity>): seq<BlockEntity> {
    if es == [] then []
    else
      var last := es[|es| - 1];
      BannerEntries(es[..|es| - 1]) + if last.kind == 20 then [last] else []
  }

  lemma {:induction false} BannersConcat(a: seq<Packet>, b: seq<Packet>)
    ensures Banners(a + b) == Banners(a) + Banners(b)
  {
    if b == [] {
      assert a + b == a;
    } else {
      assert (a + b)[..|a + b| - 1] == a + b[..|b| - 1];
      BannersConcat(a, b[..|b| - 1]);
    }
  }

  /** The banner packet of an entry: at its place, with the dye of the block there. */
  ghost predicate BannerOf(c: Chunk, e: BlockEntity, p: Packet) {
    && p.BannerPacket?
    && p.at == Pos(Wrap32(16 * c.cx + e.xz / 16), e.y, Wrap32(16 * c.cz + e.xz % 16))
    && p.base == DyeAt(c, e.xz, e.y)
  }

  lemma BannerOfEntry(c: Chunk, e: BlockEntity)
    ensures if e.kind == 20 then |Render(c, e)| == 1 && BannerOf(c, e, Render(c, e)[0])
            else Banners(Render(c, e)) == []
    ensures e.kind == 20 ==> WorldPos(c, e) == Pos(Wrap32(16 * c.cx + e.xz / 16), e.y, Wrap32(16 * c.cz + e.xz % 16))
  {
    hide SideOf, LayersOf, ItemsOf, Field;
    if e.y >= c.minY {
      IndexFlat(c.minY, e.xz / 16, e.y, e.xz % 16);
    }
    assert Banners(Render(c, e)[..0]) == [] ;
  }

  lemma BannersOne(p: Packet)
    ensures Banners([p]) == if p.BannerPacket? then [p] else []
  {
    assert [p][..0] == [] && Banners([p][..0]) == [];
  }

  lemma LastEntry(c: Chunk, es: seq<BlockEntity>)
    requires es != []
    ensures var init, last := es[..|es| - 1], es[|es| - 1];
            && RenderAll(c, es) == RenderAll(c, init) + Render(c, last)
            && BannerEntries(es) == BannerEntries(init) + if last.kind == 20 then [last] else []
  {
    hide Render;
  }

  lemma LastBanner(c: Chunk, e: BlockEntity)
    ensures var shown := Banners(Render(c, e));
            if e.kind == 20 then |shown| == 1 && BannerOf(c, e, shown[0]) else shown == []
  {
    hide Render, Banners;
    BannerOfEntry(c, e);
    if e.kind == 20 {
      BannersOne(Render(c, e)[0]);
      assert Render(c, e) == [Render(c, e)[0]];
    }
  }

  lemma {:induction false} EntriesAreBanners(es: seq<BlockEntity>, k: nat)
    requires k < |BannerEntries(es)|
    ensures BannerEntries(es)[k] in es && BannerEntries(es)[k].kind == 20
  {
    var init := es[..|es| - 1];
    if k < |BannerEntries(init)| {
      EntriesAreBanners(init, k);
      assert BannerEntries(es)[k] in init;
    }
  }

  lemma {:induction false} BannersInOrder(c: Chunk, es: seq<BlockEntity>)
    ensures var shown, entries := Banners(RenderAll(c, es)), BannerEntries(es);
            |shown| == |entries| && forall k :: 0 <= k < |shown| ==> BannerOf(c, entries[k], shown[k])
  {
    hide Render, BannerOf;
    if es == [] {
    } else {
      hide RenderAll, Banners, BannerEntries;
      LastEntry(c, es);
      var init, last := es[..|es| - 1], es[|es| - 1];
      BannersInOrder(c, init);
      LastBanner(c, last);
      BannersConcat(RenderAll(c, init), Render(c, last));
    }
  }

  /**
    * Whatever a section holds, its banner entries and no others become banner packets, one
    * each and in order: at the entry's place, with the dye of the block state there, which is
    * also the colour remembered for the place.
    */
  lemma {:induction false} BannersShown(c: Chunk, bases: Bases, es: seq<BlockEntity>)
    ensures var shown, entries := Banners(RenderAll(c, es)), BannerEntries(es);
            && |shown| == |entries|
            && forall k :: 0 <= k < |shown| ==>
                 && BannerOf(c, entries[k], shown[k])
                 && shown[k].at in BasesAfter(c, bases, es) && BasesAfter(c, bases, es)[shown[k].at] == shown[k].base
  {
    hide Render, RenderAll, Banners, BannerEntries, BasesAfter, WorldPos, BaseOf;
    BannersInOrder(c, es);
    var shown, entries := Banners(RenderAll(c, es)), BannerEntries(es);
    forall k | 0 <= k < |shown|
      ensures shown[k].at in BasesAfter(c, bases, es) && BasesAfter(c, bases, es)[shown[k].at] == shown[k].base
    {
      var e := entries[k];
      EntriesAreBanners(es, k);
      PlaceIs(c, Standing(e.xz, e.y, Bare(20)));
      SamePlace(c, e);
      BannersRemembered(c, bases, es, shown[k].at);
    }
  }

  lemma SamePlace(c: Chunk, e: BlockEntity)
    ensures var bare := EntityOf(Standing(e.xz, e.y, Bare(20)));
            WorldPos(c, e) == WorldPos(c, bare) && BaseOf(c, e) == BaseOf(c, bare)
  {
  }
}
