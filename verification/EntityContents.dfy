/** What is taken from a block entity's tag: sign sides, banner layers, items by slot. */
module EntityContents {
  import opened MachineInts
  import opened Wire
  import opened JavaNbt
  import opened Signs

  // ---------------------------------------------------------------------------------
  // Looking into a tag
  // ---------------------------------------------------------------------------------

  function Ascii(s: string): (r: Bytes)
    requires forall i :: 0 <= i < |s| ==> s[i] < 128 as char
    ensures |r| == |s|
  {
    seq(|s|, i requires 0 <= i < |s| => s[i] as int)
  }

  /** The entries of a compound by name, a later one replacing an earlier one. */
  function Fields(entries: seq<Entry>): map<Bytes, Tag> {
    if entries == [] then map[]
    else
      var last := entries[|entries| - 1];
      Fields(entries[..|entries| - 1])[last.name := last.tag]
  }

  function Field(tag: Tag, name: Bytes): Option<Tag> {
    if tag.Compound? && name in Fields(tag.entries) then Some(Fields(tag.entries)[name]) else None
  }

  /** A field is a compound's last entry of its name. */
  lemma FieldIsLast(tag: Tag, name: Bytes, i: nat)
    requires tag.Compound? && i < |tag.entries| && tag.entries[i].name == name
    requires forall j :: i < j < |tag.entries| ==> tag.entries[j].name != name
    ensures Field(tag, name) == Some(tag.entries[i].tag)
    decreases |tag.entries|
  {
    var init := Compound(tag.entries[..|tag.entries| - 1]);
    if i == |tag.entries| - 1 {
    } else {
      FieldIsLast(init, name, i);
    }
  }

  /** The value of a type, or its zero value when it is missing or of another type. */
  function TextOr(tag: Option<Tag>): Bytes {
    if tag.Some? && tag.value.Text? then tag.value.text else []
  }

  function ByteOr(tag: Option<Tag>): Byte {
    if tag.Some? && tag.value.Small? then tag.value.value else 0
  }

  function IntOr(tag: Option<Tag>): int {
    if tag.Some? && tag.value.Number? && tag.value.kind == TAG_INT && |tag.value.raw| == 4
    then BigEndian32(tag.value.raw) else 0
  }

  function ElemsOr(tag: Option<Tag>): seq<Tag> {
    if tag.Some? && tag.value.List? then tag.value.elems else []
  }

  /** Nothing there, or something of another type there, counts as the type's zero value. */
  lemma ZeroWhenMissing(tag: Option<Tag>)
    ensures TextOr(tag) == if tag.Some? && tag.value.Text? then tag.value.text else []
    ensures ByteOr(tag) == if tag.Some? && tag.value.Small? then tag.value.value else 0
    ensures IntOr(tag) != 0 ==> tag.Some? && tag.value.Number? && tag.value.kind == 3
    ensures ElemsOr(tag) == if tag.Some? && tag.value.List? then tag.value.elems else []
  {
  }

  // ---------------------------------------------------------------------------------
  // Sign sides
  // ---------------------------------------------------------------------------------

  datatype SignSide = SignSide(lines: seq<Bytes>, color: Bytes, glow: bool)

  function SideOf(side: Option<Tag>): SignSide {
    if side.None? || !side.value.Compound? then SignSide(seq(LINES, _ => []), [], false)
    else
      var msgs := ElemsOr(Field(side.value, Ascii("messages")));
      SignSide(seq(LINES, k requires 0 <= k => if k < |msgs| then TextOr(Some(msgs[k])) else []),
               TextOr(Field(side.value, Ascii("color"))),
               ByteOr(Field(side.value, Ascii("has_glowing_text"))) != 0)
  }

  method SignSideFromNbt(side: Option<Tag>) returns (s: SignSide)
    ensures s == SideOf(side)
  {
    var lines := new Bytes[LINES](_ => []);
    if side.None? || !side.value.Compound? {
      return SignSide(lines[..], [], false);
    }
    var m := side.value;
    var msgs := ElemsOr(Field(m, Ascii("messages")));
    var i := 0;
    while i < LINES && i < |msgs|
      invariant i <= LINES && i <= |msgs|
      invariant forall k :: 0 <= k < LINES ==> lines[k] == if k < i then TextOr(Some(msgs[k])) else []
    {
      lines[i] := TextOr(Some(msgs[i]));
      i := i + 1;
    }
    s := SignSide(lines[..], TextOr(Field(m, Ascii("color"))), ByteOr(Field(m, Ascii("has_glowing_text"))) != 0);
  }

  // ---------------------------------------------------------------------------------
  // Banner layers
  // ---------------------------------------------------------------------------------

  datatype Layer = Layer(pattern: Bytes, color: Bytes)

  function LayerOf(tag: Tag): Layer {
    Layer(TextOr(Field(tag, Ascii("pattern"))), TextOr(Field(tag, Ascii("color"))))
  }

  /** The layers of the compounds in a list, in order; anything else in it is passed over. */
  function LayersOf(pats: seq<Tag>): seq<Layer> {
    if pats == [] then []
    else
      var last := pats[|pats| - 1];
      LayersOf(pats[..|pats| - 1]) + if last.Compound? then [LayerOf(last)] else []
  }

  method BannerLayers(tag: Tag) returns (layers: seq<Layer>)
    ensures layers == LayersOf(ElemsOr(Field(tag, Ascii("patterns"))))
  {
    hide LayerOf;
    layers := [];
    var pats := ElemsOr(Field(tag, Ascii("patterns")));
    for i := 0 to |pats|
      invariant layers == LayersOf(pats[..i])
    {
      assert pats[..i + 1][..i] == pats[..i];
      if pats[i].Compound? {
        layers := layers + [LayerOf(pats[i])];
      }
    }
    assert pats[..|pats|] == pats;
  }

  // ---------------------------------------------------------------------------------
  // Items by slot
  // ---------------------------------------------------------------------------------

  datatype Item = Item(id: Bytes, count: int)

  const NO_ITEM := Item([], 0)

  predicate InSlot(it: Tag, slot: nat) {
    it.Compound? && ByteOr(Field(it, Ascii("Slot"))) == slot
  }

  function ItemOf(it: Tag): Item {
    Item(TextOr(Field(it, Ascii("id"))), IntOr(Field(it, Ascii("count"))))
  }

  /** The item of the last compound in a list that names the slot. */
  function ItemIn(list: seq<Tag>, slot: nat): Item {
    if list == [] then NO_ITEM
    else if InSlot(list[|list| - 1], slot) then ItemOf(list[|list| - 1])
    else ItemIn(list[..|list| - 1], slot)
  }

  function ItemsOf(tag: Tag, slots: nat): (r: seq<Item>)
    ensures |r| == slots
  {
    seq(slots, k requires 0 <= k => ItemIn(ElemsOr(Field(tag, Ascii("Items"))), k))
  }

  method ItemsBySlot(tag: Tag, slots: nat) returns (items: array<Item>)
    ensures fresh(items) && items[..] == ItemsOf(tag, slots)
  {
    hide Field, ItemOf;
    items := new Item[slots](_ => NO_ITEM);
    var list := ElemsOr(Field(tag, Ascii("Items")));
    for i := 0 to |list|
      invariant forall k :: 0 <= k < slots ==> items[k] == ItemIn(list[..i], k)
    {
      assert list[..i + 1][..i] == list[..i];
      if list[i].Compound? {
        var slot := ByteOr(Field(list[i], Ascii("Slot")));
        if slot < slots {
          items[slot] := ItemOf(list[i]);
        }
      }
    }
    assert list[..|list|] == list;
  }

  /** A slot holds the last item that names it, whatever earlier ones said, and none when none does. */
  lemma {:induction false} LastItemOfSlot(list: seq<Tag>, slot: nat)
    ensures if forall it :: it in list ==> !InSlot(it, slot) then ItemIn(list, slot) == NO_ITEM
            else exists i :: && 0 <= i < |list| && InSlot(list[i], slot) && ItemIn(list, slot) == ItemOf(list[i])
                             && forall j :: i < j < |list| ==> !InSlot(list[j], slot)
  {
    hide InSlot, ItemOf;
    if list == [] {
    } else {
      var init, last := list[..|list| - 1], list[|list| - 1];
      assert list == init + [last];
      if InSlot(last, slot) {
        assert last in list;
      } else {
        LastItemOfSlot(init, slot);
      }
    }
  }

  /** Whatever in a list is no compound is passed over, and a side that is none is blank. */
  lemma OthersPassedOver(list: seq<Tag>, other: Tag, slot: nat)
    requires !other.Compound?
    ensures LayersOf(list + [other]) == LayersOf(list) && ItemIn(list + [other], slot) == ItemIn(list, slot)
    ensures SideOf(Some(other)) == SideOf(None) && SideOf(None).color == [] && !SideOf(None).glow
    ensures SideOf(None).lines == [[], [], [], []]
  {
    assert (list + [other])[..|list|] == list;
    assert LayersOf(list) + [] == LayersOf(list);
  }
}
