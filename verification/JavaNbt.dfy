/** Network NBT: the tagged tree format a block entity's data has on the wire. */
module JavaNbt {
  import opened MachineInts
  import opened Wire

  const TAG_END: Byte := 0
  const TAG_BYTE: Byte := 1
  const TAG_SHORT: Byte := 2
  const TAG_INT: Byte := 3
  const TAG_LONG: Byte := 4
  const TAG_FLOAT: Byte := 5
  const TAG_DOUBLE: Byte := 6
  const TAG_BYTE_ARRAY: Byte := 7
  const TAG_STRING: Byte := 8
  const TAG_LIST: Byte := 9
  const TAG_COMPOUND: Byte := 10
  const TAG_INT_ARRAY: Byte := 11
  const TAG_LONG_ARRAY: Byte := 12

  const MAX_DEPTH := 32
  const MAX_ARRAY := 0x100_0000
  const MAX_LIST := 0x1_0000

  /**
    * A tag's value. Numbers wider than a byte keep their big-endian bytes; a compound keeps
    * its entries in wire order (a later entry of the same name is the one that counts).
    */
  datatype Tag =
    | Small(value: Byte)
    | Number(kind: Byte, raw: Bytes)
    | Array(kind: Byte, raw: Bytes)
    | Text(text: Bytes)
    | List(of: Byte, elems: seq<Tag>)
    | Compound(entries: seq<Entry>)

  datatype Entry = Entry(name: Bytes, tag: Tag)

  // ---------------------------------------------------------------------------------
  // What the bytes mean
  // ---------------------------------------------------------------------------------

  function NumberSize(kind: Byte): nat {
    if kind == TAG_SHORT then 2
    else if kind == TAG_INT || kind == TAG_FLOAT then 4
    else if kind == TAG_LONG || kind == TAG_DOUBLE then 8 else 0
  }

  function ElementSize(kind: Byte): nat {
    if kind == TAG_BYTE_ARRAY then 1
    else if kind == TAG_INT_ARRAY then 4
    else if kind == TAG_LONG_ARRAY then 8 else 0
  }

  /** A buffer that was only partly read: the rest of it stays zero. */
  function ZeroFilled(raw: Bytes, n: nat): (r: Bytes)
    ensures |raw| <= n ==> |r| == n
    ensures |raw| >= n ==> r == raw
  {
    raw + seq(if |raw| < n then n - |raw| else 0, _ => 0)
  }

  /** A fixed-width buffer, not checked for having been filled. */
  function LooseAt(s: Bytes, n: nat): (r: Read<Bytes>)
    ensures r.Got? ==> |r.value| == n && |r.rest| <= |s|
    ensures r.Got? && |s| < n ==> r.rest == []
  {
    var (raw, t) :- ChunkAt(s, n);
    Got(ZeroFilled(raw, n), t)
  }

  function BigEndian16(b: Bytes): nat
    requires |b| == 2
  {
    b[0] as int * 0x100 + b[1] as int
  }

  function BigEndian32(b: Bytes): int
    requires |b| == 4
  {
    Wrap32(b[0] as int * 0x100_0000 + b[1] as int * 0x1_0000 + b[2] as int * 0x100 + b[3] as int)
  }

  function CountAt(s: Bytes): (r: Read<int>)
    ensures r.Got? ==> |r.rest| <= |s|
    ensures r.Got? && |s| < 4 ==> r.rest == []
  {
    var (raw, t) :- LooseAt(s, 4);
    Got(BigEndian32(raw), t)
  }

  function TextAt(s: Bytes): (r: Read<Bytes>)
    ensures r.Got? ==> |r.rest| < |s|
  {
    var (raw, t) :- LooseAt(s, 2);
    FilledAt(t, BigEndian16(raw))
  }

  function ArrayAt(kind: Byte, s: Bytes): (r: Read<Tag>)
    ensures r.Got? ==> |r.rest| <= |s|
  {
    var (n, t) :- CountAt(s);
    if n < 0 || n > MAX_ARRAY then Fail
    else if n == 0 then Got(Array(kind, []), t)
    else
      var (raw, u) :- FilledAt(t, n * ElementSize(kind));
      Got(Array(kind, raw), u)
  }

  function TagAt(kind: Byte, depth: nat, s: Bytes): (r: Read<Tag>)
    ensures r.Got? ==> |r.rest| <= |s|
    decreases if depth > MAX_DEPTH then 0 else MAX_DEPTH + 1 - depth, 2, |s|
  {
    if depth > MAX_DEPTH then Fail
    else if kind == TAG_BYTE then
      var (b, t) :- ByteAt(s);
      Got(Small(b), t)
    else if NumberSize(kind) > 0 then
      var (raw, t) :- LooseAt(s, NumberSize(kind));
      Got(Number(kind, raw), t)
    else if kind == TAG_STRING then
      var (text, t) :- TextAt(s);
      Got(Text(text), t)
    else if ElementSize(kind) > 0 then ArrayAt(kind, s)
    else if kind == TAG_LIST then
      var (of, t) :- ByteAt(s);
      var (n, u) :- CountAt(t);
      if n < 0 || n > MAX_LIST then Fail
      else
        var (elems, v) :- ElemsAt(of, n, depth, [], u);
        Got(List(of, elems), v)
    else if kind == TAG_COMPOUND then
      var (entries, t) :- EntriesAt(depth, [], s);
      Got(Compound(entries), t)
    else Fail
  }

  function ElemsAt(of: Byte, n: nat, depth: nat, done: seq<Tag>, s: Bytes): (r: Read<seq<Tag>>)
    requires depth <= MAX_DEPTH
    ensures r.Got? ==> |r.rest| <= |s|
    decreases MAX_DEPTH + 1 - depth, 1, n
  {
    if n == 0 then Got(done, s)
    else
      var (tag, t) :- TagAt(of, depth + 1, s);
      ElemsAt(of, n - 1, depth, done + [tag], t)
  }

  function EntriesAt(depth: nat, done: seq<Entry>, s: Bytes): (r: Read<seq<Entry>>)
    requires depth <= MAX_DEPTH
    ensures r.Got? ==> |r.rest| < |s|
    decreases MAX_DEPTH + 1 - depth, 1, |s|
  {
    var (kind, t) :- ByteAt(s);
    if kind == TAG_END then Got(done, t)
    else
      var (name, u) :- TextAt(t);
      var (tag, v) :- TagAt(kind, depth + 1, u);
      EntriesAt(depth, done + [Entry(name, tag)], v)
  }

  /** One nameless root compound; a lone end tag is the empty one. */
  function RootAt(s: Bytes): (r: Read<Tag>)
    ensures r.Got? ==> |r.rest| < |s|
  {
    var (kind, t) :- ByteAt(s);
    if kind == TAG_END then Got(Compound([]), t)
    else if kind != TAG_COMPOUND then Fail
    else TagAt(TAG_COMPOUND, 0, t)
  }

  // ---------------------------------------------------------------------------------
  // The decoder
  // ---------------------------------------------------------------------------------

  method ReadLoose(r: Reader, n: nat) returns (buf: Option<Bytes>)
    requires r.Valid()
    modifies r`pos
    ensures r.Valid()
    ensures match buf
            case None => LooseAt(old(r.Rest()), n).Fail?
            case Some(b) => LooseAt(old(r.Rest()), n) == Got(b, r.Rest())
  {
    var raw := r.Read(n);
    return if raw.None? then None else Some(ZeroFilled(raw.value, n));
  }

  method ReadFilled(r: Reader, n: nat) returns (buf: Option<Bytes>)
    requires r.Valid()
    modifies r`pos
    ensures r.Valid()
    ensures match buf
            case None => FilledAt(old(r.Rest()), n).Fail?
            case Some(b) => FilledAt(old(r.Rest()), n) == Got(b, r.Rest())
  {
    var raw := r.Read(n);
    return if raw.None? || |raw.value| != n then None else raw;
  }

  method ReadText(r: Reader) returns (text: Option<Bytes>)
    requires r.Valid()
    modifies r`pos
    ensures r.Valid()
    ensures match text
            case None => TextAt(old(r.Rest())).Fail?
            case Some(t) => TextAt(old(r.Rest())) == Got(t, r.Rest())
  {
    var length := ReadLoose(r, 2);
    if length.None? {
      return None;
    }
    text := ReadFilled(r, BigEndian16(length.value));
  }

  method ReadCount(r: Reader) returns (n: Option<int>)
    requires r.Valid()
    modifies r`pos
    ensures r.Valid()
    ensures match n
            case None => CountAt(old(r.Rest())).Fail?
            case Some(c) => CountAt(old(r.Rest())) == Got(c, r.Rest())
  {
    var raw := ReadLoose(r, 4);
    return if raw.None? then None else Some(BigEndian32(raw.value));
  }

  method ReadArray(r: Reader, kind: Byte) returns (tag: Option<Tag>)
    requires r.Valid()
    modifies r`pos
    ensures r.Valid()
    ensures match tag
            case None => ArrayAt(kind, old(r.Rest())).Fail?
            case Some(t) => ArrayAt(kind, old(r.Rest())) == Got(t, r.Rest())
  {
    var n := ReadCount(r);
    if n.None? || n.value < 0 || n.value > MAX_ARRAY {
      return None;
    }
    if n.value == 0 {
      return Some(Array(kind, []));
    }
    var raw := ReadFilled(r, n.value * ElementSize(kind));
    return if raw.None? then None else Some(Array(kind, raw.value));
  }

  method ReadElems(r: Reader, of: Byte, n: nat, depth: nat) returns (elems: Option<seq<Tag>>)
    requires r.Valid() && depth <= MAX_DEPTH
    modifies r`pos
    ensures r.Valid()
    ensures match elems
            case None => ElemsAt(of, n, depth, [], old(r.Rest())).Fail?
            case Some(es) => ElemsAt(of, n, depth, [], old(r.Rest())) == Got(es, r.Rest())
    decreases MAX_DEPTH + 1 - depth, 1
  {
    hide TagAt;
    ghost var start := r.Rest();
    var es: seq<Tag> := [];
    for i := 0 to n
      invariant r.Valid()
      invariant ElemsAt(of, n, depth, [], start) == ElemsAt(of, n - i, depth, es, r.Rest())
    {
      var tag := ReadJavaTag(r, of, depth + 1);
      if tag.None? {
        return None;
      }
      es := es + [tag.value];
    }
    return Some(es);
  }

  method ReadEntries(r: Reader, depth: nat) returns (entries: Option<seq<Entry>>)
    requires r.Valid() && depth <= MAX_DEPTH
    modifies r`pos
    ensures r.Valid()
    ensures match entries
            case None => EntriesAt(depth, [], old(r.Rest())).Fail?
            case Some(es) => EntriesAt(depth, [], old(r.Rest())) == Got(es, r.Rest())
    decreases MAX_DEPTH + 1 - depth, 1
  {
    hide TagAt, TextAt;
    ghost var start := r.Rest();
    var es: seq<Entry> := [];
    while true
      invariant r.Valid()
      invariant EntriesAt(depth, [], start) == EntriesAt(depth, es, r.Rest())
      decreases |r.Rest()|
    {
      var kind := r.ReadByte();
      if kind.None? {
        return None;
      }
      if kind.value == TAG_END {
        return Some(es);
      }
      var name := ReadText(r);
      if name.None? {
        return None;
      }
      var tag := ReadJavaTag(r, kind.value, depth + 1);
      if tag.None? {
        return None;
      }
      es := es + [Entry(name.value, tag.value)];
    }
  }

  method ReadList(r: Reader, depth: nat) returns (tag: Option<Tag>)
    requires r.Valid() && depth <= MAX_DEPTH
    modifies r`pos
    ensures r.Valid()
    ensures match tag
            case None => TagAt(TAG_LIST, depth, old(r.Rest())).Fail?
            case Some(t) => TagAt(TAG_LIST, depth, old(r.Rest())) == Got(t, r.Rest())
    decreases MAX_DEPTH + 1 - depth, 2
  {
    hide CountAt, ElemsAt;
    var of := r.ReadByte();
    if of.None? {
      return None;
    }
    var n := ReadCount(r);
    if n.None? || n.value < 0 || n.value > MAX_LIST {
      return None;
    }
    var elems := ReadElems(r, of.value, n.value, depth);
    return if elems.None? then None else Some(List(of.value, elems.value));
  }

  method ReadJavaTag(r: Reader, kind: Byte, depth: nat) returns (tag: Option<Tag>)
    requires r.Valid() && depth <= MAX_DEPTH + 1
    modifies r`pos
    ensures r.Valid()
    ensures match tag
            case None => TagAt(kind, depth, old(r.Rest())).Fail?
            case Some(t) => TagAt(kind, depth, old(r.Rest())) == Got(t, r.Rest())
    decreases MAX_DEPTH + 1 - depth, 3
  {
    hide LooseAt, TextAt, ArrayAt, ElemsAt, EntriesAt;
    if depth > MAX_DEPTH {
      return None;
    }
    if kind == TAG_BYTE {
      var b := r.ReadByte();
      return if b.None? then None else Some(Small(b.value));
    } else if NumberSize(kind) > 0 {
      var raw := ReadLoose(r, NumberSize(kind));
      return if raw.None? then None else Some(Number(kind, raw.value));
    } else if kind == TAG_STRING {
      var text := ReadText(r);
      return if text.None? then None else Some(Text(text.value));
    } else if ElementSize(kind) > 0 {
      tag := ReadArray(r, kind);
    } else if kind == TAG_LIST {
      tag := ReadList(r, depth);
    } else if kind == TAG_COMPOUND {
      var entries := ReadEntries(r, depth);
      return if entries.None? then None else Some(Compound(entries.value));
    } else {
      return None;
    }
  }

  method ReadJavaNbt(r: Reader) returns (tag: Option<Tag>)
    requires r.Valid()
    modifies r`pos
    ensures r.Valid()
    ensures match tag
            case None => RootAt(old(r.Rest())).Fail?
            case Some(t) => RootAt(old(r.Rest())) == Got(t, r.Rest())
  {
    hide TagAt;
    var kind := r.ReadByte();
    if kind.None? {
      return None;
    }
    if kind.value == TAG_END {
      return Some(Compound([]));
    }
    if kind.value != TAG_COMPOUND {
      return None;
    }
    tag := ReadJavaTag(r, TAG_COMPOUND, 0);
  }

  // ---------------------------------------------------------------------------------
  // Decoding undoes encoding
  // ---------------------------------------------------------------------------------

  // From here on the wire format is written out in numbers, apart from the decoder's names and
  // tables for them.

  function KindOf(tag: Tag): Byte {
    match tag
    case Small(_) => 1
    case Number(kind, _) => kind
    case Array(kind, _) => kind
    case Text(_) => 8
    case List(_, _) => 9
    case Compound(_) => 10
  }

  /** The bytes of a short, an int, a long, a float and a double; no other kind is a wide number. */
  function NumberWidth(kind: Byte): nat {
    match kind
    case 2 => 2
    case 3 => 4
    case 4 => 8
    case 5 => 4
    case 6 => 8
    case _ => 0
  }

  /** The bytes of a byte array's, an int array's and a long array's element; no other kind is an array. */
  function WordWidth(kind: Byte): nat {
    match kind
    case 7 => 1
    case 11 => 4
    case 12 => 8
    case _ => 0
  }

  /** Every part fits the width it travels in, counts an int32, and lists hold one kind of tag. */
  predicate Encodable(tag: Tag)
    decreases tag, 1
  {
    match tag
    case Small(_) => true
    case Number(kind, raw) => NumberWidth(kind) > 0 && |raw| == NumberWidth(kind)
    case Array(kind, raw) =>
      WordWidth(kind) > 0 && |raw| % WordWidth(kind) == 0 && |raw| / WordWidth(kind) < TWO_TO_31
    case Text(text) => |text| < 0x1_0000
    case List(of, elems) => |elems| < TWO_TO_31 && EncodableElems(of, elems)
    case Compound(entries) => EncodableEntries(entries)
  }

  predicate EncodableElems(of: Byte, elems: seq<Tag>)
    decreases elems, 0
  {
    elems == [] || (KindOf(elems[0]) == of && Encodable(elems[0]) && EncodableElems(of, elems[1..]))
  }

  predicate EncodableEntries(entries: seq<Entry>)
    decreases entries, 0
  {
    entries == [] || (|entries[0].name| < 0x1_0000 && Encodable(entries[0].tag) && EncodableEntries(entries[1..]))
  }

  function Encode16(n: nat): (r: Bytes)
    requires n < 0x1_0000
    ensures |r| == 2
  {
    [n / 0x100, n % 0x100]
  }

  function Encode32(n: nat): (r: Bytes)
    requires n < TWO_TO_31
    ensures |r| == 4
  {
    [n / 0x100_0000, n / 0x1_0000 % 0x100, n / 0x100 % 0x100, n % 0x100]
  }

  function EncodeText(t: Bytes): Bytes
    requires |t| < 0x1_0000
  {
    Encode16(|t|) + t
  }

  function Encode(tag: Tag): (r: Bytes)
    requires Encodable(tag)
    ensures r != []
    decreases tag, 1
  {
    match tag
    case Small(value) => [value]
    case Number(_, raw) => raw
    case Array(kind, raw) => Encode32(|raw| / WordWidth(kind)) + raw
    case Text(text) => EncodeText(text)
    case List(of, elems) => [of] + Encode32(|elems|) + EncodeElems(of, elems)
    case Compound(entries) => EncodeEntries(entries)
  }

  function EncodeElems(of: Byte, elems: seq<Tag>): Bytes
    requires EncodableElems(of, elems)
    decreases elems, 0
  {
    if elems == [] then [] else Encode(elems[0]) + EncodeElems(of, elems[1..])
  }

  function EncodeEntries(entries: seq<Entry>): (r: Bytes)
    requires EncodableEntries(entries)
    ensures r != []
    decreases entries, 0
  {
    if entries == [] then [0]
    else
      [KindOf(entries[0].tag)] + EncodeText(entries[0].name) + Encode(entries[0].tag) + EncodeEntries(entries[1..])
  }

  /** How many levels of lists and compounds a tag nests below itself. */
  function Levels(tag: Tag): nat
    decreases tag, 1
  {
    match tag
    case List(_, elems) => ElemLevels(elems)
    case Compound(entries) => EntryLevels(entries)
    case _ => 0
  }

  function ElemLevels(elems: seq<Tag>): nat
    decreases elems, 0
  {
    if elems == [] then 0 else Max(1 + Levels(elems[0]), ElemLevels(elems[1..]))
  }

  function EntryLevels(entries: seq<Entry>): nat
    decreases entries, 0
  {
    if entries == [] then 0 else Max(1 + Levels(entries[0].tag), EntryLevels(entries[1..]))
  }

  /** No array of a tag holds more than 2^24 elements, and no list more than 65536. */
  predicate WithinLimits(tag: Tag)
    decreases tag, 1
  {
    match tag
    case Array(kind, raw) => WordWidth(kind) > 0 ==> |raw| / WordWidth(kind) <= 0x100_0000
    case List(_, elems) => |elems| <= 65536 && ElemsWithinLimits(elems)
    case Compound(entries) => EntriesWithinLimits(entries)
    case _ => true
  }

  predicate ElemsWithinLimits(elems: seq<Tag>)
    decreases elems, 0
  {
    elems == [] || (WithinLimits(elems[0]) && ElemsWithinLimits(elems[1..]))
  }

  predicate EntriesWithinLimits(entries: seq<Entry>)
    decreases entries, 0
  {
    entries == [] || (WithinLimits(entries[0].tag) && EntriesWithinLimits(entries[1..]))
  }

  /** What the reader takes: nested at most 32 deep, and no array or list too long. */
  predicate Readable(tag: Tag) {
    Levels(tag) <= 32 && WithinLimits(tag)
  }

  /** A tag whose reading at the very end of the input fails: it ends in an empty string. */
  predicate EndsOpen(tag: Tag)
    decreases tag, 1
  {
    match tag
    case Text(text) => text == []
    case List(_, elems) => ElemsEndOpen(elems)
    case _ => false
  }

  predicate ElemsEndOpen(elems: seq<Tag>)
    decreases elems, 0
  {
    if elems == [] then false
    else if |elems| == 1 then EndsOpen(elems[0])
    else ElemsEndOpen(elems[1..])
  }

  function Max(a: nat, b: nat): nat {
    if a < b then b else a
  }

  lemma LooseRoundTrip(raw: Bytes, rest: Bytes)
    requires raw != []
    ensures LooseAt(raw + rest, |raw|) == Got(raw, rest)
  {
    assert (raw + rest)[..|raw|] == raw && (raw + rest)[|raw|..] == rest;
  }

  lemma CountRoundTrip(n: nat, rest: Bytes)
    requires n < TWO_TO_31
    ensures CountAt(Encode32(n) + rest) == Got(n, rest)
  {
    LooseRoundTrip(Encode32(n), rest);
    var a, b, c := n / 0x100_0000, n / 0x1_0000, n / 0x100;
    assert c == b * 0x100 + c % 0x100 && b == a * 0x100 + b % 0x100;
  }

  lemma TextRoundTrip(t: Bytes, rest: Bytes)
    requires |t| < 0x1_0000
    ensures TextAt(EncodeText(t) + rest) == if t == [] && rest == [] then Fail else Got(t, rest)
  {
    assert EncodeText(t) + rest == Encode16(|t|) + (t + rest);
    LooseRoundTrip(Encode16(|t|), t + rest);
    FilledRoundTrip(t, rest);
  }

  /** The decoder's widths are those of the wire format, for every kind there is or is not. */
  lemma TablesAgree(kind: Byte)
    ensures NumberSize(kind) == NumberWidth(kind) && ElementSize(kind) == WordWidth(kind)
  {
  }

  lemma ArrayRoundTrip(tag: Tag, rest: Bytes)
    requires tag.Array? && Encodable(tag)
    ensures ArrayAt(tag.kind, Encode(tag) + rest) == if WithinLimits(tag) then Got(tag, rest) else Fail
  {
    hide CountAt;
    TablesAgree(tag.kind);
    var n, size := |tag.raw| / WordWidth(tag.kind), WordWidth(tag.kind);
    assert n * size == |tag.raw|;
    assert Encode(tag) + rest == Encode32(n) + (tag.raw + rest);
    CountRoundTrip(n, tag.raw + rest);
    FilledRoundTrip(tag.raw, rest);
    if n == 0 {
      assert tag.raw == [] && tag.raw + rest == rest;
    }
  }

  /**
    * A tag read at some depth gives back what was encoded, whatever follows, exactly when
    * its nesting stays within the depth limit, its arrays and lists within theirs, and it
    * does not end in an empty string at the very end of the input.
    */
  lemma {:induction false} TagRoundTrip(tag: Tag, depth: nat, rest: Bytes)
    requires Encodable(tag)
    ensures TagAt(KindOf(tag), depth, Encode(tag) + rest)
            == if depth + Levels(tag) <= 32 && WithinLimits(tag) && (rest != [] || !EndsOpen(tag))
               then Got(tag, rest) else Fail
    decreases tag, 1
  {
    hide LooseAt, TextAt, ArrayAt, CountAt, ElemsAt, EntriesAt, Encode32, EncodeText;
    TablesAgree(KindOf(tag));
    if depth <= MAX_DEPTH {
      match tag {
        case Small(value) => assert ([value] + rest)[1..] == rest;
        case Number(_, raw) => LooseRoundTrip(raw, rest);
        case Array(_, _) => ArrayRoundTrip(tag, rest);
        case Text(text) => TextRoundTrip(text, rest);
        case List(of, elems) => ListRoundTrip(of, elems, depth, rest);
        case Compound(entries) =>
          EntriesRoundTrip(entries, depth, [], rest);
          assert [] + entries == entries;
      }
    }
  }

  function Flat(words: seq<Bytes>): Bytes {
    if words == [] then [] else words[0] + Flat(words[1..])
  }

  lemma {:induction false} FlatLength(words: seq<Bytes>, width: nat)
    requires width == 1 || width == 4 || width == 8
    requires forall word :: word in words ==> |word| == width
    ensures |Flat(words)| == if width == 1 then |words| else if width == 4 then 4 * |words| else 8 * |words|
  {
    if words == [] {
    } else {
      assert words[0] in words && forall word :: word in words[1..] ==> word in words;
      FlatLength(words[1..], width);
    }
  }

  /**
    * A count and as many values, of one byte (kind 7), four (11) or eight (12), are read as an
    * array that leaves exactly what follows, up to 2^24 of them and no more.
    */
  lemma ArrayOfWords(kind: Byte, width: nat, words: seq<Bytes>, depth: nat, rest: Bytes)
    requires (kind == 7 && width == 1) || (kind == 11 && width == 4) || (kind == 12 && width == 8)
    requires |words| < TWO_TO_31 && depth <= 32 && forall word :: word in words ==> |word| == width
    ensures TagAt(kind, depth, Encode32(|words|) + Flat(words) + rest)
            == if |words| <= 0x100_0000 then Got(Array(kind, Flat(words)), rest) else Fail
  {
    hide *;
    FlatLength(words, width);
    ArrayEncoding(kind, width, Flat(words), |words|);
    TagRoundTrip(Array(kind, Flat(words)), depth, rest);
  }

  lemma ArrayEncoding(kind: Byte, width: nat, raw: Bytes, n: nat)
    requires (kind == 7 && width == 1) || (kind == 11 && width == 4) || (kind == 12 && width == 8)
    requires |raw| == (if width == 1 then n else if width == 4 then 4 * n else 8 * n) && n < TWO_TO_31
    ensures var tag := Array(kind, raw);
            && Encodable(tag) && Encode(tag) == Encode32(n) + raw && KindOf(tag) == kind
            && (WithinLimits(tag) <==> n <= 0x100_0000) && Levels(tag) == 0 && !EndsOpen(tag)
  {
    hide Encode32;
    assert |raw| / WordWidth(kind) == n;
  }

  /** There are no kinds but 1 to 12. */
  lemma UnknownKind(kind: Byte, depth: nat, s: Bytes)
    requires kind == 0 || kind > 12
    ensures TagAt(kind, depth, s).Fail?
  {
  }

  /** A list of 65537 bytes, flat and well-formed, is refused whatever its elements. */
  lemma LongListRefused(depth: nat, s: Bytes)
    ensures TagAt(9, depth, [1, 0, 1, 0, 1] + s).Fail?
  {
    var t: Bytes := [0, 1, 0, 1];
    assert ([TAG_BYTE, 0, 1, 0, 1] + s)[1..] == t + s;
    assert t == Encode32(MAX_LIST + 1);
    CountRoundTrip(MAX_LIST + 1, s);
  }

  lemma {:induction false} ListRoundTrip(of: Byte, elems: seq<Tag>, depth: nat, rest: Bytes)
    requires |elems| < TWO_TO_31 && EncodableElems(of, elems) && depth <= MAX_DEPTH
    ensures TagAt(TAG_LIST, depth, Encode(List(of, elems)) + rest)
            == if depth + ElemLevels(elems) <= MAX_DEPTH && WithinLimits(List(of, elems))
                  && (rest != [] || !ElemsEndOpen(elems))
               then Got(List(of, elems), rest) else Fail
    decreases elems, 2
  {
    hide CountAt, ElemsAt, Encode32, ElemsEndOpen, ElemLevels, ElemsWithinLimits;
    var s := Encode(List(of, elems)) + rest;
    var body := EncodeElems(of, elems) + rest;
    assert s == [of] + (Encode32(|elems|) + body);
    assert s[1..] == Encode32(|elems|) + body;
    CountRoundTrip(|elems|, body);
    ElemsRoundTrip(of, elems, depth, [], rest);
    assert [] + elems == elems;
  }

  lemma {:induction false} ElemsRoundTrip(of: Byte, elems: seq<Tag>, depth: nat, done: seq<Tag>, rest: Bytes)
    requires EncodableElems(of, elems) && depth <= MAX_DEPTH
    ensures ElemsAt(of, |elems|, depth, done, EncodeElems(of, elems) + rest)
            == if depth + ElemLevels(elems) <= MAX_DEPTH && ElemsWithinLimits(elems)
                  && (rest != [] || !ElemsEndOpen(elems))
               then Got(done + elems, rest) else Fail
    decreases elems, 1
  {
    hide TagAt, Levels, WithinLimits, Encode, EndsOpen;
    if elems == [] {
      assert [] + rest == rest && done + [] == done;
    } else {
      var tail := EncodeElems(of, elems[1..]) + rest;
      assert EncodeElems(of, elems) + rest == Encode(elems[0]) + tail;
      TagRoundTrip(elems[0], depth + 1, tail);
      ElemsRoundTrip(of, elems[1..], depth, done + [elems[0]], rest);
      assert done + [elems[0]] + elems[1..] == done + elems;
      if |elems| > 1 {
        assert EncodeElems(of, elems[1..]) == Encode(elems[1]) + EncodeElems(of, elems[1..][1..]);
        assert tail != [];
      } else {
        assert tail == rest;
      }
    }
  }

  lemma {:induction false} EntriesRoundTrip(entries: seq<Entry>, depth: nat, done: seq<Entry>, rest: Bytes)
    requires EncodableEntries(entries) && depth <= MAX_DEPTH
    ensures EntriesAt(depth, done, EncodeEntries(entries) + rest)
            == if depth + EntryLevels(entries) <= MAX_DEPTH && EntriesWithinLimits(entries)
               then Got(done + entries, rest) else Fail
    decreases entries, 1
  {
    hide TagAt, TextAt, Levels, WithinLimits, Encode, EncodeText;
    var s := EncodeEntries(entries) + rest;
    if entries == [] {
      assert s[1..] == rest && done + [] == done;
    } else {
      var e := entries[0];
      var tail := EncodeEntries(entries[1..]) + rest;
      var body := Encode(e.tag) + tail;
      FourParts([KindOf(e.tag)] + EncodeText(e.name), Encode(e.tag), EncodeEntries(entries[1..]), rest);
      assert s == [KindOf(e.tag)] + (EncodeText(e.name) + body);
      assert s[1..] == EncodeText(e.name) + body;
      TextRoundTrip(e.name, body);
      TagRoundTrip(e.tag, depth + 1, tail);
      KindNotEnd(e.tag);
      EntriesRoundTrip(entries[1..], depth, done + [e], rest);
      assert done + [e] + entries[1..] == done + entries;
    }
  }

  lemma KindNotEnd(tag: Tag)
    requires Encodable(tag)
    ensures KindOf(tag) != TAG_END
  {
  }

  /**
    * A block entity's data reads back whatever follows, exactly when it nests at most 32 deep
    * and holds no array or list too long.
    */
  lemma RootRoundTrip(entries: seq<Entry>, rest: Bytes)
    requires EncodableEntries(entries)
    ensures RootAt([10] + EncodeEntries(entries) + rest)
            == if Readable(Compound(entries)) then Got(Compound(entries), rest) else Fail
    ensures RootAt([0] + rest) == Got(Compound([]), rest)
  {
    hide TagAt, EncodeEntries, EntryLevels, EntriesWithinLimits;
    var s := [TAG_COMPOUND] + EncodeEntries(entries) + rest;
    assert s[1..] == EncodeEntries(entries) + rest;
    assert Encode(Compound(entries)) == EncodeEntries(entries);
    TagRoundTrip(Compound(entries), 0, rest);
    assert ([TAG_END] + rest)[1..] == rest;
  }

  // ---------------------------------------------------------------------------------
  // Cut data
  // ---------------------------------------------------------------------------------

  lemma LooseStable(s: Bytes, n: nat, x: Bytes)
    requires LooseAt(s, n).Got? && |s| >= n
    ensures LooseAt(s + x, n) == Got(LooseAt(s, n).value, LooseAt(s, n).rest + x)
  {
    assert (s + x)[..n] == s[..n] && (s + x)[n..] == s[n..] + x;
  }

  lemma TextStable(s: Bytes, x: Bytes)
    requires TextAt(s).Got?
    ensures TextAt(s + x) == Got(TextAt(s).value, TextAt(s).rest + x)
  {
    LooseStable(s, 2, x);
    FilledStable(s[2..], |TextAt(s).value|, x);
  }

  lemma ArrayStable(kind: Byte, s: Bytes, x: Bytes)
    requires ArrayAt(kind, s).Got? && |s| >= 4
    ensures ArrayAt(kind, s + x) == Got(ArrayAt(kind, s).value, ArrayAt(kind, s).rest + x)
  {
    LooseStable(s, 4, x);
    var n := CountAt(s).value;
    if n > 0 {
      FilledStable(CountAt(s).rest, n * ElementSize(kind), x);
    }
  }

  lemma CountStable(s: Bytes, x: Bytes)
    requires CountAt(s).Got? && |s| >= 4
    ensures CountAt(s + x) == Got(CountAt(s).value, CountAt(s).rest + x)
  {
    LooseStable(s, 4, x);
  }

  /**
    * No number, and no count, of a tag is cut short by the end of the input: the numbers have
    * their bytes, the counts their four, and so for every element of a list.
    */
  predicate Whole(kind: Byte, depth: nat, s: Bytes)
    decreases if depth > MAX_DEPTH then 0 else MAX_DEPTH + 1 - depth, 2, |s|
  {
    if depth > MAX_DEPTH then true
    else if NumberWidth(kind) > 0 then |s| >= NumberWidth(kind)
    else if WordWidth(kind) > 0 then |s| >= 4
    else if kind == 9 then
      |s| >= 5 && (CountAt(s[1..]).Got? && CountAt(s[1..]).value > 0 ==>
                     ElemsWhole(s[0], CountAt(s[1..]).value, depth, CountAt(s[1..]).rest))
    else true
  }

  predicate ElemsWhole(of: Byte, n: nat, depth: nat, s: Bytes)
    requires depth <= MAX_DEPTH
    decreases MAX_DEPTH + 1 - depth, 1, n
  {
    n == 0
    || (Whole(of, depth + 1, s)
        && (TagAt(of, depth + 1, s).Got? ==> ElemsWhole(of, n - 1, depth, TagAt(of, depth + 1, s).rest)))
  }

  /** A tag nothing of which is cut reads the same whatever follows. */
  lemma {:induction false} TagStable(kind: Byte, depth: nat, s: Bytes, x: Bytes)
    requires TagAt(kind, depth, s).Got? && Whole(kind, depth, s)
    ensures TagAt(kind, depth, s + x) == Got(TagAt(kind, depth, s).value, TagAt(kind, depth, s).rest + x)
    decreases if depth > MAX_DEPTH then 0 else MAX_DEPTH + 1 - depth, 2, |s|
  {
    hide LooseAt, TextAt, ArrayAt, CountAt, ElemsAt, EntriesAt, ElemsWhole;
    if kind == TAG_BYTE {
      assert (s + x)[1..] == s[1..] + x;
    } else if NumberSize(kind) > 0 {
      LooseStable(s, NumberSize(kind), x);
    } else if kind == TAG_STRING {
      TextStable(s, x);
    } else if ElementSize(kind) > 0 {
      ArrayStable(kind, s, x);
    } else if kind == TAG_LIST {
      assert (s + x)[1..] == s[1..] + x;
      var n := CountAt(s[1..]).value;
      CountStable(s[1..], x);
      if n == 0 {
        NoElems(s[0], depth, [], CountAt(s[1..]).rest);
        NoElems(s[0], depth, [], CountAt(s[1..]).rest + x);
      } else {
        ElemsStable(s[0], n, depth, [], CountAt(s[1..]).rest, x);
      }
    } else {
      EntriesStable(depth, [], s, x);
    }
  }

  lemma NoElems(of: Byte, depth: nat, done: seq<Tag>, s: Bytes)
    requires depth <= MAX_DEPTH
    ensures ElemsAt(of, 0, depth, done, s) == Got(done, s)
  {
  }

  lemma {:induction false} ElemsStable(of: Byte, n: nat, depth: nat, done: seq<Tag>, s: Bytes, x: Bytes)
    requires depth <= MAX_DEPTH && ElemsAt(of, n, depth, done, s).Got? && ElemsWhole(of, n, depth, s)
    ensures var r := ElemsAt(of, n, depth, done, s); ElemsAt(of, n, depth, done, s + x) == Got(r.value, r.rest + x)
    decreases MAX_DEPTH + 1 - depth, 1, n
  {
    hide TagAt, Whole;
    if n == 0 {
    } else {
      var tag := TagAt(of, depth + 1, s);
      TagStable(of, depth + 1, s, x);
      ElemsStable(of, n - 1, depth, done + [tag.value], tag.rest, x);
    }
  }

  lemma {:induction false} EntriesStable(depth: nat, done: seq<Entry>, s: Bytes, x: Bytes)
    requires depth <= MAX_DEPTH && EntriesAt(depth, done, s).Got?
    ensures var r := EntriesAt(depth, done, s); EntriesAt(depth, done, s + x) == Got(r.value, r.rest + x)
    decreases MAX_DEPTH + 1 - depth, 1, |s|
  {
    hide TagAt, TextAt, Whole;
    assert (s + x)[1..] == s[1..] + x;
    if s[0] == TAG_END {
    } else {
      TextStable(s[1..], x);
      var name := TextAt(s[1..]);
      var tag := TagAt(s[0], depth + 1, name.rest);
      assert tag.rest != [] by { EntriesNeedInput(depth, done + [Entry(name.value, tag.value)], tag.rest); }
      RestMeansWhole(s[0], depth + 1, name.rest);
      TagStable(s[0], depth + 1, name.rest, x);
      EntriesStable(depth, done + [Entry(name.value, tag.value)], tag.rest, x);
    }
  }

  lemma EntriesNeedInput(depth: nat, done: seq<Entry>, s: Bytes)
    requires depth <= MAX_DEPTH && EntriesAt(depth, done, s).Got?
    ensures s != []
  {
  }

  /** A tag that leaves input behind has nothing cut. */
  lemma {:induction false} RestMeansWhole(kind: Byte, depth: nat, s: Bytes)
    requires TagAt(kind, depth, s).Got? && TagAt(kind, depth, s).rest != []
    ensures Whole(kind, depth, s)
    decreases if depth > MAX_DEPTH then 0 else MAX_DEPTH + 1 - depth, 2, |s|
  {
    hide LooseAt, TextAt, CountAt, ElemsAt, EntriesAt, ElemsWhole;
    if depth <= MAX_DEPTH && kind == TAG_LIST {
      var n := CountAt(s[1..]).value;
      if n == 0 {
        NoElems(s[0], depth, [], CountAt(s[1..]).rest);
      } else {
        ElemsRestMeansWhole(s[0], n, depth, [], CountAt(s[1..]).rest);
      }
    }
  }

  lemma {:induction false} ElemsRestMeansWhole(of: Byte, n: nat, depth: nat, done: seq<Tag>, s: Bytes)
    requires depth <= MAX_DEPTH
    requires ElemsAt(of, n, depth, done, s).Got? && ElemsAt(of, n, depth, done, s).rest != []
    ensures ElemsWhole(of, n, depth, s)
    decreases MAX_DEPTH + 1 - depth, 1, n
  {
    hide TagAt, Whole;
    if n == 0 {
    } else {
      var tag := TagAt(of, depth + 1, s);
      ElemsRestMeansWhole(of, n - 1, depth, done + [tag.value], tag.rest);
      RestMeansWhole(of, depth + 1, s);
    }
  }

  lemma LooseSwallows(s: Bytes, n: nat)
    requires 0 < |s| < n
    ensures LooseAt(s, n).Got? && LooseAt(s, n).rest == [] && LooseAt(s + [0], n) == LooseAt(s, n)
  {
    assert ZeroFilled(s + [0], n) == ZeroFilled(s, n);
    assert |s| + 1 == n ==> (s + [0])[..n] == s + [0] && (s + [0])[n..] == [];
  }

  lemma CountSwallows(s: Bytes)
    requires 0 < |s| < 4
    ensures CountAt(s).Got? && CountAt(s).rest == [] && CountAt(s + [0]) == CountAt(s)
  {
    LooseSwallows(s, 4);
  }

  lemma NothingReads(kind: Byte, depth: nat)
    ensures TagAt(kind, depth, []).Fail?
  {
    assert ByteAt([]).Fail? && LooseAt([], NumberSize(kind)).Fail? && TextAt([]).Fail? && CountAt([]).Fail?;
  }

  /** A tag cut somewhere takes all the input, and reads the very same with a zero byte more. */
  lemma {:induction false} CutTagSwallows(kind: Byte, depth: nat, s: Bytes)
    requires TagAt(kind, depth, s).Got? && !Whole(kind, depth, s)
    ensures TagAt(kind, depth, s).rest == [] && TagAt(kind, depth, s + [0]) == TagAt(kind, depth, s)
    decreases if depth > MAX_DEPTH then 0 else MAX_DEPTH + 1 - depth, 2, |s|
  {
    hide LooseAt, TextAt, CountAt, ElemsAt, EntriesAt, ElemsWhole;
    if NumberSize(kind) > 0 {
      NothingReads(kind, depth);
      LooseSwallows(s, NumberSize(kind));
    } else if ElementSize(kind) > 0 {
      NothingReads(kind, depth);
      CountSwallows(s);
    } else {
      var t := s[1..];
      assert (s + [0])[1..] == t + [0];
      if |s| < 5 {
        CutCount(s[0], depth, t);
      } else {
        CountStable(t, [0]);
        CutElemsSwallow(s[0], CountAt(t).value, depth, [], CountAt(t).rest);
      }
    }
  }

  lemma NoCount(t: Bytes)
    requires CountAt(t).Got?
    ensures t != []
  {
  }

  lemma CutCount(of: Byte, depth: nat, t: Bytes)
    requires depth <= MAX_DEPTH && |t| < 4 && CountAt(t).Got? && 0 <= CountAt(t).value
    requires ElemsAt(of, CountAt(t).value, depth, [], CountAt(t).rest).Got?
    ensures CountAt(t).value == 0 && CountAt(t).rest == [] && CountAt(t + [0]) == CountAt(t)
    ensures ElemsAt(of, 0, depth, [], []) == Got([], [])
  {
    NoCount(t);
    CountSwallows(t);
    NothingReads(of, depth + 1);
  }

  lemma {:induction false} CutElemsSwallow(of: Byte, n: nat, depth: nat, done: seq<Tag>, s: Bytes)
    requires depth <= MAX_DEPTH && ElemsAt(of, n, depth, done, s).Got? && !ElemsWhole(of, n, depth, s)
    ensures ElemsAt(of, n, depth, done, s).rest == []
    ensures ElemsAt(of, n, depth, done, s + [0]) == ElemsAt(of, n, depth, done, s)
    decreases MAX_DEPTH + 1 - depth, 1, n
  {
    hide TagAt, Whole;
    var tag := TagAt(of, depth + 1, s);
    if Whole(of, depth + 1, s) {
      TagStable(of, depth + 1, s, [0]);
      CutElemsSwallow(of, n - 1, depth, done + [tag.value], tag.rest);
    } else {
      CutTagSwallows(of, depth + 1, s);
      NothingReads(of, depth + 1);
    }
  }

  /** The reading of a tag is the same whatever follows exactly when nothing of it is cut. */
  lemma TagStableExactly(kind: Byte, depth: nat, s: Bytes)
    requires TagAt(kind, depth, s).Got?
    ensures (forall x :: TagAt(kind, depth, s + x) == Got(TagAt(kind, depth, s).value, TagAt(kind, depth, s).rest + x))
            <==> Whole(kind, depth, s)
  {
    hide TagAt, Whole;
    if Whole(kind, depth, s) {
      forall x ensures TagAt(kind, depth, s + x) == Got(TagAt(kind, depth, s).value, TagAt(kind, depth, s).rest + x) {
        TagStable(kind, depth, s, x);
      }
    } else {
      CutTagSwallows(kind, depth, s);
      assert |TagAt(kind, depth, s + [0]).rest| < |TagAt(kind, depth, s).rest + [0]|;
    }
  }

  /** Cut input that is accepted: one byte of an int, two of a list's five, a list's last element. */
  lemma CutTagsAccepted()
    ensures TagAt(3, 0, [7]) == Got(Number(3, [7, 0, 0, 0]), [])
    ensures TagAt(9, 0, [3, 0]) == Got(List(3, []), [])
    ensures TagAt(9, 0, [2, 0, 0, 0, 1, 7]) == Got(List(2, [Number(2, [7, 0])]), [])
  {
    CutCountAccepted();
    CutElementAccepted();
    assert LooseAt([7], 4).value == [7, 0, 0, 0] && LooseAt([7], 4).rest == [];
  }

  lemma CutCountAccepted()
    ensures TagAt(9, 0, [3, 0]) == Got(List(3, []), [])
  {
    assert LooseAt([0], 4).value == [0, 0, 0, 0] && LooseAt([0], 4).rest == [];
    assert CountAt([0]) == Got(0, []) && [3, 0][1..] == [0];
    NoElems(3, 0, [], []);
  }

  lemma CutElementAccepted()
    ensures TagAt(9, 0, [2, 0, 0, 0, 1, 7]) == Got(List(2, [Number(2, [7, 0])]), [])
  {
    var s: Bytes := [0, 0, 0, 1, 7];
    assert LooseAt(s, 4).value == [0, 0, 0, 1] && LooseAt(s, 4).rest == [7];
    assert CountAt(s) == Got(1, [7]);
    assert [2, 0, 0, 0, 1, 7][1..] == s;
    var last := Number(2, [7, 0]);
    assert LooseAt([7], 2).value == [7, 0] && LooseAt([7], 2).rest == [];
    assert TagAt(2, 1, [7]) == Got(last, []);
    assert ElemsAt(2, 1, 0, [], [7]) == ElemsAt(2, 0, 0, [] + [last], []);
    NoElems(2, 0, [] + [last], []);
    assert [] + [last] == [last];
  }

  /** What a root compound reads as does not depend on what follows it. */
  lemma RootStable()
    ensures Stable(RootAt) && Shrinks(RootAt)
  {
    forall s: Bytes, x: Bytes | RootAt(s).Got? ensures RootAt(s + x) == Got(RootAt(s).value, RootAt(s).rest + x) {
      hide TagAt;
      assert (s + x)[1..] == s[1..] + x;
      if s[0] != TAG_END {
        TagStable(TAG_COMPOUND, 0, s[1..], x);
      }
    }
  }

  // ---------------------------------------------------------------------------------
  // What was read is the encoding of what it reads as
  // ---------------------------------------------------------------------------------

  lemma LooseCanonical(s: Bytes, n: nat)
    requires LooseAt(s, n).Got? && |s| >= n
    ensures s == LooseAt(s, n).value + LooseAt(s, n).rest
  {
  }

  lemma FilledCanonical(s: Bytes, n: nat)
    requires FilledAt(s, n).Got?
    ensures s == FilledAt(s, n).value + FilledAt(s, n).rest
  {
  }

  lemma CountCanonical(s: Bytes)
    requires CountAt(s).Got? && CountAt(s).value >= 0 && |s| >= 4
    ensures s == Encode32(CountAt(s).value) + CountAt(s).rest
  {
    LooseCanonical(s, 4);
    var b, n := LooseAt(s, 4).value, CountAt(s).value;
    BigEndianCanonical(b, n);
  }

  lemma BigEndianCanonical(b: Bytes, n: int)
    requires |b| == 4 && n == BigEndian32(b) && n >= 0
    ensures Encode32(n) == b
  {
    var high, mid := b[0] as int * 0x100 + b[1] as int, b[2] as int * 0x100 + b[3] as int;
    assert n == high * 0x1_0000 + mid;
    PairOf(high, mid, 0x1_0000);
    PairOf(b[0], b[1], 0x100);
    PairOf(b[2], b[3], 0x100);
    assert n == (high * 0x100 + b[2] as int) * 0x100 + b[3] as int;
    PairOf(high * 0x100 + b[2] as int, b[3], 0x100);
    PairOf(high, b[2], 0x100);
    assert n == b[0] as int * 0x100_0000 + (b[1] as int * 0x1_0000 + mid);
    PairOf(b[0], b[1] as int * 0x1_0000 + mid, 0x100_0000);
  }

  lemma PairOf(high: nat, low: nat, size: nat)
    requires (size == 0x100 || size == 0x1_0000 || size == 0x100_0000) && low < size
    ensures (high * size + low) / size == high && (high * size + low) % size == low
  {
  }

  lemma TextCanonical(s: Bytes)
    requires TextAt(s).Got?
    ensures |TextAt(s).value| < 0x1_0000 && s == EncodeText(TextAt(s).value) + TextAt(s).rest
  {
    LooseCanonical(s, 2);
    var raw, t := LooseAt(s, 2).value, LooseAt(s, 2).rest;
    FilledCanonical(t, BigEndian16(raw));
    assert Encode16(BigEndian16(raw)) == raw;
  }

  lemma ArrayCanonical(kind: Byte, s: Bytes)
    requires ElementSize(kind) > 0 && ArrayAt(kind, s).Got? && |s| >= 4
    ensures var tag := ArrayAt(kind, s).value;
            && tag.Array? && tag.kind == kind && Encodable(tag) && WithinLimits(tag)
            && s == Encode(tag) + ArrayAt(kind, s).rest
  {
    hide CountAt, FilledAt, Encode32;
    CountCanonical(s);
    var n, t := CountAt(s).value, CountAt(s).rest;
    if n > 0 {
      FilledCanonical(t, n * ElementSize(kind));
    }
  }

  /**
    * What a tag was read from is exactly its encoding, within all limits, when nothing of it
    * was cut.
    */
  lemma {:induction false} TagCanonical(kind: Byte, depth: nat, s: Bytes)
    requires TagAt(kind, depth, s).Got? && Whole(kind, depth, s)
    ensures var r := TagAt(kind, depth, s);
            && Encodable(r.value) && KindOf(r.value) == kind && WithinLimits(r.value)
            && depth + Levels(r.value) <= MAX_DEPTH
            && s == Encode(r.value) + r.rest
    decreases if depth > MAX_DEPTH then 0 else MAX_DEPTH + 1 - depth, 2, |s|
  {
    hide LooseAt, TextAt, ArrayAt, CountAt, ElemsAt, EntriesAt, ElemsWhole, Encode32, EncodeText;
    if kind == TAG_BYTE {
      assert s == [s[0]] + s[1..];
    } else if NumberSize(kind) > 0 {
      LooseCanonical(s, NumberSize(kind));
    } else if kind == TAG_STRING {
      TextCanonical(s);
    } else if ElementSize(kind) > 0 {
      ArrayCanonical(kind, s);
    } else if kind == TAG_LIST {
      ListCanonical(depth, s);
    } else {
      var es := EntriesCanonical(depth, [], s);
      assert [] + es == es;
    }
  }

  lemma {:induction false} ListCanonical(depth: nat, s: Bytes)
    requires depth <= MAX_DEPTH && TagAt(TAG_LIST, depth, s).Got? && Whole(TAG_LIST, depth, s)
    ensures var r := TagAt(TAG_LIST, depth, s);
            && r.value.List? && Encodable(r.value) && WithinLimits(r.value)
            && depth + Levels(r.value) <= MAX_DEPTH && s == Encode(r.value) + r.rest
    decreases MAX_DEPTH + 1 - depth, 1, |s|
  {
    hide CountAt, ElemsAt, ElemsWhole, Encode32;
    var of, t := s[0], s[1..];
    var n, u := CountAt(t).value, CountAt(t).rest;
    CountCanonical(t);
    NoneWhole(of, depth, u);
    var es := ElemsCanonical(of, n, depth, [], u);
    assert [] + es == es;
    var rest := TagAt(TAG_LIST, depth, s).rest;
    FourParts([of], Encode32(n), EncodeElems(of, es), rest);
    assert s == [of] + t;
  }

  lemma NoneWhole(of: Byte, depth: nat, s: Bytes)
    requires depth <= MAX_DEPTH
    ensures ElemsWhole(of, 0, depth, s)
  {
  }

  lemma {:induction false} ElemsCanonical(of: Byte, n: nat, depth: nat, done: seq<Tag>, s: Bytes) returns (es: seq<Tag>)
    requires depth <= MAX_DEPTH && ElemsAt(of, n, depth, done, s).Got? && ElemsWhole(of, n, depth, s)
    ensures var r := ElemsAt(of, n, depth, done, s);
            && r.value == done + es && |es| == n && EncodableElems(of, es) && ElemsWithinLimits(es)
            && depth + ElemLevels(es) <= MAX_DEPTH && s == EncodeElems(of, es) + r.rest
    decreases MAX_DEPTH + 1 - depth, 0, n
  {
    hide TagAt, Whole, Encode, Encodable, Levels, WithinLimits;
    if n == 0 {
      es := [];
    } else {
      var tag := TagAt(of, depth + 1, s);
      TagCanonical(of, depth + 1, s);
      var tail := ElemsCanonical(of, n - 1, depth, done + [tag.value], tag.rest);
      es := [tag.value] + tail;
      assert es[1..] == tail && done + [tag.value] + tail == done + es;
    }
  }

  lemma {:induction false} EntriesCanonical(depth: nat, done: seq<Entry>, s: Bytes) returns (es: seq<Entry>)
    requires depth <= MAX_DEPTH && EntriesAt(depth, done, s).Got?
    ensures var r := EntriesAt(depth, done, s);
            && r.value == done + es && EncodableEntries(es) && EntriesWithinLimits(es)
            && depth + EntryLevels(es) <= MAX_DEPTH && s == EncodeEntries(es) + r.rest
    decreases MAX_DEPTH + 1 - depth, 0, |s|
  {
    hide TagAt, TextAt, Whole, Encode, Encodable, Levels, WithinLimits, EncodeText;
    assert s == [s[0]] + s[1..];
    if s[0] == TAG_END {
      es := [];
    } else {
      TextCanonical(s[1..]);
      var name := TextAt(s[1..]);
      var tag := TagAt(s[0], depth + 1, name.rest);
      EntriesNeedInput(depth, done + [Entry(name.value, tag.value)], tag.rest);
      RestMeansWhole(s[0], depth + 1, name.rest);
      TagCanonical(s[0], depth + 1, name.rest);
      var e := Entry(name.value, tag.value);
      var tail := EntriesCanonical(depth, done + [e], tag.rest);
      es := [e] + tail;
      assert es[1..] == tail && done + [e] + tail == done + es;
      FourParts([s[0]] + EncodeText(e.name), Encode(e.tag), EncodeEntries(tail), EntriesAt(depth, done, s).rest);
    }
  }

  /**
    * Whatever bytes a root compound is read from: they are a lone end tag, or the encoding of
    * the compound read, nested at most 32 deep and without too long an array or list.
    */
  lemma RootCanonical(s: Bytes)
    requires RootAt(s).Got?
    ensures var r := RootAt(s);
            || (r.value == Compound([]) && s == [0] + r.rest)
            || (&& r.value.Compound? && Encodable(r.value) && Readable(r.value)
                && s == [10] + Encode(r.value) + r.rest)
  {
    hide TagAt, Encode, Encodable, Levels, WithinLimits;
    assert s == [s[0]] + s[1..];
    if s[0] == TAG_COMPOUND {
      CompoundWhole(s[1..]);
      TagCanonical(TAG_COMPOUND, 0, s[1..]);
      KindIsCompound(RootAt(s).value);
    }
  }

  lemma CompoundWhole(s: Bytes)
    ensures Whole(TAG_COMPOUND, 0, s)
  {
  }

  lemma KindIsCompound(tag: Tag)
    requires Encodable(tag) && KindOf(tag) == TAG_COMPOUND
    ensures tag.Compound?
  {
  }
}
