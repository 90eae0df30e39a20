/** The book components of an item stack: decoding, and the lectern's view of them. */
module Books {
  import opened MachineInts
  import opened Wire

  const WRITABLE_BOOK := 45
  const WRITTEN_BOOK := 46
  const TAG_STRING := 8
  const MAX_PAGES := 100

  datatype Page = Page(text: Bytes)

  /** A stack of items: how many, and the encoded components they carry. */
  datatype Stack = Stack(count: int, components: Bytes)

  /** What a book stack's components say. */
  datatype Book = Book(written: bool, title: Bytes, author: Bytes, generation: int, pages: seq<Page>)

  // ---------------------------------------------------------------------------------
  // What the bytes mean
  // ---------------------------------------------------------------------------------

  /** An optional filtered string, passed over. */
  function FilteredAt(s: Bytes): Read<()> {
    var (has, t) :- ByteAt(s);
    if has == 0 then Got((), t)
    else
      var (_, u) :- StringAt(t);
      Got((), u)
  }

  /** A bare network-NBT string tag; one of length 0 cannot be the last thing in the input. */
  function NbtStringAt(s: Bytes): Read<Bytes> {
    var (hdr, t) :- ChunkAt(s, 3);
    if |hdr| != 3 || hdr[0] != TAG_STRING then Fail else FilledAt(t, hdr[1] as int * 256 + hdr[2] as int)
  }

  /** An optional filtered text component, passed over. */
  function FilteredNbtAt(s: Bytes): Read<()> {
    var (has, t) :- ByteAt(s);
    if has == 0 then Got((), t)
    else
      var (_, u) :- NbtStringAt(t);
      Got((), u)
  }

  function WritablePageAt(s: Bytes): Read<Page> {
    var (p, t) :- StringAt(s);
    var (_, u) :- FilteredAt(t);
    Got(Page(p), u)
  }

  function WrittenPageAt(s: Bytes): Read<Page> {
    var (p, t) :- NbtStringAt(s);
    var (_, u) :- FilteredNbtAt(t);
    Got(Page(p), u)
  }

  function PagesAt(page: Bytes -> Read<Page>, s: Bytes): Read<seq<Page>> {
    var (n, t) :- VarIntAt(s);
    if n < 0 || n > MAX_PAGES then Fail else RepeatAt(page, n, [], t)
  }

  function WritableAt(s: Bytes): Read<Book> {
    var (pages, t) :- PagesAt(WritablePageAt, s);
    Got(Book(false, [], [], 0, pages), t)
  }

  function WrittenAt(s: Bytes): Read<Book> {
    var (title, t) :- StringAt(s);
    var (_, u) :- FilteredAt(t);
    SignedAt(title, u)
  }

  function SignedAt(title: Bytes, s: Bytes): Read<Book> {
    var (author, t) :- StringAt(s);
    var (generation, u) :- VarIntAt(t);
    var (pages, v) :- PagesAt(WrittenPageAt, u);
    Got(Book(true, title, author, generation, pages), v)
  }

  function BookOfKindAt(s: Bytes): Read<Book> {
    var (id, t) :- VarIntAt(s);
    if id == WRITTEN_BOOK then WrittenAt(t) else if id == WRITABLE_BOOK then WritableAt(t) else Fail
  }

  /** Add count, remove count, then the first component, which has to be a book. */
  function BookAt(s: Bytes): Read<Book> {
    var (added, t) :- VarIntAt(s);
    if added <= 0 then Fail
    else
      var (_, u) :- VarIntAt(t);
      BookOfKindAt(u)
  }

  // ---------------------------------------------------------------------------------
  // The decoder
  // ---------------------------------------------------------------------------------

  method SkipFiltered(r: Reader) returns (ok: bool)
    requires r.Valid()
    modifies r`pos
    ensures r.Valid()
    ensures FilteredAt(old(r.Rest())) == if ok then Got((), r.Rest()) else Fail
  {
    var has := r.ReadByte();
    if has.None? {
      return false;
    }
    if has.value != 0 {
      var text := r.ReadString();
      if text.None? {
        return false;
      }
    }
    return true;
  }

  method ReadNbtString(r: Reader) returns (text: Option<Bytes>)
    requires r.Valid()
    modifies r`pos
    ensures r.Valid()
    ensures match text
            case None => NbtStringAt(old(r.Rest())).Fail?
            case Some(t) => NbtStringAt(old(r.Rest())) == Got(t, r.Rest())
  {
    var hdr := r.Read(3);
    if hdr.None? || |hdr.value| != 3 || hdr.value[0] != TAG_STRING {
      return None;
    }
    var length := hdr.value[1] as int * 256 + hdr.value[2] as int;
    var buf := r.Read(length);
    if buf.None? || |buf.value| != length {
      return None;
    }
    return buf;
  }

  method SkipFilteredNbt(r: Reader) returns (ok: bool)
    requires r.Valid()
    modifies r`pos
    ensures r.Valid()
    ensures FilteredNbtAt(old(r.Rest())) == if ok then Got((), r.Rest()) else Fail
  {
    var has := r.ReadByte();
    if has.None? {
      return false;
    }
    if has.value != 0 {
      var text := ReadNbtString(r);
      if text.None? {
        return false;
      }
    }
    return true;
  }

  method ReadWrittenPage(r: Reader) returns (page: Option<Page>)
    requires r.Valid()
    modifies r`pos
    ensures r.Valid()
    ensures match page
            case None => WrittenPageAt(old(r.Rest())).Fail?
            case Some(p) => WrittenPageAt(old(r.Rest())) == Got(p, r.Rest())
  {
    var p := ReadNbtString(r);
    if p.None? {
      return None;
    }
    var ok := SkipFilteredNbt(r);
    return if ok then Some(Page(p.value)) else None;
  }

  method ReadWritablePage(r: Reader) returns (page: Option<Page>)
    requires r.Valid()
    modifies r`pos
    ensures r.Valid()
    ensures match page
            case None => WritablePageAt(old(r.Rest())).Fail?
            case Some(p) => WritablePageAt(old(r.Rest())) == Got(p, r.Rest())
  {
    var p := r.ReadString();
    if p.None? {
      return None;
    }
    var ok := SkipFiltered(r);
    return if ok then Some(Page(p.value)) else None;
  }

  function PageOf(written: bool): Bytes -> Read<Page> {
    if written then WrittenPageAt else WritablePageAt
  }

  method ReadPage(r: Reader, written: bool) returns (page: Option<Page>)
    requires r.Valid()
    modifies r`pos
    ensures r.Valid()
    ensures match page
            case None => PageOf(written)(old(r.Rest())).Fail?
            case Some(p) => PageOf(written)(old(r.Rest())) == Got(p, r.Rest())
  {
    if written {
      page := ReadWrittenPage(r);
    } else {
      page := ReadWritablePage(r);
    }
  }

  method ReadPages(r: Reader, written: bool) returns (pages: Option<seq<Page>>)
    requires r.Valid()
    modifies r`pos
    ensures r.Valid()
    ensures match pages
            case None => PagesAt(PageOf(written), old(r.Rest())).Fail?
            case Some(ps) => PagesAt(PageOf(written), old(r.Rest())) == Got(ps, r.Rest())
  {
    hide PageOf, VarIntAt;
    var n := r.ReadVarInt();
    if n.None? || n.value < 0 || n.value > MAX_PAGES {
      return None;
    }
    ghost var page, start := PageOf(written), r.Rest();
    var ps: seq<Page> := [];
    for i := 0 to n.value
      invariant r.Valid()
      invariant RepeatAt(page, n.value, [], start) == RepeatAt(page, n.value - i, ps, r.Rest())
    {
      var p := ReadPage(r, written);
      if p.None? {
        return None;
      }
      ps := ps + [p.value];
    }
    return Some(ps);
  }

  method ReadWritten(r: Reader) returns (book: Option<Book>)
    requires r.Valid()
    modifies r`pos
    ensures r.Valid()
    ensures match book
            case None => WrittenAt(old(r.Rest())).Fail?
            case Some(b) => WrittenAt(old(r.Rest())) == Got(b, r.Rest())
  {
    var title := r.ReadString();
    if title.None? {
      return None;
    }
    var ok := SkipFiltered(r);
    if !ok {
      return None;
    }
    var author := r.ReadString();
    if author.None? {
      return None;
    }
    var generation := r.ReadVarInt();
    if generation.None? {
      return None;
    }
    var pages := ReadPages(r, true);
    if pages.None? {
      return None;
    }
    return Some(Book(true, title.value, author.value, generation.value, pages.value));
  }

  method ReadBookOfKind(r: Reader) returns (book: Option<Book>)
    requires r.Valid()
    modifies r`pos
    ensures r.Valid()
    ensures match book
            case None => BookOfKindAt(old(r.Rest())).Fail?
            case Some(b) => BookOfKindAt(old(r.Rest())) == Got(b, r.Rest())
  {
    hide VarIntAt, WrittenAt, PagesAt;
    var id := r.ReadVarInt();
    if id.None? {
      return None;
    }
    if id.value == WRITTEN_BOOK {
      book := ReadWritten(r);
    } else if id.value == WRITABLE_BOOK {
      var pages := ReadPages(r, false);
      if pages.None? {
        return None;
      }
      return Some(Book(false, [], [], 0, pages.value));
    } else {
      return None;
    }
  }

  method ParseBook(components: Bytes) returns (book: Option<Book>)
    ensures book == match BookAt(components) case Fail => None case Got(b, _) => Some(b)
  {
    hide VarIntAt, BookOfKindAt;
    var r := new Reader(components);
    var added := r.ReadVarInt();
    if added.None? || added.value <= 0 {
      return None;
    }
    var removed := r.ReadVarInt();
    if removed.None? {
      return None;
    }
    book := ReadBookOfKind(r);
  }

  /** The Bedrock tag of a book stack: its page texts, and who signed a written one. */
  datatype Signature = Signature(title: Bytes, author: Bytes, generation: int)
  datatype BookTag = BookTag(pages: seq<Page>, signature: Option<Signature>)

  lemma NoComponentsNoBook(components: Bytes)
    requires components == []
    ensures BookAt(components).Fail?
  {
    assert VarIntAt(components).Fail?;
  }

  method BookNbt(components: Bytes) returns (tag: Option<BookTag>)
    ensures tag.Some? <==> BookAt(components).Got?
    ensures tag.Some? ==>
              var b := BookAt(components).value;
              && tag.value.pages == b.pages && (tag.value.signature.Some? <==> b.written)
              && (b.written ==> tag.value.signature.value.title == b.title
                                && tag.value.signature.value.author == b.author
                                && tag.value.signature.value.generation == b.generation)
  {
    hide BookAt;
    if |components| == 0 {
      NoComponentsNoBook(components);
      return None;
    }
    var book := ParseBook(components);
    if book.None? {
      return None;
    }
    var b := book.value;
    var pages: seq<Page> := [];
    for i := 0 to |b.pages|
      invariant pages == b.pages[..i]
    {
      pages := pages + [b.pages[i]];
    }
    assert b.pages[..|b.pages|] == b.pages;
    tag := Some(BookTag(pages, None));
    if b.written {
      tag := Some(BookTag(pages, Some(Signature(b.title, b.author, b.generation))));
    }
  }

  /** The page count a lectern announces: none without a book, else at least one. */
  method LecternTotalPages(book: Stack) returns (total: Option<nat>)
    ensures total == if book.count <= 0 then None
                     else match BookAt(book.components)
                          case Fail => Some(1)
                          case Got(b, _) => Some(if b.pages == [] then 1 else |b.pages|)
  {
    hide BookAt;
    total := None;
    if book.count > 0 {
      total := Some(1);
      var tag := BookNbt(book.components);
      if tag.Some? {
        var n := |tag.value.pages|;
        if n > 0 {
          total := Some(n);
        }
      }
    }
  }

  // ---------------------------------------------------------------------------------
  // Decoding undoes encoding
  // ---------------------------------------------------------------------------------

  // From here on the wire format is written out in numbers, apart from the decoder's names for
  // them: 45 a book and quill, 46 a written book, 8 a string tag.

  /** A filtered variant: present when the flag byte is not zero. */
  datatype Filtered = Filtered(flag: Byte, text: Bytes)
  datatype WirePage = WirePage(text: Bytes, filtered: Filtered)

  type Short = t: Bytes | |t| < 0x1_0000
  type Text = t: Bytes | |t| < TWO_TO_31
  type StringPage = p: WirePage | |p.text| < TWO_TO_31 && |p.filtered.text| < TWO_TO_31
    witness WirePage([], Filtered(0, []))
  type NbtPage = p: WirePage | |p.text| < 0x1_0000 && |p.filtered.text| < 0x1_0000
    witness WirePage([], Filtered(0, []))

  function EncodeFiltered(f: Filtered): Bytes
    requires |f.text| < TWO_TO_31
  {
    [f.flag] + if f.flag == 0 then [] else EncodeString(f.text)
  }

  function EncodeNbtString(t: Short): Bytes {
    [8, |t| / 256, |t| % 256] + t
  }

  function EncodeFilteredNbt(f: Filtered): Bytes
    requires |f.text| < 0x1_0000
  {
    [f.flag] + if f.flag == 0 then [] else EncodeNbtString(f.text)
  }

  function EncodeWritablePage(p: StringPage): Bytes {
    EncodeString(p.text) + EncodeFiltered(p.filtered)
  }

  function EncodeWrittenPage(p: NbtPage): (r: Bytes)
    ensures r != []
  {
    EncodeNbtString(p.text) + EncodeFilteredNbt(p.filtered)
  }

  function PageText(p: WirePage): Page {
    Page(p.text)
  }

  /** The page texts, in order. */
  function Texts(pages: seq<WirePage>): (r: seq<Page>)
    ensures |r| == |pages| && forall i :: 0 <= i < |pages| ==> r[i] == Page(pages[i].text)
  {
    seq(|pages|, i requires 0 <= i < |pages| => PageText(pages[i]))
  }

  function EncodeHead(added: Int32, removed: Int32, id: Int32): Bytes {
    EncodeVarInt(added) + EncodeVarInt(removed) + EncodeVarInt(id)
  }

  function EncodeWritable(pages: seq<StringPage>): Bytes
    requires |pages| < TWO_TO_31
  {
    EncodeVarInt(|pages|) + EncodeAll(EncodeWritablePage, pages)
  }

  function EncodeWritten(title: Text, filtered: Filtered, author: Text, generation: Int32, pages: seq<NbtPage>): Bytes
    requires |filtered.text| < TWO_TO_31 && |pages| < TWO_TO_31
  {
    EncodeString(title) + EncodeFiltered(filtered)
    + (EncodeString(author)
       + (EncodeVarInt(generation) + (EncodeVarInt(|pages|) + EncodeAll(EncodeWrittenPage, pages))))
  }

  lemma HeadRoundTrip(added: Int32, removed: Int32, id: Int32, body: Bytes)
    ensures BookAt(EncodeHead(added, removed, id) + body)
            == if added <= 0 then Fail
               else if id == 46 then WrittenAt(body)
               else if id == 45 then WritableAt(body) else Fail
  {
    FourParts(EncodeVarInt(added), EncodeVarInt(removed), EncodeVarInt(id), body);
    VarIntRoundTrip(added, EncodeVarInt(removed) + (EncodeVarInt(id) + body));
    VarIntRoundTrip(removed, EncodeVarInt(id) + body);
    VarIntRoundTrip(id, body);
  }

  lemma FilteredRoundTrip(f: Filtered, rest: Bytes)
    requires |f.text| < TWO_TO_31
    ensures FilteredAt(EncodeFiltered(f) + rest) == Got((), rest)
  {
    var s := EncodeFiltered(f) + rest;
    if f.flag == 0 {
      assert s[1..] == rest;
    } else {
      assert s[1..] == EncodeString(f.text) + rest;
      StringRoundTrip(f.text, rest);
    }
  }

  /** An NBT string reads back, except an empty one at the very end of the input. */
  lemma NbtStringRoundTrip(t: Short, rest: Bytes)
    ensures NbtStringAt(EncodeNbtString(t) + rest) == if t == [] && rest == [] then Fail else Got(t, rest)
  {
    var s := EncodeNbtString(t) + rest;
    var hdr: Bytes := [8, |t| / 256, |t| % 256];
    assert s[..3] == hdr && s[3..] == t + rest;
    FilledRoundTrip(t, rest);
  }

  /** The flagged but empty filtered variant, which cannot be the last thing in the input. */
  predicate EndsEmpty(f: Filtered) {
    f.flag != 0 && f.text == []
  }

  lemma FilteredNbtRoundTrip(f: Filtered, rest: Bytes)
    requires |f.text| < 0x1_0000
    ensures FilteredNbtAt(EncodeFilteredNbt(f) + rest) == if EndsEmpty(f) && rest == [] then Fail else Got((), rest)
  {
    var s := EncodeFilteredNbt(f) + rest;
    if f.flag == 0 {
      assert s[1..] == rest;
    } else {
      assert s[1..] == EncodeNbtString(f.text) + rest;
      NbtStringRoundTrip(f.text, rest);
    }
  }

  lemma WritablePageRoundTrip(p: StringPage, rest: Bytes)
    ensures WritablePageAt(EncodeWritablePage(p) + rest) == Got(PageText(p), rest)
  {
    assert EncodeWritablePage(p) + rest == EncodeString(p.text) + (EncodeFiltered(p.filtered) + rest);
    StringRoundTrip(p.text, EncodeFiltered(p.filtered) + rest);
    FilteredRoundTrip(p.filtered, rest);
  }

  lemma WrittenPageRoundTrip(p: NbtPage, rest: Bytes)
    ensures WrittenPageAt(EncodeWrittenPage(p) + rest)
            == if EndsEmpty(p.filtered) && rest == [] then Fail else Got(PageText(p), rest)
  {
    assert EncodeWrittenPage(p) + rest == EncodeNbtString(p.text) + (EncodeFilteredNbt(p.filtered) + rest);
    NbtStringRoundTrip(p.text, EncodeFilteredNbt(p.filtered) + rest);
    FilteredNbtRoundTrip(p.filtered, rest);
  }

  lemma {:induction false} WrittenPagesRoundTrip(pages: seq<NbtPage>, done: seq<Page>, rest: Bytes)
    ensures RepeatAt(WrittenPageAt, |pages|, done, EncodeAll(EncodeWrittenPage, pages) + rest)
            == if rest == [] && pages != [] && EndsEmpty(pages[|pages| - 1].filtered) then Fail
               else Got(done + Texts(pages), rest)
  {
    hide WrittenPageAt, EncodeWrittenPage, EndsEmpty;
    if pages == [] {
      assert [] + rest == rest && done + [] == done;
    } else {
      var tail := EncodeAll(EncodeWrittenPage, pages[1..]) + rest;
      assert EncodeAll(EncodeWrittenPage, pages) + rest == EncodeWrittenPage(pages[0]) + tail;
      WrittenPageRoundTrip(pages[0], tail);
      if |pages| == 1 {
        assert tail == rest;
      } else {
        assert tail != [];
      }
      WrittenPagesRoundTrip(pages[1..], done + [PageText(pages[0])], rest);
      assert done + [PageText(pages[0])] + Texts(pages[1..]) == done + Texts(pages);
    }
  }

  lemma WritablePagesAt(pages: seq<StringPage>, rest: Bytes)
    requires |pages| < TWO_TO_31
    ensures PagesAt(WritablePageAt, EncodeWritable(pages) + rest)
            == if |pages| > 100 then Fail else Got(Texts(pages), rest)
  {
    hide WritablePageAt, VarIntAt, RepeatAt, EncodeAll, EncodeVarInt;
    var body := EncodeAll(EncodeWritablePage, pages) + rest;
    assert EncodeWritable(pages) + rest == EncodeVarInt(|pages|) + body;
    VarIntRoundTrip(|pages|, body);
    forall p: StringPage, x: Bytes ensures WritablePageAt(EncodeWritablePage(p) + x) == Got(PageText(p), x) {
      WritablePageRoundTrip(p, x);
    }
    var image := (p: StringPage) => PageText(p);
    RepeatRoundTrip(EncodeWritablePage, WritablePageAt, (p: StringPage) => true, image, pages, [], rest);
    assert [] + Images(image, pages) == Texts(pages);
  }

  /** A writable book of at most 100 pages reads back page by page, whatever follows. */
  lemma WritableRoundTrip(added: Int32, removed: Int32, pages: seq<StringPage>, rest: Bytes)
    requires |pages| < TWO_TO_31
    ensures BookAt(EncodeHead(added, removed, 45) + (EncodeWritable(pages) + rest))
            == if added > 0 && |pages| <= 100
               then Got(Book(false, [], [], 0, Texts(pages)), rest) else Fail
  {
    hide BookAt, PagesAt, WrittenAt, EncodeHead, EncodeWritable;
    HeadRoundTrip(added, removed, 45, EncodeWritable(pages) + rest);
    WritablePagesAt(pages, rest);
  }

  lemma WrittenPagesAt(pages: seq<NbtPage>, rest: Bytes)
    requires |pages| < TWO_TO_31
    ensures PagesAt(WrittenPageAt, EncodeVarInt(|pages|) + EncodeAll(EncodeWrittenPage, pages) + rest)
            == if |pages| > 100 || (rest == [] && pages != [] && EndsEmpty(pages[|pages| - 1].filtered))
               then Fail else Got(Texts(pages), rest)
  {
    hide WrittenPageAt, VarIntAt, RepeatAt, EncodeAll, EncodeVarInt;
    var body := EncodeAll(EncodeWrittenPage, pages) + rest;
    assert EncodeVarInt(|pages|) + EncodeAll(EncodeWrittenPage, pages) + rest == EncodeVarInt(|pages|) + body;
    VarIntRoundTrip(|pages|, body);
    WrittenPagesRoundTrip(pages, [], rest);
    assert [] + Texts(pages) == Texts(pages);
  }

  /**
    * A written book of at most 100 pages reads back title, author, generation and pages,
    * whatever its filtered variants say, exactly when something follows it or its last page
    * does not carry an empty filtered variant.
    */
  lemma WrittenRoundTrip(
    added: Int32, removed: Int32, title: Text, filtered: Filtered, author: Text, generation: Int32,
    pages: seq<NbtPage>, rest: Bytes
  )
    requires |filtered.text| < TWO_TO_31 && |pages| < TWO_TO_31
    ensures BookAt(EncodeHead(added, removed, 46)
                   + (EncodeWritten(title, filtered, author, generation, pages) + rest))
            == if added > 0 && |pages| <= 100
                  && (rest != [] || pages == [] || !EndsEmpty(pages[|pages| - 1].filtered))
               then Got(Book(true, title, author, generation, Texts(pages)), rest) else Fail
  {
    hide BookAt, VarIntAt, StringAt, FilteredAt, PagesAt;
    hide EncodeAll, EncodeVarInt, EncodeString, EncodeFiltered, EncodeHead;
    var listed := EncodeVarInt(|pages|) + EncodeAll(EncodeWrittenPage, pages);
    var signed := EncodeString(author) + (EncodeVarInt(generation) + listed);
    HeadRoundTrip(added, removed, 46, EncodeWritten(title, filtered, author, generation, pages) + rest);
    FourParts(EncodeString(title), EncodeFiltered(filtered), signed, rest);
    StringRoundTrip(title, EncodeFiltered(filtered) + (signed + rest));
    FilteredRoundTrip(filtered, signed + rest);
    FourParts(EncodeString(author), EncodeVarInt(generation), listed, rest);
    assert signed + rest == EncodeString(author) + (EncodeVarInt(generation) + (listed + rest));
    StringRoundTrip(author, EncodeVarInt(generation) + (listed + rest));
    VarIntRoundTrip(generation, listed + rest);
    WrittenPagesAt(pages, rest);
  }

  // ---------------------------------------------------------------------------------
  // Cut books
  // ---------------------------------------------------------------------------------

  lemma FilteredStable()
    ensures Stable(FilteredAt) && Shrinks(FilteredAt)
  {
    ByteStable();
    StringStable();
    forall s: Bytes, x: Bytes | FilteredAt(s).Got?
      ensures FilteredAt(s + x) == Got(FilteredAt(s).value, FilteredAt(s).rest + x)
    {
      StableAt(ByteAt, s, x);
      StableAt(StringAt, s[1..], x);
    }
  }

  lemma NbtStringStable()
    ensures Stable(NbtStringAt) && Shrinks(NbtStringAt)
  {
    forall s: Bytes, x: Bytes | NbtStringAt(s).Got?
      ensures NbtStringAt(s + x) == Got(NbtStringAt(s).value, NbtStringAt(s).rest + x)
    {
      assert (s + x)[..3] == s[..3] && (s + x)[3..] == s[3..] + x;
      var t, n := s[3..], s[1] as int * 256 + s[2] as int;
      FilledStable(t, n, x);
    }
  }

  lemma FilteredNbtStable()
    ensures Stable(FilteredNbtAt) && Shrinks(FilteredNbtAt)
  {
    ByteStable();
    NbtStringStable();
    forall s: Bytes, x: Bytes | FilteredNbtAt(s).Got?
      ensures FilteredNbtAt(s + x) == Got(FilteredNbtAt(s).value, FilteredNbtAt(s).rest + x)
    {
      StableAt(ByteAt, s, x);
      StableAt(NbtStringAt, s[1..], x);
    }
  }

  lemma WritablePageStable()
    ensures Stable(WritablePageAt) && Shrinks(WritablePageAt)
  {
    StringStable();
    FilteredStable();
    forall s: Bytes, x: Bytes | WritablePageAt(s).Got?
      ensures WritablePageAt(s + x) == Got(WritablePageAt(s).value, WritablePageAt(s).rest + x)
    {
      StableAt(StringAt, s, x);
      StableAt(FilteredAt, StringAt(s).rest, x);
    }
  }

  lemma WrittenPageStable()
    ensures Stable(WrittenPageAt) && Shrinks(WrittenPageAt)
  {
    NbtStringStable();
    FilteredNbtStable();
    forall s: Bytes, x: Bytes | WrittenPageAt(s).Got?
      ensures WrittenPageAt(s + x) == Got(WrittenPageAt(s).value, WrittenPageAt(s).rest + x)
    {
      StableAt(NbtStringAt, s, x);
      StableAt(FilteredNbtAt, NbtStringAt(s).rest, x);
    }
  }

  lemma PagesStable(page: Bytes -> Read<Page>, s: Bytes, x: Bytes)
    requires Stable(page) && Shrinks(page)
    requires PagesAt(page, s).Got?
    ensures PagesAt(page, s + x) == Got(PagesAt(page, s).value, PagesAt(page, s).rest + x)
    ensures |PagesAt(page, s).rest| <= |s|
  {
    VarIntStable();
    StableAt(VarIntAt, s, x);
    RepeatStable(page, VarIntAt(s).value, [], VarIntAt(s).rest, x);
  }

  lemma SignedStable(title: Bytes, s: Bytes, x: Bytes)
    requires SignedAt(title, s).Got?
    ensures SignedAt(title, s + x) == Got(SignedAt(title, s).value, SignedAt(title, s).rest + x)
    ensures |SignedAt(title, s).rest| <= |s|
  {
    StringStable();
    VarIntStable();
    WrittenPageStable();
    StableAt(StringAt, s, x);
    var t := StringAt(s).rest;
    StableAt(VarIntAt, t, x);
    PagesStable(WrittenPageAt, VarIntAt(t).rest, x);
  }

  lemma BookOfKindStable(s: Bytes, x: Bytes)
    requires BookOfKindAt(s).Got?
    ensures BookOfKindAt(s + x) == Got(BookOfKindAt(s).value, BookOfKindAt(s).rest + x)
    ensures |BookOfKindAt(s).rest| <= |s|
  {
    VarIntStable();
    StableAt(VarIntAt, s, x);
    var t := VarIntAt(s).rest;
    if VarIntAt(s).value == 46 {
      StringStable();
      FilteredStable();
      StableAt(StringAt, t, x);
      StableAt(FilteredAt, StringAt(t).rest, x);
      SignedStable(StringAt(t).value, FilteredAt(StringAt(t).rest).rest, x);
    } else {
      WritablePageStable();
      PagesStable(WritablePageAt, t, x);
    }
  }

  lemma BookStable()
    ensures Stable(BookAt) && Shrinks(BookAt)
  {
    VarIntStable();
    forall s: Bytes, x: Bytes | BookAt(s).Got?
      ensures BookAt(s + x) == Got(BookAt(s).value, BookAt(s).rest + x)
    {
      StableAt(VarIntAt, s, x);
      var t := VarIntAt(s).rest;
      StableAt(VarIntAt, t, x);
      BookOfKindStable(VarIntAt(t).rest, x);
    }
    forall s: Bytes | BookAt(s).Got? ensures |BookAt(s).rest| <= |s| {
      BookOfKindStable(VarIntAt(VarIntAt(s).rest).rest, []);
    }
  }

  /** Components cut before the end of the last page are not a book; what follows it is not read. */
  lemma CutBookRejected(s: Bytes, k: nat)
    requires BookAt(s).Got? && k <= |s|
    ensures k < |s| - |BookAt(s).rest| ==> BookAt(s[..k]).Fail?
    ensures BookAt(s[..k]).Got? ==> BookAt(s[..k]).value == BookAt(s).value
  {
    BookStable();
    if k < |s| - |BookAt(s).rest| {
      CutRejected(BookAt, s, k);
    }
    assert s[..k] + s[k..] == s;
    StableAt(BookAt, s[..k], s[k..]);
  }
}
