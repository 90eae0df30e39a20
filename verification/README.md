# Verified model of the Bedrock gateway's decoders and trackers

The gateway turns a world's Java-edition frames into Bedrock packets. A few of its files hold
logic that can go wrong in interesting ways: two wire decoders, a page editor, an
incremental advancement book, a per-block state machine with machine arithmetic, a chunk
walk over a recursive tag format, and the evaluation of attributes. This project models
them in Dafny and proves what they are for, over every input and every run.

How it is laid out:

- `MachineInts.dfy`: 32- and 8-bit wrap-around and truncating division, written out.
- `Wire.dfy`: VarInts, strings, the byte reader (a class with a position), repetition, and
  the two facts every decoder here is built on: decoding undoes encoding, and a success
  depends on the consumed bytes alone (*stability*, which gives both "whatever follows" and
  "every cut is rejected").
- `Ordering.dfy`: bytewise string order, sorting, and folds that cannot see order.
- `Commands.dfy`: the command-tree decoder.
- `Books.dfy`, `PageEdits.dfy`: book components, and editing them page by page.
- `Advancements.dfy`, `AdvHistory.dfy`: the advancement book and its toasts, and the book over
  its whole life.
- `BlockCrack.dfy`: the block-crack tracker.
- `JavaNbt.dfy`: network NBT.
- `EntityContents.dfy`, `BlockEntities.dfy`: what a block entity's tag says, and the block
  entities of a chunk.
- `Signs.dfy`: a sign's lines and its one text, both ways.
- `StandingEntities.dfy`: block entities from the bytes of a chunk's section to the packets.
- `Attributes.dfy`: attribute evaluation.

The form follows the code. A decoder is a method that advances a `Reader`; its contract ties
it to a function from bytes to a value and the bytes left (`TreeAt`, `BookAt`, `TagAt`, ...).
The trackers are classes whose methods update their map fields; their contracts give the
whole new state as a function of the old one. The lemmas then say what those functions mean.

The laws do not lean on the decoders' own vocabulary. Where bytes are encoded, flags, kinds,
widths, field names and limits are written out as numbers and literals; completion is told
group by group from the frames that reported criteria; a crack stage is a progress of 0 to 9;
a page map is edited by its own point updates. So a law also fails when a decoder and the
function it is tied to agree on the wrong bit, width, limit or quantifier.

Where code and comment, or code and expectation, differ, the code is modelled:

- The crack tracker's header comment has an event carry 65535 over the ticks remaining; the
  code divides by the stages remaining and *multiplies* by the pace, in int32.
  `BlockCrack.CommentVersusCode` says exactly when the two agree, whatever the ticks: at one
  tick a stage. `BlockCrack.CommentDiffers` is a block at 24 ticks a stage: 174744 against 303.
- A command tree whose root has a negative child index is not torn for the code: indexing
  the nodes with it is a run-time fault. `Commands.ListingOfEncoding` says exactly when.
- An empty NBT string cannot be the last thing in the input, because reading into an empty
  buffer at the end of the input is an error. `Books.WrittenRoundTrip` and
  `JavaNbt.TagRoundTrip` carry the exact condition.
- Nodes loaded after their criteria have arrived are not evaluated until a later entry names
  the advancement. `AdvHistory.CompleteByHistory` says exactly what is complete after any
  trees and frames in any order, `AdvHistory.AnnouncedByHistory` what has been announced;
  `Advancements.LateTreeWaits` is a run in which the book waits for the next mention.
- Replacing two distinct pages commutes only up to blank pages.
  `PageEdits.ReplacesNeedNotCommuteExactly` shows a run in which the lists differ, and
  `PageEdits.ReplacesCommuteExactly` says exactly when they do not. A book as parsed may end
  in blank pages, and then the lists can differ even for texts that are not blank:
  `PageEdits.FirmReplacesNeedTrimmed`.
- A page that is blank and last counts for the range check of an edit until the first edit
  that takes effect trims it away: `PageEdits.BlankEndTaken`, `PageEdits.RunFromAny`.
- Well-formed lists of more than 65536 elements and arrays of more than 2^24 are refused, however
  flat: `JavaNbt.LongListRefused`. The round trips carry these limits in their conditions.
- Numbers and counts cut short at the end of the input are read as if the missing bytes were
  zero. `JavaNbt.CutTagsAccepted` shows such inputs, `JavaNbt.TagStableExactly` says exactly
  which readings depend on what follows, and `JavaNbt.RootStable` that no root compound's does.
- Adding in front of the last page of a full book leaves 101 pages, which the book parser
  refuses. `PageEdits.EditedBookReadsBack` says exactly when an edited book can be read.

VarInts and strings are read by a library that is not part of the repository. They are
modelled concretely: at most five base-128 digits, the low 32 bits taken as a signed number;
a string is its byte length and its bytes, with no upper limit of its own.

## Model

| member | source | states |
|---|---|---|
| Wire.Reader.ReadByte | internal/gw/commands.go:34 | one byte, or an error exactly at the end of the input |
| Wire.Reader.Read | internal/gw/books.go:116-120 | as many bytes as the buffer and the input allow; an error at the end of the input even for an empty buffer |
| Wire.Reader.ReadVarInt | internal/gw/commands.go:23 | the int32 a VarInt holds, taking exactly its bytes |
| Wire.Reader.ReadString | internal/gw/commands.go:56 | the string behind a length VarInt, taking exactly its bytes |
| Wire.VarIntRoundTrip | internal/gw/commands.go:23 | every int32 reads back from its encoding, whatever follows |
| Wire.VarIntEnds | internal/gw/commands.go:23 | a VarInt ends at its first byte below 128, which is one of the first five, or there is none |
| Wire.VarIntsSent | internal/gw/commands.go:23 | 0, 300 and -1 as they are sent |
| Wire.StringRoundTrip | internal/gw/commands.go:56 | every string reads back from its encoding, whatever follows |
| Commands.ReadNode | internal/gw/commands.go:34-77 | one node with its flag-dependent fields, or nothing |
| Commands.ReadNodes | internal/gw/commands.go:32-78 | all nodes of the count, or nothing if one of them is torn |
| Commands.CommandNames | internal/gw/commands.go:21-91 | the listing the bytes mean: sorted names, none for a torn tree, a fault for a negative root child |
| Commands.TreeRoundTrip | internal/gw/commands.go:18-82 | an encoded tree, its flag bytes put together from a kind, executable (4), redirect (8) and suggestion (16) bits and spare ones, reads back whatever follows it exactly when it has 1 to 4096 nodes of at most 4096 children, arguments of parser 5 only and its root in range; otherwise it is torn |
| Commands.ListingOfEncoding | internal/gw/commands.go:79-90 | a well-formed tree lists, sorted, each non-empty name once for every place among the root's children at which a literal of that name stands; it faults exactly when the root has a negative child, and any other tree lists nothing |
| Commands.CutTreeListsNothing | internal/gw/commands.go:22-82 | any bytes that hold a tree, cut anywhere before the end of the root index, list nothing |
| Commands.PrefixListsNothing | internal/gw/commands.go:22-82 | every proper prefix of an encoded well-formed tree lists nothing |
| Commands.RenumberingUnseen | internal/gw/commands.go:83-90 | renumbering the nodes by any permutation, reordering the root's children and changing executable, redirect, suggestion and spare bits, redirects, suggestions and other nodes' children, their number too as long as it stays readable, leave the listing unchanged |
| Ordering.SortedUnique | internal/gw/commands.go:89 | a multiset of names has one sorted arrangement, so the listing does not depend on the sorting algorithm |
| Ordering.LeIsBytewise | internal/gw/commands.go:89 | the order sorted by is that of the first differing byte, a beginning of a string coming before it |
| Books.SkipFiltered | internal/gw/books.go:98-110 | passes exactly one optional filtered string |
| Books.ReadNbtString | internal/gw/books.go:112-124 | the text of one bare string tag, or nothing |
| Books.SkipFilteredNbt | internal/gw/books.go:126-138 | passes exactly one optional filtered text component |
| Books.ParseBook | internal/gw/books.go:40-96 | the book the components mean, or none |
| Books.BookNbt | internal/gw/books.go:142-161 | there is an item tag exactly when the components are a book; it has the book's pages in order, and its title, author and generation exactly when it is a written book |
| Books.LecternTotalPages | internal/gw/books.go:209-224 | a lectern without a book announces no page count; one with a stack announces its page count, and one for an empty or unreadable book |
| Books.NbtStringRoundTrip | internal/gw/books.go:112-124 | a string tag under 65536 bytes reads back, except an empty one with nothing behind it |
| Books.WritableRoundTrip | internal/gw/books.go:81-91 | a writable book reads back page by page whatever its filtered variants and whatever follows, exactly when its add count is positive and it has at most 100 pages |
| Books.WrittenRoundTrip | internal/gw/books.go:55-80 | a written book reads back title, author, generation and pages exactly, whatever its filtered variants say; it is refused exactly for a non-positive add count, more than 100 pages, or an empty filtered variant at the very end of the input |
| Books.CutBookRejected | internal/gw/books.go:40-96 | components cut before the end of the last page are no book, and what follows the last page never changes the book |
| PageEdits.EditPages | internal/gw/books.go:166-199 | whether the edit took effect, and the edited page list: in a fresh copy, the caller's own pages untouched, when it did; the caller's own list when it did not |
| PageEdits.EditIsUpdate | internal/gw/books.go:171-198 | an accepted edit gives the one list without trailing blank pages that represents the book's page map after a point update, insertion, shift, transposition or nothing |
| PageEdits.RepresentsUnique | internal/gw/books.go:195-198 | a page map is represented by at most one list, so the map law determines the result of an edit completely |
| PageEdits.RunRefines | internal/gw/books.go:163-199 | over any run of edits of a trimmed book the list looks like the page map edited the same way, takes exactly the edits the map takes, and never ends in a blank page |
| PageEdits.RunFromAny | internal/gw/books.go:163-199 | over any run from any book, blank pages at its end or not: nothing changes before the first edit in range of the list, that edit is done on the map of all pages, and from there on the list keeps to the map, takes what it takes and stays trimmed |
| PageEdits.BlankEndTaken | internal/gw/books.go:186-190 | in a book ending in a blank page an edit may take effect that the map, which sees no blank pages at the end, would refuse |
| PageEdits.LookAlikesStayAlike | internal/gw/books.go:163-199 | two trimmed books that differ only in which blank pages they hold have the same length and still look alike after any run of edits |
| PageEdits.ReplacesCommute | internal/gw/books.go:172-178 | replacing two distinct pages of any book commutes, up to blank pages |
| PageEdits.ReplacesCommuteExactly | internal/gw/books.go:172-198 | replacing two distinct pages of any book gives the same list in either order, blank pages included, exactly when, for each text that is not blank, the run of blank pages that ends the book with the other page replaced holds only empty pages in front of the text's page |
| PageEdits.FirmReplacesCommute | internal/gw/books.go:172-178 | in particular in a trimmed book when neither text is blank |
| PageEdits.InnerReplacesCommute | internal/gw/books.go:172-178 | in particular in any book, whatever the texts, when both pages lie in front of one that is not blank |
| PageEdits.FirmReplacesNeedTrimmed | internal/gw/books.go:172-198 | in a book ending in a blank but not empty page two replaces by texts that are not blank can differ in a blank page |
| PageEdits.ReplacesNeedNotCommuteExactly | internal/gw/books.go:173-177 | a blank but not empty replacement may be lost to trimming, so the two orders can differ in a blank page |
| PageEdits.LastReplaceWins | internal/gw/books.go:176-177 | of two replaces of one page of any book the last wins, up to blank pages |
| PageEdits.LastReplaceWinsExactly | internal/gw/books.go:172-198 | and it wins outright exactly when it is blank, or the run of blank pages that ends the book with the first text in place holds only empty pages in front of it |
| PageEdits.AddThenDelete | internal/gw/books.go:171-185 | adding any page anywhere, past the end too, and deleting it gives any book back, trimmed |
| PageEdits.SwapTwice | internal/gw/books.go:186-190 | the same in-range swap twice restores a book exactly when the book was trimmed and the page moved to its end is not blank |
| PageEdits.EditedLength | internal/gw/books.go:166-199 | an edit leaves at most max(length + 1, 100) pages, and a book of at most 100 pages exceeds 100 only by adding to 100 |
| PageEdits.EditBook | internal/gw/itemstack.go:294-315 | the edit frame of a slot: its number, all pages after the edit, and the title of a signing; none for an empty or unknown slot or an edit that changes nothing; a stack that is no writable book starts from no pages |
| PageEdits.EditStartsFrom | internal/gw/itemstack.go:300-303 | an edit starts from the pages of a book and quill of at most 100 pages, and from none for a longer one, a written book or any other component |
| PageEdits.EditedBookReadsBack | internal/gw/books.go:81-91 | composing editor and parser: the edited pages of any stack, stored as a writable book, are what the parser reads and the next edit starts from, except exactly when a page was added to 100 pages of which the last is not blank |
| Advancements.AdvBook.constructor | internal/gw/advtoast.go:22-24 | a new book knows no nodes, criteria or completions |
| Advancements.AdvBook.Tree | internal/gw/advtoast.go:26-30 | the nodes loaded, a later one of an id replacing an earlier one |
| Advancements.AdvBook.IsDone | internal/gw/advtoast.go:61-82 | true exactly when the node is known, has a requirement group, and each of its groups holds, at some place, a received criterion |
| Advancements.AdvBook.Progress | internal/gw/advtoast.go:32-59 | the whole state after a frame, and its toasts in order |
| Advancements.BookIsBatch | internal/gw/advtoast.go:35-82 | after any frames under one tree, resets included, an id's criteria are those some entry reported for it since the last reset, and it is complete exactly when its node is known, has a group, and each group holds one of them |
| Advancements.UntouchedGroup | internal/gw/advtoast.go:61-82 | a group of which nothing was reported keeps the id incomplete, whatever else was |
| Advancements.OneOfEachGroup | internal/gw/advtoast.go:61-82 | one reported criterion of each group is enough |
| Advancements.ToastedOnce | internal/gw/advtoast.go:53-56 | increments announce each advancement that wants a toast and was completed by them exactly once, and nothing else |
| Advancements.EpochToasts | internal/gw/advtoast.go:10-15 | over a snapshot and the increments behind it, an advancement is announced exactly once when the epoch completes it and the snapshot alone did not, and never otherwise |
| Advancements.FrameSplit | internal/gw/advtoast.go:41-58 | splitting an increment frame in two gives the same state and the same toasts in the same order |
| Advancements.CompleteAfter | internal/gw/advtoast.go:41-58 | from any state of the book, increments leave an id complete exactly when it was, or when an entry names it and its node is done by all criteria received |
| Advancements.ToastsFromAnyState | internal/gw/advtoast.go:50-56 | from any state, increments announce an advancement exactly once when it wants a toast and they are the ones to complete it, and never otherwise |
| Advancements.OrderUnseen | internal/gw/advtoast.go:41-58 | from any state, permuting increments changes neither the book nor the multiset of toasts |
| AdvHistory.CompleteByHistory | internal/gw/advtoast.go:22-82 | after any trees and frames in any order on a new book, an id is complete exactly when some frame since the last reset named it while its node of that time was known, had a group, and held in each group a criterion reported from that reset to that frame; its criteria are those reported since the reset |
| AdvHistory.KnownIsLast | internal/gw/advtoast.go:26-30 | the node known for an id is the last one of the last tree that has one, and without such a tree there is none |
| AdvHistory.AnnouncedByHistory | internal/gw/advtoast.go:22-59 | over any such life an id has been announced since the last reset at most once, and once exactly when the first frame to notice it was an increment and its node of that time is displayed and shows a toast |
| AdvHistory.KnownFiled | internal/gw/advtoast.go:26-30 | the nodes of a book are always filed under their own ids, as the toast laws ask |
| Advancements.LoadedFiled | internal/gw/advtoast.go:26-30 | loading keeps nodes filed under their own ids |
| Advancements.LoadedIsLast | internal/gw/advtoast.go:26-30 | of a tree's nodes of one id the last is the one known |
| Advancements.TreeKeepsCoherence | internal/gw/advtoast.go:26-30 | loading nodes evaluates nothing: a right book stays right exactly when each loaded id's received criteria do its final node just in case the id was complete |
| Advancements.RunAfterTree | internal/gw/advtoast.go:26-58 | after a tree loaded into a right book, increments leave an id complete exactly when the old tree had it complete, or an entry names it and the new node is done by the criteria from before and after the tree |
| Advancements.TreeInTime | internal/gw/advtoast.go:26-58 | for an id without criteria when its node is loaded, the book is right after any increments |
| Advancements.LateTreeWaits | internal/gw/advtoast.go:26-59 | a criterion, then the node it does, then any increments: the completion is noticed, and announced once, exactly when one of them names the id, even without criteria |
| BlockCrack.CrackTracker.Packet | internal/gw/blockcrack.go:28-57 | the whole tracked map after a frame, and the event sent |
| BlockCrack.BlockAlone | internal/gw/blockcrack.go:32-42 | in any run a block's events, and what is known of it at the end, are those of a tracker given only that block's frames |
| BlockCrack.TrackedIsLatest | internal/gw/blockcrack.go:34-39 | the tracked blocks are exactly those whose latest progress was 0 to 9, each with that frame's tick and stage |
| BlockCrack.EventKinds | internal/gw/blockcrack.go:34-56 | any progress but 0 to 9 stops; one of 0 to 9 starts, with data 10, exactly when the block has no earlier frame or the last one's progress was not 0 to 9, and otherwise updates, with the int32 that agrees in its low 32 bits with 65535 over the stages remaining times the pace since that frame |
| BlockCrack.UpdateHasStart | internal/gw/blockcrack.go:34-56 | in any run an update has an earlier start of its block, at a progress of 0 to 9, and every frame of the block since that start was an update at 0 to 9 |
| BlockCrack.DataFits | internal/gw/blockcrack.go:43-56 | for stages 0 to 9 at most 32768 ticks apart no machine width is exceeded, 1 to 10 stages remain, and the data is at least 6553 |
| BlockCrack.LargestGap | internal/gw/blockcrack.go:43-56 | 32768 ticks is the largest gap up to which the event data never overflows int32 |
| BlockCrack.SteadyRunFits | internal/gw/blockcrack.go:28-57 | over any run whose ticks per block neither run back nor jump more than 32768, every update's data is exactly computed and at least 6553 |
| BlockCrack.CommentVersusCode | internal/gw/blockcrack.go:9-13 | for any ticks, backward and overflowing ones included, the code's event data equals 65535 over the ticks remaining exactly at a pace of one tick a stage |
| BlockCrack.CommentDiffers | internal/gw/blockcrack.go:9-13 | at 24 ticks a stage the code sends 174744 where the comment has 303 |
| JavaNbt.ReadText | internal/gw/nbtjava.go:48-59 | a length-prefixed string, or nothing |
| JavaNbt.ReadElems | internal/gw/nbtjava.go:120-127 | all elements of a list, one level deeper, or nothing |
| JavaNbt.ReadEntries | internal/gw/nbtjava.go:130-147 | the entries of a compound up to its end tag, one level deeper, or nothing |
| JavaNbt.ReadJavaTag | internal/gw/nbtjava.go:61-150 | one tag of a kind at a depth, or nothing |
| JavaNbt.ReadJavaNbt | internal/gw/nbtjava.go:32-46 | one nameless root compound, a lone end tag being the empty one |
| JavaNbt.TagRoundTrip | internal/gw/nbtjava.go:61-150 | any tag whose parts fit their widths reads back from its encoding exactly when its nesting stays within 32 levels, its arrays within 2^24 and its lists within 65536 elements, and it does not end in an empty string at the very end of the input; otherwise it is refused |
| JavaNbt.LongListRefused | internal/gw/nbtjava.go:108-118 | a list of 65537 bytes is refused at any depth, whatever its elements |
| JavaNbt.ArrayOfWords | internal/gw/nbtjava.go:91-105 | a count and as many values of one byte (kind 7), four (11) or eight (12) are read as an array that leaves exactly what follows, up to 2^24 of them and no more |
| JavaNbt.UnknownKind | internal/gw/nbtjava.go:65-149 | there are no kinds but 1 to 12 |
| JavaNbt.RootRoundTrip | internal/gw/nbtjava.go:30-46 | a root compound reads back whatever follows, exactly when it nests at most 32 deep and holds no array or list too long; a lone end tag reads as the empty one |
| JavaNbt.TagStable | internal/gw/nbtjava.go:61-150 | a tag of which no number and no count is cut by the end of the input reads the same whatever follows |
| JavaNbt.TagStableExactly | internal/gw/nbtjava.go:61-150 | a reading is the same under everything that may follow exactly when no number and no count in it, its list elements' included, was cut |
| JavaNbt.CutTagsAccepted | internal/gw/nbtjava.go:71-127 | an int of one byte, a list without most of its count and a list whose last element is cut are accepted |
| JavaNbt.TagCanonical | internal/gw/nbtjava.go:61-150 | the bytes consumed for a tag of which nothing is cut are its encoding, within all limits |
| JavaNbt.RootCanonical | internal/gw/nbtjava.go:32-46 | whatever a root compound was read from is a lone end tag or the encoding of the compound read |
| JavaNbt.RootStable | internal/gw/nbtjava.go:32-46 | what a root compound reads as depends only on the bytes it consumes |
| BlockEntities.BannerBaseFor | internal/gw/blockentities.go:43-50 | the table search finds the colour of the one range holding the state: sixteen standing states a colour, then four wall states a colour, white elsewhere |
| BlockEntities.IsBanner | internal/gw/blockentities.go:53-60 | the ranges together are exactly the states 14774 to 15093 |
| BlockEntities.RangeRow | internal/gw/bedrock_banners_gen.go:7-45 | the ranges are gapless and disjoint, in colour order twice |
| BlockEntities.IndexFlat | internal/gw/blockentities.go:234-241 | the index is 256 a layer, 16 a row, 1 a column above the floor |
| BlockEntities.IndexBijection | internal/gw/blockentities.go:232-241 | the index is a bijection from a column of sections onto the numbers below 4096 a section, and -1 below the floor |
| BlockEntities.ReadEntity | internal/gw/blockentities.go:128-144 | one entry of the section, or nothing |
| BlockEntities.BaseInChunk | internal/gw/blockentities.go:156-161 | the colour of the chunk's own block state at the banner's place, white when there is none |
| EntityContents.FieldIsLast | internal/gw/nbtjava.go:130-147 | a compound's field is its last entry of that name |
| EntityContents.SignSideFromNbt | internal/gw/signs.go:60-76 | a side's first four messages in place, its colour and its glow, with empty values for what is missing or of another type |
| EntityContents.BannerLayers | internal/gw/blockentities.go:166-175 | the layers of the compounds in the pattern list, in order |
| EntityContents.ItemsBySlot | internal/gw/blockentities.go:178-202 | for every slot, the item the list leaves in it |
| EntityContents.LastItemOfSlot | internal/gw/blockentities.go:180-187 | that is the last item naming the slot, whatever earlier ones said, and none when none names it |
| EntityContents.OthersPassedOver | internal/gw/blockentities.go:168-201 | what is no compound among layers or items is passed over, and a side that is none is blank |
| EntityContents.ZeroWhenMissing | internal/gw/blockentities.go:150-197 | a field that is missing or of another type counts as its type's zero value |
| BlockEntities.RenderEntity | internal/gw/blockentities.go:145-205 | what an entry of a rendered kind becomes, with its sides, layers or items; nothing for another kind; and the banner colour remembered |
| BlockEntities.WalkEntities | internal/gw/blockentities.go:126-207 | the packets and remembered banners of the entries in front of the first torn one, as many as the count allows |
| BlockEntities.ChunkBlockEntities | internal/gw/blockentities.go:117-208 | the packets of the entries up to the first torn one, in order, and every banner of them remembered in place |
| BlockEntities.SectionRoundTrip | internal/gw/blockentities.go:112-144 | an encoded section of at most 4096 entries, with data or a lone end tag, is walked in order, up to the first entry whose data nests too deep or holds too long an array or list; a longer section not at all |
| BlockEntities.CutSectionIsPrefix | internal/gw/blockentities.go:127-207 | of any section, cut anywhere, the packets are a prefix of the whole section's, and the whole goes on from the banners the cut one remembered |
| BlockEntities.PositionRecovers | internal/gw/blockentities.go:145-146 | the packed xz is always recoverable from the world position, and the chunk exactly when it lies within int32 block coordinates |
| BlockEntities.BannersRemembered | internal/gw/blockentities.go:155-164 | every banner is remembered at its world position with the colour of the block state there, and no other position is touched |
| BlockEntities.BaseIsOfOwnBlock | internal/gw/blockentities.go:156-161 | within the column the remembered colour is that of the one state stored for the banner's own block, outside it white |
| Signs.SignLines | internal/gw/signs.go:79-85 | the first four lines of a text, the fourth with all that follows, empty where there are fewer |
| Signs.TrimRightExactly | internal/gw/signs.go:36 | trimming takes away newlines from the end, and all of them |
| Signs.LinesHoldText | internal/gw/signs.go:79-85 | the lines hold all of a text, newlines at its end included: joined they are the text with a newline for each line it was short of, and only the last has newlines |
| Signs.TypedTextShown | internal/gw/signs.go:36-85 | whatever text was typed is, split into lines and joined again, shown as typed without the newlines at its end |
| Signs.ShownLinesComeBack | internal/gw/signs.go:36-85 | a side's four lines come back from the text they are shown as exactly when no line but the last holds a newline and the last does not end in one |
| StandingEntities.SectionShown | internal/gw/blockentities.go:112-208 | an encoded section of at most 4096 signs, banners, campfires, shelves, bare and other entries becomes the packets of what stands there, in order, each at its world position: first four messages, colour, glow and wax; the dye of the block state and the layers; the last item of each slot; nothing for other kinds |
| StandingEntities.ShownSignComesBack | internal/gw/signs.go:36-85 | a sign's side, shown as text, splits back into the four lines it was sent with exactly when those are separable |
| StandingEntities.BannersShown | internal/gw/blockentities.go:155-175 | of any entries, the banners and no others become banner packets, one each and in order, at their places with the dye of the block state there, which is the colour remembered |
| Attributes.ApplyModifiers | internal/gw/attributes.go:16-33 | the three ordered passes equal (base + additions) * (1 + base multiplications) * product of total multiplications |
| Attributes.ModifierEffects | internal/gw/attributes.go:15-32 | operation 0 acts as a raised base, 1 adds its share of the value without any operation 1, 2 scales the whole, no other does anything, and no modifiers leave the base |
| Attributes.AttributeValue | internal/gw/attributes.go:11-36 | the value of the first attribute of the name, or none |
| Attributes.FirstOfName | internal/gw/attributes.go:12-15 | the attribute found is the first of the name, and none only when there is none |
| Attributes.ModifierOrderUnseen | internal/gw/attributes.go:15-32 | the order in which modifiers are listed changes no attribute's value |

## Left out

- The `Reader` after a failed read: its position is not specified, since every decoder stops there.
- The partly filled book returned beside `false` by the book parser: callers do not look at it, and the model returns none.
- Growth of page slices: an edit's copy is allocated with room for the edit, where the code grows it by appending.
- TrimSpace: which pages are blank is a parameter of every law, with the empty page blank.
- sort.Strings: modelled by its result, which `Ordering.SortedUnique` shows to be the only possible one.
- Action codes of book edits: named cases, the codes being constants of a library outside the repository.
- Map iteration order: where the code ranges over a set of criteria, the model takes them in any order.
- Bedrock's own form of what a block entity says: colour numbers, pattern codes, name prefixes and empty-slot records are built from the sides, layers and items modelled, in code and tables that are not part of this model; nor are item and command packets.
- The slot mirror's lock and its other operations around a book edit.
- Writing an edited book back as components: the world does that; the encoding used for it is the model's own.
- Event positions of the crack tracker as 32-bit floats: kept as the block coordinates.
- The clock: the client tick is part of a frame.
- Client ticks as 64-bit integers: the difference is taken before the wrap to 32 bits, which gives the same low 32 bits.
- The floor of the world: a parameter, its constant being defined in a library that is not part of the repository.
- Float rounding in attributes: evaluated over exact reals; the Bedrock attribute records built from the values are not modelled.
- An upper limit on string lengths inside the VarInt and string library: not part of this model.
- The skull walk over the same section, goat horns, maps, scoreboards, inventories, recipes, skins, sounds and the session's frame dispatch.
- Mutexes, the network and logging.
- Generated tables other than the banner ranges.
