/** The Java-edition wire primitives and the byte reader the gateway's decoders share. */
module Wire {
  import opened MachineInts

  type Byte = b: int | 0 <= b < 256
  type Bytes = seq<Byte>

  /**
    * What reading one thing off the front of some bytes gives: nothing, or a value and
    * the bytes that are left.
    */
  datatype Read<+T> = Fail | Got(value: T, rest: Bytes) {
    predicate IsFailure() {
      Fail?
    }

    function PropagateFailure<U>(): Read<U>
      requires Fail?
    {
      Fail
    }

    function Extract(): (T, Bytes)
      requires Got?
    {
      (value, rest)
    }
  }

  datatype Option<+T> = None | Some(value: T)

  // ---------------------------------------------------------------------------------
  // Single reads
  // ---------------------------------------------------------------------------------

  function ByteAt(s: Bytes): Read<Byte> {
    if s == [] then Fail else Got(s[0], s[1..])
  }

  /**
    * `bytes.Reader.Read` with a buffer of n bytes: an error when no input is left (even
    * for an empty buffer), otherwise as many bytes as there are, at most n.
    */
  function ChunkAt(s: Bytes, n: nat): (r: Read<Bytes>)
    ensures r.Got? ==> |r.value| <= n && |r.rest| == |s| - |r.value|
    ensures r.Got? && |r.value| < n ==> r.rest == []
  {
    if s == [] then Fail else if n <= |s| then Got(s[..n], s[n..]) else Got(s, [])
  }

  /** A `Read` that has to fill its buffer: an empty buffer still needs input to be left. */
  function FilledAt(s: Bytes, n: nat): (r: Read<Bytes>)
    ensures r.Got? ==> |r.value| == n && |r.rest| == |s| - n
  {
    var (buf, t) :- ChunkAt(s, n);
    if |buf| != n then Fail else Got(buf, t)
  }

  /** `io.ReadFull` with a buffer of n bytes: all of them or an error. */
  function ExactlyAt(s: Bytes, n: nat): Read<Bytes> {
    if n <= |s| then Got(s[..n], s[n..]) else Fail
  }

  /** At most `groups` base-128 digits, least significant first; the top bit says more follow. */
  function DigitsAt(s: Bytes, groups: nat): (r: Read<nat>)
    ensures r.Got? ==> |r.rest| < |s|
  {
    if groups == 0 || s == [] then Fail
    else if s[0] < 128 then Got(s[0], s[1..])
    else match DigitsAt(s[1..], groups - 1) {
      case Fail => Fail
      case Got(v, rest) => Got(s[0] - 128 + 128 * v, rest)
    }
  }

  /** A VarInt: up to five base-128 digits holding an int32. */
  function VarIntAt(s: Bytes): (r: Read<int>)
    ensures r.Got? ==> IsInt32(r.value) && |r.rest| < |s|
  {
    match DigitsAt(s, 5)
    case Fail => Fail
    case Got(v, rest) => Got(Wrap32(v), rest)
  }

  /** A string: its byte length as a VarInt, then its bytes. */
  function StringAt(s: Bytes): (r: Read<Bytes>)
    ensures r.Got? ==> |r.rest| < |s|
  {
    var (n, t) :- VarIntAt(s);
    if n < 0 then Fail else ExactlyAt(t, n)
  }

  // ---------------------------------------------------------------------------------
  // Encoders
  // ---------------------------------------------------------------------------------

  function Digits(v: nat): (r: Bytes)
    ensures |r| > 0
  {
    if v < 128 then [v] else [v % 128 + 128] + Digits(v / 128)
  }

  function EncodeVarInt(v: int): Bytes
    requires IsInt32(v)
  {
    Digits(if v < 0 then v + TWO_TO_32 else v)
  }

  function EncodeString(t: Bytes): Bytes
    requires |t| < TWO_TO_31
  {
    EncodeVarInt(|t|) + t
  }

  lemma FourParts(a: Bytes, b: Bytes, c: Bytes, d: Bytes)
    ensures a + b + c + d == a + (b + (c + d))
  {
  }

  // ---------------------------------------------------------------------------------
  // Round trips
  // ---------------------------------------------------------------------------------

  function Pow128(k: nat): nat {
    if k == 0 then 1 else 128 * Pow128(k - 1)
  }

  lemma {:induction false} DigitsRoundTrip(v: nat, groups: nat, rest: Bytes)
    requires groups > 0 && v < Pow128(groups)
    ensures DigitsAt(Digits(v) + rest, groups) == Got(v, rest)
  {
    if v < 128 {
      assert ([v] + rest)[1..] == rest;
    } else {
      var first: Byte := v % 128 + 128;
      var tail := Digits(v / 128) + rest;
      assert Digits(v) + rest == [first] + tail;
      DigitsRoundTrip(v / 128, groups - 1, rest);
      hide Digits;
      assert ([first] + tail)[1..] == tail;
    }
  }

  /** Digits end at the first byte below 128, within the groups allowed or not at all. */
  lemma {:induction false} DigitsEnd(s: Bytes, groups: nat, i: nat)
    requires i <= |s| && (forall k :: 0 <= k < i ==> s[k] >= 128) && (i < |s| ==> s[i] < 128)
    ensures if i < |s| && i < groups then DigitsAt(s, groups).Got? && DigitsAt(s, groups).rest == s[i + 1..]
            else DigitsAt(s, groups).Fail?
  {
    if i == 0 || groups == 0 {
    } else {
      DigitsEnd(s[1..], groups - 1, i - 1);
    }
  }

  /** A VarInt ends at its first byte below 128, which has to be one of the first five. */
  lemma VarIntEnds(s: Bytes, i: nat)
    requires i <= |s| && (forall k :: 0 <= k < i ==> s[k] >= 128) && (i < |s| ==> s[i] < 128)
    ensures if i < |s| && i < 5 then VarIntAt(s).Got? && VarIntAt(s).rest == s[i + 1..] else VarIntAt(s).Fail?
  {
    DigitsEnd(s, 5, i);
  }

  /** Some numbers as they are sent: 0, 300 and -1. */
  lemma VarIntsSent()
    ensures EncodeVarInt(0) == [0] && EncodeVarInt(300) == [0xAC, 2] && EncodeVarInt(-1) == [255, 255, 255, 255, 15]
  {
    assert Digits(15) == [15] && Digits(2) == [2] && Digits(300) == [0xAC] + Digits(2);
    assert Digits(0x7FF) == [255] + Digits(15) && Digits(0x3_FFFF) == [255] + Digits(0x7FF);
    assert Digits(0x1FF_FFFF) == [255] + Digits(0x3_FFFF) && Digits(0xFFFF_FFFF) == [255] + Digits(0x1FF_FFFF);
  }

  /** Reading back an encoded int32 gives it, whatever follows, and takes exactly its bytes. */
  lemma VarIntRoundTrip(v: int, rest: Bytes)
    requires IsInt32(v)
    ensures VarIntAt(EncodeVarInt(v) + rest) == Got(v, rest)
  {
    assert Pow128(5) == 0x8_0000_0000 by {
      assert Pow128(2) == 0x4000;
      assert Pow128(4) == 128 * (128 * Pow128(2));
    }
    DigitsRoundTrip(if v < 0 then v + TWO_TO_32 else v, 5, rest);
  }

  lemma StringRoundTrip(t: Bytes, rest: Bytes)
    requires |t| < TWO_TO_31
    ensures StringAt(EncodeString(t) + rest) == Got(t, rest)
  {
    assert EncodeString(t) + rest == EncodeVarInt(|t|) + (t + rest);
    VarIntRoundTrip(|t|, t + rest);
    assert (t + rest)[..|t|] == t && (t + rest)[|t|..] == rest;
  }

  // ---------------------------------------------------------------------------------
  // Stability: a success depends on the consumed bytes alone
  // ---------------------------------------------------------------------------------

  /** Whatever `read` makes of s, it still makes of s when more bytes follow. */
  ghost predicate Stable<T(!new)>(read: Bytes -> Read<T>) {
    forall s, x :: read(s).Got? ==> read(s + x) == Got(read(s).value, read(s).rest + x)
  }

  /** A reader that keeps to a suffix of its input. */
  ghost predicate Shrinks<T(!new)>(read: Bytes -> Read<T>) {
    forall s :: read(s).Got? ==> |read(s).rest| <= |s|
  }

  lemma StableAt<T(!new)>(read: Bytes -> Read<T>, s: Bytes, x: Bytes)
    requires Stable(read)
    ensures read(s).Got? ==> read(s + x) == Got(read(s).value, read(s).rest + x)
  {
  }

  /** A stable reader rejects its own input cut anywhere inside what it consumed. */
  lemma CutRejected<T(!new)>(read: Bytes -> Read<T>, s: Bytes, k: nat)
    requires Stable(read) && Shrinks(read)
    requires read(s).Got? && k < |s| - |read(s).rest|
    ensures read(s[..k]).Fail?
  {
    assert s[..k] + s[k..] == s;
    StableAt(read, s[..k], s[k..]);
  }

  lemma ByteStable()
    ensures Stable(ByteAt) && Shrinks(ByteAt)
  {
    forall s: Bytes, x: Bytes | ByteAt(s).Got?
      ensures ByteAt(s + x) == Got(ByteAt(s).value, ByteAt(s).rest + x)
    {
      assert (s + x)[1..] == s[1..] + x;
    }
  }

  lemma {:induction false} DigitsStable(s: Bytes, groups: nat, x: Bytes)
    requires DigitsAt(s, groups).Got?
    ensures DigitsAt(s + x, groups) == Got(DigitsAt(s, groups).value, DigitsAt(s, groups).rest + x)
  {
    assert (s + x)[1..] == s[1..] + x;
    if s[0] < 128 {
    } else {
      DigitsStable(s[1..], groups - 1, x);
    }
  }

  lemma VarIntStable()
    ensures Stable(VarIntAt) && Shrinks(VarIntAt)
  {
    forall s: Bytes, x: Bytes | VarIntAt(s).Got?
      ensures VarIntAt(s + x) == Got(VarIntAt(s).value, VarIntAt(s).rest + x)
    {
      DigitsStable(s, 5, x);
    }
  }

  lemma ExactlyStable(s: Bytes, n: nat, x: Bytes)
    requires ExactlyAt(s, n).Got?
    ensures ExactlyAt(s + x, n) == Got(ExactlyAt(s, n).value, ExactlyAt(s, n).rest + x)
  {
    assert (s + x)[..n] == s[..n] && (s + x)[n..] == s[n..] + x;
  }

  lemma StringStable()
    ensures Stable(StringAt) && Shrinks(StringAt)
  {
    VarIntStable();
    forall s: Bytes, x: Bytes | StringAt(s).Got?
      ensures StringAt(s + x) == Got(StringAt(s).value, StringAt(s).rest + x)
    {
      assert VarIntAt(s + x) == Got(VarIntAt(s).value, VarIntAt(s).rest + x);
      ExactlyStable(VarIntAt(s).rest, VarIntAt(s).value, x);
    }
  }

  lemma FilledStable(s: Bytes, n: nat, x: Bytes)
    requires FilledAt(s, n).Got?
    ensures FilledAt(s + x, n) == Got(FilledAt(s, n).value, FilledAt(s, n).rest + x)
  {
    assert (s + x)[..n] == s[..n] && (s + x)[n..] == s[n..] + x;
  }

  lemma FilledRoundTrip(t: Bytes, rest: Bytes)
    ensures FilledAt(t + rest, |t|) == if t == [] && rest == [] then Fail else Got(t, rest)
  {
    assert (t + rest)[..|t|] == t && (t + rest)[|t|..] == rest;
  }

  // ---------------------------------------------------------------------------------
  // Repetition
  // ---------------------------------------------------------------------------------

  /** n things in a row, appended to those already read. */
  function RepeatAt<T>(read: Bytes -> Read<T>, n: nat, done: seq<T>, s: Bytes): Read<seq<T>> {
    if n == 0 then Got(done, s)
    else
      var (v, t) :- read(s);
      RepeatAt(read, n - 1, done + [v], t)
  }

  function EncodeAll<T>(encode: T -> Bytes, vs: seq<T>): Bytes {
    if vs == [] then [] else encode(vs[0]) + EncodeAll(encode, vs[1..])
  }

  lemma {:induction false} RepeatStable<T(!new)>(read: Bytes -> Read<T>, n: nat, done: seq<T>, s: Bytes, x: Bytes)
    requires Stable(read) && Shrinks(read)
    requires RepeatAt(read, n, done, s).Got?
    ensures var r := RepeatAt(read, n, done, s);
            RepeatAt(read, n, done, s + x) == Got(r.value, r.rest + x) && |r.rest| <= |s|
  {
    if n == 0 {
    } else {
      var v := read(s);
      assert read(s + x) == Got(v.value, v.rest + x);
      RepeatStable(read, n - 1, done + [v.value], v.rest, x);
    }
  }

  /** Each of some things reads back from its encoding, or is refused, whatever follows. */
  ghost predicate ReadsBack<T(!new), U>(
    encode: T -> Bytes, read: Bytes -> Read<U>, good: T -> bool, image: T -> U, vs: seq<T>
  ) {
    forall v, x :: v in vs ==> read(encode(v) + x) == if good(v) then Got(image(v), x) else Fail
  }

  lemma ReadsBackParts<T(!new), U>(
    encode: T -> Bytes, read: Bytes -> Read<U>, good: T -> bool, image: T -> U, vs: seq<T>, x: Bytes
  )
    requires vs != [] && ReadsBack(encode, read, good, image, vs)
    ensures read(encode(vs[0]) + x) == if good(vs[0]) then Got(image(vs[0]), x) else Fail
    ensures ReadsBack(encode, read, good, image, vs[1..])
  {
    assert vs[0] in vs && forall v :: v in vs[1..] ==> v in vs;
  }

  /**
    * Things encoded one after another are read back one after another, whatever follows;
    * the first unreadable one among them makes the whole run unreadable.
    */
  lemma {:induction false} RepeatRoundTrip<T(!new), U>(
    encode: T -> Bytes, read: Bytes -> Read<U>, good: T -> bool, image: T -> U,
    vs: seq<T>, done: seq<U>, rest: Bytes
  )
    requires ReadsBack(encode, read, good, image, vs)
    ensures RepeatAt(read, |vs|, done, EncodeAll(encode, vs) + rest)
            == if AllGood(good, vs) then Got(done + Images(image, vs), rest) else Fail
  {
    hide Images, ReadsBack, AllGood;
    if vs == [] {
      NoImages(image, vs);
      HeadAndTail(good, vs);
      assert done + [] == done && [] + rest == rest;
    } else {
      hide EncodeAll, RepeatAt;
      var tail := EncodeAll(encode, vs[1..]) + rest;
      EncodeFirst(encode, vs, rest);
      RepeatFirst(read, |vs|, done, encode(vs[0]) + tail);
      ReadsBackParts(encode, read, good, image, vs, tail);
      HeadAndTail(good, vs);
      if good(vs[0]) {
        RepeatRoundTrip(encode, read, good, image, vs[1..], done + [image(vs[0])], rest);
        ImagesAfter(image, vs, done);
      }
    }
  }

  lemma NoImages<T, U>(image: T -> U, vs: seq<T>)
    requires vs == []
    ensures Images(image, vs) == []
  {
  }

  lemma ImagesAfter<T, U>(image: T -> U, vs: seq<T>, done: seq<U>)
    requires vs != []
    ensures done + [image(vs[0])] + Images(image, vs[1..]) == done + Images(image, vs)
  {
  }

  lemma EncodeFirst<T>(encode: T -> Bytes, vs: seq<T>, rest: Bytes)
    requires vs != []
    ensures EncodeAll(encode, vs) + rest == encode(vs[0]) + (EncodeAll(encode, vs[1..]) + rest)
  {
  }

  lemma RepeatFirst<U>(read: Bytes -> Read<U>, n: nat, done: seq<U>, s: Bytes)
    requires n > 0
    ensures RepeatAt(read, n, done, s)
            == match read(s) case Fail => Fail case Got(v, t) => RepeatAt(read, n - 1, done + [v], t)
  {
  }

  ghost predicate AllGood<T(!new)>(good: T -> bool, vs: seq<T>) {
    forall v :: v in vs ==> good(v)
  }

  lemma HeadAndTail<T(!new)>(good: T -> bool, vs: seq<T>)
    ensures AllGood(good, vs) <==> vs == [] || (good(vs[0]) && AllGood(good, vs[1..]))
  {
    assert vs != [] ==> forall v :: v in vs <==> v == vs[0] || v in vs[1..];
  }

  function Images<T, U>(image: T -> U, vs: seq<T>): (r: seq<U>)
    ensures |r| == |vs| && forall i :: 0 <= i < |vs| ==> r[i] == image(vs[i])
  {
    if vs == [] then [] else [image(vs[0])] + Images(image, vs[1..])
  }

  lemma ImagesLast<T, U>(image: T -> U, vs: seq<T>)
    requires vs != []
    ensures Images(image, vs) == Images(image, vs[..|vs| - 1]) + [image(vs[|vs| - 1])]
  {
    hide Images;
  }

  // ---------------------------------------------------------------------------------
  // The byte reader
  // ---------------------------------------------------------------------------------

  /** A cursor over fixed bytes. Every read is tied to the function that reads `Rest()`. */
  class Reader {
    const data: Bytes
    var pos: nat

    ghost predicate Valid()
      reads this`pos
    {
      pos <= |data|
    }

    function Rest(): Bytes
      requires Valid()
      reads this`pos
    {
      data[pos..]
    }

    constructor (bytes: Bytes)
      ensures Valid() && data == bytes && Rest() == bytes
    {
      data := bytes;
      pos := 0;
    }

    method ReadByte() returns (r: Option<Byte>)
      requires Valid()
      modifies this`pos
      ensures Valid()
      ensures match r
              case None => ByteAt(old(Rest())).Fail?
              case Some(v) => ByteAt(old(Rest())) == Got(v, Rest())
    {
      if pos == |data| {
        return None;
      }
      r := Some(data[pos]);
      pos := pos + 1;
    }

    method Read(n: nat) returns (r: Option<Bytes>)
      requires Valid()
      modifies this`pos
      ensures Valid()
      ensures match r
              case None => ChunkAt(old(Rest()), n).Fail?
              case Some(v) => ChunkAt(old(Rest()), n) == Got(v, Rest())
    {
      if pos == |data| {
        return None;
      }
      ghost var before := Rest();
      var end := if n <= |data| - pos then pos + n else |data|;
      assert data[pos..end] == before[..end - pos] && data[end..] == before[end - pos..];
      assert end == |data| ==> data[pos..end] == before && data[end..] == [];
      r := Some(data[pos..end]);
      pos := end;
    }

    method ReadVarInt() returns (r: Option<int>)
      requires Valid()
      modifies this`pos
      ensures Valid()
      ensures match r
              case None => VarIntAt(old(Rest())).Fail?
              case Some(v) => VarIntAt(old(Rest())) == Got(v, Rest())
    {
      var value, scale, groups := 0, 1, 5;
      ghost var start := Rest();
      while groups > 0
        invariant 0 <= groups <= 5 && Valid() && value >= 0 && scale > 0
        invariant match DigitsAt(Rest(), groups)
                  case Fail => DigitsAt(start, 5).Fail?
                  case Got(v, rest) => DigitsAt(start, 5) == Got(value + scale * v, rest)
      {
        if pos == |data| {
          return None;
        }
        var b := data[pos];
        ghost var before := Rest();
        pos := pos + 1;
        assert Rest() == before[1..];
        if b < 128 {
          return Some(Wrap32(value + scale * b));
        }
        ScaledDigit(value, scale, b, DigitsAt(Rest(), groups - 1));
        value, scale, groups := value + scale * (b - 128), scale * 128, groups - 1;
      }
      return None;
    }

    static lemma ScaledDigit(value: nat, scale: nat, b: Byte, tail: Read<nat>)
      ensures tail.Got? ==>
                value + scale * (b - 128 + 128 * tail.value)
                == (value + scale * (b - 128)) + (scale * 128) * tail.value
    {
    }

    method ReadString() returns (r: Option<Bytes>)
      requires Valid()
      modifies this`pos
      ensures Valid()
      ensures match r
              case None => StringAt(old(Rest())).Fail?
              case Some(v) => StringAt(old(Rest())) == Got(v, Rest())
    {
      var n := ReadVarInt();
      if n.None? || n.value < 0 || n.value > |data| - pos {
        return None;
      }
      ghost var before := Rest();
      assert data[pos..pos + n.value] == before[..n.value] && data[pos + n.value..] == before[n.value..];
      r := Some(data[pos..pos + n.value]);
      pos := pos + n.value;
    }
  }
}
