/** Variable-length and fixed-width unsigned integers, as the log writes them. */
module Varint {
  import opened Values

  // ---- varints ----

  /** Seven bits a byte, low bits first, the high bit set on all but the last. */
  function Uvarint(n: nat): (s: bytes)
    ensures |s| >= 1
  {
    if n < 128 then [n] else [n % 128 + 128] + Uvarint(n / 128)
  }

  /** What the reader makes of `src` when `i` bytes came before: the value and the bytes it took. It
      gives up after ten bytes, and on a tenth byte above one. */
  function ReadUvarint(src: bytes, i: nat): (r: Option<(nat, nat)>)
    ensures r.Some? ==> 1 <= r.value.1 <= |src| && r.value.0 < Room(i)
  {
    if src == [] || i >= 10 then None
    else if src[0] < 128 then (if i == 9 && src[0] > 1 then None else Some((src[0], 1)))
    else
      match ReadUvarint(src[1..], i + 1)
      case Some((v, k)) => Some((src[0] - 128 + 128 * v, k + 1))
      case None => None
  }

  /** How many values still fit a 64-bit word after `i` groups of seven bits. */
  function Room(i: nat): (r: nat)
    ensures r >= (if i < 9 then 128 else 2)
    decreases 10 - i
  {
    if i >= 9 then 2 else 128 * Room(i + 1)
  }

  lemma RoomAtStart()
    ensures Room(0) == TWO_64
  {
    assert Room(9) == 2 && Room(8) == 256 && Room(7) == 32768 && Room(6) == 4194304;
    assert Room(5) == 536870912 && Room(4) == 68719476736 && Room(3) == 8796093022208;
    assert Room(2) == 1125899906842624 && Room(1) == 144115188075855872;
  }

  /** Reads a length or a count, refusing padded encodings. */
  function DecodeUvarint(src: bytes): Option<(nat, bytes)> {
    match ReadUvarint(src, 0)
    case Some((n, k)) => if k == |Uvarint(n)| then Some((n, src[k..])) else None
    case None => None
  }

  lemma {:induction false} ReadOfWritten(n: nat, rest: bytes, i: nat)
    requires i < 10 && n < Room(i)
    ensures ReadUvarint(Uvarint(n) + rest, i) == Some((n, |Uvarint(n)|))
  {
    if n >= 128 {
      ReadOfWritten(n / 128, rest, i + 1);
      assert (Uvarint(n) + rest)[1..] == Uvarint(n / 128) + rest;
    }
  }

  lemma {:induction false} WrittenOfRead(src: bytes, i: nat)
    requires ReadUvarint(src, i).Some?
    ensures var (n, k) := ReadUvarint(src, i).value; k == |Uvarint(n)| ==> src[..k] == Uvarint(n)
  {
    hide Room;
    if src[0] >= 128 {
      WrittenOfRead(src[1..], i + 1);
      var (v, k) := ReadUvarint(src[1..], i + 1).value;
      GroupParts(src[0] - 128, v);
      assert src[..k + 1] == [src[0]] + src[1..][..k];
    }
  }

  lemma GroupParts(c: nat, v: nat)
    requires c < 128
    ensures (c + 128 * v) / 128 == v && (c + 128 * v) % 128 == c
  {}

  /** A number below 2^64 has exactly one encoding, and nothing else decodes. */
  lemma UvarintIsCanonical(src: bytes, n: nat, rest: bytes)
    ensures DecodeUvarint(src) == Some((n, rest)) <==> n < TWO_64 && src == Uvarint(n) + rest
  {
    RoomAtStart();
    if n < TWO_64 && src == Uvarint(n) + rest {
      ReadOfWritten(n, rest, 0);
    }
    if DecodeUvarint(src) == Some((n, rest)) {
      WrittenOfRead(src, 0);
      var k := |Uvarint(n)|;
      assert src == src[..k] + src[k..];
    }
  }

  method UvarintLen(n: nat) returns (size: nat)
    ensures size == |Uvarint(n)|
  {
    var m := n;
    size := 1;
    while m >= 128
      invariant size + |Uvarint(m)| == |Uvarint(n)| + 1
    {
      m := m / 128;
      size := size + 1;
    }
  }

  function Power128(i: nat): nat { if i == 0 then 1 else 128 * Power128(i - 1) }

  /** Seven more bits above those already read. */
  function With(x: nat, c: nat, scale: nat): nat { x + c * scale }

  /** Keeps the low 64 bits. */
  function Word(n: int): nat { n % TWO_64 }

  lemma WordFits(i: nat, n: nat)
    requires i <= 9 && n < Power128(i)
    ensures Word(n) == n
  {
    assert Power128(0) == 1 && Power128(1) == 128 && Power128(2) == 16384 && Power128(3) == 2097152;
    assert Power128(4) == 268435456 && Power128(5) == 34359738368 && Power128(6) == 4398046511104;
    assert Power128(7) == 562949953421312 && Power128(8) == 72057594037927936 && Power128(9) == TWO_63;
  }

  /** The 64-bit reading loop: zero for a buffer that ends too soon, negative on overflow. Bits
      shifted out of the word are lost, which only happens on the way to an overflow. */
  method BinaryUvarint(buf: bytes) returns (x: nat, read: int)
    ensures read > 0 <==> ReadUvarint(buf, 0).Some?
    ensures read > 0 ==> ReadUvarint(buf, 0) == Some((x, read))
  {
    hide Room, ReadUvarint, Uvarint, Word, Continues, With;
    x := 0;
    var scale: nat := 1;
    StartReading(buf);
    for i := 0 to |buf|
      invariant scale == Power128(i) && i <= 11
      invariant i < 10 ==> x < scale
      invariant i < 10 ==> Continues(buf, i, x, scale)
      invariant i >= 10 ==> ReadUvarint(buf, 0) == None
    {
      if i == 10 { return 0, -(i + 1); }
      var b := buf[i];
      StopReading(buf, i, x, scale);
      if b < 128 {
        if i == 9 && b > 1 { return 0, -(i + 1); }
        return With(x, b, scale), i + 1;
      }
      if i < 9 {
        ContinueOne(buf, i, x, scale);
        WordFits(i + 1, With(x, b - 128, scale));
      }
      x := Word(With(x, b - 128, scale));
      scale := 128 * scale;
    }
    NothingLeft(buf, |buf|, x, scale);
    return 0, 0;
  }

  lemma StartReading(buf: bytes)
    ensures Continues(buf, 0, 0, 1)
  {
    assert buf[0..] == buf;
  }

  lemma NothingLeft(buf: bytes, i: nat, x: nat, scale: nat)
    requires i == |buf| && (i < 10 ==> Continues(buf, i, x, scale)) && (i >= 10 ==> ReadUvarint(buf, 0) == None)
    ensures ReadUvarint(buf, 0) == None
  {}

  lemma StopReading(buf: bytes, i: nat, x: nat, scale: nat)
    requires i < |buf| && i < 10 && Continues(buf, i, x, scale)
    ensures buf[i] < 128 && !(i == 9 && buf[i] > 1) ==> ReadUvarint(buf, 0) == Some((With(x, buf[i], scale), i + 1))
    ensures i == 9 && buf[i] > 1 ==> ReadUvarint(buf, 0) == None
  {
    hide Room;
    LastByte(buf[i..], i);
  }

  lemma LastByte(rest: bytes, i: nat)
    requires rest != [] && i < 10
    ensures rest[0] < 128 && !(i == 9 && rest[0] > 1) ==> ReadUvarint(rest, i) == Some((rest[0], 1))
    ensures i == 9 && rest[0] > 1 ==> ReadUvarint(rest, i) == None
  {}

  /** What is left to read, added to what was read, is the whole. */
  predicate Continues(buf: bytes, i: nat, x: nat, scale: nat)
    requires i <= |buf|
  {
    match ReadUvarint(buf[i..], i)
    case Some((v, k)) => ReadUvarint(buf, 0) == Some((x + v * scale, k + i))
    case None => ReadUvarint(buf, 0) == None
  }

  lemma ContinueOne(buf: bytes, i: nat, x: nat, scale: nat)
    requires i < |buf| && i < 9 && buf[i] >= 128 && x < scale && Continues(buf, i, x, scale)
    ensures Continues(buf, i + 1, With(x, buf[i] - 128, scale), 128 * scale)
    ensures With(x, buf[i] - 128, scale) < 128 * scale
  {
    hide Uvarint, Room;
    assert buf[i..][1..] == buf[i + 1..];
    var c: int := buf[i] - 128;
    NextGroup(c, x, scale);
    if ReadUvarint(buf[i + 1..], i + 1).Some? { Spread(c, ReadUvarint(buf[i + 1..], i + 1).value.0, scale); }
  }

  lemma NextGroup(c: int, x: int, scale: int)
    requires 0 <= c < 128 && 0 <= x < scale
    ensures 0 <= c * scale && x + c * scale < 128 * scale
  {}

  lemma Spread(c: int, v: int, scale: int)
    ensures (c + 128 * v) * scale == c * scale + v * (128 * scale)
  {}

  // ---- fixed width, least significant byte first ----

  function LittleEndian(n: nat, width: nat): (s: bytes)
    ensures |s| == width
  {
    if width == 0 then [] else [n % 256] + LittleEndian(n / 256, width - 1)
  }

  function FromLittleEndian(s: bytes): nat {
    if s == [] then 0 else s[0] + 256 * FromLittleEndian(s[1..])
  }

  function Power256(i: nat): nat { if i == 0 then 1 else 256 * Power256(i - 1) }

  lemma {:induction false} FixedReads(n: nat, width: nat)
    requires n < Power256(width)
    ensures FromLittleEndian(LittleEndian(n, width)) == n
  {
    if width > 0 {
      FixedReads(n / 256, width - 1);
      assert LittleEndian(n, width)[1..] == LittleEndian(n / 256, width - 1);
    }
  }

  lemma {:induction false} FixedWrites(s: bytes)
    ensures FromLittleEndian(s) < Power256(|s|) && LittleEndian(FromLittleEndian(s), |s|) == s
  {
    if s != [] {
      FixedWrites(s[1..]);
      ByteParts(s[0], FromLittleEndian(s[1..]));
      assert s == [s[0]] + s[1..];
    }
  }

  lemma ByteParts(c: nat, v: nat)
    requires c < 256
    ensures (c + 256 * v) / 256 == v && (c + 256 * v) % 256 == c
  {}

  lemma Widths()
    ensures Power256(4) == 0x1_0000_0000 && Power256(8) == TWO_64
  {
    assert Power256(0) == 1 && Power256(1) == 256 && Power256(2) == 65536 && Power256(3) == 0x100_0000;
    assert Power256(5) == 0x100_0000_0000 && Power256(6) == 0x1_0000_0000_0000 && Power256(7) == 0x100_0000_0000_0000;
  }

  /** Three hundred takes two groups, the low one first; a fixed word has its low byte first. */
  lemma LowFirst()
    ensures Uvarint(300) == [0xAC, 0x02] && Uvarint(127) == [0x7F] && Uvarint(128) == [0x80, 0x01]
    ensures LittleEndian(0x0A0B0C0D, 4) == [0x0D, 0x0C, 0x0B, 0x0A]
  {
    assert Uvarint(2) == [2] && Uvarint(1) == [1];
    assert LittleEndian(0x0A, 1) == [0x0A] by { assert LittleEndian(0, 0) == []; }
    assert LittleEndian(0x0A0B, 2) == [0x0B] + LittleEndian(0x0A, 1);
    assert LittleEndian(0x0A0B0C, 3) == [0x0C] + LittleEndian(0x0A0B, 2);
  }
}
