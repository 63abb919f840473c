/** Fixed-width integers as bytes in either byte order. */
module Wire {
  import opened Powers

  type Byte = x: int | 0 <= x < 256
  type Word32 = x: int | 0 <= x < 0x1_0000_0000
  type Int32 = x: int | -0x8000_0000 <= x < 0x8000_0000

  datatype ByteOrder = LittleEndian | BigEndian

  /** The n low bytes, least significant first. */
  function LowFirst(n: nat, w: nat): (b: seq<Byte>)
    ensures |b| == n
  {
    if n == 0 then [] else [w % 256] + LowFirst(n - 1, w / 256)
  }

  function FromLowFirst(b: seq<Byte>): nat {
    if b == [] then 0 else b[0] as int + 256 * FromLowFirst(b[1..])
  }

  function Reversed(b: seq<Byte>): (r: seq<Byte>)
    ensures |r| == |b|
  {
    seq(|b|, i requires 0 <= i < |b| => b[|b| - 1 - i])
  }

  /** An unsigned integer of n bytes. */
  function UintBytes(order: ByteOrder, n: nat, w: nat): (b: seq<Byte>)
    ensures |b| == n
  {
    if order == LittleEndian then LowFirst(n, w) else Reversed(LowFirst(n, w))
  }

  function UintOf(order: ByteOrder, b: seq<Byte>): nat {
    FromLowFirst(if order == LittleEndian then b else Reversed(b))
  }

  /** What bytes weigh: the last one is the unit when the big end comes first, the first one otherwise. */
  ghost function Weight(order: ByteOrder, b: seq<Byte>): nat {
    if b == [] then 0
    else if order == BigEndian then 256 * Weight(order, b[..|b| - 1]) + b[|b| - 1]
    else b[0] + 256 * Weight(order, b[1..])
  }

  lemma {:induction false} UintWeighs(order: ByteOrder, b: seq<Byte>)
    ensures UintOf(order, b) == Weight(order, b)
  {
    if b != [] {
      if order == BigEndian {
        var n := |b| - 1;
        UintWeighs(order, b[..n]);
        assert Reversed(b)[0] == b[n] && Reversed(b)[1..] == Reversed(b[..n]);
      } else {
        UintWeighs(order, b[1..]);
      }
    }
  }

  lemma WeightBound(order: ByteOrder, b: seq<Byte>)
    ensures Weight(order, b) < Pow(256, |b|)
  {
    UintWeighs(order, b);
    UintBound(order, b);
  }

  /** The bytes written weigh the integer. */
  lemma BytesWeigh(order: ByteOrder, n: nat, w: nat)
    requires w < Pow(256, n)
    ensures Weight(order, UintBytes(order, n, w)) == w
  {
    hide *;
    UintBack(order, n, w);
    UintWeighs(order, UintBytes(order, n, w));
  }

  /** The unsigned integer with the same bits as a signed one of n bytes, and back. */
  function AsUnsigned(n: nat, x: int): (w: nat)
    requires InSigned(n, x)
  {
    PowPositive(256, n);
    if x < 0 then x + Pow(256, n) else x
  }

  function AsSigned(n: nat, w: nat): int {
    if 2 * w >= Pow(256, n) then w - Pow(256, n) else w
  }

  predicate InSigned(n: nat, x: int) {
    0 - Pow(256, n) <= 2 * x < Pow(256, n)
  }

  lemma {:induction false} LowFirstBack(n: nat, w: nat)
    requires w < Pow(256, n)
    ensures FromLowFirst(LowFirst(n, w)) == w
  {
    if n > 0 {
      LowFirstBack(n - 1, w / 256);
      assert LowFirst(n, w)[1..] == LowFirst(n - 1, w / 256);
    }
  }

  /** Writing an unsigned integer and reading it gives it back, in either byte order. */
  lemma UintBack(order: ByteOrder, n: nat, w: nat)
    requires w < Pow(256, n)
    ensures UintOf(order, UintBytes(order, n, w)) == w
  {
    hide LowFirst, FromLowFirst, Pow;
    LowFirstBack(n, w);
    assert Reversed(Reversed(LowFirst(n, w))) == LowFirst(n, w);
  }

  lemma {:induction false} LowFirstForth(b: seq<Byte>)
    ensures LowFirst(|b|, FromLowFirst(b)) == b
  {
    if b != [] {
      LowFirstForth(b[1..]);
      var w := FromLowFirst(b[1..]);
      assert (b[0] as int + 256 * w) % 256 == b[0] && (b[0] as int + 256 * w) / 256 == w;
    }
  }

  /** Reading bytes as an unsigned integer and writing it gives them back: every integer has one form only. */
  lemma UintForth(order: ByteOrder, b: seq<Byte>)
    ensures UintBytes(order, |b|, UintOf(order, b)) == b
  {
    hide LowFirst, FromLowFirst;
    LowFirstForth(if order == LittleEndian then b else Reversed(b));
    assert Reversed(Reversed(b)) == b;
  }

  lemma SignedBack(n: nat, x: int)
    requires InSigned(n, x)
    ensures AsUnsigned(n, x) < Pow(256, n) && AsSigned(n, AsUnsigned(n, x)) == x
  {
    hide Pow;
  }

  lemma {:induction false} UintBound(order: ByteOrder, b: seq<Byte>)
    ensures UintOf(order, b) < Pow(256, |b|)
  {
    FromLowFirstBound(if order == LittleEndian then b else Reversed(b));
  }

  lemma {:induction false} FromLowFirstBound(b: seq<Byte>)
    ensures FromLowFirst(b) < Pow(256, |b|)
  {
    if b != [] {
      FromLowFirstBound(b[1..]);
    }
  }

  // ---- 32-bit words

  lemma FourBytes()
    ensures Pow(256, 4) == 0x1_0000_0000
  {
    assert Pow(256, 2) == 0x1_0000;
    PowAdd(256, 2, 2);
  }

  function AsWord(x: Int32): Word32 {
    if x < 0 then x + 0x1_0000_0000 else x
  }

  function AsInt(w: Word32): Int32 {
    if w >= 0x8000_0000 then w - 0x1_0000_0000 else w
  }

  function Word32Bytes(order: ByteOrder, w: Word32): (b: seq<Byte>)
    ensures |b| == 4
  {
    UintBytes(order, 4, w)
  }

  /** The 32-bit word at a place, byte by byte. */
  function WordFrom(order: ByteOrder, b: seq<Byte>, i: nat): int
    requires i + 4 <= |b|
  {
    var w: int, x: int, y: int, z: int := b[i], b[i + 1], b[i + 2], b[i + 3];
    if order == BigEndian then ((w * 256 + x) * 256 + y) * 256 + z else w + 256 * (x + 256 * (y + 256 * z))
  }

  lemma WordFromIs(order: ByteOrder, b: seq<Byte>, i: nat)
    requires i + 4 <= |b|
    ensures Word32At(order, b, i) == WordFrom(order, b, i)
  {
    var s := b[i..i + 4];
    UintWeighs(order, s);
    hide UintOf;
    if order == BigEndian {
      assert s[..3][..2] == s[..2] && s[..2][..1] == s[..1] && s[..1][..0] == [];
      assert Weight(order, s[..1]) == s[0];
      assert Weight(order, s[..2]) == 256 * Weight(order, s[..1]) + s[1];
      assert Weight(order, s[..3]) == 256 * Weight(order, s[..2]) + s[2];
      assert Weight(order, s) == 256 * Weight(order, s[..3]) + s[3];
    } else {
      assert s[1..][1..] == s[2..] && s[2..][1..] == s[3..] && s[3..][1..] == [];
      assert Weight(order, s[3..]) == s[3];
      assert Weight(order, s[2..]) == s[2] + 256 * Weight(order, s[3..]);
      assert Weight(order, s[1..]) == s[1] + 256 * Weight(order, s[2..]);
    }
  }

  function Word32At(order: ByteOrder, b: seq<Byte>, i: nat): Word32
    requires i + 4 <= |b|
  {
    UintBound(order, b[i..i + 4]);
    FourBytes();
    UintOf(order, b[i..i + 4])
  }

  /** The word at a place is the one whose bytes stand there. */
  lemma WordIs(order: ByteOrder, b: seq<Byte>, i: nat, w: Word32)
    requires i + 4 <= |b|
    ensures Word32At(order, b, i) == w <==> b[i..i + 4] == Word32Bytes(order, w)
  {
    hide UintBytes, UintOf;
    FourBytes();
    UintForth(order, b[i..i + 4]);
    UintBack(order, 4, w);
  }

  lemma SignForth(w: Word32, x: Int32)
    ensures AsInt(w) == x <==> w == AsWord(x)
  {
  }

  /** A word written inside a longer sequence reads back the same. */
  lemma WordInside(order: ByteOrder, w: Word32, before: seq<Byte>, after: seq<Byte>)
    ensures Word32At(order, before + Word32Bytes(order, w) + after, |before|) == w
  {
    var b := before + Word32Bytes(order, w) + after;
    assert b[|before|..|before| + 4] == Word32Bytes(order, w);
    FourBytes();
    UintBack(order, 4, w);
  }

  lemma WordAtFront(order: ByteOrder, a: seq<Byte>, b: seq<Byte>)
    requires |a| >= 4
    ensures Word32At(order, a + b, 0) == Word32At(order, a, 0)
  {
    assert (a + b)[0..4] == a[0..4];
  }
}
