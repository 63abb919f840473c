/** A growing writer and the reader that takes its bytes apart again. */
module ByteBuffer {
  import opened Powers
  import opened Wire

  /** One typed write; the widths are the source's 1, 2, 4 and 8 bytes, and floats travel as their bit patterns. */
  datatype Item =
    | Bools(bools: seq<bool>)
    | Uints(order: ByteOrder, width: nat, uints: seq<nat>)
    | Ints(order: ByteOrder, width: nat, ints: seq<int>)
    | Raw(bytes: seq<Byte>)

  /** What has to be known to read an item: its kind and how many values. */
  datatype Shape =
    | SomeBools(count: nat)
    | SomeUints(order: ByteOrder, width: nat, count: nat)
    | SomeInts(order: ByteOrder, width: nat, count: nat)
    | SomeRaw(count: nat)

  datatype Result<T> = Ok(value: T) | UnexpectedEOF

  predicate IsWidth(width: nat) {
    width == 1 || width == 2 || width == 4 || width == 8
  }

  predicate UintsFit(width: nat, values: seq<nat>) {
    forall i :: 0 <= i < |values| ==> values[i] < Pow(256, width)
  }

  predicate IntsFit(width: nat, values: seq<int>) {
    forall i :: 0 <= i < |values| ==> InSigned(width, values[i])
  }

  ghost predicate Representable(item: Item) {
    match item
    case Bools(_) => true
    case Uints(_, width, values) => IsWidth(width) && UintsFit(width, values)
    case Ints(_, width, values) => IsWidth(width) && IntsFit(width, values)
    case Raw(_) => true
  }

  function ShapeOf(item: Item): Shape {
    match item
    case Bools(b) => SomeBools(|b|)
    case Uints(order, width, v) => SomeUints(order, width, |v|)
    case Ints(order, width, v) => SomeInts(order, width, |v|)
    case Raw(b) => SomeRaw(|b|)
  }

  /** The length of n words. */
  function Span(width: nat, n: nat): nat {
    if n == 0 then 0 else Span(width, n - 1) + width
  }

  lemma {:induction false} SpanIs(width: nat, n: nat)
    ensures Span(width, n) == width * n
  {
    if n > 0 {
      SpanIs(width, n - 1);
      TimesNext(n - 1, width);
    }
  }

  lemma {:induction false} SpanGrows(width: nat, i: nat, n: nat)
    requires i <= n
    ensures Span(width, i) <= Span(width, n)
  {
    if i < n {
      SpanGrows(width, i, n - 1);
    }
  }

  // ---- encodings

  function BoolByte(v: bool): Byte {
    if v then 1 else 0
  }

  function BoolBytes(values: seq<bool>): (b: seq<Byte>)
    ensures |b| == |values|
  {
    seq(|values|, i requires 0 <= i < |values| => BoolByte(values[i]))
  }

  function UintsBytes(order: ByteOrder, width: nat, values: seq<nat>): (b: seq<Byte>)
    ensures |b| == Span(width, |values|)
  {
    if values == [] then [] else
      UintsBytes(order, width, values[..|values| - 1]) + UintBytes(order, width, values[|values| - 1])
  }

  function Unsigned(width: nat, values: seq<int>): (u: seq<nat>)
    requires IntsFit(width, values)
    ensures |u| == |values|
  {
    seq(|values|, i requires 0 <= i < |values| && InSigned(width, values[i]) => AsUnsigned(width, values[i]))
  }

  /** Word after word, the bytes weigh the values. */
  ghost predicate Spells(b: seq<Byte>, order: ByteOrder, width: nat, values: seq<nat>)
    decreases |values|
  {
    if values == [] then b == [] else
      var n := |values| - 1;
      && |b| >= width && Weight(order, b[|b| - width..]) == values[n]
      && Spells(b[..|b| - width], order, width, values[..n])
  }

  /** The values in two's complement: a negative one is 256^width more. */
  ghost predicate Complements(width: nat, u: seq<nat>, values: seq<int>) {
    |u| == |values| && forall i :: 0 <= i < |u| ==> u[i] == if values[i] < 0 then values[i] + Pow(256, width) else values[i]
  }

  lemma SpellsNext(b: seq<Byte>, c: seq<Byte>, order: ByteOrder, width: nat, values: seq<nat>, w: nat)
    requires Spells(b, order, width, values) && |c| == width && Weight(order, c) == w
    ensures Spells(b + c, order, width, values + [w])
  {
    hide Weight;
    var d, v := b + c, values + [w];
    assert d[..|d| - width] == b && d[|d| - width..] == c && v[..|values|] == values;
  }

  lemma SpellsNothing(order: ByteOrder, width: nat)
    ensures Spells([], order, width, [])
  {
  }

  lemma {:induction false} UintsSpell(order: ByteOrder, width: nat, values: seq<nat>)
    requires UintsFit(width, values)
    ensures Spells(UintsBytes(order, width, values), order, width, values)
  {
    hide Spells, UintBytes, Weight, Pow;
    if values == [] {
      SpellsNothing(order, width);
    } else {
      var n := |values| - 1;
      UintsSpell(order, width, values[..n]);
      BytesWeigh(order, width, values[n]);
      SpellsNext(UintsBytes(order, width, values[..n]), UintBytes(order, width, values[n]), order, width, values[..n], values[n]);
      assert values[..n] + [values[n]] == values;
    }
  }

  lemma {:induction false} UintsOfSpell(order: ByteOrder, width: nat, n: nat, b: seq<Byte>)
    requires |b| == Span(width, n)
    ensures Spells(b, order, width, UintsOf(order, width, n, b))
    decreases n
  {
    hide Spells, UintOf, Weight;
    if n == 0 {
      SpellsNothing(order, width);
    } else {
      var i := Span(width, n - 1);
      UintsOfSpell(order, width, n - 1, b[..i]);
      UintWeighs(order, b[i..]);
      SpellsNext(b[..i], b[i..], order, width, UintsOf(order, width, n - 1, b[..i]), UintOf(order, b[i..]));
      assert b[..i] + b[i..] == b;
    }
  }

  ghost function Encoded(item: Item): seq<Byte>
    requires Representable(item)
  {
    match item
    case Bools(b) => BoolBytes(b)
    case Uints(order, width, v) => UintsBytes(order, width, v)
    case Ints(order, width, v) => UintsBytes(order, width, Unsigned(width, v))
    case Raw(b) => b
  }

  ghost function EncodedAll(items: seq<Item>): seq<Byte>
    requires forall i :: 0 <= i < |items| ==> Representable(items[i])
  {
    if items == [] then [] else EncodedAll(items[..|items| - 1]) + Encoded(items[|items| - 1])
  }

  // ---- the writer

  class Writer {
    var buf: array<Byte>
    var off: nat
    /** Bytes moved by all growths so far. */
    ghost var copied: nat

    /** The slice is as long as its capacity, and growing has never moved more bytes in all than fit now. */
    ghost predicate Valid()
      reads this
    {
      off <= buf.Length && copied <= buf.Length
    }

    ghost function Contents(): seq<Byte>
      reads this, buf
      requires Valid()
    {
      buf[..off]
    }

    constructor (capacity: nat)
      ensures Valid() && fresh(buf) && buf.Length == capacity && Contents() == [] && copied == 0
    {
      buf := new Byte[capacity];
      off, copied := 0, 0;
    }

    /** Moves the contents to a slice at least twice as long. */
    method GrowSlice(n: nat)
      requires Valid()
      modifies this`buf, this`copied
      ensures Valid() && Contents() == old(Contents()) && fresh(buf)
      ensures buf.Length == (if old(buf.Length) + n > 2 * old(buf.Length) then old(buf.Length) + n else 2 * old(buf.Length))
      ensures copied == old(copied) + off
    {
      var c := if buf.Length + n > 2 * buf.Length then buf.Length + n else 2 * buf.Length;
      var grown := new Byte[c];
      for i := 0 to off
        invariant grown[..i] == buf[..i]
        modifies grown
      {
        grown[i] := buf[i];
      }
      copied := copied + off;
      buf := grown;
    }

    /** Makes room for n more bytes. */
    method Grow(n: nat)
      requires Valid()
      modifies this`buf, this`copied
      ensures Valid() && Contents() == old(Contents()) && off + n <= buf.Length
      ensures if off + n < old(buf.Length) then
                buf == old(buf) && copied == old(copied)
              else
                && fresh(buf) && buf.Length >= 2 * old(buf.Length) && copied == old(copied) + off
    {
      if off + n < buf.Length {
        return;
      }
      GrowSlice(n);
    }

    method Release()
      requires Valid()
      modifies this`off
      ensures Valid() && Contents() == []
    {
      off := 0;
    }

    method Write(p: seq<Byte>)
      requires Valid()
      modifies this, buf
      ensures Valid() && Contents() == old(Contents()) + p && (buf == old(buf) || fresh(buf))
      ensures copied == old(copied) + if buf == old(buf) then 0 else old(off)
    {
      Grow(|p|);
      Put(p);
    }

    /** Places bytes at the write position. */
    method Put(p: seq<Byte>)
      requires Valid() && off + |p| <= buf.Length
      modifies this`off, buf
      ensures Valid() && Contents() == old(Contents()) + p && off == old(off) + |p|
    {
      forall i | 0 <= i < |p| {
        buf[off + i] := p[i];
      }
      off := off + |p|;
    }

    method WriteBools(values: seq<bool>)
      requires Valid()
      modifies this, buf
      ensures Valid() && Contents() == old(Contents()) + BoolBytes(values) && (buf == old(buf) || fresh(buf))
      ensures off == old(off) + |values|
      ensures forall i :: 0 <= i < |values| ==> Contents()[old(off) + i] == if values[i] then 1 else 0
      ensures copied == old(copied) + if buf == old(buf) then 0 else old(off)
    {
      Grow(|values|);
      ghost var before := Contents();
      for i := 0 to |values|
        invariant Valid() && off == |before| + i && off + (|values| - i) <= buf.Length
        invariant Contents() == before + BoolBytes(values[..i])
        modifies this`off, buf
      {
        buf[off] := if values[i] then 1 else 0;
        off := off + 1;
        assert BoolBytes(values[..i + 1]) == BoolBytes(values[..i]) + [BoolByte(values[i])];
      }
      assert values[..|values|] == values;
    }

    method WriteUints(order: ByteOrder, width: nat, values: seq<nat>)
      requires Valid() && IsWidth(width) && UintsFit(width, values)
      modifies this, buf
      ensures Valid() && Contents() == old(Contents()) + UintsBytes(order, width, values) && (buf == old(buf) || fresh(buf))
      ensures off >= old(off) && Spells(Contents()[old(off)..], order, width, values)
      ensures copied == old(copied) + if buf == old(buf) then 0 else old(off)
    {
      hide UintsBytes, UintBytes, IsWidth, UintsFit, Contents;
      SpanIs(width, |values|);
      Grow(width * |values|);
      ghost var before := Contents();
      UintsNothing(order, width, values);
      ContentsLength();
      for i := 0 to |values|
        invariant Valid() && off == |before| + Span(width, i) && |before| + Span(width, |values|) <= buf.Length
        invariant Contents() == before + UintsBytes(order, width, values[..i])
        modifies this`off, buf
      {
        SpanGrows(width, i + 1, |values|);
        UintsStep(order, width, values, i);
        AppendStep(before, UintsBytes(order, width, values[..i]), UintBytes(order, width, values[i]));
        Put(UintBytes(order, width, values[i]));
      }
      assert values[..|values|] == values;
      UintsSpell(order, width, values);
      assert Contents()[|before|..] == UintsBytes(order, width, values);
    }

    lemma ContentsLength()
      requires Valid()
      ensures |Contents()| == off
    {
    }

    /** Signed values are written as the unsigned ones with the same bits. */
    method WriteInts(order: ByteOrder, width: nat, values: seq<int>)
      requires Valid() && IsWidth(width) && IntsFit(width, values)
      modifies this, buf
      ensures Valid() && Contents() == old(Contents()) + UintsBytes(order, width, Unsigned(width, values))
      ensures exists u :: Complements(width, u, values) && off >= old(off) && Spells(Contents()[old(off)..], order, width, u)
      ensures buf == old(buf) || fresh(buf)
      ensures copied == old(copied) + if buf == old(buf) then 0 else old(off)
    {
      UnsignedFits(width, values);
      hide Spells, UintsFit;
      WriteUints(order, width, Unsigned(width, values));
      UnsignedComplements(width, values);
    }

    method WriteItem(item: Item)
      requires Valid() && Representable(item)
      modifies this, buf
      ensures Valid() && Contents() == old(Contents()) + Encoded(item) && (buf == old(buf) || fresh(buf))
      ensures copied == old(copied) + if buf == old(buf) then 0 else old(off)
    {
      match item {
        case Bools(b) => WriteBools(b);
        case Uints(order, width, v) => WriteUints(order, width, v);
        case Ints(order, width, v) => WriteInts(order, width, v);
        case Raw(b) => Write(b);
      }
    }

    /** Any script of writes, across every growth, appends the encodings in order. */
    method WriteAll(items: seq<Item>)
      requires Valid() && forall i :: 0 <= i < |items| ==> Representable(items[i])
      modifies this, buf
      ensures Valid() && Contents() == old(Contents()) + EncodedAll(items)
      ensures copied >= old(copied) + if buf == old(buf) then 0 else old(off)
    {
      ghost var before := Contents();
      for i := 0 to |items|
        invariant Valid() && Contents() == before + EncodedAll(items[..i])
        invariant buf == old(buf) || fresh(buf)
        invariant off >= old(off) && copied >= old(copied) + if buf == old(buf) then 0 else old(off)
      {
        assert items[..i + 1][..i] == items[..i];
        WriteItem(items[i]);
      }
      assert items[..|items|] == items;
    }
  }

  lemma AppendStep(a: seq<Byte>, b: seq<Byte>, c: seq<Byte>)
    ensures (a + b) + c == a + (b + c)
  {
  }

  lemma UintsNothing(order: ByteOrder, width: nat, values: seq<nat>)
    ensures UintsBytes(order, width, values[..0]) == []
  {
  }

  lemma UintsStep(order: ByteOrder, width: nat, values: seq<nat>, i: nat)
    requires i < |values|
    ensures UintsBytes(order, width, values[..i + 1]) == UintsBytes(order, width, values[..i]) + UintBytes(order, width, values[i])
  {
    assert values[..i + 1][..i] == values[..i];
  }

  lemma UnsignedComplements(width: nat, values: seq<int>)
    requires IntsFit(width, values)
    ensures Complements(width, Unsigned(width, values), values)
  {
  }

  lemma UnsignedFits(width: nat, values: seq<int>)
    requires IntsFit(width, values)
    ensures UintsFit(width, Unsigned(width, values))
  {
    forall i | 0 <= i < |values| ensures Unsigned(width, values)[i] < Pow(256, width) {
      SignedBack(width, values[i]);
    }
  }

  // ---- the reader

  function BoolsOf(b: seq<Byte>): (v: seq<bool>)
    ensures |v| == |b|
  {
    seq(|b|, i requires 0 <= i < |b| => b[i] == 1)
  }

  /** The values in a run of n words. */
  function UintsOf(order: ByteOrder, width: nat, n: nat, b: seq<Byte>): (v: seq<nat>)
    requires |b| == Span(width, n)
    ensures |v| == n
  {
    if n == 0 then [] else
      UintsOf(order, width, n - 1, b[..Span(width, n - 1)]) + [UintOf(order, b[Span(width, n - 1)..])]
  }

  function Signed(width: nat, u: seq<nat>): (v: seq<int>)
    ensures |v| == |u|
  {
    seq(|u|, i requires 0 <= i < |u| => AsSigned(width, u[i]))
  }

  function ShapeLength(shape: Shape): nat {
    match shape
    case SomeBools(n) => n
    case SomeUints(_, width, n) => Span(width, n)
    case SomeInts(_, width, n) => Span(width, n)
    case SomeRaw(n) => n
  }

  /** What the bytes of an item of this shape say. */
  function Decoded(shape: Shape, b: seq<Byte>): Item
    requires |b| == ShapeLength(shape)
  {
    match shape
    case SomeBools(n) => Bools(BoolsOf(b))
    case SomeUints(order, width, n) => Uints(order, width, UintsOf(order, width, n, b))
    case SomeInts(order, width, n) => Ints(order, width, Signed(width, UintsOf(order, width, n, b)))
    case SomeRaw(n) => Raw(b)
  }

  class Reader {
    const buf: seq<Byte>
    var off: nat

    ghost predicate Valid()
      reads this
    {
      off <= |buf|
    }

    constructor (data: seq<Byte>)
      ensures Valid() && buf == data && off == 0
    {
      buf, off := data, 0;
    }

    /** The next n words of width b, or nothing at all. */
    method Slices(b: nat, n: nat) returns (r: Result<seq<Byte>>)
      requires Valid()
      modifies this
      ensures Valid()
      ensures if old(off) + Span(b, n) > |buf| then r == UnexpectedEOF && off == old(off)
              else off == old(off) + Span(b, n) && r == Ok(buf[old(off)..off])
    {
      SpanIs(b, n);
      var size := b * n;
      if off + size > |buf| {
        return UnexpectedEOF;
      }
      var s := buf[off..off + size];
      off := off + size;
      return Ok(s);
    }

    method ReadBools(n: nat) returns (r: Result<seq<bool>>)
      requires Valid()
      modifies this
      ensures Valid()
      ensures if old(off) + n > |buf| then r == UnexpectedEOF && off == old(off)
              else off == old(off) + n && r == Ok(BoolsOf(buf[old(off)..off]))
      ensures r.Ok? ==> |r.value| == n && forall i :: 0 <= i < n ==> (r.value[i] <==> buf[old(off) + i] == 1)
    {
      SpanIs(1, n);
      var s := Slices(1, n);
      if s.UnexpectedEOF? {
        return UnexpectedEOF;
      }
      var values: seq<bool> := [];
      for i := 0 to |s.value|
        invariant values == BoolsOf(s.value[..i])
        invariant off == old(off) + n
      {
        values := values + [s.value[i] == 1];
      }
      assert s.value[..|s.value|] == s.value;
      return Ok(values);
    }

    method ReadUints(order: ByteOrder, width: nat, n: nat) returns (r: Result<seq<nat>>)
      requires Valid() && IsWidth(width)
      modifies this
      ensures Valid()
      ensures if old(off) + Span(width, n) > |buf| then r == UnexpectedEOF && off == old(off)
              else off == old(off) + Span(width, n) && r == Ok(UintsOf(order, width, n, buf[old(off)..off]))
      ensures r.Ok? ==> |r.value| == n && Spells(buf[old(off)..off], order, width, r.value)
    {
      var s := Slices(width, n);
      if s.UnexpectedEOF? {
        return UnexpectedEOF;
      }
      var values := UintsIn(order, width, n, s.value);
      UintsOfSpell(order, width, n, s.value);
      return Ok(values);
    }

    method ReadInts(order: ByteOrder, width: nat, n: nat) returns (r: Result<seq<int>>)
      requires Valid() && IsWidth(width)
      modifies this
      ensures Valid()
      ensures if old(off) + Span(width, n) > |buf| then r == UnexpectedEOF && off == old(off)
              else off == old(off) + Span(width, n) && r == Ok(Signed(width, UintsOf(order, width, n, buf[old(off)..off])))
      ensures r.Ok? ==> exists u :: Complements(width, u, r.value) && Spells(buf[old(off)..off], order, width, u)
    {
      var u := ReadUints(order, width, n);
      if u.UnexpectedEOF? {
        return UnexpectedEOF;
      }
      SignedComplements(order, width, buf[old(off)..off], u.value);
      return Ok(Signed(width, u.value));
    }

    /** Reads one item of a known shape. */
    method ReadItem(shape: Shape) returns (r: Result<Item>)
      requires Valid() && (shape.SomeUints? || shape.SomeInts? ==> IsWidth(shape.width))
      modifies this
      ensures Valid()
      ensures if old(off) + ShapeLength(shape) > |buf| then r == UnexpectedEOF && off == old(off)
              else off == old(off) + ShapeLength(shape) && r == Ok(Decoded(shape, buf[old(off)..off]))
    {
      match shape {
        case SomeBools(n) =>
          var b := ReadBools(n);
          r := if b.Ok? then Ok(Bools(b.value)) else UnexpectedEOF;
        case SomeUints(order, width, n) =>
          var u := ReadUints(order, width, n);
          r := if u.Ok? then Ok(Uints(order, width, u.value)) else UnexpectedEOF;
        case SomeInts(order, width, n) =>
          var v := ReadInts(order, width, n);
          r := if v.Ok? then Ok(Ints(order, width, v.value)) else UnexpectedEOF;
        case SomeRaw(n) =>
          SpanIs(1, n);
          var b := Slices(1, n);
          r := if b.Ok? then Ok(Raw(b.value)) else UnexpectedEOF;
      }
    }

    /** Replaying the reads of a script on the bytes its writes produced gives the same items and uses the bytes up. */
    method ReadAll(ghost items: seq<Item>, shapes: seq<Shape>) returns (r: seq<Item>)
      requires forall i :: 0 <= i < |items| ==> Representable(items[i])
      requires |shapes| == |items| && forall i :: 0 <= i < |items| ==> shapes[i] == ShapeOf(items[i])
      requires off == 0 && buf == EncodedAll(items)
      modifies this
      ensures r == items && off == |buf|
    {
      hide Representable, ShapeOf, ShapeLength, Decoded, Encoded, EncodedAll;
      r := [];
      EncodedNothing(items);
      for i := 0 to |shapes|
        invariant r == items[..i] && off == |EncodedAll(items[..i])| <= |buf|
      {
        EncodedStep(items, i);
        ItemBack(items[i]);
        ghost var before := EncodedAll(items[..i]);
        var item := ReadItem(shapes[i]);
        assert before + Encoded(items[i]) <= buf;
        assert buf[|before|..off] == Encoded(items[i]);
        r := r + [item.value];
      }
      assert items[..|items|] == items;
    }
  }

  lemma {:induction false} SignedComplements(order: ByteOrder, width: nat, b: seq<Byte>, u: seq<nat>)
    requires Spells(b, order, width, u)
    ensures Complements(width, u, Signed(width, u))
    decreases |u|
  {
    if u != [] {
      hide Weight, Pow;
      var n := |u| - 1;
      SignedComplements(order, width, b[..|b| - width], u[..n]);
      assert forall i :: 0 <= i < n ==> Signed(width, u[..n])[i] == Signed(width, u)[i] && u[..n][i] == u[i];
      WeightBound(order, b[|b| - width..]);
    }
  }

  /** The loop that collects the words of a slice. */
  method UintsIn(order: ByteOrder, width: nat, n: nat, s: seq<Byte>) returns (values: seq<nat>)
    requires IsWidth(width) && |s| == Span(width, n)
    ensures values == UintsOf(order, width, n, s)
  {
    hide UintsOf, UintOf, IsWidth;
    values := [];
    UintsOfNothing(order, width, s);
    var i: nat := 0;
    for k := 0 to n
      invariant i == Span(width, k) <= |s|
      invariant values == UintsOf(order, width, k, s[..i])
    {
      SpanGrows(width, k + 1, n);
      UintsOfStep(order, width, k, s);
      values := values + [UintOf(order, s[i..i + width])];
      i := i + width;
    }
    assert s[..i] == s;
  }

  lemma UintsOfNothing(order: ByteOrder, width: nat, b: seq<Byte>)
    ensures UintsOf(order, width, 0, b[..0]) == []
  {
  }

  lemma UintsOfStep(order: ByteOrder, width: nat, k: nat, b: seq<Byte>)
    requires Span(width, k + 1) <= |b|
    ensures UintsOf(order, width, k + 1, b[..Span(width, k + 1)]) ==
            UintsOf(order, width, k, b[..Span(width, k)]) + [UintOf(order, b[Span(width, k)..Span(width, k) + width])]
  {
    hide UintOf;
    var i, j := Span(width, k), Span(width, k + 1);
    assert b[..j][..i] == b[..i];
    assert b[..j][i..] == b[i..i + width];
  }

  // ---- reading inverts writing

  lemma {:induction false} UintsRead(order: ByteOrder, width: nat, values: seq<nat>)
    requires UintsFit(width, values)
    ensures UintsOf(order, width, |values|, UintsBytes(order, width, values)) == values
    decreases |values|, 1
  {
    if values == [] {
    } else {
      hide *;
      UintsReadStep(order, width, values);
    }
  }

  lemma UintsReadStep(order: ByteOrder, width: nat, values: seq<nat>)
    requires values != [] && UintsFit(width, values)
    ensures UintsOf(order, width, |values|, UintsBytes(order, width, values)) == values
    decreases |values|, 0
  {
    hide *;
    var n, last := |values| - 1, values[|values| - 1];
    var before := values[..n];
    LastFits(width, values);
    UintsRead(order, width, before);
    UintBack(order, width, last);
    UintsStep(order, width, values, n);
    assert values[..n + 1] == values && values == before + [last];
    JoinRead(order, width, n, UintsBytes(order, width, before), UintBytes(order, width, last));
  }

  lemma JoinRead(order: ByteOrder, width: nat, n: nat, b: seq<Byte>, c: seq<Byte>)
    requires |b| == Span(width, n) && |c| == width
    ensures |b + c| == Span(width, n + 1)
    ensures UintsOf(order, width, n + 1, b + c) == UintsOf(order, width, n, b) + [UintOf(order, c)]
  {
    hide UintsOf, UintOf;
    var d := b + c;
    UintsOfStep(order, width, n, d);
    assert d[..Span(width, n + 1)] == d;
    assert d[..|b|] == b && d[|b|..|b| + width] == c;
  }

  lemma LastFits(width: nat, values: seq<nat>)
    requires values != [] && UintsFit(width, values)
    ensures UintsFit(width, values[..|values| - 1]) && values[|values| - 1] < Pow(256, width)
  {
  }

  /** Decoding an encoded item by its shape gives the item back. */
  lemma ItemBack(item: Item)
    requires Representable(item)
    ensures |Encoded(item)| == ShapeLength(ShapeOf(item))
    ensures Decoded(ShapeOf(item), Encoded(item)) == item
    ensures ShapeOf(item).SomeUints? || ShapeOf(item).SomeInts? ==> IsWidth(ShapeOf(item).width)
  {
    hide UintsBytes, UintsOf;
    match item
    case Bools(b) =>
      assert BoolsOf(BoolBytes(b)) == b;
    case Uints(order, width, v) =>
      UintsRead(order, width, v);
    case Ints(order, width, v) =>
      UnsignedFits(width, v);
      UintsRead(order, width, Unsigned(width, v));
      forall i | 0 <= i < |v| ensures Signed(width, Unsigned(width, v))[i] == v[i] {
        SignedBack(width, v[i]);
      }
      assert Signed(width, Unsigned(width, v)) == v;
    case Raw(b) =>
  }

  lemma EncodedNothing(items: seq<Item>)
    ensures EncodedAll(items[..0]) == []
  {
  }

  /** One more item: its encoding follows the others. */
  lemma EncodedStep(items: seq<Item>, i: nat)
    requires forall k :: 0 <= k < |items| ==> Representable(items[k])
    requires i < |items|
    ensures EncodedAll(items[..i + 1]) == EncodedAll(items[..i]) + Encoded(items[i])
    ensures EncodedAll(items[..i]) + Encoded(items[i]) <= EncodedAll(items)
  {
    assert items[..i + 1][..i] == items[..i];
    EncodedPrefix(items, i + 1);
  }

  lemma {:induction false} EncodedPrefix(items: seq<Item>, i: nat)
    requires forall k :: 0 <= k < |items| ==> Representable(items[k])
    requires i <= |items|
    ensures EncodedAll(items[..i]) <= EncodedAll(items)
    decreases |items|
  {
    if i < |items| {
      var n := |items| - 1;
      EncodedPrefix(items[..n], i);
      assert items[..n][..i] == items[..i];
    } else {
      assert items[..i] == items;
    }
  }
}
