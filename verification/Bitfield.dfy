/** BITFIELD of src/core/DataStore.js: big-endian fields of 1 to 64 bits at any bit offset of a string. */
module Bitfields {
  import opened Wrappers
  import opened Numbers

  type Buf = seq<bv8>

  datatype Policy = WRAP | SAT | FAIL

  /** v >> i */
  function Shr(v: nat, i: nat): nat
    decreases i
  {
    if i == 0 then v else Shr(v / 2, i - 1)
  }

  // ---------- single bits ----------

  /** 1 << bitIndex */
  function Mask(bitIndex: nat): bv8
    requires bitIndex < 8
  {
    match bitIndex
    case 0 => 1
    case 1 => 2
    case 2 => 4
    case 3 => 8
    case 4 => 16
    case 5 => 32
    case 6 => 64
    case _ => 128
  }

  predicate ByteBit(byte: bv8, i: nat)
    requires i < 8
  {
    byte & Mask(i) != 0
  }

  function PutByteBit(byte: bv8, i: nat, bit: bool): bv8
    requires i < 8
  {
    if bit then byte | Mask(i) else byte & !Mask(i)
  }

  /** Bit `pos`, counted from the most significant bit of the first byte; bits past the end are 0. */
  predicate Bit(buf: Buf, pos: nat) {
    pos / 8 < |buf| && ByteBit(buf[pos / 8], 7 - pos % 8)
  }

  function PutBit(buf: Buf, pos: nat, bit: bool): (r: Buf)
    requires pos / 8 < |buf|
    ensures |r| == |buf|
  {
    buf[pos / 8 := PutByteBit(buf[pos / 8], 7 - pos % 8, bit)]
  }

  lemma PutBitSetsOne(buf: Buf, pos: nat, bit: bool, k: nat)
    requires pos / 8 < |buf|
    ensures Bit(PutBit(buf, pos, bit), k) == if k == pos then bit else Bit(buf, k)
  {
  }

  // ---------- fields ----------

  function UInt(buf: Buf, offset: nat, width: nat): nat {
    if width == 0 then 0 else 2 * UInt(buf, offset, width - 1) + if Bit(buf, offset + width - 1) then 1 else 0
  }

  /** Two's complement reading of `u` in `width` bits. */
  function Interpret(u: nat, width: nat, signed: bool): int
    requires width > 0
  {
    if signed && u >= Pow2(width - 1) then u - Pow2(width) else u
  }

  function Read(buf: Buf, offset: nat, width: nat, signed: bool): int
    requires width > 0
  {
    Interpret(UInt(buf, offset, width), width, signed)
  }

  function Zeros(n: nat): (r: Buf)
    ensures |r| == n && forall i :: 0 <= i < n ==> r[i] == 0
  {
    seq(n, _ => 0)
  }

  function BytesFor(bits: nat): nat { (bits + 7) / 8 }

  /** New bytes are zero; an existing buffer is never shortened. */
  function Grow(buf: Buf, bits: nat): (r: Buf)
    ensures |r| == if |buf| < BytesFor(bits) then BytesFor(bits) else |buf|
  {
    if |buf| < BytesFor(bits) then buf + Zeros(BytesFor(bits) - |buf|) else buf
  }

  /** The `count` most significant of the `width` bits of v, stored from `offset` on. */
  function StoreBits(buf: Buf, offset: nat, width: nat, v: nat, count: nat): (r: Buf)
    requires count <= width && BytesFor(offset + width) <= |buf|
    ensures |r| == |buf|
    decreases count
  {
    if count == 0 then buf
    else PutBit(StoreBits(buf, offset, width, v, count - 1), offset + count - 1, Shr(v, width - count) % 2 == 1)
  }

  function Write(buf: Buf, offset: nat, width: nat, value: int): Buf
    requires width > 0
  {
    StoreBits(Grow(buf, offset + width), offset, width, value % Pow2(width), width)
  }

  lemma {:induction false} StoredBit(buf: Buf, offset: nat, width: nat, v: nat, count: nat, k: nat)
    requires count <= width && BytesFor(offset + width) <= |buf|
    ensures Bit(StoreBits(buf, offset, width, v, count), k)
         == if offset <= k < offset + count then Shr(v, width - 1 - (k - offset)) % 2 == 1 else Bit(buf, k)
    decreases count
  {
    hide Bit, PutBit, Shr;
    if count > 0 {
      StoredBit(buf, offset, width, v, count - 1, k);
      PutBitSetsOne(StoreBits(buf, offset, width, v, count - 1), offset + count - 1, Shr(v, width - count) % 2 == 1, k);
    }
  }

  lemma GrowKeepsBits(buf: Buf, bits: nat, k: nat)
    ensures Bit(Grow(buf, bits), k) == Bit(buf, k)
  {
  }

  /** Every bit outside the field is as before, the field holds the low `width` bits of the value, and the
      buffer is exactly long enough: what was allocated outside the field reads as zero. */
  lemma {:induction false} WriteIsLocal(buf: Buf, offset: nat, width: nat, value: int, k: nat)
    requires width > 0
    ensures Bit(Write(buf, offset, width, value), k)
         == if offset <= k < offset + width then Shr(value % Pow2(width), width - 1 - (k - offset)) % 2 == 1
            else Bit(buf, k)
    ensures |Write(buf, offset, width, value)|
         == if |buf| < BytesFor(offset + width) then BytesFor(offset + width) else |buf|
  {
    hide Bit, PutBit, Shr, StoreBits, Grow;
    GrowKeepsBits(buf, offset + width, k);
    StoredBit(Grow(buf, offset + width), offset, width, value % Pow2(width), width, k);
  }

  lemma {:induction false} ShrStep(v: nat, i: nat)
    ensures Shr(v, i + 1) == Shr(v, i) / 2
    decreases i
  {
    if i > 0 { ShrStep(v / 2, i - 1); }
  }

  lemma {:induction false} ShrOut(v: nat, i: nat)
    requires v < Pow2(i)
    ensures Shr(v, i) == 0
    decreases i
  {
    if i > 0 { ShrOut(v / 2, i - 1); }
  }

  /** Bits stored from the top down are read back as the number they came from. */
  lemma {:induction false} UIntOfStored(buf: Buf, offset: nat, width: nat, v: nat, j: nat)
    requires j <= width && v < Pow2(width)
    requires forall k :: offset <= k < offset + width ==> Bit(buf, k) == (Shr(v, width - 1 - (k - offset)) % 2 == 1)
    ensures UInt(buf, offset, j) == Shr(v, width - j)
    decreases j
  {
    hide Bit, Shr;
    if j == 0 {
      ShrOut(v, width);
    } else {
      UIntOfStored(buf, offset, width, v, j - 1);
      ShrStep(v, width - j);
    }
  }

  // ---------- ranges and overflow ----------

  function Min(width: nat, signed: bool): int
    requires width > 0
  {
    var half: int := Pow2(width - 1);
    if signed then -half else 0
  }

  function Max(width: nat, signed: bool): int
    requires width > 0
  {
    if signed then Pow2(width - 1) - 1 else Pow2(width) - 1
  }

  /** The representative of `value` modulo 2^width that a field of this type can hold. */
  function Wrap(value: int, width: nat, signed: bool): int
    requires width > 0
  {
    Interpret(value % Pow2(width), width, signed)
  }

  /** BigInt's %, whose result has the sign of the dividend. */
  function Rem(a: int, b: int): int
    requires b > 0
  {
    if a >= 0 then a % b else -((-a) % b)
  }

  function HandleOverflow(value: int, width: nat, signed: bool, policy: Policy): Option<int>
    requires width > 0
  {
    var lo, hi := Min(width, signed), Max(width, signed);
    if lo <= value <= hi then Some(value)
    else
      match policy
      case FAIL => None
      case SAT => Some(if value < lo then lo else hi)
      case WRAP =>
        var range := hi - lo + 1;
        Some(Rem(Rem(value - lo, range) + range, range) + lo)
  }

  lemma ModUnique(a: int, n: int, q: int, r: int)
    requires n > 0 && a == n * q + r && 0 <= r < n
    ensures a % n == r
  {
    var d := a / n - q;
    assert n * d == r - a % n by { assert n * (a / n) == n * q + n * d; }
    assert d == 0 by {
      assert d >= 1 ==> n * d >= n;
      assert d <= -1 ==> n * d <= -n;
    }
  }

  lemma ModShift(a: int, n: int, k: int)
    requires n > 0
    ensures (a + n * k) % n == a % n
  {
    assert a + n * k == n * (a / n + k) + a % n by { assert n * (a / n + k) == n * (a / n) + n * k; }
    ModUnique(a + n * k, n, a / n + k, a % n);
  }

  lemma SmallMod(x: int, n: int)
    requires 0 <= x <= n && n > 0
    ensures x % n == if x == n then 0 else x
  {
  }

  lemma NegMod(y: int, n: int)
    requires n > 0
    ensures (-y) % n == if y % n == 0 then 0 else n - y % n
  {
    var q, t := y / n, y % n;
    assert y == n * q + t;
    if t == 0 {
      ModUnique(-y, n, -q, 0);
    } else {
      assert -y == n * (-q - 1) + (n - t) by { assert n * (-q - 1) == -(n * q) - n; }
      ModUnique(-y, n, -q - 1, n - t);
    }
  }

  /** The truncating double remainder is the mathematical one. */
  lemma DoubleRem(x: int, n: int)
    requires n > 0
    ensures Rem(Rem(x, n) + n, n) == x % n
  {
    if x >= 0 {
      ModShift(x % n, n, 1);
      SmallMod(x % n, n);
    } else {
      NegMod(-x, n);
      SmallMod(n - (-x) % n, n);
    }
  }

  /** Wrap lands in range and differs from its argument by a multiple of 2^width; nothing else does. */
  lemma WrapIsUnique(value: int, width: nat, signed: bool, r: int, k: int)
    requires width > 0 && Min(width, signed) <= r <= Max(width, signed) && value == r + Pow2(width) * k
    ensures Wrap(value, width, signed) == r
  {
    var n := Pow2(width);
    if r >= 0 {
      ModUnique(value, n, k, r);
    } else {
      assert value == n * (k - 1) + (r + n) by { assert n * (k - 1) == n * k - n; }
      ModUnique(value, n, k - 1, r + n);
    }
  }

  lemma WrapInRange(value: int, width: nat, signed: bool) returns (k: int)
    requires width > 0
    ensures Min(width, signed) <= Wrap(value, width, signed) <= Max(width, signed)
    ensures value == Wrap(value, width, signed) + Pow2(width) * k
  {
    var n := Pow2(width);
    k := value / n;
    assert value == n * k + value % n;
    if Wrap(value, width, signed) != value % n {
      k := k + 1;
      assert n * (k - 1) == n * k - n;
    }
  }

  /** WRAP returns the unique in-range number congruent to the value, SAT clamps, FAIL refuses; all three
      leave an in-range value alone. */
  lemma {:induction false} OverflowMeaning(value: int, width: nat, signed: bool)
    requires width > 0
    ensures var lo, hi := Min(width, signed), Max(width, signed);
            && HandleOverflow(value, width, signed, WRAP) == Some(Wrap(value, width, signed))
            && HandleOverflow(value, width, signed, SAT)
                == Some(if value < lo then lo else if value > hi then hi else value)
            && HandleOverflow(value, width, signed, FAIL) == if lo <= value <= hi then Some(value) else None
  {
    hide Wrap, Rem, Min, Max;
    RangeNonEmpty(width, signed);
    if Min(width, signed) <= value <= Max(width, signed) {
      WrapIsUnique(value, width, signed, value, 0);
    } else {
      WrapFormula(value, width, signed);
    }
  }

  lemma RangeNonEmpty(width: nat, signed: bool)
    requires width > 0
    ensures Min(width, signed) <= Max(width, signed)
    ensures Max(width, signed) - Min(width, signed) + 1 == Pow2(width)
  {
  }

  lemma WrapFormula(value: int, width: nat, signed: bool)
    requires width > 0
    ensures var lo, range := Min(width, signed), Pow2(width);
            Rem(Rem(value - lo, range) + range, range) + lo == Wrap(value, width, signed)
  {
    hide Wrap, Rem, Min, Max;
    var lo, n := Min(width, signed), Pow2(width);
    var x := value - lo;
    DoubleRem(x, n);
    RangeNonEmpty(width, signed);
    assert value == (x % n + lo) + n * (x / n);
    WrapIsUnique(value, width, signed, x % n + lo, x / n);
  }

  // ---------- reads after writes ----------

  /** A read after a write returns the written value, wrapped to the type's range. */
  lemma {:induction false} ReadAfterWrite(buf: Buf, offset: nat, width: nat, value: int, signed: bool)
    requires width > 0
    ensures Read(Write(buf, offset, width, value), offset, width, signed) == Wrap(value, width, signed)
  {
    hide Bit, Shr, Write, UInt;
    var v, now := value % Pow2(width), Write(buf, offset, width, value);
    forall k | offset <= k < offset + width ensures Bit(now, k) == (Shr(v, width - 1 - (k - offset)) % 2 == 1) {
      WriteIsLocal(buf, offset, width, value, k);
    }
    UIntOfStored(now, offset, width, v, width);
    ShrZero(v);
  }

  lemma ShrZero(v: nat)
    ensures Shr(v, 0) == v
  {
  }

  lemma {:induction false} SameBitsSameUInt(a: Buf, b: Buf, offset: nat, width: nat)
    requires forall k :: offset <= k < offset + width ==> Bit(a, k) == Bit(b, k)
    ensures UInt(a, offset, width) == UInt(b, offset, width)
    decreases width
  {
    hide Bit;
    if width > 0 { SameBitsSameUInt(a, b, offset, width - 1); }
  }

  /** A field that shares no bit with the one written reads as before, of whatever type it is. */
  lemma {:induction false} DisjointFieldUntouched(buf: Buf, offset: nat, width: nat, value: int,
                                                  offset2: nat, width2: nat, signed2: bool)
    requires width > 0 && width2 > 0 && (offset + width <= offset2 || offset2 + width2 <= offset)
    ensures Read(Write(buf, offset, width, value), offset2, width2, signed2) == Read(buf, offset2, width2, signed2)
  {
    hide Bit, Write, UInt;
    forall k | offset2 <= k < offset2 + width2 ensures Bit(Write(buf, offset, width, value), k) == Bit(buf, k) {
      WriteIsLocal(buf, offset, width, value, k);
    }
    SameBitsSameUInt(Write(buf, offset, width, value), buf, offset2, width2);
  }

  // ---------- increments ----------

  /** INCRBY: the new buffer and the reply, None for the FAIL policy's null. */
  function Incr(buf: Buf, offset: nat, width: nat, signed: bool, inc: int, policy: Policy): (Buf, Option<int>)
    requires width > 0
  {
    match HandleOverflow(Read(buf, offset, width, signed) + inc, width, signed, policy)
    case None => (buf, None)
    case Some(result) => (Write(buf, offset, width, result), Some(result))
  }

  function Sum(incs: seq<int>): int {
    if incs == [] then 0 else Sum(incs[..|incs| - 1]) + incs[|incs| - 1]
  }

  function IncrAll(buf: Buf, offset: nat, width: nat, signed: bool, incs: seq<int>): Buf
    requires width > 0
  {
    if incs == [] then buf
    else
      var n := |incs| - 1;
      Incr(IncrAll(buf, offset, width, signed, incs[..n]), offset, width, signed, incs[n], WRAP).0
  }

  lemma {:induction false} ReadInRange(buf: Buf, offset: nat, width: nat, signed: bool)
    requires width > 0
    ensures Min(width, signed) <= Read(buf, offset, width, signed) <= Max(width, signed)
  {
    UIntBound(buf, offset, width);
  }

  lemma {:induction false} UIntBound(buf: Buf, offset: nat, width: nat)
    ensures UInt(buf, offset, width) < Pow2(width)
    decreases width
  {
    if width > 0 { UIntBound(buf, offset, width - 1); }
  }

  // ---------- a field as part of one big number ----------

  /** The bytes as a number, the first one weighing most. */
  function Number(buf: Buf): nat {
    if buf == [] then 0 else 256 * Number(buf[..|buf| - 1]) + buf[|buf| - 1] as nat
  }

  lemma UIntStep(buf: Buf, offset: nat, width: nat)
    ensures UInt(buf, offset, 0) == 0
    ensures UInt(buf, offset, width + 1) == 2 * UInt(buf, offset, width) + if Bit(buf, offset + width) then 1 else 0
  {
    hide Bit;
  }

  /** A field is what its two parts are, one behind the other. */
  lemma {:induction false} FieldsJoin(buf: Buf, offset: nat, a: nat, b: nat)
    ensures UInt(buf, offset, a + b) == UInt(buf, offset, a) * Pow2(b) + UInt(buf, offset + a, b)
    decreases b
  {
    hide UInt, Bit;
    UIntStep(buf, offset + a, 0);
    if b > 0 {
      FieldsJoin(buf, offset, a, b - 1);
      UIntStep(buf, offset, a + b - 1);
      UIntStep(buf, offset + a, b - 1);
      TwiceProduct(UInt(buf, offset, a), Pow2(b - 1));
    }
  }

  lemma TwiceProduct(x: nat, p: nat)
    ensures x * (2 * p) == 2 * (x * p)
  {
  }

  lemma ByteOfBits(x: bv8)
    ensures x as nat == (if ByteBit(x, 7) then 128 else 0) + (if ByteBit(x, 6) then 64 else 0)
                        + (if ByteBit(x, 5) then 32 else 0) + (if ByteBit(x, 4) then 16 else 0)
                        + (if ByteBit(x, 3) then 8 else 0) + (if ByteBit(x, 2) then 4 else 0)
                        + (if ByteBit(x, 1) then 2 else 0) + (if ByteBit(x, 0) then 1 else 0)
  {
    var parts := (x & 128) | (x & 64) | (x & 32) | (x & 16) | (x & 8) | (x & 4) | (x & 2) | (x & 1);
    assert x == parts;
    assert x == (x & 128) + (x & 64) + (x & 32) + (x & 16) + (x & 8) + (x & 4) + (x & 2) + (x & 1);
  }

  /** An unsigned field of 8 bits at the start of a byte is that byte. */
  lemma ByteField(buf: Buf, i: nat)
    requires i < |buf|
    ensures UInt(buf, 8 * i, 8) == buf[i] as nat
  {
    hide UInt, Bit, ByteBit;
    ByteOfBits(buf[i]);
    BitOfByte(buf, i, 0);
    BitOfByte(buf, i, 1);
    BitOfByte(buf, i, 2);
    BitOfByte(buf, i, 3);
    BitOfByte(buf, i, 4);
    BitOfByte(buf, i, 5);
    BitOfByte(buf, i, 6);
    BitOfByte(buf, i, 7);
  }

  lemma BitOfByte(buf: Buf, i: nat, k: nat)
    requires i < |buf| && k < 8
    ensures UInt(buf, 8 * i, 0) == 0
    ensures UInt(buf, 8 * i, k + 1) == 2 * UInt(buf, 8 * i, k) + if ByteBit(buf[i], 7 - k) then 1 else 0
  {
    hide UInt, ByteBit;
    UIntStep(buf, 8 * i, k);
    assert (8 * i + k) / 8 == i && (8 * i + k) % 8 == k;
  }

  lemma {:induction false} WholeBytes(buf: Buf, n: nat)
    requires n <= |buf|
    ensures UInt(buf, 0, 8 * n) == Number(buf[..n])
    decreases n
  {
    hide Bit;
    if n > 0 {
      WholeBytes(buf, n - 1);
      FieldsJoin(buf, 0, 8 * (n - 1), 8);
      ByteField(buf, n - 1);
      assert buf[..n][..n - 1] == buf[..n - 1];
      assert Pow2(8) == 256;
    } else {
      assert buf[..0] == [];
    }
  }

  /** BIG-ENDIAN. An unsigned field inside the string is that many digits, in base 2, of the one number the string is:
      the digits behind it divided away, those in front of it left out. */
  lemma FieldIs(buf: Buf, offset: nat, width: nat)
    requires offset + width <= 8 * |buf|
    ensures UInt(buf, offset, width) == Number(buf) / Pow2(8 * |buf| - offset - width) % Pow2(width)
  {
    hide UInt, Pow2, Number;
    var behind := 8 * |buf| - offset - width;
    WholeBytes(buf, |buf|);
    assert buf[..|buf|] == buf;
    FieldsJoin(buf, 0, offset + width, behind);
    UIntBound(buf, offset + width, behind);
    DividesAs(Number(buf), Pow2(behind), UInt(buf, 0, offset + width), UInt(buf, offset + width, behind));
    FieldsJoin(buf, 0, offset, width);
    UIntBound(buf, offset, width);
    DividesAs(UInt(buf, 0, offset + width), Pow2(width), UInt(buf, 0, offset), UInt(buf, offset, width));
  }

  lemma DividesAs(x: int, n: int, q: int, r: int)
    requires x == q * n + r && 0 <= r < n
    ensures x / n == q && x % n == r
  {
    assert q * n == n * q;
    ModUnique(x, n, q, r);
    var d := x / n - q;
    assert n * d == 0 by { assert n * (x / n) == n * q + n * d; }
    assert d >= 1 ==> n * d >= n;
    assert d <= -1 ==> n * d <= -n;
  }

  lemma WrapOfWrapPlus(a: int, b: int, width: nat, signed: bool)
    requires width > 0
    ensures Wrap(Wrap(a, width, signed) + b, width, signed) == Wrap(a + b, width, signed)
  {
    hide Wrap, Min, Max;
    var n := Pow2(width);
    var k := WrapInRange(a, width, signed);
    var j := WrapInRange(Wrap(a, width, signed) + b, width, signed);
    var r := Wrap(Wrap(a, width, signed) + b, width, signed);
    assert a + b == r + n * (j + k) by { assert n * (j + k) == n * j + n * k; }
    WrapIsUnique(a + b, width, signed, r, j + k);
  }

  /** Any sequence of WRAP increments leaves the initial value plus their sum, reduced into range once. */
  lemma {:induction false} WrapIncrementsAdd(buf: Buf, offset: nat, width: nat, signed: bool, incs: seq<int>)
    requires width > 0
    ensures Read(IncrAll(buf, offset, width, signed, incs), offset, width, signed)
         == Wrap(Read(buf, offset, width, signed) + Sum(incs), width, signed)
    decreases |incs|
  {
    hide Read, Write, Wrap, HandleOverflow;
    var start := Read(buf, offset, width, signed);
    if incs == [] {
      ReadInRange(buf, offset, width, signed);
      WrapIsUnique(start, width, signed, start, 0);
    } else {
      var n := |incs| - 1;
      var before := IncrAll(buf, offset, width, signed, incs[..n]);
      WrapIncrementsAdd(buf, offset, width, signed, incs[..n]);
      var next := Read(before, offset, width, signed) + incs[n];
      OverflowMeaning(next, width, signed);
      ReadAfterWrite(before, offset, width, Wrap(next, width, signed), signed);
      var k := WrapInRange(next, width, signed);
      WrapIsUnique(Wrap(next, width, signed), width, signed, Wrap(next, width, signed), 0);
      WrapOfWrapPlus(start + Sum(incs[..n]), incs[n], width, signed);
    }
  }

  /** SAT stores and reports the clamped sum; FAIL reports null and leaves the buffer untouched exactly when
      the sum is out of range. */
  lemma {:induction false} SatAndFail(buf: Buf, offset: nat, width: nat, signed: bool, inc: int)
    requires width > 0
    ensures var lo, hi := Min(width, signed), Max(width, signed);
            var next := Read(buf, offset, width, signed) + inc;
            var clamped := if next < lo then lo else if next > hi then hi else next;
            var sat := Incr(buf, offset, width, signed, inc, SAT);
            var fail := Incr(buf, offset, width, signed, inc, FAIL);
            && sat.1 == Some(clamped) && Read(sat.0, offset, width, signed) == clamped
            && (fail.1 == None <==> next < lo || hi < next)
            && (fail.1 == None ==> fail.0 == buf)
            && (fail.1 != None ==> fail.1 == Some(next) && Read(fail.0, offset, width, signed) == next)
  {
    hide Read, Write, Wrap, HandleOverflow, Min, Max;
    var lo, hi := Min(width, signed), Max(width, signed);
    var next := Read(buf, offset, width, signed) + inc;
    var clamped := if next < lo then lo else if next > hi then hi else next;
    OverflowMeaning(next, width, signed);
    RangeNonEmpty(width, signed);
    ReadAfterWrite(buf, offset, width, clamped, signed);
    WrapIsUnique(clamped, width, signed, clamped, 0);
  }

  // ---------- the commands ----------

  class BitString {
    var value: Buf

    constructor ()
      ensures value == []
    {
      value := [];
    }

    method BitfieldRead(bitOffset: nat, width: nat, signed: bool) returns (r: int)
      requires 1 <= width <= 64
      ensures r == Read(value, bitOffset, width, signed)
    {
      hide Mask, Pow2;
      var result: nat := 0;
      for i := 0 to width
        invariant result == UInt(value, bitOffset, i)
      {
        var pos := bitOffset + i;
        var byteIndex, bitIndex := pos / 8, 7 - pos % 8;
        var b := if byteIndex < |value| && value[byteIndex] & Mask(bitIndex) != 0 then 1 else 0;
        result := result * 2 + b;
      }
      r := result;
      UIntBound(value, bitOffset, width);
      if signed && result >= Pow2(width - 1) {
        r := -((Pow2(width) - 1 - result) + 1);
      }
    }

    method BitfieldWrite(bitOffset: nat, width: nat, valueBig: int)
      requires 1 <= width <= 64
      modifies this
      ensures value == Write(old(value), bitOffset, width, valueBig)
    {
      hide PutBit, Shr, Pow2;
      var neededBytes := BytesFor(bitOffset + width);
      var size := if neededBytes > |value| then neededBytes else |value|;
      ghost var grown := Grow(value, bitOffset + width);
      var old' := value;
      var out := new bv8[size](i requires 0 <= i < size => if i < |old'| then old'[i] else 0);
      assert out[..] == grown;
      var v: nat := valueBig % Pow2(width);
      var i := width;
      while i > 0
        invariant 0 <= i <= width
        invariant out[..] == StoreBits(grown, bitOffset, width, v, width - i)
      {
        i := i - 1;
        SetBit(out, bitOffset + (width - 1 - i), Shr(v, i) % 2 == 1);
      }
      value := out[..];
    }

    static method SetBit(out: array<bv8>, pos: nat, bit: bool)
      requires pos / 8 < out.Length
      modifies out
      ensures out[..] == PutBit(old(out[..]), pos, bit)
    {
      hide Mask;
      var byteIndex, bitIndex := pos / 8, 7 - pos % 8;
      if bit {
        out[byteIndex] := out[byteIndex] | Mask(bitIndex);
      } else {
        out[byteIndex] := out[byteIndex] & !Mask(bitIndex);
      }
    }

    method IncrBy(bitOffset: nat, width: nat, signed: bool, inc: int, policy: Policy) returns (reply: Option<int>)
      requires 1 <= width <= 64
      modifies this
      ensures (value, reply) == Incr(old(value), bitOffset, width, signed, inc, policy)
    {
      hide Read, Write, HandleOverflow;
      var cur := BitfieldRead(bitOffset, width, signed);
      reply := HandleOverflow(cur + inc, width, signed, policy);
      if reply.Some? { BitfieldWrite(bitOffset, width, reply.value); }
    }
  }
}
