/** The CRC engines: bit by bit (CrcBasic), byte by byte with a table (CrcOptimal), and over
    an augmented message (AugmentedCrc).  A register is a machine word of any width of at
    least `bits` bits; what stands above the lowest `bits` bits is garbage unless a
    contract says otherwise. */
module CrcEngines {
  import opened BitStrings
  import opened CrcTheory
  import opened Powers

  type Byte = b: Bits | |b| == 8 witness [false, false, false, false, false, false, false, false]

  // ---------------------------------------------------------------------------------
  // Reflection, masks and the order of transmission

  /** The lowest n bits in reverse order, with zeros above. */
  function Reflected(n: nat, x: Bits): (r: Bits)
    requires n <= |x|
    ensures |r| == |x|
  {
    Reverse(x[..n]) + Zeros(|x| - n)
  }

  /** The lowest n bits, with zeros above. */
  function Masked(n: nat, x: Bits): (r: Bits)
    requires n <= |x|
    ensures |r| == |x|
  {
    x[..n] + Zeros(|x| - n)
  }

  function HighBit(n: nat, width: nat): (r: Bits)
    requires 0 < n <= width
    ensures |r| == width
  {
    Zeros(width)[n - 1 := true]
  }

  method Reflect(n: nat, value: Bits) returns (reflection: Bits)
    requires n <= |value|
    ensures reflection == Reflected(n, value)
  {
    reflection := Zeros(|value|);
    var x := value;
    for i := 0 to n
      invariant x == ShiftRight(value, i)
      invariant |reflection| == |value|
      invariant forall j :: 0 <= j < |value| ==> reflection[j] == (n - i <= j < n && value[n - 1 - j])
    {
      if x[0] {
        reflection := reflection[n - 1 - i := true];
      }
      x := ShiftRight(x, 1);
      assert x == ShiftRight(value, i + 1);
    }
  }

  /** The bits of a byte in the order in which they are divided: most significant first,
      unless input is reflected. */
  function Transmitted(reflectIn: bool, b: Byte): (bs: Bits)
    ensures |bs| == 8
  {
    if reflectIn then b else Reverse(b)
  }

  function Message(reflectIn: bool, bytes: seq<Byte>): (bs: Bits)
    ensures |bs| == 8 * |bytes|
  {
    if bytes == [] then [] else Message(reflectIn, bytes[..|bytes| - 1]) + Transmitted(reflectIn, bytes[|bytes| - 1])
  }

  lemma {:induction false} MessageConcat(reflectIn: bool, x: seq<Byte>, y: seq<Byte>)
    ensures Message(reflectIn, x + y) == Message(reflectIn, x) + Message(reflectIn, y)
    decreases |y|
  {
    if y == [] {
      assert x + y == x;
    } else {
      var last := Transmitted(reflectIn, y[|y| - 1]);
      MessageConcat(reflectIn, x, y[..|y| - 1]);
      assert (x + y)[..|x + y| - 1] == x + y[..|y| - 1];
      assert Message(reflectIn, x + y) == Message(reflectIn, x) + Message(reflectIn, y[..|y| - 1]) + last;
    }
  }

  /** What a CRC with these parameters is: the remainder of the initial remainder and the
      message, possibly reflected, with the final value added. */
  function CrcOf(poly: Bits, init: Bits, final: Bits, reflectIn: bool, reflectRem: bool, bytes: seq<Byte>): (c: Bits)
    requires |poly| == |init| == |final| > 0
    ensures |c| == |poly|
  {
    Finished(Feed(poly, init, Message(reflectIn, bytes)), final, reflectRem)
  }

  function Finished(r: Bits, final: Bits, reflectRem: bool): (c: Bits)
    requires |r| == |final|
    ensures |c| == |r|
  {
    Xor(if reflectRem then Reverse(r) else r, final)
  }

  /** Bit by bit: the possibly reflected remainder, with the final value added in either case. */
  lemma {:induction false} FinishedBits(r: Bits, final: Bits, reflectRem: bool, c: Bits)
    requires |r| == |final| <= |c| && c[..|r|] == Finished(r, final, reflectRem)
    ensures forall i :: 0 <= i < |r| ==> c[i] == (r[if reflectRem then |r| - 1 - i else i] != final[i])
  {
    forall i | 0 <= i < |r|
      ensures c[i] == (r[if reflectRem then |r| - 1 - i else i] != final[i])
    {
      assert c[i] == c[..|r|][i];
    }
  }

  /** Where the bits of the bytes stand in the message: bytes in order, each most significant bit
      first, or least significant first where input is reflected. */
  lemma {:induction false} MessageBit(reflectIn: bool, bytes: seq<Byte>, p: nat, i: nat)
    requires p < |bytes| && i < 8
    ensures Message(reflectIn, bytes)[8 * p + i] == bytes[p][if reflectIn then i else 7 - i]
    decreases |bytes|
  {
    var k := |bytes| - 1;
    if p < k {
      MessageBit(reflectIn, bytes[..k], p, i);
    }
  }

  lemma {:induction false} FeedNextByte(poly: Bits, r: Bits, reflectIn: bool, bytes: seq<Byte>, p: nat)
    requires |poly| == |r| > 0 && p < |bytes|
    ensures Feed(poly, r, Message(reflectIn, bytes[..p + 1]))
            == Feed(poly, Feed(poly, r, Message(reflectIn, bytes[..p])), Transmitted(reflectIn, bytes[p]))
  {
    assert bytes[..p + 1][..p] == bytes[..p];
    FeedConcat(poly, r, Message(reflectIn, bytes[..p]), Transmitted(reflectIn, bytes[p]));
  }

  // ---------------------------------------------------------------------------------
  // The bit-serial engine

  /** The word operations of one bit step do the division step on the lowest n bits. */
  lemma {:induction false} SerialStep(n: nat, rem: Bits, poly: Bits, bit: bool, x: Bits, y: Bits)
    requires 0 < n <= |rem| == |poly|
    requires x == Xor(rem, if bit then HighBit(n, |rem|) else Zeros(|rem|))
    requires y == if x[n - 1] then Xor(ShiftLeft(x, 1), poly) else ShiftLeft(x, 1)
    ensures y[..n] == Step(poly[..n], rem[..n], bit)
  {
  }

  lemma {:induction false} AlignedBits(b: Byte, count: nat)
    requires count <= 8
    ensures Top(ShiftLeft(b, 8 - count), count) == Reverse(b[..count])
  {
  }

  /** One turn of the loop over a byte's bits: the top bit goes first. */
  lemma {:induction false} FeedTopBit(poly: Bits, r: Bits, b: Byte, i: nat)
    requires |poly| == |r| > 0 && 0 < i <= 8
    ensures Feed(poly, r, Top(b, i)) == Feed(poly, Step(poly, r, b[7]), Top(ShiftLeft(b, 1), i - 1))
  {
    assert Top(b, i)[0] == b[7] && Top(b, i)[1..] == Top(ShiftLeft(b, 1), i - 1);
  }

  class CrcBasic {
    const bits: nat
    const width: nat
    var rem: Bits
    var poly: Bits
    var init: Bits
    var final: Bits
    var rftIn: bool
    var rftOut: bool

    ghost predicate Valid()
      reads this
    {
      0 < bits <= width && |rem| == |poly| == |init| == |final| == width
    }

    /** The part of the register that counts. */
    ghost function Register(): (r: Bits)
      requires Valid()
      reads this
      ensures |r| == bits
    {
      rem[..bits]
    }

    constructor (bits: nat, width: nat, truncatedPolynomial: Bits, initialRemainder: Bits, finalXorValue: Bits,
                 reflectInput: bool, reflectRemainder: bool)
      requires 0 < bits <= width
      requires |truncatedPolynomial| == |initialRemainder| == |finalXorValue| == width
      ensures Valid() && this.bits == bits && this.width == width
      ensures Register() == initialRemainder[..bits] && init == initialRemainder
      ensures poly == truncatedPolynomial && final == finalXorValue
      ensures rftIn == reflectInput && rftOut == reflectRemainder
    {
      this.bits, this.width := bits, width;
      rem, poly, init, final := initialRemainder, truncatedPolynomial, initialRemainder, finalXorValue;
      rftIn, rftOut := reflectInput, reflectRemainder;
    }

    method GetInterimRemainder() returns (r: Bits)
      requires Valid()
      ensures |r| == width && r[..bits] == Register() && r[bits..] == Zeros(width - bits)
    {
      r := Masked(bits, rem);
    }

    method Reset(newRem: Bits)
      requires Valid() && |newRem| == width
      modifies this`rem
      ensures Valid() && Register() == newRem[..bits]
    {
      rem := newRem;
    }

    method ProcessBit(bit: bool)
      requires Valid()
      modifies this`rem
      ensures Valid() && Register() == Step(poly[..bits], old(Register()), bit)
    {
      ghost var before := rem;
      rem := Xor(rem, if bit then HighBit(bits, width) else Zeros(width));
      ghost var compared := rem;
      var doPolyDiv := rem[bits - 1];
      rem := ShiftLeft(rem, 1);
      if doPolyDiv {
        rem := Xor(rem, poly);
      }
      SerialStep(bits, before, poly, bit, compared, rem);
    }

    /** The lowest `bitCount` bits, from the upper ones down. */
    method ProcessBits(theBits: Byte, bitCount: nat)
      requires Valid() && bitCount <= 8
      modifies this`rem
      ensures Valid() && Register() == Feed(poly[..bits], old(Register()), Reverse(theBits[..bitCount]))
    {
      var b := ShiftLeft(theBits, 8 - bitCount);
      AlignedBits(theBits, bitCount);
      ghost var p, goal := poly[..bits], Feed(poly[..bits], Register(), Top(b, bitCount));
      var i := bitCount;
      while i > 0
        invariant Valid() && |b| == 8 && i <= 8
        invariant Feed(p, Register(), Top(b, i)) == goal
      {
        FeedTopBit(p, Register(), b, i);
        ProcessBit(b[7]);
        i, b := i - 1, ShiftLeft(b, 1);
      }
      assert Top(b, 0) == [];
    }

    method ProcessByte(byte: Byte)
      requires Valid()
      modifies this`rem
      ensures Valid() && Register() == Feed(poly[..bits], old(Register()), Transmitted(rftIn, byte))
    {
      var b := byte;
      if rftIn {
        b := Reflect(8, byte);
        assert Reverse(b[..8]) == byte;
      } else {
        assert b[..8] == b;
      }
      ProcessBits(b, 8);
    }

    method ProcessBlock(bytes: seq<Byte>)
      requires Valid()
      modifies this`rem
      ensures Valid() && Register() == Feed(poly[..bits], old(Register()), Message(rftIn, bytes))
    {
      ghost var divisor, start := poly[..bits], Register();
      for p := 0 to |bytes|
        invariant Valid() && Register() == Feed(divisor, start, Message(rftIn, bytes[..p]))
      {
        FeedNextByte(divisor, start, rftIn, bytes, p);
        ProcessByte(bytes[p]);
      }
      assert bytes[..|bytes|] == bytes;
    }

    method Checksum() returns (c: Bits)
      requires Valid()
      ensures |c| == width && c[..bits] == Finished(Register(), final[..bits], rftOut)
      ensures forall i :: 0 <= i < bits ==> c[i] == (Register()[if rftOut then bits - 1 - i else i] != final[i])
      ensures c[bits..] == Zeros(width - bits)
    {
      var r := rem;
      if rftOut {
        r := Reflect(bits, rem);
      }
      c := Masked(bits, Xor(r, final));
      assert c[..bits] == Finished(rem[..bits], final[..bits], rftOut);
      FinishedBits(rem[..bits], final[..bits], rftOut, c);
    }
  }

  // ---------------------------------------------------------------------------------
  // The table

  /** Possibly reflect a word. */
  function HelperReflect(doReflect: bool, n: nat, x: Bits): (r: Bits)
    requires n <= |x|
    ensures |r| == |x|
  {
    if doReflect then Reflected(n, x) else x
  }

  /** The top byte of an n-bit register; fewer bits are aligned to the top of the byte. */
  function AlignMsb(n: nat, rem: Bits): Byte
    requires 0 < n <= |rem| && 8 <= |rem|
  {
    if n > 8 then ShiftRight(rem, n - 8)[..8] else ShiftLeft(rem, 8 - n)[..8]
  }

  /** Compare a byte with the register's top byte. */
  function HelperIndex(doReflect: bool, n: nat, rem: Bits, x: Byte): Byte
    requires 0 < n <= |rem| && 8 <= |rem|
  {
    Xor(x, if doReflect then rem[..8] else AlignMsb(n, rem))
  }

  /** Shift the register's top byte out. */
  function HelperShift(doReflect: bool, rem: Bits): (r: Bits)
    ensures |r| == |rem|
  {
    if doReflect then ShiftRight(rem, 8) else ShiftLeft(rem, 8)
  }

  /** What the table must hold for a byte: the division of the byte from an empty register,
      stored reflected when input is. */
  ghost predicate IsEntry(n: nat, poly: Bits, reflect: bool, index: Byte, entry: Bits)
    requires 0 < n <= |poly|
  {
    && |entry| == |poly|
    && if reflect then entry == Reverse(Quotient(poly[..n], index)) + Zeros(|poly| - n)
       else entry[..n] == Quotient(poly[..n], Reverse(index))
  }

  /** One turn of the division loop: from the bits above position `mask` to those from it on. */
  lemma {:induction false} DivideStep(n: nat, poly: Bits, dividend: Byte, mask: nat, rem: Bits, x: Bits, y: Bits)
    requires 0 < n <= |rem| == |poly| && mask < 8
    requires rem[..n] == Quotient(poly[..n], Top(dividend, 7 - mask))
    requires x == if dividend[mask] then Xor(rem, HighBit(n, |rem|)) else rem
    requires y == if x[n - 1] then Xor(ShiftLeft(x, 1), poly) else ShiftLeft(x, 1)
    ensures y[..n] == Quotient(poly[..n], Top(dividend, 8 - mask))
  {
    assert !dividend[mask] ==> x == Xor(rem, Zeros(|rem|));
    SerialStep(n, rem, poly, dividend[mask], x, y);
    assert Top(dividend, 8 - mask) == Top(dividend, 7 - mask) + [dividend[mask]];
    FeedOneMore(poly[..n], Zeros(n), Top(dividend, 7 - mask), dividend[mask]);
  }

  class CrcTable {
    const bits: nat
    const width: nat
    const poly: Bits
    const reflect: bool
    const table: array<Bits>
    var didInit: bool

    ghost predicate Valid()
      reads this, table
    {
      && 0 < bits <= width == |poly| && 8 <= width
      && table.Length == 256
      && (didInit ==> forall i :: 0 <= i < 256 ==> IsEntry(bits, poly, reflect, FromNat(i, 8), table[i]))
    }

    constructor (bits: nat, width: nat, poly: Bits, reflect: bool)
      requires 0 < bits <= width == |poly| && 8 <= width
      ensures Valid() && !didInit && fresh(table)
      ensures this.bits == bits && this.width == width && this.poly == poly && this.reflect == reflect
    {
      this.bits, this.width, this.poly, this.reflect := bits, width, poly, reflect;
      didInit := false;
      table := new Bits[256](i => []);
    }

    /** Divide one byte value, most significant bit first. */
    method Divide(dividend: Byte) returns (remainder: Bits)
      requires Valid()
      ensures |remainder| == width && remainder[..bits] == Quotient(poly[..bits], Reverse(dividend))
    {
      remainder := Zeros(width);
      var mask := 8;
      assert remainder[..bits] == Zeros(bits);
      assert Top(dividend, 0) == [];
      while mask > 0
        invariant mask <= 8 && |remainder| == width
        invariant remainder[..bits] == Quotient(poly[..bits], Top(dividend, 8 - mask))
      {
        mask := mask - 1;
        ghost var before := remainder;
        if dividend[mask] {
          remainder := Xor(remainder, HighBit(bits, width));
        }
        ghost var compared := remainder;
        if remainder[bits - 1] {
          remainder := ShiftLeft(remainder, 1);
          remainder := Xor(remainder, poly);
        } else {
          remainder := ShiftLeft(remainder, 1);
        }
        DivideStep(bits, poly, dividend, mask, before, compared, remainder);
      }
      assert Top(dividend, 8) == Reverse(dividend);
    }

    /** The entry that belongs to the division of this byte value is in place. */
    ghost predicate Done(dividend: nat)
      requires 0 < bits <= |poly|
      reads table
    {
      var index: Byte := HelperReflect(reflect, 8, FromNat(dividend, 8));
      ToNat(index) < table.Length && IsEntry(bits, poly, reflect, index, table[ToNat(index)])
    }

    /** Loop body of InitTable. */
    method Store(dividend: nat)
      requires Valid() && !didInit && dividend < 256
      requires forall j :: 0 <= j < dividend ==> Done(j)
      modifies table
      ensures Valid() && forall j :: 0 <= j <= dividend ==> Done(j)
    {
      var byte: Byte := FromNat(dividend, 8);
      var remainder := Divide(byte);
      var index: Byte := HelperReflect(reflect, 8, byte);
      var entry := HelperReflect(reflect, bits, remainder);
      EntryIsDivision(bits, poly, reflect, byte, remainder);
      IndexInTable(index);
      table[ToNat(index)] := entry;
      forall j | 0 <= j <= dividend
        ensures Done(j)
      {
        var indexJ: Byte := HelperReflect(reflect, 8, FromNat(j, 8));
        IndexInTable(indexJ);
        if ToNat(indexJ) == ToNat(index) {
          assert indexJ == index && table[ToNat(indexJ)] == entry;
        } else {
          assert j < dividend && old(Done(j));
          assert table[ToNat(indexJ)] == old(table[ToNat(indexJ)]);
        }
      }
    }

    method InitTable()
      requires Valid()
      modifies this`didInit, table
      ensures Valid() && didInit
    {
      if didInit {
        return;
      }
      var dividend := 0;
      while true
        invariant 0 <= dividend < 256 && !didInit && Valid()
        invariant forall j :: 0 <= j < dividend ==> Done(j)
        decreases 256 - dividend
      {
        Store(dividend);
        dividend := (dividend + 1) % 256;
        if dividend == 0 {
          break;
        }
      }
      forall i | 0 <= i < 256
        ensures IsEntry(bits, poly, reflect, FromNat(i, 8), table[i])
      {
        EveryIndexIsReached(reflect, i);
        assert Done(ToNat(HelperReflect(reflect, 8, FromNat(i, 8))));
      }
      didInit := true;
    }
  }

  lemma {:induction false} IndexInTable(b: Byte)
    ensures ToNat(b) < 256 && FromNat(ToNat(b), 8) == b
  {
    FromToNat(b);
    assert Pow2(8) == 256;
  }

  lemma {:induction false} EntryIsDivision(n: nat, poly: Bits, reflect: bool, byte: Byte, remainder: Bits)
    requires 0 < n <= |poly| == |remainder|
    requires remainder[..n] == Quotient(poly[..n], Reverse(byte))
    ensures IsEntry(n, poly, reflect, HelperReflect(reflect, 8, byte), HelperReflect(reflect, n, remainder))
  {
    assert Reflected(8, byte) == Reverse(byte);
  }

  /** Reflection is a bijection of the byte values, so every entry gets written. */
  lemma {:induction false} EveryIndexIsReached(reflect: bool, i: nat)
    requires i < 256
    ensures var b := FromNat(i, 8);
            var j := ToNat(HelperReflect(reflect, 8, b));
            j < 256 && HelperReflect(reflect, 8, FromNat(j, 8)) == b && ToNat(b) == i
  {
    var b := FromNat(i, 8);
    assert Pow2(8) == 256;
    ToFromNat(i, 8);
    IndexInTable(HelperReflect(reflect, 8, b));
    assert Reflected(8, Reflected(8, b)) == b;
  }

  // ---------------------------------------------------------------------------------
  // The table-driven engine

  /** The remainder that a table-driven register stands for: the register's lowest n bits,
      reversed when input is reflected. */
  function Remainder(n: nat, reflect: bool, rem: Bits): (r: Bits)
    requires n <= |rem|
    ensures |r| == n
  {
    if reflect then Reverse(rem[..n]) else rem[..n]
  }

  /** A reflected register is kept clean above its bits, since they are shifted in. */
  predicate Clean(n: nat, reflect: bool, rem: Bits)
    requires n <= |rem|
  {
    reflect ==> rem[n..] == Zeros(|rem| - n)
  }

  lemma {:induction false} AlignedTop(n: nat, rem: Bits)
    requires 0 < n <= |rem| && 8 <= |rem|
    ensures Reverse(AlignMsb(n, rem)) == Top(rem[..n], 8)
  {
  }

  lemma {:induction false} CleanTop(n: nat, rem: Bits)
    requires 0 < n <= |rem| && 8 <= |rem| && Clean(n, true, rem)
    ensures rem[..8] == Top(Reverse(rem[..n]), 8)
  {
    forall i | 0 <= i < 8 ensures rem[i] == Top(Reverse(rem[..n]), 8)[i] {
      if i >= n {
        assert rem[i] == rem[n..][i - n];
      }
    }
  }

  lemma {:induction false} ReverseXor(a: Bits, b: Bits)
    requires |a| == |b|
    ensures Reverse(Xor(a, b)) == Xor(Reverse(a), Reverse(b))
  {
  }

  /** The index that the engine looks up is the byte added to the top of the remainder. */
  lemma {:induction false} IndexIsComparison(n: nat, reflect: bool, rem: Bits, x: Byte)
    requires 0 < n <= |rem| && 8 <= |rem| && Clean(n, reflect, rem)
    ensures Transmitted(reflect, HelperIndex(reflect, n, rem, x))
            == Xor(Transmitted(reflect, x), Top(Remainder(n, reflect, rem), 8))
  {
    if reflect {
      CleanTop(n, rem);
    } else {
      AlignedTop(n, rem);
      ReverseXor(x, AlignMsb(n, rem));
    }
  }

  /** Shifting the word out by a byte shifts the remainder by eight places. */
  lemma {:induction false} ShiftIsShift(n: nat, reflect: bool, rem: Bits)
    requires 0 < n <= |rem| && Clean(n, reflect, rem)
    ensures Remainder(n, reflect, HelperShift(reflect, rem)) == ShiftLeft(Remainder(n, reflect, rem), 8)
    ensures Clean(n, reflect, HelperShift(reflect, rem))
  {
    if reflect {
      assert forall i :: n <= i < |rem| ==> rem[i] == rem[n..][i - n];
    }
  }

  lemma {:induction false} AddEntry(n: nat, poly: Bits, reflect: bool, rem: Bits, index: Byte, entry: Bits)
    requires 0 < n <= |rem| == |poly| && Clean(n, reflect, rem) && IsEntry(n, poly, reflect, index, entry)
    ensures Remainder(n, reflect, Xor(rem, entry))
            == Xor(Remainder(n, reflect, rem), Quotient(poly[..n], Transmitted(reflect, index)))
    ensures Clean(n, reflect, Xor(rem, entry))
  {
  }

  /** One table look-up does the work of eight bit steps, with or without reflection, for
      registers wider and narrower than a byte. */
  lemma {:induction false} LookupIsEightSteps(n: nat, poly: Bits, reflect: bool, rem: Bits, x: Byte, entry: Bits)
    requires 0 < n <= |rem| == |poly| && 8 <= |rem| && Clean(n, reflect, rem)
    requires IsEntry(n, poly, reflect, HelperIndex(reflect, n, rem, x), entry)
    ensures var rem' := Xor(HelperShift(reflect, rem), entry);
            && Clean(n, reflect, rem')
            && Remainder(n, reflect, rem') == Feed(poly[..n], Remainder(n, reflect, rem), Transmitted(reflect, x))
  {
    IndexIsComparison(n, reflect, rem, x);
    ShiftIsShift(n, reflect, rem);
    AddEntry(n, poly, reflect, HelperShift(reflect, rem), HelperIndex(reflect, n, rem, x), entry);
    Absorb(poly[..n], Remainder(n, reflect, rem), Transmitted(reflect, x));
  }

  class CrcOptimal {
    const bits: nat
    const width: nat
    const truncPoly: Bits
    const initRem: Bits
    const finalXor: Bits
    const reflectIn: bool
    const reflectRem: bool
    const table: CrcTable
    var rem: Bits

    ghost predicate Valid()
      reads this, table, table.table
    {
      && 0 < bits <= width == |rem| == |truncPoly| == |initRem| == |finalXor| && 8 <= width
      && Clean(bits, reflectIn, rem)
      && table.Valid() && table.didInit
      && table.bits == bits && table.poly == truncPoly && table.reflect == reflectIn
    }

    /** The remainder so far, as the bit-serial engine would hold it. */
    ghost function Register(): (r: Bits)
      requires Valid()
      reads this, table, table.table
      ensures |r| == bits
    {
      Remainder(bits, reflectIn, rem)
    }

    constructor (table: CrcTable, initRem: Bits, finalXor: Bits, reflectRem: bool, initialRem: Bits)
      requires table.Valid() && |initRem| == |finalXor| == |initialRem| == table.width
      modifies table`didInit, table.table
      ensures Valid() && this.table == table && bits == table.bits && width == table.width
      ensures truncPoly == table.poly && this.initRem == initRem && this.finalXor == finalXor
      ensures reflectIn == table.reflect && this.reflectRem == reflectRem
      ensures Register() == initialRem[..bits]
    {
      this.table := table;
      bits, width, truncPoly, reflectIn := table.bits, table.width, table.poly, table.reflect;
      this.initRem, this.finalXor, this.reflectRem := initRem, finalXor, reflectRem;
      rem := HelperReflect(table.reflect, table.bits, initialRem);
      new;
      table.InitTable();
      assert Reverse(Reverse(initialRem[..bits])) == initialRem[..bits];
    }

    method GetInterimRemainder() returns (r: Bits)
      requires Valid()
      ensures |r| == width && r[..bits] == Register() && r[bits..] == Zeros(width - bits)
    {
      r := Masked(bits, HelperReflect(reflectIn, bits, rem));
      assert r[..bits] == Register();
    }

    method Reset(newRem: Bits)
      requires Valid() && |newRem| == width
      modifies this`rem
      ensures Valid() && Register() == newRem[..bits]
    {
      rem := HelperReflect(reflectIn, bits, newRem);
      assert Reverse(Reverse(newRem[..bits])) == newRem[..bits];
    }

    method ProcessBlock(bytes: seq<Byte>)
      requires Valid()
      modifies this`rem
      ensures Valid() && Register() == Feed(truncPoly[..bits], old(Register()), Message(reflectIn, bytes))
    {
      for p := 0 to |bytes|
        invariant Valid() && Register() == Feed(truncPoly[..bits], old(Register()), Message(reflectIn, bytes[..p]))
      {
        ghost var before := rem;
        var byteIndex := HelperIndex(reflectIn, bits, rem, bytes[p]);
        rem := HelperShift(reflectIn, rem);
        IndexInTable(byteIndex);
        rem := Xor(rem, table.table[ToNat(byteIndex)]);
        LookupIsEightSteps(bits, truncPoly, reflectIn, before, bytes[p], table.table[ToNat(byteIndex)]);
        FeedNextByte(truncPoly[..bits], old(Register()), reflectIn, bytes, p);
      }
      assert bytes[..|bytes|] == bytes;
    }

    method ProcessByte(byte: Byte)
      requires Valid()
      modifies this`rem
      ensures Valid() && Register() == Feed(truncPoly[..bits], old(Register()), Transmitted(reflectIn, byte))
    {
      assert [byte][..0] == [] && Message(reflectIn, [byte]) == Transmitted(reflectIn, byte);
      ProcessBlock([byte]);
    }

    method Checksum() returns (c: Bits)
      requires Valid()
      ensures |c| == width && c[..bits] == Finished(Register(), finalXor[..bits], reflectRem)
      ensures forall i :: 0 <= i < bits ==> c[i] == (Register()[if reflectRem then bits - 1 - i else i] != finalXor[i])
      ensures c[bits..] == Zeros(width - bits)
    {
      var r := HelperReflect(reflectRem != reflectIn, bits, rem);
      c := Masked(bits, Xor(r, finalXor));
      assert Reverse(Reverse(rem[..bits])) == rem[..bits];
      assert c[..bits] == Xor(r[..bits], finalXor[..bits]);
      FinishedBits(Register(), finalXor[..bits], reflectRem, c);
    }
  }

  /** The one-shot form. */
  method Crc(table: CrcTable, initRem: Bits, finalXor: Bits, reflectRem: bool, buffer: seq<Byte>) returns (c: Bits)
    requires table.Valid() && |initRem| == |finalXor| == table.width
    modifies table`didInit, table.table
    ensures |c| == table.width
    ensures c[..table.bits] ==
              CrcOf(table.poly[..table.bits], initRem[..table.bits], finalXor[..table.bits],
                    table.reflect, reflectRem, buffer)
  {
    var computer := new CrcOptimal(table, initRem, finalXor, reflectRem, initRem);
    computer.ProcessBlock(buffer);
    c := computer.Checksum();
  }

  /** Both engines over the same bytes: for every width, word sizes, polynomial, initial and
      final value and all reflection settings they give the same interim remainder and the
      same checksum, and both are the CRC of the parameters. */
  method BothEngines(bits: nat, basicWidth: nat, fastWidth: nat, poly: Bits, init: Bits, final: Bits,
                     reflectIn: bool, reflectRem: bool, bytes: seq<Byte>)
    returns (basicInterim: Bits, basicSum: Bits, fastInterim: Bits, fastSum: Bits)
    requires 0 < bits <= basicWidth && bits <= fastWidth && 8 <= fastWidth
    requires |poly| == |init| == |final| == bits
    ensures |basicInterim| == |basicSum| == basicWidth && |fastInterim| == |fastSum| == fastWidth
    ensures basicInterim[..bits] == fastInterim[..bits] == Feed(poly, init, Message(reflectIn, bytes))
    ensures basicSum[..bits] == fastSum[..bits] == CrcOf(poly, init, final, reflectIn, reflectRem, bytes)
    ensures forall i :: 0 <= i < bits ==>
              basicSum[i] == (basicInterim[if reflectRem then bits - 1 - i else i] != final[i])
  {
    var basic := new CrcBasic(bits, basicWidth, Widened(basicWidth, poly), Widened(basicWidth, init),
                              Widened(basicWidth, final), reflectIn, reflectRem);
    basic.ProcessBlock(bytes);
    basicInterim := basic.GetInterimRemainder();
    basicSum := basic.Checksum();

    var table := new CrcTable(bits, fastWidth, Widened(fastWidth, poly), reflectIn);
    var fast := new CrcOptimal(table, Widened(fastWidth, init), Widened(fastWidth, final), reflectRem,
                               Widened(fastWidth, init));
    fast.ProcessBlock(bytes);
    fastInterim := fast.GetInterimRemainder();
    fastSum := fast.Checksum();
  }

  /** A value of fewer bits in a wider word. */
  function Widened(width: nat, x: Bits): (r: Bits)
    requires |x| <= width
    ensures |r| == width && r[..|x|] == x
  {
    x + Zeros(width - |x|)
  }

  // ---------------------------------------------------------------------------------
  // Augmented messages

  /** The word operations of one byte of an augmented message. */
  lemma {:induction false} AugmentedByte(n: nat, poly: Bits, rem: Bits, x: Byte, entry: Bits)
    requires 8 <= n <= |rem| == |poly|
    requires IsEntry(n, poly, false, ShiftRight(rem, n - 8)[..8], entry)
    ensures Xor(x + rem[..|rem| - 8], entry)[..n] == AugmentedFeed(poly[..n], rem[..n], Reverse(x))
  {
    var r := rem[..n];
    AugmentedAbsorb(poly[..n], r, Reverse(x), 8);
    assert Reverse(ShiftRight(rem, n - 8)[..8]) == Top(r, 8);
    assert Reverse(Reverse(x)) == x;
    assert (x + rem[..|rem| - 8])[..n] == x + r[..n - 8];
  }

  lemma {:induction false} AugmentedNextByte(poly: Bits, r: Bits, bytes: seq<Byte>, p: nat)
    requires |poly| == |r| > 0 && p < |bytes|
    ensures AugmentedFeed(poly, r, Message(false, bytes[..p + 1]))
            == AugmentedFeed(poly, AugmentedFeed(poly, r, Message(false, bytes[..p])), Reverse(bytes[p]))
  {
    assert bytes[..p + 1][..p] == bytes[..p];
    AugmentedFeedConcat(poly, r, Message(false, bytes[..p]), Reverse(bytes[p]));
  }

  /** A word with its lowest eight bits clear, or'ed with a byte. */
  function OrByte(rem: Bits, x: Byte): (r: Bits)
    requires |rem| >= 8
    ensures |r| == |rem|
  {
    seq(|rem|, i requires 0 <= i < |rem| => rem[i] || (i < 8 && x[i]))
  }

  /** One turn of the loop below. */
  lemma {:induction false} AugmentedTurn(n: nat, poly: Bits, rem: Bits, init: Bits,
                                         buffer: seq<Byte>, p: nat, entry: Bits)
    requires 8 <= n <= |rem| == |poly| && |init| == n && p < |buffer|
    requires rem[..n] == AugmentedFeed(poly[..n], init, Message(false, buffer[..p]))
    requires IsEntry(n, poly, false, ShiftRight(rem, n - 8)[..8], entry)
    ensures Xor(OrByte(ShiftLeft(rem, 8), buffer[p]), entry)[..n]
            == AugmentedFeed(poly[..n], init, Message(false, buffer[..p + 1]))
  {
    assert OrByte(ShiftLeft(rem, 8), buffer[p]) == buffer[p] + rem[..|rem| - 8];
    AugmentedByte(n, poly, rem, buffer[p], entry);
    AugmentedNextByte(poly[..n], init, buffer, p);
  }

  method AugmentedCrc(table: CrcTable, buffer: seq<Byte>, initialRemainder: Bits) returns (c: Bits)
    requires table.Valid() && !table.reflect && table.bits >= 8
    requires |initialRemainder| == table.width
    modifies table`didInit, table.table
    ensures |c| == table.width && c[table.bits..] == Zeros(table.width - table.bits)
    ensures c[..table.bits] ==
              AugmentedFeed(table.poly[..table.bits], initialRemainder[..table.bits], Message(false, buffer))
  {
    var n := table.bits;
    var rem := initialRemainder;
    table.InitTable();
    ghost var poly := table.poly[..n];
    for p := 0 to |buffer|
      invariant |rem| == table.width && table.Valid() && table.didInit
      invariant rem[..n] == AugmentedFeed(poly, initialRemainder[..n], Message(false, buffer[..p]))
    {
      ghost var before := rem;
      var byteIndex: Byte := ShiftRight(rem, n - 8)[..8];
      rem := ShiftLeft(rem, 8);
      rem := OrByte(rem, buffer[p]);
      IndexInTable(byteIndex);
      var entry := table.table[ToNat(byteIndex)];
      rem := Xor(rem, entry);
      AugmentedTurn(n, table.poly, before, initialRemainder[..n], buffer, p, entry);
    }
    assert buffer[..|buffer|] == buffer;
    c := Masked(n, rem);
  }

  /** The bytes of a remainder, most significant first. */
  function RemainderBytes(c: Bits): (bytes: seq<Byte>)
    requires |c| % 8 == 0
    ensures 8 * |bytes| == |c|
  {
    if c == [] then [] else RemainderBytes(c[8..]) + [c[..8]]
  }

  lemma {:induction false} RemainderBytesTransmit(c: Bits)
    requires |c| % 8 == 0
    ensures Message(false, RemainderBytes(c)) == Reverse(c)
  {
    if c == [] {
    } else {
      RemainderBytesTransmit(c[8..]);
      var bytes := RemainderBytes(c);
      assert bytes[..|bytes| - 1] == RemainderBytes(c[8..]);
      assert Reverse(c) == Reverse(c[8..]) + Reverse(c[..8]);
    }
  }

  /** The message of a byte string determines the bytes. */
  lemma {:induction false} MessageInjective(x: seq<Byte>, y: seq<Byte>)
    requires |x| == |y| && Message(false, x) == Message(false, y)
    ensures x == y
  {
    if x != [] {
      var k := |x| - 1;
      var p, q := Message(false, x[..k]), Message(false, y[..k]);
      assert p == Message(false, x)[..8 * k] && q == Message(false, y)[..8 * k];
      MessageInjective(x[..k], y[..k]);
      assert Reverse(x[k]) == Message(false, x)[8 * k..] && Reverse(y[k]) == Message(false, y)[8 * k..];
      ReverseTwice(x[k]);
      ReverseTwice(y[k]);
      assert x == x[..k] + [x[k]] && y == y[..k] + [y[k]];
    }
  }

  lemma {:induction false} ZeroBytesMessage(k: nat)
    ensures Message(false, seq(k, _ => Zeros(8))) == Zeros(8 * k)
  {
    if k > 0 {
      ZeroBytesMessage(k - 1);
      assert seq(k, _ => Zeros(8))[..k - 1] == seq(k - 1, _ => Zeros(8));
      assert Reverse(Zeros(8)) == Zeros(8);
    }
  }

  /** From a zero start, an augmented message (the message followed by a register's width of
      zero bytes) leaves the plain unreflected remainder of the message. */
  lemma {:induction false} AugmentedWithZeros(poly: Bits, bytes: seq<Byte>)
    requires |poly| > 0 && |poly| % 8 == 0
    ensures AugmentedFeed(poly, Zeros(|poly|), Message(false, bytes + seq(|poly| / 8, _ => Zeros(8))))
            == CrcOf(poly, Zeros(|poly|), Zeros(|poly|), false, false, bytes)
  {
    var n := |poly|;
    MessageConcat(false, bytes, seq(n / 8, _ => Zeros(8)));
    ZeroBytesMessage(n / 8);
    AugmentedByZeros(poly, Message(false, bytes));
    var r := Feed(poly, Zeros(n), Message(false, bytes));
    assert Xor(r, Zeros(n)) == r;
  }

  /** From a zero start, a message with a trailer of the register's width leaves zero exactly
      when the trailer is the message's CRC, most significant byte first. */
  lemma {:induction false} AugmentedWithCrc(poly: Bits, bytes: seq<Byte>, trailer: seq<Byte>)
    requires |poly| > 0 && 8 * |trailer| == |poly|
    ensures AugmentedFeed(poly, Zeros(|poly|), Message(false, bytes + trailer)) == Zeros(|poly|)
            <==> trailer == RemainderBytes(CrcOf(poly, Zeros(|poly|), Zeros(|poly|), false, false, bytes))
  {
    var n := |poly|;
    var r := Feed(poly, Zeros(n), Message(false, bytes));
    assert CrcOf(poly, Zeros(n), Zeros(n), false, false, bytes) == r;
    MessageConcat(false, bytes, trailer);
    ZeroIffTrailerIsRemainder(poly, Message(false, bytes), Message(false, trailer));
    RemainderBytesTransmit(r);
    if Message(false, trailer) == Reverse(r) {
      MessageInjective(trailer, RemainderBytes(r));
    }
  }

  // ---------------------------------------------------------------------------------
  // A message followed by its own checksum

  /** The bytes of a checksum in the order that suits the reflection: least significant first where
      input is reflected, most significant first where not. */
  function ChecksumBytes(c: Bits, reflected: bool): (bytes: seq<Byte>)
    requires |c| % 8 == 0
    ensures 8 * |bytes| == |c|
  {
    if !reflected then RemainderBytes(c)
    else if c == [] then []
    else [c[..8]] + ChecksumBytes(c[8..], true)
  }

  lemma {:induction false} ChecksumBytesTransmit(c: Bits, reflected: bool)
    requires |c| % 8 == 0
    ensures Message(reflected, ChecksumBytes(c, reflected)) == if reflected then c else Reverse(c)
  {
    if !reflected {
      RemainderBytesTransmit(c);
    } else if c != [] {
      ChecksumBytesTransmit(c[8..], true);
      var rest := ChecksumBytes(c[8..], true);
      MessageConcat(true, [c[..8]], rest);
      assert [c[..8]][..0] == [] && Message(true, [c[..8]]) == c[..8];
    }
  }

  /** For every polynomial of whole bytes, initial value, final value and message, with input and
      remainder reflected alike: the register after a message and its own checksum is always the
      same, namely what the final value alone leaves in an empty register. */
  lemma {:induction false} ResidueIsConstant(poly: Bits, init: Bits, final: Bits, reflected: bool, bytes: seq<Byte>,
                                             c: Bits)
    requires |poly| == |init| == |final| > 0 && |poly| % 8 == 0
    requires c == CrcOf(poly, init, final, reflected, reflected, bytes)
    ensures Feed(poly, init, Message(reflected, bytes + ChecksumBytes(c, reflected)))
            == Feed(poly, Zeros(|poly|), if reflected then final else Reverse(final))
  {
    var n, r := |poly|, Feed(poly, init, Message(reflected, bytes));
    var trailer := Message(reflected, ChecksumBytes(c, reflected));
    var residue := if reflected then final else Reverse(final);
    ChecksumBytesTransmit(c, reflected);
    MessageConcat(reflected, bytes, ChecksumBytes(c, reflected));
    FeedConcat(poly, init, Message(reflected, bytes), trailer);
    Absorb(poly, r, trailer);
    assert Xor(trailer, Top(r, n)) == residue;
    XorShiftedOut(r, Quotient(poly, residue));
  }
}
