/** The compressor's bit writer (zlib.js `BitStream`, minified `K`). */
module BitWriters {
  import opened Bits

  // ----- the 8-bit reversal table

  /** Builds the table that maps every byte to its mirror image. */
  method BuildReverseTable() returns (table: array<byte>)
    ensures fresh(table) && table.Length == 256
    ensures forall i :: 0 <= i < 256 ==> table[i] == Rev(i, 8)
  {
    table := new byte[256](_ => 0);
    for i := 0 to 256
      invariant table.Length == 256
      invariant forall j :: 0 <= j < i ==> table[j] == Rev(j, 8)
    {
      table[i] := ReverseByShifting(i);
    }
  }

  /** One entry of the table: shift bits out of `r` and into `s` until `r` is empty. */
  method ReverseByShifting(i: byte) returns (reversed: byte)
    ensures reversed == Rev(i, 8)
  {
    hide Low, Shl, Rev, Pow2;
    var r, s, rest := i, i, 7;
    ShlLowOfByte(i);
    r := r / 2;
    while r > 0
      invariant 0 <= rest <= 7 && 0 <= r < Pow2(rest) && 0 <= s
      invariant Rev(i, 8) == Low(Shl(s, rest), 8) + Rev(r, rest)
      decreases r
    {
      ShiftIn(s, r, rest, 8);
      s := 2 * s + r % 2;
      rest := rest - 1;
      r := r / 2;
    }
    RevZero(rest);
    LowPow2(8);
    reversed := Low(Shl(s, rest), 8);
  }

  lemma {:induction false} LowPow2(n: nat)
    ensures n == 8 ==> Pow2(n) == 256
  {
    if n == 8 {
      assert Pow2(8) == 2 * Pow2(7) == 4 * Pow2(6) == 8 * Pow2(5) == 16 * Pow2(4);
      assert Pow2(4) == 2 * Pow2(3) == 4 * Pow2(2) == 8 * Pow2(1) == 16 * Pow2(0);
    }
  }

  lemma {:induction false} ShlLowOfByte(i: byte)
    ensures i / 2 < Pow2(7)
    ensures Rev(i, 8) == Low(Shl(i, 7), 8) + Rev(i / 2, 7)
  {
    LowPow2(8);
    LowOfShl(i, 7, 1);
    assert Low(i, 1) == i % 2 + 2 * Low(i / 2, 0);
  }

  /** Low bits of a shifted number are the shifted low bits. */
  lemma {:induction false} LowOfShl(v: nat, n: nat, m: nat)
    ensures Low(Shl(v, n), n + m) == Shl(Low(v, m), n)
  {
    if n > 0 { LowOfShl(v, n - 1, m); }
  }

  lemma {:induction false} LowStep(s: nat, bit: nat, n: nat)
    requires bit < 2
    ensures Low(2 * s + bit, n + 1) == bit + 2 * Low(s, n)
  {
  }

  lemma {:induction false} ShlDouble(s: nat, n: nat)
    requires n > 0
    ensures Shl(s, n) == 2 * Shl(s, n - 1)
  {
  }

  lemma {:induction false} RevUnfold(r: nat, n: nat)
    requires n > 0
    ensures Rev(r, n) == Shl(r % 2, n - 1) + Rev(r / 2, n - 1)
  {
  }

  lemma {:induction false} ShiftIn(s: nat, r: nat, rest: nat, width: nat)
    requires 0 < r < Pow2(rest) && rest < width
    ensures rest > 0 && r / 2 < Pow2(rest - 1)
    ensures Low(Shl(s, rest), width) + Rev(r, rest)
         == Low(Shl(2 * s + r % 2, rest - 1), width) + Rev(r / 2, rest - 1)
  {
    hide Low, Rev;
    ShlDouble(Low(s, width - rest), rest);
    var n := width - rest;
    LowOfShl(s, rest, n);
    LowOfShl(2 * s + r % 2, rest - 1, n + 1);
    LowStep(s, r % 2, n);
    ShlSum(r % 2, 2 * Low(s, n), rest - 1);
    ShlLast(Low(s, n), rest - 1);
    RevUnfold(r, rest);
  }

  // ----- reversing a number of up to 32 bits

  /** Four bytes, each mirrored and in the opposite order, before the sign is taken. */
  lemma {:induction false} Reverse32(v: nat)
    requires v < Pow2(32)
    ensures Shl(Rev(Low(v, 8), 8), 24) + Shl(Rev(Low(Shr(v, 8), 8), 8), 16)
          + Shl(Rev(Low(Shr(v, 16), 8), 8), 8) + Rev(Low(Shr(v, 24), 8), 8) == Rev(v, 32)
  {
    var v1, v2, v3 := Shr(v, 8), Shr(v, 16), Shr(v, 24);
    ShrAdd(v, 8, 8);
    ShrAdd(v, 16, 8);
    RevAppend(v, 8, 24);
    RevAppend(v1, 8, 16);
    RevAppend(v2, 8, 8);
    RevLow(v, 8);
    RevLow(v1, 8);
    RevLow(v2, 8);
    RevLow(v3, 8);
  }

  /** Reversing `n` bits through a wider reversal and a right shift. */
  lemma {:induction false} ReverseThenShift(v: nat, n: nat, width: nat)
    requires n <= width && v < Pow2(n)
    ensures Shr(Rev(v, width), width - n) == Rev(v, n)
    ensures Shl(Rev(v, n), width - n) == Rev(v, width)
  {
    LowSmall(v, n);
    RevZero(width - n);
    RevAppend(v, n, width - n);
    LowOfSum(0, Rev(v, n), width - n);
  }

  lemma {:induction false} AShrOfNat(v: nat, n: nat)
    ensures AShr(v, n) == Shr(v, n)
  {
    if n > 0 { AShrOfNat(v / 2, n - 1); }
  }

  lemma {:induction false} AShrBelow(v: int, n: nat, k: nat)
    requires k <= n
    ensures AShr(v - Pow2(n), k) == AShr(v, k) - Pow2(n - k)
    decreases k
  {
    if k > 0 {
      assert (v - Pow2(n)) / 2 == v / 2 - Pow2(n - 1);
      AShrBelow(v / 2, n - 1, k - 1);
    }
  }

  /** A 32-bit word read as signed. */
  function ToInt32(v: nat): int {
    if v < 0x8000_0000 then v else v - 0x1_0000_0000
  }

  lemma {:induction false} Pow2Of32()
    ensures Pow2(32) == 0x1_0000_0000
  {
    Pow2Add(8, 8);
    Pow2Add(16, 16);
    LowPow2(8);
    ShlMul(256, 8);
    ShlMul(65536, 16);
  }

  /** The reversal in front of a write; from 9 bits on its sign may come out negative. */
  method ReverseBits(number: nat, n: nat) returns (r: int)
    requires 1 < n <= 32 && number < Pow2(n)
    ensures r == Rev(number, n) || (8 < n && r == Rev(number, n) - Pow2(n))
  {
    Pow2Mono(n, 32);
    if 8 < n {
      var word := Shl(Rev(Low(number, 8), 8), 24) + Shl(Rev(Low(Shr(number, 8), 8), 8), 16)
                + Shl(Rev(Low(Shr(number, 16), 8), 8), 8) + Rev(Low(Shr(number, 24), 8), 8);
      Reverse32(number);
      ReverseThenShift(number, n, 32);
      Pow2Of32();
      AShrOfNat(word, 32 - n);
      AShrBelow(word, 32, 32 - n);
      r := AShr(ToInt32(word), 32 - n);
    } else {
      Pow2Mono(n, 8);
      ReverseThenShift(number, n, 8);
      r := Shr(Rev(number, 8), 8 - n);
    }
  }

  lemma {:induction false} BelowByte(k: nat, b: nat)
    requires b <= 8 && k < Pow2(b)
    ensures k < 256
  {
    Pow2Mono(b, 8);
    LowPow2(8);
  }

  /** The number a write shifts in most significant bit first, up to a multiple of `Pow2(n)`. */
  method Oriented(number: nat, n: nat, reverse: bool) returns (e: int, ghost image: nat)
    requires n <= 32 && number < Pow2(n)
    ensures e == image || (8 < n && e == image - Pow2(n))
    ensures image < Pow2(n)
    ensures Msb(image, n) == if reverse then Lsb(number, n) else Msb(number, n)
  {
    e, image := number, number;
    if reverse {
      image := Rev(number, n);
      RevMsb(number, n);
      if 1 < n {
        e := ReverseBits(number, n);
      } else {
        SingleBit(number, n);
      }
    }
  }

  lemma {:induction false} SingleBit(number: nat, n: nat)
    requires n <= 1 && number < Pow2(n)
    ensures Rev(number, n) == number
  {
    if n == 1 {
      assert Pow2(1) == 2 * Pow2(0);
      assert Rev(number / 2, 0) == 0;
      assert Shl(number % 2, 0) == number % 2;
    }
  }

  // ----- bits of a number, most significant first

  lemma {:induction false} MsbAt(v: nat, n: nat, i: nat)
    requires i < n
    ensures Msb(v, n)[i] == (Shr(v, n - i - 1) % 2 == 1)
  {
    if i < n - 1 { MsbAt(v / 2, n - 1, i); }
  }

  /** The bit the loop of a write extracts, whatever the sign of `r`. */
  lemma {:induction false} ExtractedBit(v: nat, r: int, n: nat, i: nat)
    requires i < n && (r == v || r == v - Pow2(n))
    ensures (AShr(r, n - i - 1) % 2 == 1) == Msb(v, n)[i]
  {
    assert Pow2(i + 1) == 2 * Pow2(i);
    hide Msb, AShr, Shr, Pow2;
    MsbAt(v, n, i);
    AShrOfNat(v, n - i - 1);
    if r != v {
      AShrBelow(v, n, n - i - 1);
      SameParity(AShr(v, n - i - 1), Pow2(i));
    }
  }

  lemma {:induction false} SameParity(x: int, y: int)
    ensures (x - 2 * y) % 2 == x % 2
  {
  }

  lemma {:induction false} MsbJoin(k: nat, b: nat, v: nat, n: nat)
    requires v < Pow2(n)
    ensures Msb(Shl(k, n) + v, b + n) == Msb(k, b) + Msb(v, n)
    ensures k < Pow2(b) ==> Shl(k, n) + v < Pow2(b + n)
  {
    if n > 0 { MsbJoin(k, b, v / 2, n - 1); }
  }

  /** The bits held by whole bytes and an accumulator of `b` bits. */
  ghost function Packed(bytes: seq<byte>, k: nat, b: nat): seq<bool> {
    BytesBits(bytes) + Msb(k, b)
  }

  lemma {:induction false} PackedBit(bytes: seq<byte>, k: nat, b: nat, bit: nat)
    requires bit < 2
    ensures Packed(bytes, 2 * k + bit, b + 1) == Packed(bytes, k, b) + [bit == 1]
    ensures k < Pow2(b) ==> 2 * k + bit < Pow2(b + 1)
  {
    assert Msb(2 * k + bit, b + 1) == Msb(k, b) + [bit == 1];
  }

  lemma {:induction false} PackedPad(bytes: seq<byte>, k: nat, b: nat, pad: nat)
    requires k < Pow2(b) && b + pad == 8
    ensures Shl(k, pad) < 256
    ensures Packed(bytes, Shl(k, pad), 8) == Packed(bytes, k, b) + seq(pad, i => false)
  {
    MsbJoin(k, b, 0, pad);
    BelowByte(Shl(k, pad), 8);
    RevMsb(0, pad);
    RevZero(pad);
    LsbZero(pad);
  }

  lemma {:induction false} PackedFlush(bytes: seq<byte>, k: nat)
    requires k < Pow2(8)
    ensures 0 <= Rev(k, 8) < 256
    ensures Packed(bytes + [Rev(k, 8)], 0, 0) == Packed(bytes, k, 8)
  {
    LowPow2(8);
    BytesBitsPush(bytes, Rev(k, 8));
    RevLsb(k, 8);
  }

  class BitWriter {
    var buffer: array<byte>
    var index: nat
    var bitCount: nat

    ghost predicate Valid()
      reads this, buffer
    {
      index < buffer.Length && bitCount < 8 && buffer[index] < Pow2(bitCount)
    }

    /** The bits written so far. */
    ghost function Written(): seq<bool>
      requires Valid()
      reads this, buffer
    {
      Packed(buffer[..index], buffer[index], bitCount)
    }

    constructor ()
      ensures Valid() && fresh(buffer)
      ensures Written() == []
    {
      buffer := new byte[32768](_ => 0);
      index, bitCount := 0, 0;
    }

    /** Doubles the buffer. */
    method Expand()
      requires buffer.Length > 0
      modifies this`buffer
      ensures fresh(buffer) && buffer.Length == 2 * old(buffer.Length)
      ensures buffer[..old(buffer.Length)] == old(buffer[..])
    {
      var d := buffer;
      var a := new byte[2 * d.Length](_ => 0);
      for i := 0 to d.Length
        invariant a[..i] == d[..i]
      {
        a[i] := d[i];
      }
      assert a[..d.Length] == d[..];
      buffer := a;
    }

    /**
     Appends `n` bits of `number`, least significant bit first when `reverse` is set.
     Requiring the number to fit is what makes the `k << n | number` of the short path safe.
     */
    method Write(number: nat, n: nat, reverse: bool)
      requires Valid()
      requires n <= 32 && number < Pow2(n)
      modifies this, buffer
      ensures Valid() && (buffer == old(buffer) || fresh(buffer))
      ensures Written() == old(Written()) + if reverse then Lsb(number, n) else Msb(number, n)
    {
      hide Msb, Lsb, Shl, Pow2, BytesBits;
      var e, image := Oriented(number, n, reverse);
      var k: nat := buffer[index];
      if 8 > n + bitCount {
        MsbJoin(k, bitCount, image, n);
        BelowByte(Shl(k, n) + e, bitCount + n);
        buffer[index] := Shl(k, n) + e;
        bitCount := bitCount + n;
      } else {
        k := WriteBitByBit(e, image, n);
        BelowByte(k, bitCount);
        buffer[index] := k;
      }
    }

    /** The long path of `Write`: one bit at a time, flushing whole bytes; the open byte is returned. */
    method WriteBitByBit(e: int, ghost image: nat, n: nat) returns (k: nat)
      requires Valid()
      requires e == image || e == image - Pow2(n)
      modifies this, buffer
      ensures index < buffer.Length && bitCount < 8 && k < Pow2(bitCount)
      ensures buffer == old(buffer) || fresh(buffer)
      ensures Packed(buffer[..index], k, bitCount) == old(Written()) + Msb(image, n)
    {
      hide AShr, Msb, Packed, Pow2;
      ghost var start := Written();
      k := buffer[index];
      assert Packed(buffer[..index], k, bitCount) == start + Msb(image, n)[..0];
      for m := 0 to n
        invariant index < buffer.Length && bitCount < 8 && k < Pow2(bitCount)
        invariant buffer == old(buffer) || fresh(buffer)
        invariant Packed(buffer[..index], k, bitCount) == start + Msb(image, n)[..m]
      {
        ghost var before := buffer[..index];
        ghost var bits := Msb(image, n);
        ExtractedBit(image, e, n, m);
        var bit := AShr(e, n - m - 1) % 2;
        assert bits[..m + 1] == bits[..m] + [bits[m]];
        PackedBit(before, k, bitCount, bit);
        k := 2 * k + bit;
        bitCount := bitCount + 1;
        assert Packed(before, k, bitCount) == start + bits[..m + 1];
        if bitCount == 8 {
          FlushByte(k);
          k := 0;
        }
      }
      assert Msb(image, n)[..n] == Msb(image, n);
    }

    /** Stores a full byte, mirrored, and moves to the next cell. */
    method FlushByte(k: nat)
      requires index < buffer.Length && bitCount == 8 && k < Pow2(8)
      modifies this, buffer
      ensures index < buffer.Length && bitCount == 0
      ensures buffer == old(buffer) || fresh(buffer)
      ensures Packed(buffer[..index], 0, 0) == Packed(old(buffer[..index]), k, 8)
    {
      ghost var before := buffer[..index];
      PackedFlush(before, k);
      bitCount := 0;
      buffer[index] := Rev(k, 8);
      index := index + 1;
      assert buffer[..index] == before + [Rev(k, 8)];
      if index == buffer.Length {
        Expand();
      }
      assert buffer[..index] == before + [Rev(k, 8)];
    }

    /** Pads the open byte with zero bits and returns the bytes. */
    method Finish() returns (out: seq<byte>)
      requires Valid()
      modifies buffer
      ensures |out| == (|old(Written())| + 7) / 8
      ensures BytesBits(out) == old(Written()) + seq(8 * |out| - |old(Written())|, i => false)
    {
      var d := index;
      if bitCount > 0 {
        PackedPad(buffer[..d], buffer[d], bitCount, 8 - bitCount);
        buffer[d] := Shl(buffer[d], 8 - bitCount);
        LowPow2(8);
        PackedFlush(buffer[..d], buffer[d]);
        buffer[d] := Rev(buffer[d], 8);
        d := d + 1;
        assert buffer[..d] == buffer[..index] + [buffer[index]];
      }
      out := buffer[..d];
    }
  }
}
