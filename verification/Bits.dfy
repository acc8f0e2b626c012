/**
 Bit strings and the machine arithmetic the bit writer and reader use.

 A bit string lists bits in the order they go on the wire.  RFC 1951 section 3.1.1 packs
 data elements starting with the least significant bit, so most writes are described by
 `Lsb`; Huffman codes are packed starting with the most significant bit, which is `Msb`.
 Shifts and masks are defined by recursion on the shift count.
 */
module Bits {
  type byte = x: int | 0 <= x < 256

  function Pow2(n: nat): (r: nat)
    ensures r > 0
  {
    if n == 0 then 1 else 2 * Pow2(n - 1)
  }

  /** `v << n` */
  function Shl(v: nat, n: nat): nat {
    if n == 0 then v else 2 * Shl(v, n - 1)
  }

  /** `v >>> n` */
  function Shr(v: nat, n: nat): nat {
    if n == 0 then v else Shr(v / 2, n - 1)
  }

  /** `v >> n`: the arithmetic shift, which rounds negative numbers down. */
  function AShr(v: int, n: nat): int
    decreases n
  {
    if n == 0 then v else AShr(v / 2, n - 1)
  }

  /** The lowest `n` bits of a number. */
  function Low(v: nat, n: nat): (r: nat)
    ensures r < Pow2(n)
  {
    if n == 0 then 0 else v % 2 + 2 * Low(v / 2, n - 1)
  }

  /** The low `n` bits of `v`, least significant first. */
  function Lsb(v: nat, n: nat): (s: seq<bool>)
    ensures |s| == n
  {
    if n == 0 then [] else [v % 2 == 1] + Lsb(v / 2, n - 1)
  }

  /** The low `n` bits of `v`, most significant first. */
  function Msb(v: nat, n: nat): (s: seq<bool>)
    ensures |s| == n
  {
    if n == 0 then [] else Msb(v / 2, n - 1) + [v % 2 == 1]
  }

  /** The number whose bits, least significant first, are `s`. */
  function Value(s: seq<bool>): (v: nat)
    ensures v < Pow2(|s|)
  {
    if |s| == 0 then 0 else (if s[0] then 1 else 0) + 2 * Value(s[1..])
  }

  /** The low `n` bits of `v` in reverse order. */
  function Rev(v: nat, n: nat): (r: nat)
    ensures r < Pow2(n)
  {
    if n == 0 then 0
    else
      ShlOne(v % 2, n - 1);
      Shl(v % 2, n - 1) + Rev(v / 2, n - 1)
  }

  /** The bits of a byte string. */
  function BytesBits(b: seq<byte>): (s: seq<bool>)
    ensures |s| == 8 * |b|
  {
    if |b| == 0 then [] else Lsb(b[0], 8) + BytesBits(b[1..])
  }

  // ----- shifts, masks and bit strings

  lemma Pow2Mono(m: nat, n: nat)
    requires m <= n
    ensures Pow2(m) <= Pow2(n)
  {
  }

  lemma Pow2Add(m: nat, n: nat)
    ensures Shl(Pow2(m), n) == Pow2(m + n)
  {
  }

  lemma ShlMul(v: nat, n: nat)
    ensures Shl(v, n) == v * Pow2(n)
  {
  }

  lemma ShlMono(v: nat, w: nat, n: nat)
    requires v <= w
    ensures Shl(v, n) <= Shl(w, n)
  {
  }

  lemma ShlOne(v: nat, n: nat)
    requires v <= 1
    ensures Shl(v, n) == if v == 1 then Pow2(n) else 0
  {
  }

  lemma {:induction false} ShlSum(v: nat, w: nat, n: nat)
    ensures Shl(v + w, n) == Shl(v, n) + Shl(w, n)
  {
    if n > 0 { ShlSum(v, w, n - 1); }
  }

  lemma ShlShl(v: nat, m: nat, n: nat)
    ensures Shl(Shl(v, m), n) == Shl(v, m + n)
  {
  }

  lemma {:induction false} ShlLast(v: nat, n: nat)
    ensures Shl(2 * v, n) == 2 * Shl(v, n)
  {
    if n > 0 { ShlLast(v, n - 1); }
  }

  lemma {:induction false} ShrAdd(v: nat, m: nat, n: nat)
    ensures Shr(Shr(v, m), n) == Shr(v, m + n)
  {
    if m > 0 { ShrAdd(v / 2, m - 1, n); }
  }

  lemma {:induction false} LowShr(v: nat, n: nat)
    ensures v == Low(v, n) + Shl(Shr(v, n), n)
  {
    if n > 0 { LowShr(v / 2, n - 1); }
  }

  lemma {:induction false} LowSmall(v: nat, n: nat)
    requires v < Pow2(n)
    ensures Low(v, n) == v && Shr(v, n) == 0
  {
    if n > 0 { LowSmall(v / 2, n - 1); }
  }

  lemma {:induction false} LowLow(v: nat, m: nat, n: nat)
    requires n <= m
    ensures Low(Low(v, m), n) == Low(v, n)
  {
    hide Pow2;
    if n > 0 {
      assert Low(v, m) / 2 == Low(v / 2, m - 1) && Low(v, m) % 2 == v % 2;
      LowLow(v / 2, m - 1, n - 1);
    }
  }

  lemma {:induction false} LowOfSum(a: nat, g: nat, n: nat)
    requires a < Pow2(n)
    ensures Low(a + Shl(g, n), n) == a && Shr(a + Shl(g, n), n) == g
  {
    if n > 0 { LowOfSum(a / 2, g, n - 1); }
  }

  lemma {:induction false} LsbLow(v: nat, n: nat)
    ensures Lsb(Low(v, n), n) == Lsb(v, n)
  {
    if n > 0 { LsbLow(v / 2, n - 1); }
  }

  lemma {:induction false} ValueLsb(v: nat, n: nat)
    ensures Value(Lsb(v, n)) == Low(v, n)
  {
    if n > 0 { ValueLsb(v / 2, n - 1); }
  }

  lemma {:induction false} LsbValue(s: seq<bool>)
    ensures Lsb(Value(s), |s|) == s
  {
    if |s| > 0 { LsbValue(s[1..]); }
  }

  lemma {:induction false} LsbSplit(v: nat, m: nat, n: nat)
    ensures Lsb(v, m + n) == Lsb(v, m) + Lsb(Shr(v, m), n)
  {
    if m > 0 { LsbSplit(v / 2, m - 1, n); }
  }

  /** Gluing `g` above the `m` bits of `a` glues the bit strings. */
  lemma LsbJoin(a: nat, m: nat, g: nat, n: nat)
    requires a < Pow2(m)
    ensures Lsb(a + Shl(g, m), m + n) == Lsb(a, m) + Lsb(g, n)
    ensures a + Shl(g, m) < Shl(g + 1, m)
  {
    LowOfSum(a, g, m);
    LsbSplit(a + Shl(g, m), m, n);
    LsbLow(a + Shl(g, m), m);
    ShlSum(g, 1, m);
    Pow2Add(0, m);
  }

  lemma {:induction false} LsbZero(n: nat)
    ensures Lsb(0, n) == seq(n, i => false)
  {
    if n > 0 { LsbZero(n - 1); }
  }

  // ----- reversal

  lemma {:induction false} RevLsb(v: nat, n: nat)
    ensures Lsb(Rev(v, n), n) == Msb(v, n)
  {
    if n > 0 {
      RevLsb(v / 2, n - 1);
      LsbJoin(Rev(v / 2, n - 1), n - 1, v % 2, 1);
    }
  }

  lemma {:induction false} MsbLast(v: nat, n: nat)
    ensures Msb(v, n + 1) == [Shr(v, n) % 2 == 1] + Msb(v, n)
  {
    if n > 0 { MsbLast(v / 2, n - 1); }
  }

  lemma {:induction false} RevMsb(v: nat, n: nat)
    ensures Msb(Rev(v, n), n) == Lsb(v, n)
  {
    hide Low, Shr;
    if n > 0 {
      RevMsb(v / 2, n - 1);
      LowOfSum(Rev(v / 2, n - 1), v % 2, n - 1);
      MsbLast(Rev(v, n), n - 1);
      MsbLow(Rev(v, n), n - 1);
    }
  }

  lemma {:induction false} MsbLow(v: nat, n: nat)
    ensures Msb(Low(v, n), n) == Msb(v, n)
  {
    if n > 0 { MsbLow(v / 2, n - 1); }
  }

  /** Reversing a long string reverses its two parts and swaps them. */
  lemma {:induction false} RevAppend(v: nat, m: nat, n: nat)
    ensures Rev(v, m + n) == Shl(Rev(v, m), n) + Rev(Shr(v, m), n)
  {
    if m == 0 {
      ShlOne(0, n);
    } else {
      RevAppend(v / 2, m - 1, n);
      ShlShl(v % 2, m - 1, n);
      ShlSum(Shl(v % 2, m - 1), Rev(v / 2, m - 1), n);
    }
  }

  lemma {:induction false} RevLow(v: nat, n: nat)
    ensures Rev(Low(v, n), n) == Rev(v, n)
  {
    if n > 0 {
      assert Low(v, n) % 2 == v % 2 && Low(v, n) / 2 == Low(v / 2, n - 1);
      RevLow(v / 2, n - 1);
    }
  }

  lemma {:induction false} RevZero(n: nat)
    ensures Rev(0, n) == 0
  {
    if n > 0 { RevZero(n - 1); }
  }

  // ----- byte strings

  lemma {:induction false} BytesBitsAppend(a: seq<byte>, b: seq<byte>)
    ensures BytesBits(a + b) == BytesBits(a) + BytesBits(b)
  {
    if |a| == 0 {
      assert a + b == b;
    } else {
      assert (a + b)[1..] == a[1..] + b;
      BytesBitsAppend(a[1..], b);
    }
  }

  lemma BytesBitsPush(a: seq<byte>, x: byte)
    ensures BytesBits(a + [x]) == BytesBits(a) + Lsb(x, 8)
  {
    BytesBitsAppend(a, [x]);
    assert [x][1..] == [];
    assert BytesBits([x]) == Lsb(x, 8) + [];
  }
}
