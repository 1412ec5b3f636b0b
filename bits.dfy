/**
 * Bytes and 32-bit words as the steganography codec's C code handles them, on
 * unbounded integers: a byte is its unsigned value 0..255, a word its unsigned value
 * 0..2^32-1. Shifting right by one is halving, the low bit is the parity, and the
 * signed views of a byte (`char`) and of a word (`int`) are two's complement.
 */
module Bits {

  /** A byte as an unsigned value; the C code's `char` holds its bit pattern. */
  type byte = x: int | 0 <= x < 256

  const WORD: int := 0x1_0000_0000

  function Pow2(k: nat): (p: nat)
    ensures p >= 1
  {
    if k == 0 then 1 else 2 * Pow2(k - 1)
  }

  /**
   * Bit i of u, the C test `(u & (1 << i)) >> i`: u shifted right i places, then its
   * lowest bit.
   */
  predicate BitAt(u: nat, i: nat)
  {
    if i == 0 then u % 2 == 1 else BitAt(u / 2, i - 1)
  }

  /** The w low bits of u, most significant first. */
  function PackedBits(u: nat, w: nat): (bits: seq<bool>)
    ensures |bits| == w
  {
    if w == 0 then [] else PackedBits(u / 2, w - 1) + [u % 2 == 1]
  }

  /** A bit as the number 0 or 1. */
  function Bit(b: bool): nat
  {
    if b then 1 else 0
  }

  /** The number whose bits, most significant first, are `bits` (Horner's rule). */
  function Assemble(bits: seq<bool>): nat
  {
    if bits == [] then 0 else 2 * Assemble(bits[..|bits| - 1]) + Bit(bits[|bits| - 1])
  }

  /**
   * `(unsigned)(int)c` for a `char` c holding the byte b: the char is signed, so a byte
   * of 128 or more is negative and sign-extends to 32 bits.
   */
  function Promote(b: byte): (u: nat)
    ensures u < WORD
    ensures b < 128 ==> u == b
    ensures b >= 128 ==> u == (Pow2(24) - 1) * 256 + b
  {
    Pow2Values();
    if b < 128 then b else b + WORD - 256
  }

  /** The `char` an `int` is converted to: its low eight bits. */
  function Narrow(v: int): (b: byte)
    ensures (v - b) % 256 == 0
  {
    v % 256
  }

  /** The value of the byte b read as a signed `char`. */
  function SignedChar(b: byte): (c: int)
    ensures -128 <= c < 128
    ensures (c - b) % 256 == 0
  {
    if b < 128 then b else b - 256
  }

  /** The value of the word u read as a signed 32-bit `int`. */
  function Signed32(u: nat): (v: int)
    requires u < WORD
    ensures -0x8000_0000 <= v < 0x8000_0000
    ensures (v - u) % WORD == 0
  {
    if u < 0x8000_0000 then u else u - WORD
  }

  /** The word is recovered from its signed view by adding 2^32 and reducing. */
  lemma Signed32Word(u: nat)
    requires u < WORD
    ensures (Signed32(u) + WORD) % WORD == u
  {
    if u >= 0x8000_0000 {
      assert Signed32(u) + WORD == u;
    }
  }

  lemma Pow2Values()
    ensures Pow2(8) == 256
    ensures Pow2(24) == 0x100_0000
    ensures Pow2(32) == WORD
  {
    assert Pow2(8) == 256;
    assert Pow2(16) == 0x1_0000;
    assert Pow2(24) == 0x100_0000;
  }

  /** The packed bits are the C bit tests, from bit w-1 down to bit 0. */
  lemma {:induction false} PackedBitsAt(u: nat, w: nat, j: nat)
    requires j < w
    ensures PackedBits(u, w)[j] == BitAt(u, w - 1 - j)
  {
    if j < w - 1 {
      PackedBitsAt(u / 2, w - 1, j);
    }
  }

  /** Appending a bit doubles the assembled value and adds the bit. */
  lemma AssembleSnoc(bits: seq<bool>, b: bool)
    ensures Assemble(bits + [b]) == 2 * Assemble(bits) + Bit(b)
  {
    assert (bits + [b])[..|bits|] == bits;
  }

  /** Halving undoes doubling-and-adding a smaller value, which the parity recovers. */
  lemma DivMod2(q: int, y: int)
    ensures (2 * q + y) / 2 == q + y / 2
    ensures (2 * q + y) % 2 == y % 2
  {
  }

  lemma Double(a: int, p: int)
    ensures a * (2 * p) == 2 * (a * p)
  {
  }

  /** An assembled value fits in as many bits as it was assembled from. */
  lemma {:induction false} AssembleBound(bits: seq<bool>)
    ensures Assemble(bits) < Pow2(|bits|)
  {
    if bits != [] {
      AssembleBound(bits[..|bits| - 1]);
    }
  }

  /** Packing a value that fits in w bits and assembling the bits gives it back. */
  lemma {:induction false} AssemblePacked(u: nat, w: nat)
    requires u < Pow2(w)
    ensures Assemble(PackedBits(u, w)) == u
  {
    if w > 0 {
      var h, l := u / 2, u % 2;
      assert u == 2 * h + l && Bit(l == 1) == l;
      assert h < Pow2(w - 1);
      AssemblePacked(h, w - 1);
      AssembleSnoc(PackedBits(h, w - 1), l == 1);
    }
  }

  /** Assembling bits and packing the value gives the bits back. */
  lemma {:induction false} PackedAssemble(bits: seq<bool>)
    ensures PackedBits(Assemble(bits), |bits|) == bits
  {
    if bits != [] {
      var n := |bits|;
      var prefix, last := bits[..n - 1], bits[n - 1];
      var a := Assemble(prefix);
      assert Assemble(bits) == 2 * a + Bit(last);
      DivMod2(a, Bit(last));
      PackedAssemble(prefix);
      assert PackedBits(Assemble(bits), n) == PackedBits(a, n - 1) + [Bit(last) % 2 == 1];
      assert prefix + [last] == bits;
    }
  }

  /** The high part and the low w bits of a word pack side by side. */
  lemma {:induction false} PackedBitsConcat(u: nat, n: nat, x: nat, y: nat, m: nat, w: nat)
    requires y < Pow2(w) && u == x * Pow2(w) + y && n == m + w
    ensures PackedBits(u, n) == PackedBits(x, m) + PackedBits(y, w)
  {
    if w > 0 {
      HalveConcat(x, y, w);
      PackedBitsConcat(u / 2, n - 1, x, y / 2, m, w - 1);
      assert PackedBits(y, w) == PackedBits(y / 2, w - 1) + [y % 2 == 1];
    } else {
      assert u == x;
    }
  }

  /** Halving x above w low bits y: x lands above the w-1 bits of y / 2, and y's low bit is left. */
  lemma HalveConcat(x: nat, y: nat, w: nat)
    requires w > 0
    ensures (x * Pow2(w) + y) / 2 == x * Pow2(w - 1) + y / 2
    ensures (x * Pow2(w) + y) % 2 == y % 2
  {
    var p := Pow2(w - 1);
    Double(x, p);
    DivMod2(x * p, y);
  }

  /** The k-bit number whose bits all equal `bit`: 0, or 2^k - 1. */
  function Run(bit: bool, k: nat): nat
  {
    if bit then Pow2(k) - 1 else 0
  }

  lemma {:induction false} PackedRun(bit: bool, k: nat)
    ensures PackedBits(Run(bit, k), k) == seq(k, _ => bit)
  {
    if k > 0 {
      PackedRun(bit, k - 1);
      assert Run(bit, k) / 2 == Run(bit, k - 1) && (Run(bit, k) % 2 == 1) == bit;
      assert seq(k - 1, _ => bit) + [bit] == seq(k, _ => bit);
    }
  }

  /**
   * The 32 bits of a promoted char: 24 copies of its sign bit, then the byte's own
   * eight bits. For both widths the encoder therefore writes the byte's bits last.
   */
  lemma PromotedBits(b: byte)
    ensures PackedBits(Promote(b), 32) == seq(24, _ => b >= 128) + PackedBits(b, 8)
    ensures PackedBits(Promote(b), 8) == PackedBits(b, 8)
  {
    var high := Run(b >= 128, 24);
    PromoteSplit(b);
    PackedRun(b >= 128, 24);
    PackedBitsConcat(Promote(b), 32, high, b, 24, 8);
    PackedBitsConcat(Promote(b), 8, high, b, 0, 8);
    assert PackedBits(high, 0) == [];
  }

  /** A promoted char is its sign run above its own eight bits. */
  lemma PromoteSplit(b: byte)
    ensures Promote(b) == Run(b >= 128, 24) * Pow2(8) + b
    ensures b < Pow2(8)
  {
    Pow2Values();
  }

  /** `a | b` on non-negative values: bit by bit, a bit is set when it is set in either. */
  function Or(a: nat, b: nat): nat
    decreases a + b
  {
    if a == 0 && b == 0 then 0
    else 2 * Or(a / 2, b / 2) + (if a % 2 == 1 || b % 2 == 1 then 1 else 0)
  }

  /** Bit k of `a | b` is set exactly when bit k of a or bit k of b is. */
  lemma {:induction false} OrBits(a: nat, b: nat, k: nat)
    ensures BitAt(Or(a, b), k) <==> BitAt(a, k) || BitAt(b, k)
  {
    OrStep(a, b);
    if k > 0 {
      OrBits(a / 2, b / 2, k - 1);
    }
  }

  /** The low bit of `a | b` is the OR of the low bits, and the rest is the OR of the rest. */
  lemma OrStep(a: nat, b: nat)
    ensures Or(a, b) / 2 == Or(a / 2, b / 2)
    ensures Or(a, b) % 2 == 1 <==> a % 2 == 1 || b % 2 == 1
  {
    if !(a == 0 && b == 0) {
      DivMod2(Or(a / 2, b / 2), if a % 2 == 1 || b % 2 == 1 then 1 else 0);
    }
  }

  /** OR-ing zero changes nothing. */
  lemma {:induction false} OrZero(a: nat)
    ensures Or(a, 0) == a
    decreases a
  {
    if a > 0 {
      OrZero(a / 2);
    }
  }

  /** Setting a bit that is clear adds its weight: `acc | (1 << i) == acc + 2^i`. */
  lemma {:induction false} OrDisjoint(acc: nat, i: nat)
    requires !BitAt(acc, i)
    ensures Or(acc, Pow2(i)) == acc + Pow2(i)
  {
    if i == 0 {
      OrZero(acc / 2);
    } else {
      OrDisjoint(acc / 2, i - 1);
      assert Pow2(i) / 2 == Pow2(i - 1) && Pow2(i) % 2 == 0;
    }
  }

  /** A value shifted up past bit i has bit i clear. */
  lemma {:induction false} ClearBit(a: nat, i: nat)
    ensures !BitAt(a * Pow2(i + 1), i)
  {
    if i > 0 {
      Double(a, Pow2(i));
      ClearBit(a, i - 1);
      assert a * Pow2(i + 1) / 2 == a * Pow2(i);
    }
  }

  /**
   * The C decoders OR `bit << i` into an accumulator for i = n-1 down to 0. After
   * j steps the accumulator holds the first j bits assembled and shifted up past bit
   * i, so bit i is still clear and the OR adds `bit * 2^i`: the accumulator then holds
   * the first j+1 bits, shifted up past bit i-1.
   */
  lemma AccumulateStep(bits: seq<bool>, j: nat, i: nat, acc: nat, bit: nat)
    requires j < |bits| && acc == Assemble(bits[..j]) * Pow2(i + 1) && bit == Bit(bits[j])
    ensures !BitAt(acc, i) && 0 <= bit * Pow2(i)
    ensures Or(acc, bit * Pow2(i)) == acc + bit * Pow2(i) == Assemble(bits[..j + 1]) * Pow2(i)
  {
    assert bits[..j + 1] == bits[..j] + [bits[j]];
    AssembleSnoc(bits[..j], bits[j]);
    var a, p := Assemble(bits[..j]), Pow2(i);
    assert Pow2(i + 1) == 2 * p;
    Distribute(a, bit, p);
    ClearBit(a, i);
    if bits[j] {
      OrDisjoint(acc, i);
    } else {
      OrZero(acc);
    }
  }

  lemma Distribute(a: int, c: int, p: int)
    ensures (2 * a + c) * p == a * (2 * p) + c * p
  {
  }
}
