/** Bytes and the few bit operations the driver performs on them.
    A mask test such as `(b & 0xF0) == 0x60` is written arithmetically, as `b / 16 == 6`. */
module Bytes {

  type byte = x: int | 0 <= x < 256

  type bytes = seq<byte>

  datatype Option<+T> = None | Some(value: T)

  function Min(a: int, b: int): int { if a < b then a else b }

  function Max(a: int, b: int): int { if a > b then a else b }

  function Word(hi: nat, lo: nat): nat { 256 * hi + lo }

  lemma Associate<T>(a: seq<T>, b: seq<T>, c: seq<T>)
    ensures a + b + c == a + (b + c)
  {
  }

  lemma Regroup<T>(whole: seq<T>, front: seq<T>, a: seq<T>, b: seq<T>, c: seq<T>)
    requires whole == front + c && front == a + b
    ensures whole == a + (b + c)
  {
  }

  lemma SliceJoin<T>(s: seq<T>, i: nat, j: nat)
    requires i <= j <= |s|
    ensures s[..i] + s[i..j] == s[..j]
  {
  }

  /** Concatenation of a sequence of byte strings. */
  function Flatten(parts: seq<bytes>): bytes {
    if parts == [] then [] else parts[0] + Flatten(parts[1..])
  }

  lemma {:induction false} FlattenAppend(a: seq<bytes>, b: seq<bytes>)
    ensures Flatten(a + b) == Flatten(a) + Flatten(b)
  {
    if a == [] {
      assert a + b == b;
    } else {
      assert (a + b)[1..] == a[1..] + b;
      FlattenAppend(a[1..], b);
    }
  }

  lemma {:induction false} FlattenSnoc(a: seq<bytes>, p: bytes)
    ensures Flatten(a + [p]) == Flatten(a) + p
  {
    FlattenAppend(a, [p]);
    assert Flatten([p]) == p + Flatten([]);
  }

  // ----- bits -----

  function Pow2(n: nat): (p: nat)
    ensures p > 0
  {
    if n == 0 then 1 else 2 * Pow2(n - 1)
  }

  /** Bit k of a number. */
  function Bit(a: nat, k: nat): (b: nat)
    ensures b < 2
  {
    if k == 0 then a % 2 else Bit(a / 2, k - 1)
  }

  lemma {:induction false} HalfQuotient(a: nat, k: nat)
    requires k < 7
    ensures a / Pow2(k + 1) == a / 2 / Pow2(k)
  {
    match k
    case 0 => assert Pow2(1) == 2;
    case 1 => assert Pow2(2) == 4;
    case 2 => assert Pow2(3) == 8;
    case 3 => assert Pow2(4) == 16;
    case 4 => assert Pow2(5) == 32;
    case 5 => assert Pow2(6) == 64;
    case _ => assert k == 6 && Pow2(7) == 128;
  }

  lemma {:induction false} BitIs(a: nat, k: nat)
    requires k < 8
    ensures Bit(a, k) == a / Pow2(k) % 2
  {
    if k > 0 {
      BitIs(a / 2, k - 1);
      HalfQuotient(a, k - 1);
    }
  }

  /** Bits tell numbers of n bits apart. */
  lemma {:induction false} SameBits(n: nat, a: nat, b: nat)
    requires a < Pow2(n) && b < Pow2(n) && forall k: nat | k < n :: Bit(a, k) == Bit(b, k)
    ensures a == b
  {
    if n > 0 {
      forall k: nat | k < n - 1
        ensures Bit(a / 2, k) == Bit(b / 2, k)
      {
        assert Bit(a, k + 1) == Bit(b, k + 1);
      }
      SameBits(n - 1, a / 2, b / 2);
      assert Bit(a, 0) == Bit(b, 0);
    }
  }

  // ----- exclusive or -----

  /** Bitwise exclusive or of the low n bits. */
  function XorBits(n: nat, a: nat, b: nat): (r: nat)
    ensures r < Pow2(n)
  {
    if n == 0 then 0 else 2 * XorBits(n - 1, a / 2, b / 2) + (a + b) % 2
  }

  function Xor(a: byte, b: byte): byte {
    assert Pow2(8) == 256;
    XorBits(8, a, b)
  }

  lemma {:induction false} XorBitsBit(n: nat, a: nat, b: nat, k: nat)
    requires k < n
    ensures Bit(XorBits(n, a, b), k) == (Bit(a, k) + Bit(b, k)) % 2
  {
    var y := XorBits(n - 1, a / 2, b / 2);
    Halve(y, (a + b) % 2);
    if k > 0 {
      XorBitsBit(n - 1, a / 2, b / 2, k - 1);
    }
  }

  /** A bit of an exclusive or is set if just one of the two bits is. */
  lemma {:induction false} XorBit(a: byte, b: byte, k: nat)
    requires k < 8
    ensures Xor(a, b) / Pow2(k) % 2 == (a / Pow2(k) % 2 + b / Pow2(k) % 2) % 2
  {
    XorBitsBit(8, a, b, k);
    BitIs(Xor(a, b), k);
    BitIs(a, k);
    BitIs(b, k);
  }

  lemma Halve(y: nat, p: nat)
    requires p < 2
    ensures (2 * y + p) / 2 == y
  {
  }

  lemma LowBitCancels(y: nat, a: nat, b: nat)
    ensures (2 * y + (a + b) % 2 + b) % 2 == a % 2
  {
  }

  lemma {:induction false} XorBitsCancel(n: nat, a: nat, b: nat)
    requires a < Pow2(n)
    ensures XorBits(n, XorBits(n, a, b), b) == a
  {
    if n > 0 {
      var y := XorBits(n - 1, a / 2, b / 2);
      XorBitsCancel(n - 1, a / 2, b / 2);
      Halve(y, (a + b) % 2);
      LowBitCancels(y, a, b);
      assert XorBits(n, 2 * y + (a + b) % 2, b) == 2 * (a / 2) + a % 2;
    }
  }

  lemma {:induction false} XorBitsSymmetric(n: nat, a: nat, b: nat)
    ensures XorBits(n, a, b) == XorBits(n, b, a)
  {
    if n > 0 {
      XorBitsSymmetric(n - 1, a / 2, b / 2);
    }
  }

  lemma {:induction false} XorBitsSelf(n: nat, a: nat)
    ensures XorBits(n, a, a) == 0
  {
    if n > 0 {
      XorBitsSelf(n - 1, a / 2);
    }
  }

  /** Exclusive or with a fixed byte is injective in either argument. */
  lemma {:induction false} XorInjective(a: byte, b: byte, c: byte)
    ensures Xor(a, c) == Xor(b, c) ==> a == b
    ensures Xor(c, a) == Xor(c, b) ==> a == b
  {
    assert Pow2(8) == 256;
    XorBitsCancel(8, a, c);
    XorBitsCancel(8, b, c);
    XorBitsSymmetric(8, a, c);
    XorBitsSymmetric(8, b, c);
  }

  lemma {:induction false} XorSelf(a: byte)
    ensures Xor(a, a) == 0
  {
    XorBitsSelf(8, a);
  }

  // ----- inverse convention -----

  /** The low n bits in reverse order; with n = 8 this is INVERT_BYTE. */
  function ReverseBits(n: nat, a: nat): (r: nat)
    ensures r < Pow2(n)
  {
    if n == 0 then 0 else (if a % 2 == 1 then Pow2(n - 1) else 0) + ReverseBits(n - 1, a / 2)
  }

  /** ~(INVERT_BYTE (b)): how a byte of an inverse convention card is read. */
  function Flip(b: byte): byte {
    assert Pow2(8) == 256;
    255 - ReverseBits(8, b)
  }

  /** The top bit of the argument is the low bit of the result. */
  lemma {:induction false} ReverseTopBit(n: nat, a: nat, top: bool)
    requires a < Pow2(n)
    ensures ReverseBits(n + 1, a + if top then Pow2(n) else 0) == 2 * ReverseBits(n, a) + if top then 1 else 0
  {
    if n > 0 {
      ReverseTopBit(n - 1, a / 2, top);
      assert (a + if top then Pow2(n) else 0) / 2 == a / 2 + if top then Pow2(n - 1) else 0;
    }
  }

  lemma {:induction false} ReverseInvolution(n: nat, a: nat)
    requires a < Pow2(n)
    ensures ReverseBits(n, ReverseBits(n, a)) == a
  {
    if n > 0 {
      ReverseInvolution(n - 1, a / 2);
      ReverseTopBit(n - 1, ReverseBits(n - 1, a / 2), a % 2 == 1);
    }
  }

  lemma {:induction false} ReverseComplement(n: nat, a: nat)
    requires a < Pow2(n)
    ensures ReverseBits(n, Pow2(n) - 1 - a) == Pow2(n) - 1 - ReverseBits(n, a)
  {
    if n > 0 {
      ReverseComplement(n - 1, a / 2);
      assert (Pow2(n) - 1 - a) / 2 == Pow2(n - 1) - 1 - a / 2;
      assert (Pow2(n) - 1 - a) % 2 == 1 - a % 2;
    }
  }

  lemma {:induction false} FlipBits(n: nat, a: nat)
    requires a < Pow2(n)
    ensures ReverseBits(n, Pow2(n) - 1 - ReverseBits(n, a)) == Pow2(n) - 1 - a
  {
    ReverseComplement(n, ReverseBits(n, a));
    ReverseInvolution(n, a);
  }

  lemma {:induction false} FlipInvolution(b: byte)
    ensures Flip(Flip(b)) == b
  {
    assert Pow2(8) == 256;
    FlipBits(8, b);
  }

  /** The bits of a number with one more bit on top. */
  lemma {:induction false} BitBelow(n: nat, y: nat, top: nat, k: nat)
    requires y < Pow2(n) && top < 2 && k <= n
    ensures Bit(top * Pow2(n) + y, k) == if k == n then top else Bit(y, k)
  {
    if n > 0 {
      var x, p := top * Pow2(n) + y, top * Pow2(n - 1);
      assert x == 2 * p + y;
      assert x / 2 == p + y / 2 && x % 2 == y % 2;
      if k > 0 {
        BitBelow(n - 1, y / 2, top, k - 1);
      }
    }
  }

  lemma {:induction false} ReverseBit(n: nat, a: nat, k: nat)
    requires k < n
    ensures Bit(ReverseBits(n, a), k) == Bit(a, n - 1 - k)
  {
    BitBelow(n - 1, ReverseBits(n - 1, a / 2), a % 2, k);
    if k < n - 1 {
      ReverseBit(n - 1, a / 2, k);
    }
  }

  lemma {:induction false} ComplementBit(n: nat, a: nat, k: nat)
    requires a < Pow2(n) && k < n
    ensures Bit(Pow2(n) - 1 - a, k) == 1 - Bit(a, k)
  {
    var c := Pow2(n) - 1 - a;
    assert c / 2 == Pow2(n - 1) - 1 - a / 2 && c % 2 == 1 - a % 2;
    if k > 0 {
      ComplementBit(n - 1, a / 2, k - 1);
    }
  }

  /** Bit k of a byte read from an inverse convention card is the complement of bit 7 - k. */
  lemma {:induction false} FlipBit(b: byte, k: nat)
    requires k < 8
    ensures Flip(b) / Pow2(k) % 2 == 1 - b / Pow2(7 - k) % 2
  {
    assert Pow2(8) == 256;
    ComplementBit(8, ReverseBits(8, b), k);
    ReverseBit(8, b, k);
    BitIs(Flip(b), k);
    BitIs(b, 7 - k);
  }

  function FlipAll(s: bytes): (r: bytes)
    ensures |r| == |s|
    ensures forall i | 0 <= i < |s| :: r[i] == Flip(s[i])
  {
    seq(|s|, i requires 0 <= i < |s| => Flip(s[i]))
  }
}
