/** The masks, shifts and exclusive ors of the driver, as operations on eight-bit registers: the arithmetic that the
    model computes with is the same for every byte. */
module Machine {
  import opened Bytes
  import T0Wire
  import T1Block
  import Atr
  import IfdFrame
  import Directory

  // ----- registers -----

  /** The value of a register. */
  function Value(x: bv8): byte { x as int }

  lemma SameValue(x: bv8, y: bv8)
    ensures x == y <==> x as int == y as int
  {
  }

  lemma Half(x: bv8)
    ensures (x >> 1) as int == (x as int) / 2
  {
  }

  lemma Odd(x: bv8)
    ensures (x as int) % 2 == if x & 1 == 1 then 1 else 0
  {
  }

  lemma Complement(x: bv8)
    ensures (!x) as int == 255 - x as int
  {
  }

  lemma LowNibble(x: bv8)
    ensures (x & 0x0F) as int == (x as int) % 16
  {
  }

  lemma LowThree(x: bv8)
    ensures (x & 7) as int == (x as int) % 8
  {
  }

  lemma Twice(x: bv8)
    requires x <= 7
    ensures (x << 1) as int == 2 * (x as int)
  {
  }

  function Mask(k: nat): bv8
    requires k < 8
  {
    if k == 0 then 0x01 else if k == 1 then 0x02 else if k == 2 then 0x04 else if k == 3 then 0x08
    else if k == 4 then 0x10 else if k == 5 then 0x20 else if k == 6 then 0x40 else 0x80
  }

  lemma ShiftMask(x: bv8, k: nat)
    requires 1 <= k < 8
    ensures x & Mask(k) != 0 <==> (x >> 1) & Mask(k - 1) != 0
  {
  }

  /** Bit k of a register is the one under its mask. */
  lemma {:induction false} BitUnderMask(x: bv8, k: nat)
    requires k < 8
    ensures Bit(x as int, k) == 1 <==> x & Mask(k) != 0
  {
    if k == 0 {
      Odd(x);
    } else {
      Half(x);
      ShiftMask(x, k);
      BitUnderMask(x >> 1, k - 1);
    }
  }

  /** A bit of a byte is the one of a register. */
  predicate Shows(b: byte, x: bv8, k: nat)
    requires k < 8
  {
    Bit(b, k) == 1 <==> x & Mask(k) != 0
  }

  /** A byte whose bits are those of a register is its value. */
  lemma {:induction false} ByteOf(b: byte, x: bv8)
    requires forall k: nat | k < 8 :: Shows(b, x, k)
    ensures b == Value(x)
  {
    assert Pow2(8) == 256;
    forall k: nat | k < 8
      ensures Bit(b, k) == Bit(Value(x), k)
    {
      assert Shows(b, x, k);
      BitUnderMask(x, k);
    }
    SameBits(8, b, Value(x));
  }

  /** A register with these bits. */
  function Register(b0: bool, b1: bool, b2: bool, b3: bool, b4: bool, b5: bool, b6: bool, b7: bool): bv8 {
    (if b0 then 0x01 else 0) | (if b1 then 0x02 else 0) | (if b2 then 0x04 else 0) | (if b3 then 0x08 else 0)
    | (if b4 then 0x10 else 0) | (if b5 then 0x20 else 0) | (if b6 then 0x40 else 0) | (if b7 then 0x80 else 0)
  }

  lemma RegisterBits(b0: bool, b1: bool, b2: bool, b3: bool, b4: bool, b5: bool, b6: bool, b7: bool, k: nat)
    requires k < 8
    ensures Register(b0, b1, b2, b3, b4, b5, b6, b7) & Mask(k) != 0 <==>
              if k == 0 then b0 else if k == 1 then b1 else if k == 2 then b2 else if k == 3 then b3
              else if k == 4 then b4 else if k == 5 then b5 else if k == 6 then b6 else b7
  {
  }

  /** Every byte is the value of a register. */
  lemma {:induction false} EveryByte(b: byte) returns (x: bv8)
    ensures Value(x) == b
  {
    var b0, b1, b2, b3 := Bit(b, 0) == 1, Bit(b, 1) == 1, Bit(b, 2) == 1, Bit(b, 3) == 1;
    var b4, b5, b6, b7 := Bit(b, 4) == 1, Bit(b, 5) == 1, Bit(b, 6) == 1, Bit(b, 7) == 1;
    x := Register(b0, b1, b2, b3, b4, b5, b6, b7);
    forall k: nat | k < 8
      ensures Shows(b, x, k)
    {
      RegisterBits(b0, b1, b2, b3, b4, b5, b6, b7, k);
    }
    ByteOf(b, x);
  }

  // ----- exclusive or and inverse convention -----

  lemma XorMask(x: bv8, y: bv8, k: nat)
    requires k < 8
    ensures (x ^ y) & Mask(k) != 0 <==> !(x & Mask(k) != 0 <==> y & Mask(k) != 0)
  {
  }

  lemma {:induction false} XorShows(x: bv8, y: bv8, k: nat)
    requires k < 8
    ensures Shows(Xor(Value(x), Value(y)), x ^ y, k)
  {
    BitUnderMask(x, k);
    BitUnderMask(y, k);
    XorShowsBoth(Value(x), Value(y), x, y, k);
  }

  lemma {:induction false} XorShowsBoth(a: byte, b: byte, x: bv8, y: bv8, k: nat)
    requires k < 8 && Shows(a, x, k) && Shows(b, y, k)
    ensures Shows(Xor(a, b), x ^ y, k)
  {
    XorBitsBit(8, a, b, k);
    XorMask(x, y, k);
  }

  lemma {:induction false} XorIsMachine(x: bv8, y: bv8)
    ensures Xor(Value(x), Value(y)) == Value(x ^ y)
  {
    var b, z := Xor(Value(x), Value(y)), x ^ y;
    forall k: nat | k < 8
      ensures Shows(b, z, k)
    {
      XorShows(x, y, k);
    }
    ByteOf(b, z);
  }

  /** INVERT_BYTE of src/driver/defines.h. */
  function InvertByte(a: bv8): bv8 {
    ((a << 7) & 0x80) | ((a << 5) & 0x40) | ((a << 3) & 0x20) | ((a << 1) & 0x10)
    | ((a >> 1) & 0x08) | ((a >> 3) & 0x04) | ((a >> 5) & 0x02) | ((a >> 7) & 0x01)
  }

  lemma InvertMask(x: bv8, k: nat)
    requires k < 8
    ensures (!InvertByte(x)) & Mask(k) != 0 <==> x & Mask(7 - k) == 0
  {
  }

  lemma {:induction false} FlipShows(x: bv8, k: nat)
    requires k < 8
    ensures Shows(Flip(Value(x)), !InvertByte(x), k)
  {
    FlipBit(Value(x), k);
    BitIs(Flip(Value(x)), k);
    BitIs(Value(x), 7 - k);
    BitUnderMask(x, 7 - k);
    InvertMask(x, k);
  }

  lemma {:induction false} FlipIsMachine(x: bv8)
    ensures Flip(Value(x)) == Value(!InvertByte(x))
  {
    var b, z := Flip(Value(x)), !InvertByte(x);
    forall k: nat | k < 8
      ensures Shows(b, z, k)
    {
      FlipShows(x, k);
    }
    ByteOf(b, z);
  }

  // ----- T=0 procedure bytes -----

  lemma HighNibble(x: bv8)
    ensures x & 0xF0 == 0x60 <==> (x as int) / 16 == 6
    ensures x & 0xF0 == 0x90 <==> (x as int) / 16 == 9
  {
  }

  lemma {:induction false} Middle(x: bv8)
    ensures (x & 0x0E) as int == 2 * ((x as int) / 2 % 8)
  {
    assert x & 0x0E == ((x >> 1) & 7) << 1;
    Half(x);
    LowThree(x >> 1);
    Twice((x >> 1) & 7);
  }

  lemma {:induction false} AckMask(x: bv8, y: bv8)
    ensures x & 0x0E == y & 0x0E <==> (x as int) / 2 % 8 == (y as int) / 2 % 8
  {
    Middle(x);
    Middle(y);
    SameValue(x & 0x0E, y & 0x0E);
  }

  lemma ComplementMiddle(a: byte)
    ensures (255 - a) / 2 % 8 == 7 - a / 2 % 8
  {
  }

  /** The four kinds of procedure byte. */
  lemma {:induction false} ProcedureClass(x: bv8, ins: bv8)
    ensures Value(x) == T0Wire.NULL <==> x == 0x60
    ensures T0Wire.IsSw1(Value(x)) <==> x != 0x60 && (x & 0xF0 == 0x60 || x & 0xF0 == 0x90)
    ensures T0Wire.IsAck(Value(ins), Value(x)) <==> x & 0xF0 != 0x60 && x & 0xF0 != 0x90 && x & 0x0E == ins & 0x0E
    ensures T0Wire.IsNotAck(Value(ins), Value(x)) <==> x & 0xF0 != 0x60 && x & 0xF0 != 0x90 && x & 0x0E == !ins & 0x0E
  {
    SameValue(x, 0x60);
    HighNibble(x);
    AckMask(x, ins);
    Complement(ins);
    AckMask(x, !ins);
    ComplementMiddle(Value(ins));
  }

  /** What the driver makes of every procedure byte, for every instruction. */
  lemma {:induction false} ProcedureByte(t: T0Wire.Tpdu, ins: bv8, x: bv8, tail: bytes, g: T0Wire.Progress)
    requires |g.buf| < 258 && t.ins == Value(ins)
    ensures T0Wire.Advance(t, [Value(x)] + tail, g) ==
            if x == 0x60 then
              if g.nulls >= 199 then T0Wire.Over(T0Wire.Failed(T0Wire.NullError, g.sent, tail))
              else T0Wire.Next(tail, g.(nulls := g.nulls + 1))
            else if x & 0xF0 == 0x60 || x & 0xF0 == 0x90 then
              if |g.buf| == 257 then T0Wire.Over(T0Wire.Failed(T0Wire.Error, g.sent, tail))
              else if tail == [] then T0Wire.Over(T0Wire.Failed(T0Wire.IccError, g.sent, []))
              else T0Wire.Over(T0Wire.Complete(g.buf + [Value(x), tail[0]], g.sent, tail[1..]))
            else if x & 0x0E == ins & 0x0E then T0Wire.Move(t, false, tail, g)
            else if x & 0x0E == !ins & 0x0E then T0Wire.Move(t, true, tail, g)
            else T0Wire.Over(T0Wire.Failed(T0Wire.Error, g.sent, tail))
  {
    var s := [Value(x)] + tail;
    ProcedureClass(x, ins);
    assert s[1..] == tail;
    assert tail != [] ==> s[..2] == [Value(x), tail[0]] && s[2..] == tail[1..];
  }

  // ----- T=1 blocks -----

  lemma Fields(x: bv8)
    ensures x & 0x80 == 0x00 <==> x as int < 128
    ensures (x & 0xEF) as int == x as int - 16 * ((x as int) / 16 % 2)
  {
  }

  lemma {:induction false} Shifted(x: bv8)
    ensures (x >> 4) & 1 == 1 <==> (x as int) / 16 % 2 == 1
    ensures (x >> 5) & 1 == 1 <==> (x as int) / 32 % 2 == 1
    ensures (x >> 6) & 1 == 1 <==> (x as int) / 64 % 2 == 1
  {
    Odd(x >> 4);
    Odd(x >> 5);
    Odd(x >> 6);
  }

  /** The accessors of src/driver/t1_block.c on the protocol control byte. */
  lemma {:induction false} BlockFields(b: bytes, x: bv8)
    requires T1Block.IsBlock(b) && b[1] == Value(x)
    ensures T1Block.GetType(b) == Value(if x & 0x80 == 0x00 then 0x00 else x & 0xEF)
    ensures T1Block.GetNS(b) == 1 <==> (x >> 6) & 0x01 == 1
    ensures T1Block.GetMore(b) <==> (x >> 5) & 0x01 == 1
    ensures T1Block.GetNR(b) == 1 <==> (x >> 4) & 0x01 == 1
  {
    Fields(x);
    Shifted(x);
  }

  // ----- the reader's checksum -----

  lemma ShiftedIn(x: bv8)
    ensures ((x << 1) | 0x01) as int == 2 * ((x as int) % 128) + 1
    ensures ((x << 1) & 0xFE) as int == 2 * ((x as int) % 128)
    ensures (x & 0x80) >> 7 == 0 <==> x as int < 128
  {
  }

  /** The rotation with the low bit set or cleared. */
  function Turned(x: bv8): bv8 { if (x & 0x80) >> 7 == 0 then (x << 1) | 0x01 else (x << 1) & 0xFE }

  /** One byte enters the checksum as in src/driver/ifd_towitoko.c. */
  lemma {:induction false} MixIsMachine(checksum: bv8, b: bv8)
    ensures var x := checksum ^ b;
            && Turned(x) == (if (x & 0x80) >> 7 == 0 then (x << 1) | 0x01 else (x << 1) & 0xFE)
            && IfdFrame.Mix(Value(checksum), Value(b)) == Value(Turned(x))
  {
    XorIsMachine(checksum, b);
    ShiftedIn(checksum ^ b);
  }

  /** The loop of IFD_Towitoko_Checksum on registers. */
  function Looped(s: seq<bv8>, checksum: bv8): bv8 {
    if s == [] then checksum else Looped(s[1..], Turned(checksum ^ s[0]))
  }

  function Values(s: seq<bv8>): (r: bytes)
    ensures |r| == |s|
  {
    if s == [] then [] else [Value(s[0])] + Values(s[1..])
  }

  lemma {:induction false} ChecksumIsMachine(s: seq<bv8>, initial: bv8)
    ensures IfdFrame.Checksum(Values(s), Value(initial)) == Value(Looped(s, initial))
    decreases |s|
  {
    if s != [] {
      var next := Turned(initial ^ s[0]);
      MixIsMachine(initial, s[0]);
      ChecksumIsMachine(s[1..], next);
      FirstByte(Value(s[0]), Values(s[1..]), Value(initial), Value(next));
    }
  }

  lemma {:induction false} FirstByte(b: byte, s: bytes, initial: byte, next: byte)
    requires IfdFrame.Mix(initial, b) == next
    ensures IfdFrame.Checksum([b] + s, initial) == IfdFrame.Checksum(s, next)
  {
    assert [b][..0] == [];
    IfdFrame.ChecksumComposes([b], s, initial);
  }

  /** The loop of T1_Block_LRC on registers. */
  function LoopedXor(s: seq<bv8>): bv8 {
    if s == [] then 0 else LoopedXor(s[..|s| - 1]) ^ s[|s| - 1]
  }

  lemma {:induction false} ValuesSnoc(s: seq<bv8>)
    requires s != []
    ensures Values(s) == Values(s[..|s| - 1]) + [Value(s[|s| - 1])]
    decreases |s|
  {
    if |s| > 1 {
      ValuesSnoc(s[1..]);
      assert s[1..][..|s| - 2] == s[..|s| - 1][1..];
    }
  }

  lemma {:induction false} LrcIsMachine(s: seq<bv8>)
    ensures T1Block.XorAll(Values(s)) == Value(LoopedXor(s))
    decreases |s|
  {
    if s != [] {
      var front := s[..|s| - 1];
      ValuesSnoc(s);
      LrcIsMachine(front);
      XorIsMachine(LoopedXor(front), s[|s| - 1]);
      assert Values(s)[..|s| - 1] == Values(front);
    }
  }

  // ----- the answer to reset -----

  lemma PresenceBits(x: bv8)
    ensures x | 0xEF == 0xFF <==> (x as int) / 16 % 2 == 1
    ensures x | 0xDF == 0xFF <==> (x as int) / 32 % 2 == 1
  {
  }

  lemma MorePresenceBits(x: bv8)
    ensures x | 0xBF == 0xFF <==> (x as int) / 64 % 2 == 1
    ensures x | 0x7F == 0xFF <==> (x as int) / 128 == 1
  {
  }

  /** The tests for TAi, TBi, TCi and TDi, and the number of historical bytes. */
  lemma {:induction false} FormatByte(x: bv8)
    ensures (Atr.HasA(Value(x)) <==> x | 0xEF == 0xFF) && (Atr.HasB(Value(x)) <==> x | 0xDF == 0xFF)
    ensures (Atr.HasC(Value(x)) <==> x | 0xBF == 0xFF) && (Atr.HasD(Value(x)) <==> x | 0x7F == 0xFF)
    ensures Atr.HistoryLength(Value(x)) == Value(x & 0x0F)
  {
    PresenceBits(x);
    MorePresenceBits(x);
    LowNibble(x);
  }

  lemma LowSeven(x: bv8)
    ensures (x & 0x7F) as int == (x as int) % 128
    ensures x & 0x80 == 0x80 <==> x as int >= 128
  {
  }

  /** The directory reference of a memory card. */
  lemma {:induction false} DirectoryReference(h: Directory.History, x: bv8)
    requires h.reference == Value(x)
    ensures h.HasDirectory() <==> h.category == 0x10 && x & 0x80 == 0x80
    ensures h.Start() == Value(x & 0x7F)
  {
    LowSeven(x);
  }
}
