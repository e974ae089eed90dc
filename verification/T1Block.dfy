/** T=1 blocks (src/driver/t1_block.c): NAD PCB LEN, the information field, and the LRC. */
module T1Block {
  import opened Bytes

  const I_TYPE: byte := 0x00
  const R_OK: byte := 0x80
  const S_WTX_REQ: byte := 0xC3
  const S_WTX_RES: byte := 0xE3

  /** Exclusive or of all bytes. */
  function XorAll(s: bytes): byte {
    if s == [] then 0 else Xor(XorAll(s[..|s| - 1]), s[|s| - 1])
  }

  /** How many of the bytes have bit k set. */
  function Ones(s: bytes, k: nat): nat {
    if s == [] then 0 else Ones(s[..|s| - 1], k) + Bit(s[|s| - 1], k)
  }

  /** Bit k of the exclusive or is the parity of that bit over all bytes. */
  lemma {:induction false} XorAllParity(s: bytes, k: nat)
    requires k < 8
    ensures XorAll(s) / Pow2(k) % 2 == Ones(s, k) % 2
  {
    BitIs(XorAll(s), k);
    XorAllBit(s, k);
  }

  lemma {:induction false} XorAllBit(s: bytes, k: nat)
    requires k < 8
    ensures Bit(XorAll(s), k) == Ones(s, k) % 2
  {
    if s == [] {
      NoBits(k);
    } else {
      XorAllBit(s[..|s| - 1], k);
      XorBitsBit(8, XorAll(s[..|s| - 1]), s[|s| - 1], k);
    }
  }

  lemma {:induction false} NoBits(k: nat)
    ensures Bit(0, k) == 0
  {
    if k > 0 {
      NoBits(k - 1);
    }
  }

  function Seal(s: bytes): bytes { s + [XorAll(s)] }

  /** A sealed block has zero parity, which is what a receiver checks. */
  lemma {:induction false} SealedParity(s: bytes)
    ensures XorAll(Seal(s)) == 0
  {
    assert Seal(s)[..|s|] == s;
    XorSelf(XorAll(s));
  }

  /** The blocks the driver sends. */
  datatype Block = I(inf: bytes, ns: byte, more: bool) | R(nr: byte) | WtxResponse(multiplier: byte)

  predicate Sendable(b: Block) {
    match b
    case I(inf, ns, _) => |inf| <= 251 && ns < 2
    case R(nr) => nr < 2
    case WtxResponse(_) => true
  }

  function Pcb(b: Block): byte {
    match b
    case I(_, ns, more) => 64 * (ns % 2) + if more then 32 else 0
    case R(nr) => R_OK + 16 * (nr % 2)
    case WtxResponse(_) => S_WTX_RES
  }

  function Inf(b: Block): bytes {
    match b
    case I(inf, _, _) => inf
    case R(_) => []
    case WtxResponse(multiplier) => [multiplier]
  }

  /** The raw bytes of a block; LEN is a byte. */
  function Encode(b: Block): bytes {
    Seal([0x00, Pcb(b), |Inf(b)| % 256] + Inf(b))
  }

  /** The bytes of every block that the driver sends, up to the LRC. */
  lemma {:induction false} EncodedBytes(b: Block)
    requires Sendable(b)
    ensures var raw := Encode(b);
            && |raw| >= 4 && raw[|raw| - 1] == XorAll(raw[..|raw| - 1])
            && raw[..|raw| - 1] == (match b
               case I(inf, ns, more) => [0x00, 64 * ns + (if more then 32 else 0), |inf|] + inf
               case R(nr) => [0x00, 0x80 + 16 * nr, 0x00]
               case WtxResponse(multiplier) => [0x00, 0xE3, 0x01, multiplier])
  {
    var body := [0x00, Pcb(b), |Inf(b)| % 256] + Inf(b);
    SealedBody(body);
    match b {
      case I(inf, ns, more) =>
      case R(nr) => assert [0x00, Pcb(b), 0x00] + [] == [0x00, 0x80 + 16 * nr, 0x00];
      case WtxResponse(multiplier) => assert [0x00, 0xE3, 0x01] + [multiplier] == [0x00, 0xE3, 0x01, multiplier];
    }
  }

  lemma SealedBody(s: bytes)
    ensures Seal(s)[..|s|] == s && Seal(s)[|s|] == XorAll(s)
  {
  }

  // ----- accessors -----

  /** What the driver takes for a block: LEN tells how long it is. */
  predicate IsBlock(b: bytes) { 4 <= |b| && |b| - 4 == b[2] }

  /** T1_Block_GetType: the N(R) bit is masked out of R and S blocks. */
  function GetType(b: bytes): byte
    requires IsBlock(b)
  {
    if b[1] < 128 then I_TYPE else b[1] - 16 * (b[1] / 16 % 2)
  }

  function GetNS(b: bytes): byte
    requires IsBlock(b)
  {
    b[1] / 64 % 2
  }

  predicate GetMore(b: bytes)
    requires IsBlock(b)
  {
    b[1] / 32 % 2 == 1
  }

  function GetNR(b: bytes): byte
    requires IsBlock(b)
  {
    b[1] / 16 % 2
  }

  /** T1_Block_GetInf with the LEN bytes it points to; the null pointer becomes []. */
  function GetInf(b: bytes): bytes
    requires IsBlock(b)
  {
    b[3..|b| - 1]
  }

  /** A raw block fits one reader frame, has zero parity, and the accessors give back what it was
      built from. */
  lemma {:induction false} EncodedFields(b: Block)
    requires Sendable(b)
    ensures var raw := Encode(b);
            && IsBlock(raw) && |raw| <= 255 && XorAll(raw) == 0 && GetInf(raw) == Inf(b)
            && match b
               case I(_, ns, more) => GetType(raw) == I_TYPE && GetNS(raw) == ns && GetMore(raw) == more
               case R(nr) => GetType(raw) == R_OK && GetNR(raw) == nr
               case WtxResponse(_) => GetType(raw) == S_WTX_RES
  {
    RawFields(Pcb(b), Inf(b));
    PcbFields(b, Encode(b));
  }

  /** The protocol control byte alone tells the fields. */
  lemma {:induction false} PcbFields(b: Block, raw: bytes)
    requires Sendable(b) && IsBlock(raw) && raw[1] == Pcb(b)
    ensures match b
            case I(_, ns, more) => GetType(raw) == I_TYPE && GetNS(raw) == ns && GetMore(raw) == more
            case R(nr) => GetType(raw) == R_OK && GetNR(raw) == nr
            case WtxResponse(_) => GetType(raw) == S_WTX_RES
  {
    assert b.I? ==> Pcb(b) < 128;
  }

  lemma {:induction false} RawFields(pcb: byte, inf: bytes)
    requires |inf| <= 251
    ensures var raw := Seal([0x00, pcb, |inf| % 256] + inf);
            IsBlock(raw) && |raw| <= 255 && XorAll(raw) == 0 && raw[1] == pcb && GetInf(raw) == inf
  {
    var body := [0x00, pcb, |inf| % 256] + inf;
    SealedParity(body);
    assert body[3..] == inf;
  }

  // ----- the constructors -----

  /** T1_Block_LRC. */
  method Lrc(data: array<byte>, length: nat) returns (lrc: byte)
    requires length <= data.Length
    ensures lrc == XorAll(data[..length])
  {
    lrc := 0;
    var i := 0;
    while i < length
      invariant i <= length && lrc == XorAll(data[..i])
    {
      assert data[..i + 1][..i] == data[..i];
      lrc := Xor(lrc, data[i]);
      i := i + 1;
    }
  }

  /** Header, information field and LRC, as all three constructors lay them out. */
  method NewBlock(pcb: byte, inf: bytes) returns (block: array<byte>)
    requires |inf| < 256
    ensures fresh(block) && block[..] == Seal([0x00, pcb, |inf| % 256] + inf)
  {
    var n := |inf|;
    block := new byte[n + 4];
    block[0], block[1], block[2] := 0x00, pcb, n;
    forall i | 0 <= i < n {
      block[3 + i] := inf[i];
    }
    ghost var body := [0x00, pcb, n % 256] + inf;
    assert block[..n + 3] == body;
    var lrc := Lrc(block, n + 3);
    block[n + 3] := lrc;
    assert block[..] == body + [lrc];
  }

  /** T1_Block_NewIBlock, NewRBlock and NewSBlock. */
  method New(b: Block) returns (block: array<byte>)
    requires Sendable(b)
    ensures fresh(block) && block[..] == Encode(b)
  {
    match b {
      case I(inf, ns, more) =>
        var pcb: byte := I_TYPE + 64 * (ns % 2);
        if more {
          pcb := pcb + 32;
        }
        block := NewBlock(pcb, inf);
      case R(nr) => block := NewBlock(R_OK + 16 * (nr % 2), []);
      case WtxResponse(multiplier) => block := NewBlock(S_WTX_RES, [multiplier]);
    }
  }
}
