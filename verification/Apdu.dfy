/** Command and response APDUs (src/driver/apdu.c).
    The driver numbers the cases its own way: 2S and 2E send data, 3S and 3E receive it. */
module Apdu {
  import opened Bytes

  datatype Case = Case1 | Case2S | Case3S | Case4S | Case2E | Case3E | Case4E | Malformed

  const MAX_CMD_SIZE := 65545
  const MAX_RSP_SIZE := 65538

  /** A command object always holds at least the four header bytes. */
  type Cmd = c: bytes | 4 <= |c| <= MAX_CMD_SIZE witness [0, 0, 0, 0]

  /** A response object always ends in SW1 SW2. */
  type Rsp = r: bytes | 2 <= |r| witness [0, 0]

  /** APDU_Cmd_New: short input is padded with zero bytes up to the header size. */
  function NewCmd(data: bytes): (r: Option<Cmd>)
    ensures r.None? <==> |data| > 65545
    ensures r.Some? ==> data <= r.value && |r.value| == Max(4, |data|)
    ensures r.Some? ==> forall i | |data| <= i < |r.value| :: r.value[i] == 0
  {
    if |data| > MAX_CMD_SIZE then None
    else Some(data + seq(if |data| < 4 then 4 - |data| else 0, _ => 0))
  }

  function CaseOf(c: Cmd): Case {
    var l := |c| - 4;
    if l == 0 then Case1
    else if c[4] != 0 && l - 1 == c[4] then Case2S
    else if l == 1 then Case3S
    else if c[4] != 0 && l - 2 == c[4] then Case4S
    else if c[4] == 0 && l > 2 then
      var w := Word(c[5], c[6]);
      if w != 0 && l == w + 3 then Case2E
      else if l == 3 then Case3E
      else if w != 0 && l == w + 5 then Case4E
      else Malformed
    else Malformed
  }

  function Lc(c: Cmd): nat {
    match CaseOf(c)
    case Case2S => c[4]
    case Case4S => c[4]
    case Case2E => Word(c[5], c[6])
    case Case4E => Word(c[5], c[6])
    case _ => 0
  }

  /** A coded length of zero stands for the maximum. */
  function Expand(coded: nat, whenZero: nat): nat { if coded == 0 then whenZero else coded }

  function Le(c: Cmd): nat {
    match CaseOf(c)
    case Case3S => Expand(c[4], 256)
    case Case4S => Expand(c[|c| - 1], 256)
    case Case3E => Expand(Word(c[5], c[6]), 65536)
    case Case4E => Expand(Word(c[|c| - 2], c[|c| - 1]), 65536)
    case _ => 0
  }

  /** APDU_Cmd_Le_Available: the command asks for everything there is. */
  predicate LeAvailable(c: Cmd) {
    match CaseOf(c)
    case Case3S => c[4] == 0
    case Case4S => c[|c| - 1] == 0
    case Case3E => Word(c[5], c[6]) == 0
    case Case4E => Word(c[|c| - 2], c[|c| - 1]) == 0
    case _ => false
  }

  /** APDU_Cmd_Data with the Lc bytes it points to; the null pointer becomes []. */
  function Data(c: Cmd): (d: bytes)
    ensures |d| == Lc(c)
  {
    match CaseOf(c)
    case Case2S => c[5..5 + c[4]]
    case Case4S => c[5..5 + c[4]]
    case Case2E => c[7..7 + Word(c[5], c[6])]
    case Case4E => c[7..7 + Word(c[5], c[6])]
    case _ => []
  }

  /** What APDU_Cmd_Data points to, up to the end of the command: an Le field follows the data. */
  function DataTail(c: Cmd): (d: bytes)
    ensures |d| == Lc(c) + (if CaseOf(c) == Case4S then 1 else if CaseOf(c) == Case4E then 2 else 0)
    ensures Data(c) <= d
  {
    match CaseOf(c)
    case Case2S => c[5..]
    case Case4S => c[5..]
    case Case2E => c[7..]
    case Case4E => c[7..]
    case _ => []
  }

  // ----- the encoding the decoders are meant for -----

  predicate Encodable(header: bytes, extended: bool, data: bytes, le: nat) {
    |header| == 4
    && if extended then |data| < 65536 && le <= 65536 && (data != [] || le != 0) else |data| < 256 && le <= 256
  }

  /** Section 5.3.2 of ISO/IEC 7816-4:1995; le == 0 means that no Le field is present. */
  function Encode(header: bytes, extended: bool, data: bytes, le: nat): Cmd
    requires Encodable(header, extended, data, le)
  {
    if extended then
      header + [0]
      + (if data == [] then [] else [|data| / 256, |data| % 256] + data)
      + (if le == 0 then [] else [le / 256 % 256, le % 256])
    else
      header
      + (if data == [] then [] else [|data|] + data)
      + (if le == 0 then [] else [le % 256])
  }

  function CaseFor(extended: bool, sends: bool, receives: bool): Case {
    if sends && receives then if extended then Case4E else Case4S
    else if sends then if extended then Case2E else Case2S
    else if receives then if extended then Case3E else Case3S
    else Case1
  }

  /** Decoding recovers everything that was encoded, so no two encodings collide. */
  lemma {:induction false} DecodeEncode(header: bytes, extended: bool, data: bytes, le: nat)
    requires Encodable(header, extended, data, le)
    ensures var c := Encode(header, extended, data, le);
            && c[..4] == header
            && CaseOf(c) == CaseFor(extended, data != [], le != 0)
            && Lc(c) == |data| && Le(c) == le && Data(c) == data
  {
    var c := Encode(header, extended, data, le);
    if extended {
      if data != [] {
        assert c[5] == |data| / 256 && c[6] == |data| % 256;
        assert c[7..7 + |data|] == data;
        if le != 0 {
          assert c[|c| - 2] == le / 256 % 256 && c[|c| - 1] == le % 256;
        }
      }
    } else if data != [] {
      assert c[4] == |data| && c[5..5 + |data|] == data;
      if le != 0 {
        assert c[|c| - 1] == le % 256;
      }
    }
  }

  /** The seven forms, byte by byte. */
  lemma {:induction false} ShortForms(h: bytes, data: bytes, n: byte, x: byte)
    requires |h| == 4 && data != [] && |data| == n
    ensures CaseOf(h) == Case1 && Lc(h) == 0 && Le(h) == 0
    ensures CaseOf(h + [n] + data) == Case2S && Data(h + [n] + data) == data && Le(h + [n] + data) == 0
    ensures CaseOf(h + [x]) == Case3S && Lc(h + [x]) == 0 && Le(h + [x]) == (if x == 0 then 256 else x) && (LeAvailable(h + [x]) <==> x == 0)
    ensures var c := h + [n] + data + [x];
            CaseOf(c) == Case4S && Data(c) == data && Le(c) == (if x == 0 then 256 else x) && (LeAvailable(c) <==> x == 0)
  {
    var c := h + [n] + data + [x];
    assert c[5..5 + |data|] == data;
  }

  lemma {:induction false} ExtendedForms(h: bytes, data: bytes, n1: byte, n0: byte, x1: byte, x0: byte)
    requires |h| == 4 && data != [] && |data| == 256 * n1 + n0
    ensures var c := h + [0, n1, n0] + data;
            CaseOf(c) == Case2E && Data(c) == data && Le(c) == 0
    ensures var c := h + [0, x1, x0];
            && CaseOf(c) == Case3E && Lc(c) == 0 && Le(c) == (if x1 == 0 && x0 == 0 then 65536 else 256 * x1 + x0)
            && (LeAvailable(c) <==> x1 == 0 && x0 == 0)
    ensures var c := h + [0, n1, n0] + data + [x1, x0];
            && CaseOf(c) == Case4E && Data(c) == data && Le(c) == (if x1 == 0 && x0 == 0 then 65536 else 256 * x1 + x0)
            && (LeAvailable(c) <==> x1 == 0 && x0 == 0)
  {
    var c := h + [0, n1, n0] + data + [x1, x0];
    assert c[7..7 + |data|] == data;
  }

  /** A command asks for everything there is if and only if its Le field is zero. */
  lemma {:induction false} LeAvailableIff(header: bytes, extended: bool, data: bytes, le: nat)
    requires Encodable(header, extended, data, le)
    ensures LeAvailable(Encode(header, extended, data, le)) <==> le == if extended then 65536 else 256
  {
    var c := Encode(header, extended, data, le);
    DecodeEncode(header, extended, data, le);
    if le != 0 {
      assert c[|c| - 1] == le % 256;
      if extended {
        assert c[|c| - 2] == le / 256 % 256;
      }
    }
  }

  predicate IsExtended(k: Case) { k == Case2E || k == Case3E || k == Case4E }

  /** The five parts that a command with data consists of. */
  lemma {:induction false} ShortParts(c: Cmd)
    requires CaseOf(c) == Case2S || CaseOf(c) == Case4S
    ensures c == c[..4] + [|Data(c)|] + Data(c) + c[5 + |Data(c)|..]
  {
  }

  lemma {:induction false} ExtendedParts(c: Cmd)
    requires CaseOf(c) == Case2E || CaseOf(c) == Case4E
    ensures c == c[..4] + [0] + [c[5], c[6]] + Data(c) + c[7 + |Data(c)|..]
    ensures |Data(c)| / 256 == c[5] && |Data(c)| % 256 == c[6]
  {
  }

  predicate Reencoded(c: Cmd) {
    var x := IsExtended(CaseOf(c));
    Encodable(c[..4], x, Data(c), Le(c)) && Encode(c[..4], x, Data(c), Le(c)) == c
  }

  lemma CodedLe(hi: byte, lo: byte)
    ensures var le := Expand(Word(hi, lo), 65536);
            1 <= le <= 65536 && le / 256 % 256 == hi && le % 256 == lo
    ensures 1 <= Expand(lo, 256) <= 256 && Expand(lo, 256) % 256 == lo
  {
  }

  lemma {:induction false} EncodeDecodeShort(c: Cmd)
    requires CaseOf(c) == Case2S || CaseOf(c) == Case4S
    ensures Reencoded(c)
  {
    ShortParts(c);
    CodedLe(0, c[|c| - 1]);
    assert CaseOf(c) == Case4S ==> c[5 + |Data(c)|..] == [c[|c| - 1]];
    assert CaseOf(c) == Case2S ==> c[5 + |Data(c)|..] == [];
    Associate(c[..4], [|Data(c)|], Data(c));
  }

  /** The encoding of an extended command with data, in its parts. */
  lemma {:induction false} ExtendedEncoding(header: bytes, data: bytes, le: nat, tail: bytes)
    requires Encodable(header, true, data, le) && data != []
    requires tail == if le == 0 then [] else [le / 256 % 256, le % 256]
    ensures Encode(header, true, data, le) == header + [0] + [|data| / 256, |data| % 256] + data + tail
  {
    Associate(header + [0], [|data| / 256, |data| % 256], data);
  }

  lemma {:induction false} EncodeDecodeExtended(c: Cmd)
    requires CaseOf(c) == Case2E || CaseOf(c) == Case4E
    ensures Reencoded(c)
  {
    ExtendedParts(c);
    var tail := c[7 + |Data(c)|..];
    if CaseOf(c) == Case4E {
      CodedLe(c[|c| - 2], c[|c| - 1]);
      assert tail == [c[|c| - 2], c[|c| - 1]];
    } else {
      assert tail == [];
    }
    ExtendedEncoding(c[..4], Data(c), Le(c), tail);
  }

  /** Conversely every command that is not malformed is the encoding of what is decoded from it. */
  lemma {:induction false} EncodeDecode(c: Cmd)
    requires CaseOf(c) != Malformed
    ensures Reencoded(c)
  {
    match CaseOf(c)
    case Case1 =>
    case Case3S =>
    case Case3E =>
    case Case2S => EncodeDecodeShort(c);
    case Case4S => EncodeDecodeShort(c);
    case Case2E => EncodeDecodeExtended(c);
    case Case4E => EncodeDecodeExtended(c);
  }

  // ----- responses -----

  function Sw1(r: Rsp): byte { r[|r| - 2] }

  function Sw2(r: Rsp): byte { r[|r| - 1] }

  function RspData(r: Rsp): bytes { r[..|r| - 2] }

  function Status(r: Rsp): bytes { r[|r| - 2..] }

  /** The response with at most `length` of its data bytes, status unchanged. */
  function Clip(r: Rsp, length: nat): Rsp {
    RspData(r)[..Min(length, |RspData(r)|)] + Status(r)
  }

  /** A response object; both operations rewrite it in place. */
  class Response {
    var response: bytes

    ghost predicate Valid()
      reads this
    {
      2 <= |response|
    }

    /** APDU_Rsp_New with the length check of its caller already done. */
    constructor (raw: Rsp)
      ensures Valid() && response == raw
    {
      response := raw;
    }

    function GetSw1(): byte
      requires Valid()
      reads this
    {
      response[|response| - 2]
    }

    function GetSw2(): byte
      requires Valid()
      reads this
    {
      response[|response| - 1]
    }

    function DataLen(): nat
      requires Valid()
      reads this
    {
      |response| - 2
    }

    /** Moves the status over the first byte to drop, then shortens the object. */
    method TruncateData(length: nat)
      requires Valid()
      modifies this
      ensures Valid()
      ensures response == if length > 0 then Clip(old(response), length) else old(response)
    {
      if length > 0 && length < |response| - 2 {
        response := response[length := GetSw1()];
        response := response[length + 1 := GetSw2()];
        response := response[..length + 2];
      }
    }

    /** Overwrites this status with the whole of the other response. */
    method AppendData(other: Response) returns (ok: bool)
      requires Valid() && other.Valid()
      modifies this
      ensures Valid()
      ensures ok <==> 2 < |RspData(old(response))| + |old(other.response)| <= MAX_RSP_SIZE
      ensures response == if ok then RspData(old(response)) + old(other.response) else old(response)
    {
      var length := DataLen() + |other.response|;
      ok := length > 2 && length <= MAX_RSP_SIZE;
      if ok {
        response := response[..DataLen()] + other.response;
      }
    }
  }
}
