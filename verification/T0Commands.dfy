/** Whole T=0 commands of every case, from the bytes of the command and of the card to the response and all that is
    sent. */
module T0Commands {
  import opened Bytes
  import opened Apdu
  import opened IccAsync
  import opened T0Wire
  import opened T0Mapping
  import opened T0Dialogue
  import opened T0Script
  import opened T0Card
  import opened T0Cases
  import opened ProtocolT0

  /** A command was answered with r, the card's bytes were read up to the rest, and just this was said. */
  ghost predicate Done(t0: T0, ret: Code, rsp: Response?, before: bytes, r: bytes, rest: bytes, said: bytes)
    reads t0.icc, rsp
  {
    ret == Ok && rsp != null && rsp.response == r && t0.icc.incoming == rest && t0.icc.outgoing == before + said
  }

  // ----- services -----

  /** Case 1: the header goes out with P3 = 00. */
  method Bare(t0: T0, cmd: Cmd, ghost p: Service, ghost rest: bytes) returns (ret: Code, rsp: Response?)
    requires |cmd| == 4 && t0.icc.Healthy() && Serves(Played, cmd + [0x00], p) && t0.icc.incoming == p.line + rest
    modifies t0.icc
    ensures Done(t0, ret, rsp, old(t0.icc.outgoing), p.data + p.sw, rest, cmd + [0x00])
  {
    ghost var ts;
    ret, rsp, ts := t0.Command(cmd);
    PlainServed(Played, cmd + [0x00], ts, ret, Answer(ret, rsp), p, rest);
  }

  /** Case 2S: the header goes out, and the data that the card takes. */
  method Send(t0: T0, cmd: Cmd, data: bytes, ghost p: Receipt, ghost rest: bytes) returns (ret: Code, rsp: Response?)
    requires Carrying(cmd, data) && t0.icc.Healthy() && Receives(Played, cmd, p) && t0.icc.incoming == p.line + rest
    modifies t0.icc
    ensures Done(t0, ret, rsp, old(t0.icc.outgoing), p.sw, rest, Cut(cmd, 5 + p.count))
  {
    CarryingSends(cmd, data);
    ghost var ts;
    ret, rsp, ts := t0.Command(cmd);
    PlainReceived(Played, cmd, ts, ret, Answer(ret, rsp), p, rest);
  }

  /** Case 3S: an answer at once, 6Cxx and the same command with that length, or 61xx and GET RESPONSE commands. */
  method Receive(t0: T0, cmd: Cmd, ghost talk: Talk, ghost rest: bytes) returns (ret: Code, rsp: Response?)
    requires |cmd| == 5 && t0.icc.Healthy() && Talks(Played, cmd, talk) && t0.icc.incoming == TalkLine(talk) + rest
    modifies t0.icc
    ensures Done(t0, ret, rsp, old(t0.icc.outgoing), TalkResponse(talk, Asked(cmd[4])), rest, TalkSaid(cmd, talk))
  {
    ReceiveTpdu(cmd);
    ghost var ts;
    ret, rsp, ts := t0.Command(cmd);
    TalkHeard(Played, cmd, Le(cmd), ts, ret, Answer(ret, rsp), talk, rest);
  }

  /** Case 4S: the command without its last byte; then nothing after 62xx to 6Fxx, GET RESPONSE for the smaller of Le
      and xx after 61xx, and GET RESPONSE for Le after any other status. */
  method Both(t0: T0, cmd: Cmd, data: bytes, le: nat, ghost p: Receipt, ghost q: Sequel, ghost rest: bytes) returns (ret: Code, rsp: Response?)
    requires |cmd| == 6 + |data| && Carrying(cmd[..|cmd| - 1], data) && 1 <= le <= 256 && cmd[|cmd| - 1] == le % 256 && t0.icc.Healthy()
    requires Receives(Played, cmd[..|cmd| - 1], p) && ShortSequel(Played, cmd[0], le, p.sw, q)
    requires t0.icc.incoming == p.line + (SequelLine(q) + rest)
    modifies t0.icc
    ensures Done(t0, ret, rsp, old(t0.icc.outgoing), ShortSequelResponse(le, p.sw, q), rest, Cut(cmd, 5 + p.count) + ShortSequelSaid(cmd[0], le, p.sw, q))
  {
    BothCase(cmd, data, le);
    ghost var ts;
    ret, rsp, ts := t0.Command(cmd);
    ShortBothHeard(Played, cmd, le, ts, ret, Answer(ret, rsp), p, q, rest);
  }

  /** The same by the parts of the command. */
  method BothParts(t0: T0, header: bytes, data: bytes, le: nat, ghost p: Receipt, ghost q: Sequel, ghost rest: bytes)
    returns (ret: Code, rsp: Response?)
    requires |header| == 4 && 1 <= |data| <= 255 && 1 <= le <= 256 && t0.icc.Healthy()
    requires Receives(Played, header + [|data|] + data, p) && ShortSequel(Played, header[0], le, p.sw, q)
    requires t0.icc.incoming == p.line + (SequelLine(q) + rest)
    modifies t0.icc
    ensures Done(t0, ret, rsp, old(t0.icc.outgoing), ShortSequelResponse(le, p.sw, q), rest,
                 header + [|data|] + Cut(data, p.count) + ShortSequelSaid(header[0], le, p.sw, q))
  {
    CutTpdu(header, data, le, p.count);
    ret, rsp := Both(t0, header + [|data|] + data + [le % 256], data, le, p, q, rest);
  }

  lemma {:induction false} BothCase(cmd: Cmd, data: bytes, le: nat)
    requires |cmd| == 6 + |data| && Carrying(cmd[..|cmd| - 1], data) && 1 <= le <= 256 && cmd[|cmd| - 1] == le % 256
    ensures CaseOf(cmd) == Case4S && Le(cmd) == le
  {
    ShortForms(cmd[..4], data, |data|, le % 256);
    assert cmd == cmd[..|cmd| - 1] + [le % 256];
    assert cmd[..|cmd| - 1] == cmd[..4] + [|data|] + data;
  }

  /** Case 2E: up to 255 bytes in one TPDU, more in envelopes until one is not answered 90xx. */
  method SendExtended(t0: T0, header: bytes, data: bytes, ghost ps: seq<Receipt>, ghost rest: bytes) returns (ret: Code, rsp: Response?)
    requires Encodable(header, true, data, 0) && t0.icc.Healthy()
    requires Uploads(Played, Encode(header, true, data, 0), data, ps) && t0.icc.incoming == EnvelopesLine(ps) + rest
    modifies t0.icc
    ensures Done(t0, ret, rsp, old(t0.icc.outgoing), LastSw(ps), rest, UploadSaid(Encode(header, true, data, 0), data, ps))
  {
    DecodeEncode(header, true, data, 0);
    var cmd := Encode(header, true, data, 0);
    ghost var ts;
    ret, rsp, ts := t0.Command(cmd);
    UploadHeard(Played, cmd, data, ts, ret, Answer(ret, rsp), ps, rest);
  }

  /** Case 3E. */
  method ReceiveExtended(t0: T0, header: bytes, le: nat, ghost talk: Talk, ghost rest: bytes) returns (ret: Code, rsp: Response?)
    requires Encodable(header, true, [], le) && t0.icc.Healthy()
    requires WideTalks(Played, header, le, talk) && t0.icc.incoming == TalkLine(talk) + rest
    modifies t0.icc
    ensures Done(t0, ret, rsp, old(t0.icc.outgoing), WideResponse(talk, le), rest, WideSaid(header, le, talk))
  {
    DecodeEncode(header, true, [], le);
    var cmd := Encode(header, true, [], le);
    ghost var ts;
    ret, rsp, ts := t0.Command(cmd);
    WideTalkHeard(Played, header, le, ts, ret, Answer(ret, rsp), talk, rest);
  }

  /** Case 4E: the data as in case 2E; then nothing after 62xx to 6Fxx, and otherwise GET RESPONSE as in case 3E, after
      61xx for the smaller of Le and xx. */
  method BothExtended(t0: T0, header: bytes, data: bytes, le: nat, ghost ps: seq<Receipt>, ghost q: Sequel, ghost rest: bytes)
    returns (ret: Code, rsp: Response?)
    requires Encodable(header, true, data, le) && data != [] && le > 0 && t0.icc.Healthy()
    requires Uploads(Played, Encode(header, true, data, le), data, ps) && WideSequel(Played, header[0], le, LastSw(ps), q)
    requires t0.icc.incoming == EnvelopesLine(ps) + (SequelLine(q) + rest)
    modifies t0.icc
    ensures Done(t0, ret, rsp, old(t0.icc.outgoing), WideSequelResponse(le, LastSw(ps), q), rest,
                 UploadSaid(Encode(header, true, data, le), data, ps) + WideSequelSaid(header[0], le, LastSw(ps), q))
  {
    DecodeEncode(header, true, data, le);
    var cmd := Encode(header, true, data, le);
    assert cmd[..4][0] == header[0];
    ghost var ts;
    ret, rsp, ts := t0.Command(cmd);
    ghost var k: nat :| ExtendedBoth(cmd, le, k, ts, ret, Answer(ret, rsp));
    WideBothHeard(Played, cmd, data, le, k, ts, ret, Answer(ret, rsp), ps, q, rest);
  }

  /** A command of no case is refused before anything is sent. */
  method Malformed(t0: T0, cmd: Cmd) returns (ret: Code, rsp: Response?)
    requires CaseOf(cmd) == Apdu.Malformed && t0.icc.Healthy()
    modifies t0.icc
    ensures ret == Error && t0.icc.incoming == old(t0.icc.incoming) && t0.icc.outgoing == old(t0.icc.outgoing)
  {
    ghost var ts;
    ret, rsp, ts := t0.Command(cmd);
    assert old(t0.icc.outgoing) + [] == old(t0.icc.outgoing);
  }

  // ----- the same by the bytes of the card -----

  /** Data that is taken and answered 9xxx: GET RESPONSE for Le, and the response is what the card delivers then. */
  method FetchAnswer(t0: T0, header: bytes, data: bytes, le: nat, ghost signs: seq<Sign>, ghost sw: bytes,
                     ghost more: seq<Sign>, ghost answer: bytes, ghost last: bytes, ghost rest: bytes)
    returns (ret: Code, rsp: Response?)
    requires |header| == 4 && 1 <= |data| <= 255 && 1 <= le <= 256 && t0.icc.Healthy()
    requires Usable(header[1]) && Calls(signs, |data|, 0) && IsStatus(sw) && 0x90 <= sw[0]
    requires Serving([header[0], 0xC0, 0x00, 0x00, le % 256], more, answer, last) && last[0] != 0x61 && last[0] != 0x6C
    requires t0.icc.incoming == Taking(header[1], signs) + sw + (Delivering(0xC0, more, answer) + last + rest)
    modifies t0.icc
    ensures Done(t0, ret, rsp, old(t0.icc.outgoing), answer + last, rest,
                 header + [|data|] + data[..Taken(signs, |data|)] + [header[0], 0xC0, 0x00, 0x00, le % 256])
  {
    ghost var p, q := FetchBegins(header, data, le, signs, sw, le % 256, more, answer, last, rest);
    ret, rsp := BothParts(t0, header, data, le, p, q, rest);
  }

  /** What the card does is a receipt and a sequel. */
  lemma {:induction false} FetchBegins(header: bytes, data: bytes, le: nat, signs: seq<Sign>, sw: bytes, p3: byte,
                                       more: seq<Sign>, answer: bytes, last: bytes, rest: bytes) returns (p: Receipt, q: Sequel)
    requires |header| == 4 && 1 <= |data| <= 255 && 1 <= le <= 256 && Usable(header[1]) && Calls(signs, |data|, 0) && IsStatus(sw)
    requires Serving([header[0], 0xC0, 0x00, 0x00, p3], more, answer, last)
    requires if sw[0] == 0x61 then p3 == AnnouncedP3(le, sw[1])
             else 0x90 <= sw[0] && p3 == le % 256 && last[0] != 0x61 && last[0] != 0x6C
    ensures Receives(Played, header + [|data|] + data, p) && p.sw == sw && p.count == Taken(signs, |data|)
    ensures ShortSequel(Played, header[0], le, sw, q) && ShortSequelResponse(le, sw, q) == answer + last
    ensures ShortSequelSaid(header[0], le, sw, q) == [header[0], 0xC0, 0x00, 0x00, p3]
    ensures p.line == Taking(header[1], signs) + sw && SequelLine(q) == Delivering(0xC0, more, answer) + last
  {
    var gr := [header[0], 0xC0, 0x00, 0x00, p3];
    CutTpdu(header, data, le, 0);
    CardTakes(header + [|data|] + data, data, signs, sw);
    CardServes(gr, more, answer, last);
    p := Accepted(header[1], |data|, signs, sw);
    var served := Served(gr, more, answer, last);
    q := if sw[0] == 0x61 then Announcing(served) else T0Cases.Accepting(Once(served));
  }

  lemma {:induction false} CutTpdu(header: bytes, data: bytes, le: nat, k: nat)
    requires |header| == 4 && 1 <= |data| <= 255 && k <= |data|
    ensures var c := header + [|data|] + data + [le % 256];
            && c[..|c| - 1] == header + [|data|] + data && Carrying(header + [|data|] + data, data)
            && Cut(c, 5 + k) == header + [|data|] + data[..k] && c[0] == header[0]
  {
    var c, d := header + [|data|] + data + [le % 256], header + [|data|] + data;
    assert c[..|c| - 1] == d && d[5..] == data;
    assert c[..5 + k] == header + [|data|] + data[..k];
  }

  /** Data that is refused with 62xx to 6Fxx: that status is the response, and nothing more goes out. */
  method PassRefusal(t0: T0, header: bytes, data: bytes, le: nat, ghost signs: seq<Sign>, ghost sw: bytes, ghost rest: bytes)
    returns (ret: Code, rsp: Response?)
    requires |header| == 4 && 1 <= |data| <= 255 && 1 <= le <= 256 && t0.icc.Healthy()
    requires Usable(header[1]) && Calls(signs, |data|, 0) && IsStatus(sw) && 0x62 <= sw[0] <= 0x6F
    requires t0.icc.incoming == Taking(header[1], signs) + sw + rest
    modifies t0.icc
    ensures Done(t0, ret, rsp, old(t0.icc.outgoing), sw, rest, header + [|data|] + data[..Taken(signs, |data|)])
  {
    var tpdu := header + [|data|] + data;
    ghost var p := Accepted(header[1], |data|, signs, sw);
    CutTpdu(header, data, le, 0);
    CardTakes(tpdu, data, signs, sw);
    assert [] + rest == rest;
    ret, rsp := BothParts(t0, header, data, le, p, Refused, rest);
    assert header + [|data|] + data[..p.count] + [] == header + [|data|] + data[..p.count];
  }

  /** An answer that is announced with 61xx: GET RESPONSE for the smaller of Le and xx, and the response is what the card
      delivers then. */
  method FetchAnnounced(t0: T0, header: bytes, data: bytes, le: nat, ghost signs: seq<Sign>, ghost x: byte,
                        ghost more: seq<Sign>, ghost answer: bytes, ghost last: bytes, ghost rest: bytes)
    returns (ret: Code, rsp: Response?)
    requires |header| == 4 && 1 <= |data| <= 255 && 1 <= le <= 256 && t0.icc.Healthy()
    requires Usable(header[1]) && Calls(signs, |data|, 0)
    requires Serving([header[0], 0xC0, 0x00, 0x00, if x == 0 then le % 256 else Min(le, x)], more, answer, last)
    requires t0.icc.incoming == Taking(header[1], signs) + [0x61, x] + (Delivering(0xC0, more, answer) + last + rest)
    modifies t0.icc
    ensures Done(t0, ret, rsp, old(t0.icc.outgoing), answer + last, rest,
                 header + [|data|] + data[..Taken(signs, |data|)] + [header[0], 0xC0, 0x00, 0x00, if x == 0 then le % 256 else Min(le, x)])
  {
    ghost var p, q := FetchBegins(header, data, le, signs, [0x61, x], if x == 0 then le % 256 else Min(le, x), more, answer, last, rest);
    ret, rsp := BothParts(t0, header, data, le, p, q, rest);
  }

  /** The envelopes of a command. */
  function Envelopes(cla: byte, raw: bytes): bytes
    decreases |raw|
  {
    if |raw| <= 255 then [cla, 0xC2, 0x00, 0x00, |raw|] + raw
    else [cla, 0xC2, 0x00, 0x00, 255] + raw[..255] + Envelopes(cla, raw[255..])
  }

  /** A card that takes every envelope at once and answers 9000. */
  function Approvals(n: nat): bytes
    decreases n
  {
    if n <= 255 then [0xC2, 0x90, 0x00] else [0xC2, 0x90, 0x00] + Approvals(n - 255)
  }

  function ApprovalsOf(n: nat): (ps: seq<Receipt>)
    ensures ps != [] && LastSw(ps) == [0x90, 0x00]
    decreases n
  {
    var p := Receipt([0xC2, 0x90, 0x00], Min(255, n), [0x90, 0x00]);
    if n <= 255 then [p] else [p] + ApprovalsOf(n - 255)
  }

  lemma {:induction false} ApprovalReceives(cla: byte, segment: bytes)
    requires 1 <= |segment| <= 255
    ensures Receives(Played, [cla, 0xC2, 0x00, 0x00, |segment|] + segment, Receipt([0xC2, 0x90, 0x00], |segment|, [0x90, 0x00]))
  {
    var c := [cla, 0xC2, 0x00, 0x00, |segment|] + segment;
    assert c[5..] == segment && [All][1..] == [];
    CardTakes(c, segment, [All], [0x90, 0x00]);
    assert Taking(0xC2, [All]) == [0xC2] + Taking(0xC2, []);
    assert Taking(0xC2, [All]) + [0x90, 0x00] == [0xC2, 0x90, 0x00];
  }

  lemma {:induction false} ApprovalsEnvelop(cla: byte, raw: bytes)
    requires raw != []
    ensures var ps := ApprovalsOf(|raw|);
            && Enveloping(Played, cla, raw, ps) && EnvelopesLine(ps) == Approvals(|raw|)
            && EnvelopesSaid(cla, raw, ps) == Envelopes(cla, raw)
    decreases |raw|
  {
    var ps, n := ApprovalsOf(|raw|), Min(255, |raw|);
    ApprovalReceives(cla, raw[..n]);
    if |raw| <= 255 {
      assert ps[1..] == [] && raw[..n] == raw && [0xC2, 0x90, 0x00] + [] == [0xC2, 0x90, 0x00];
      assert [cla, 0xC2, 0x00, 0x00, n] + raw + [] == [cla, 0xC2, 0x00, 0x00, n] + raw;
    } else {
      ApprovalsEnvelop(cla, raw[255..]);
      assert ps[1..] == ApprovalsOf(|raw| - 255) && |raw[255..]| == |raw| - 255;
    }
  }

  /** A command of 256 data bytes or more to such a card: the command goes out in envelopes, whole and in order. */
  method SendInEnvelopes(t0: T0, header: bytes, data: bytes, ghost rest: bytes) returns (ret: Code, rsp: Response?)
    requires |header| == 4 && 256 <= |data| < 65536 && t0.icc.Healthy()
    requires t0.icc.incoming == Approvals(7 + |data|) + rest
    modifies t0.icc
    ensures Done(t0, ret, rsp, old(t0.icc.outgoing), [0x90, 0x00], rest,
                 Envelopes(header[0], header + [0x00, |data| / 256, |data| % 256] + data))
  {
    RawBytes(header, data);
    ghost var cmd := Encode(header, true, data, 0);
    EnvelopesBegin(cmd, data);
    ret, rsp := SendExtended(t0, header, data, ApprovalsOf(|cmd|), rest);
  }

  lemma {:induction false} RawBytes(header: bytes, data: bytes)
    requires |header| == 4 && 256 <= |data| < 65536
    ensures Encodable(header, true, data, 0)
    ensures Encode(header, true, data, 0) == header + [0x00, |data| / 256, |data| % 256] + data
  {
    assert header + [0] + ([|data| / 256, |data| % 256] + data) + [] == header + [0x00, |data| / 256, |data| % 256] + data;
  }

  lemma {:induction false} EnvelopesBegin(c: Cmd, data: bytes)
    requires |data| >= 256
    ensures var ps := ApprovalsOf(|c|);
            && Uploads(Played, c, data, ps) && LastSw(ps) == [0x90, 0x00] && EnvelopesLine(ps) == Approvals(|c|)
            && UploadSaid(c, data, ps) == Envelopes(c[0], c)
  {
    ApprovalsEnvelop(c[0], c);
  }
}
