/** How APDUs map onto TPDUs (Annex A of ISO/IEC 7816-4): which exchanges a case handler makes,
    and the response APDU it builds from their answers. */
module T0Mapping {
  import opened Bytes
  import opened Apdu
  import opened T0Wire

  /** One TPDU exchange as the case handlers see it; no answer when it failed. */
  datatype Turn = Turn(cmd: Cmd, answer: Option<Rsp>)

  function GetResponse(cla: byte, le: byte): Cmd { [cla, 0xC0, 0x00, 0x00, le] }

  /** Any five byte command is a receiving TPDU; P3 = 00 asks for 256 bytes. */
  lemma ReceiveTpdu(c: Cmd)
    requires |c| == 5
    ensures CaseOf(c) == Case3S && Le(c) == Expand(c[4], 256)
  {
  }

  /** So P3 = le modulo 256 asks for exactly le bytes. */
  lemma ReceiveTpduLe(header: bytes, le: nat)
    requires |header| == 4 && 1 <= le <= 256
    ensures CaseOf(header + [le % 256]) == Case3S && Le(header + [le % 256]) == le
  {
  }

  /** A header, the length and that many data bytes is a sending TPDU. */
  lemma SendTpdu(header: bytes, data: bytes)
    requires |header| == 4 && 1 <= |data| <= 255
    ensures var c := header + [|data|] + data;
            CaseOf(c) == Case2S && Lc(c) == |data| && Data(c) == data
  {
  }

  // ----- the pieces of an answer -----

  predicate Answered(ts: seq<Turn>) { ts != [] && ts[|ts| - 1].answer.Some? }

  /** The data of all answers, in order. */
  function AllData(ts: seq<Turn>): bytes {
    if ts == [] then []
    else AllData(ts[..|ts| - 1]) + match ts[|ts| - 1].answer case None => [] case Some(r) => RspData(r)
  }

  /** The ordered concatenation with the last status. */
  function Joined(ts: seq<Turn>): Rsp
    requires Answered(ts)
  {
    AllData(ts) + Status(ts[|ts| - 1].answer.value)
  }

  lemma AllDataSnoc(ts: seq<Turn>, t: Turn)
    ensures AllData(ts + [t]) == AllData(ts) + if t.answer.None? then [] else RspData(t.answer.value)
  {
  }

  /** Appending one more answer to what has been joined so far. */
  lemma JoinedSnoc(ts: seq<Turn>, c: Cmd, r: Rsp)
    requires Answered(ts)
    ensures Joined(ts + [Turn(c, Some(r))]) == RspData(Joined(ts)) + r
  {
  }

  lemma JoinedOne(t: Turn)
    requires t.answer.Some?
    ensures Joined([t]) == t.answer.value && AllData([t]) == RspData(t.answer.value)
  {
  }

  /** APDU_Rsp_AppendData refuses an empty total and one over 65536 bytes. */
  predicate Overfull(ts: seq<Turn>) {
    AllData(ts) == [] || |AllData(ts)| + 2 > MAX_RSP_SIZE
  }

  lemma AppendLimit(ts: seq<Turn>)
    ensures Overfull(ts) <==> |AllData(ts)| == 0 || |AllData(ts)| > 65536
  {
  }

  /** Each exchange after the first is the GET RESPONSE that the answer before it announced. */
  predicate Chained(cla: byte, ts: seq<Turn>) {
    forall i | 0 <= i < |ts| - 1 :: Announced(cla, ts, i)
  }

  predicate Announced(cla: byte, ts: seq<Turn>, i: nat)
    requires i < |ts| - 1
  {
    && ts[i].answer.Some? && Sw1(ts[i].answer.value) == 0x61
    && ts[i + 1].cmd == GetResponse(cla, Sw2(ts[i].answer.value))
  }

  lemma {:induction false} ChainedSnoc(cla: byte, ts: seq<Turn>, t: Turn)
    requires Chained(cla, ts) && Answered(ts) && Sw1(Joined(ts)) == 0x61
    requires t.cmd == GetResponse(cla, Sw2(Joined(ts)))
    ensures Chained(cla, ts + [t])
  {
    var r, us := ts[|ts| - 1].answer.value, ts + [t];
    assert Sw1(r) == Sw1(Joined(ts)) && Sw2(r) == Sw2(Joined(ts));
    forall i | 0 <= i < |us| - 1
      ensures Announced(cla, us, i)
    {
      assert i < |ts| - 1 ==> Announced(cla, ts, i);
    }
  }

  /** What the first i answers join to could be appended. */
  predicate FitsUpTo(ts: seq<Turn>, i: nat)
    requires i <= |ts|
  {
    !Overfull(ts[..i])
  }

  /** Every append up to the first n answers went through. */
  predicate Fitting(ts: seq<Turn>, n: nat)
    requires n <= |ts|
  {
    forall i | 2 <= i <= n :: FitsUpTo(ts, i)
  }

  lemma {:induction false} FittingSnoc(ts: seq<Turn>, t: Turn)
    requires Fitting(ts, |ts|)
    ensures Fitting(ts + [t], |ts|) && (!Overfull(ts + [t]) ==> Fitting(ts + [t], |ts| + 1))
  {
    var us := ts + [t];
    forall i | 2 <= i <= |ts|
      ensures FitsUpTo(us, i)
    {
      assert us[..i] == ts[..i] && FitsUpTo(ts, i);
    }
    assert us[..|us|] == us;
  }

  /** How joining the answers ends: r is what they join to, or the last exchange failed or its answer could
      not be appended; all appends before that went through. */
  predicate Appended(ts: seq<Turn>, ret: Code, r: bytes) {
    && ts != []
    && if ret == Ok then Answered(ts) && r == Joined(ts) && Fitting(ts, |ts|)
       else |ts| >= 2 && Fitting(ts, |ts| - 1) && (ts[|ts| - 1].answer.None? || Overfull(ts))
  }

  /** The GET RESPONSE chain so far. */
  predicate Collected(cla: byte, ts: seq<Turn>, ret: Code, r: bytes) {
    Chained(cla, ts) && Appended(ts, ret, r)
  }

  // ----- the case handlers -----

  /** One exchange whose answer is passed on. */
  predicate Plain(c: Cmd, ts: seq<Turn>, ret: Code, r: bytes) {
    && |ts| == 1 && ts[0].cmd == c && (ret == Ok <==> ts[0].answer.Some?)
    && (ret == Ok ==> r == ts[0].answer.value)
  }

  /** Case 3S: 6Cxx repeats the command with the indicated length, 61xx collects with GET RESPONSE
      until the card stops announcing; in both cases no more than Le bytes are passed on. */
  predicate ShortReceive(c: Cmd, le: nat, ts: seq<Turn>, ret: Code, r: bytes) {
    && ts != [] && ts[0].cmd == c
    && match ts[0].answer
       case None => |ts| == 1 && ret != Ok
       case Some(a) =>
         if Sw1(a) == 0x6C then
           && |ts| == 2 && ts[1].cmd == c[..4] + [Sw2(a)] && (ret == Ok <==> ts[1].answer.Some?)
           && (ret == Ok ==> r == Clip(ts[1].answer.value, le))
         else if Sw1(a) == 0x61 then
           && |ts| >= 2 && Collected(c[0], ts, ret, if Answered(ts) then Joined(ts) else [])
           && (ret == Ok ==> Sw1(Joined(ts)) != 0x61 && r == Clip(Joined(ts), le))
         else |ts| == 1 && ret == Ok && r == a
  }

  /** The three ways on from a first answer. */
  lemma ShortReceivePassed(c: Cmd, le: nat, t: Turn, r: Rsp)
    requires t == Turn(c, Some(r)) && Sw1(r) != 0x6C && Sw1(r) != 0x61
    ensures ShortReceive(c, le, [t], Ok, r)
  {
  }

  lemma ShortReceiveAgain(c: Cmd, le: nat, ts: seq<Turn>, ret: Code, a: Rsp, r: bytes)
    requires Sw1(a) == 0x6C && |ts| == 2 && ts[0] == Turn(c, Some(a)) && ts[1].cmd == c[..4] + [Sw2(a)]
    requires (ret == Ok <==> ts[1].answer.Some?) && (ret == Ok ==> r == Clip(ts[1].answer.value, le))
    ensures ShortReceive(c, le, ts, ret, r)
  {
  }

  lemma ShortReceiveCollected(c: Cmd, le: nat, ts: seq<Turn>, ret: Code, a: Rsp, r: bytes)
    requires Sw1(a) == 0x61 && |ts| >= 2 && ts[0] == Turn(c, Some(a))
    requires Collected(c[0], ts, ret, if Answered(ts) then Joined(ts) else [])
    requires ret == Ok ==> Sw1(Joined(ts)) != 0x61 && r == Clip(Joined(ts), le)
    ensures ShortReceive(c, le, ts, ret, r)
  {
  }

  /** A chain of GET RESPONSE commands answered to its end is OK if and only if no append was refused, and then
      the response is the first Le bytes, or all there are, of the data of all answers in order, followed by the
      last status. The driver refuses a total of no data at all, and one over 65536 bytes. */
  lemma {:induction false} ShortReceiveJoins(c: Cmd, le: nat, ts: seq<Turn>, ret: Code, r: bytes)
    requires ShortReceive(c, le, ts, ret, r) && Answered(ts) && ts[0].answer.Some? && Sw1(ts[0].answer.value) == 0x61
    ensures ret == Ok <==> forall i | 2 <= i <= |ts| :: FitsUpTo(ts, i)
    ensures ret == Ok ==> r == AllData(ts)[..Min(le, |AllData(ts)|)] + Status(ts[|ts| - 1].answer.value)
    ensures forall i | 0 <= i < |ts| - 1 :: Announced(c[0], ts, i)
  {
    assert ts[..|ts|] == ts;
    assert FitsUpTo(ts, |ts|) == !Overfull(ts);
    var d, sw := AllData(ts), Status(ts[|ts| - 1].answer.value);
    assert RspData(d + sw) == d && Status(d + sw) == sw;
  }

  /** A card that announces data and then has none: 61xx and then a status alone. */
  lemma {:induction false} EmptyChainRefused(c: Cmd, le: nat, ts: seq<Turn>, ret: Code, r: bytes, x: byte, sw: Rsp)
    requires ShortReceive(c, le, ts, ret, r) && |sw| == 2
    requires |ts| >= 2 && ts[0].answer == Some([0x61, x]) && ts[1].answer == Some(sw)
    ensures ret != Ok && |ts| == 2
  {
    var us := ts[..2];
    assert ts[..1] == [ts[0]] && us == [ts[0]] + [ts[1]];
    JoinedOne(ts[0]);
    AllDataSnoc([ts[0]], ts[1]);
    assert !FitsUpTo(ts, 2);
  }

  /** The second half of case 4S: the answer is fetched, unless a, the answer to the data, refused. */
  predicate ShortFetch(cla: byte, le: nat, a: Rsp, ts: seq<Turn>, ret: Code, r: bytes)
    requires 1 <= le <= 256
  {
    if Sw1(a) == 0x61 then Plain(GetResponse(cla, if Sw2(a) == 0 then le % 256 else Min(le, Sw2(a))), ts, ret, r)
    else if Sw1(a) / 16 == 6 then ts == [] && ret == Ok && r == a
    else ShortReceive(GetResponse(cla, le % 256), le, ts, ret, r)
  }

  /** Case 4S. */
  predicate ShortBoth(c: Cmd, le: nat, ts: seq<Turn>, ret: Code, r: bytes)
    requires 1 <= le <= 256
  {
    && ts != [] && |c| > 4 && ts[0].cmd == c[..|c| - 1]
    && match ts[0].answer
       case None => |ts| == 1 && ret != Ok
       case Some(a) => ShortFetch(c[0], le, a, ts[1..], ret, r)
  }

  // ----- extended commands -----

  /** A TPDU with the header and data of an extended command whose data is at most 255 bytes long. */
  function Shortened(c: Cmd): Cmd
    requires Lc(c) < 256
  {
    c[..4] + [Lc(c)] + Data(c)
  }

  function Segments(n: nat): nat { (n + 254) / 255 }

  /** The k-th stretch of 255 bytes, the last one possibly shorter. */
  function Segment(raw: bytes, k: nat): (s: bytes)
    requires k < Segments(|raw|)
    ensures 1 <= |s| <= 255
  {
    raw[255 * k..Min(255 * k + 255, |raw|)]
  }

  function Envelope(cla: byte, segment: bytes): Cmd
    requires |segment| < 256
  {
    [cla, 0xC2, 0x00, 0x00, |segment|] + segment
  }

  /** The i-th exchange is the envelope of the i-th segment. */
  predicate Carries(raw: Cmd, ts: seq<Turn>, i: nat)
    requires i < |ts| && i < Segments(|raw|)
  {
    ts[i].cmd == Envelope(raw[0], Segment(raw, i))
  }

  /** It was answered 90xx. */
  predicate Affirmed(ts: seq<Turn>, i: nat)
    requires i < |ts|
  {
    ts[i].answer.Some? && Sw1(ts[i].answer.value) == 0x90
  }

  /** ENVELOPE: the raw command goes out segment by segment until one is not answered 90xx. */
  predicate Enveloped(raw: Cmd, ts: seq<Turn>, ret: Code, r: bytes) {
    && 1 <= |ts| <= Segments(|raw|)
    && (forall i | 0 <= i < |ts| :: Carries(raw, ts, i))
    && (forall i | 0 <= i < |ts| - 1 :: Affirmed(ts, i))
    && match ts[|ts| - 1].answer
       case None => ret != Ok
       case Some(a) => ret == Ok && r == a && (|ts| == Segments(|raw|) || Sw1(a) != 0x90)
  }

  /** Enveloping so far, every segment answered 90xx. */
  predicate Underway(raw: Cmd, ts: seq<Turn>) {
    && |ts| <= Segments(|raw|)
    && (forall i | 0 <= i < |ts| :: Carries(raw, ts, i))
    && (forall i | 0 <= i < |ts| :: Affirmed(ts, i))
  }

  lemma {:induction false} UnderwaySnoc(raw: Cmd, ts: seq<Turn>, t: Turn, ret: Code, r: bytes)
    requires Underway(raw, ts) && |ts| < Segments(|raw|) && t.cmd == Envelope(raw[0], Segment(raw, |ts|))
    requires (ret == Ok <==> t.answer.Some?) && (ret == Ok ==> r == t.answer.value)
    ensures if t.answer.Some? && Sw1(t.answer.value) == 0x90 then Underway(raw, ts + [t])
            else Enveloped(raw, ts + [t], ret, r)
  {
    var us := ts + [t];
    forall i | 0 <= i < |ts|
      ensures Carries(raw, us, i) && Affirmed(us, i)
    {
      assert Carries(raw, ts, i) && Affirmed(ts, i);
    }
    assert Carries(raw, us, |ts|);
  }

  /** Cases 2E and the first half of 4E. */
  predicate ExtendedSend(c: Cmd, ts: seq<Turn>, ret: Code, r: bytes) {
    if Lc(c) < 256 then Plain(Shortened(c), ts, ret, r) else Enveloped(c, ts, ret, r)
  }

  /** What the next GET RESPONSE of a long receive asks for: the rest, but no more than announced. */
  function NextLength(le: nat, announced: nat, ts: seq<Turn>): int {
    Min(le - |AllData(ts)|, announced)
  }

  /** Every exchange after the first one asks for NextLength bytes while some are missing. */
  predicate Fetched(cla: byte, le: nat, announced: nat, ts: seq<Turn>) {
    forall i | 1 <= i < |ts| :: Wanted(cla, le, announced, ts, i)
  }

  predicate Wanted(cla: byte, le: nat, announced: nat, ts: seq<Turn>, i: nat)
    requires 1 <= i < |ts|
  {
    && Answered(ts[..i]) && |AllData(ts[..i])| < le
    && ts[i].cmd == GetResponse(cla, NextLength(le, announced, ts[..i]) % 256)
  }

  lemma {:induction false} FetchedSnoc(cla: byte, le: nat, announced: nat, ts: seq<Turn>, t: Turn)
    requires Fetched(cla, le, announced, ts) && Answered(ts) && |AllData(ts)| < le
    requires t.cmd == GetResponse(cla, NextLength(le, announced, ts) % 256)
    ensures Fetched(cla, le, announced, ts + [t])
  {
    var us := ts + [t];
    forall i | 1 <= i < |us|
      ensures Wanted(cla, le, announced, us, i)
    {
      assert us[..i] == ts[..i];
      assert ts[..|ts|] == ts;
      assert i < |ts| ==> Wanted(cla, le, announced, ts, i);
    }
  }

  /** The answers gathered so far. */
  predicate Gathered(cla: byte, le: nat, announced: nat, ts: seq<Turn>, ret: Code, r: bytes) {
    Fetched(cla, le, announced, ts) && Appended(ts, ret, r)
  }

  /** Case 3E with Le over 256. */
  predicate LongReceive(header: bytes, le: nat, ts: seq<Turn>, ret: Code, r: bytes)
    requires |header| == 4
  {
    && ts != [] && ts[0].cmd == header + [0]
    && match ts[0].answer
       case None => |ts| == 1 && ret != Ok
       case Some(a) =>
         if Sw1(a) == 0x6C then Plain(header + [Sw2(a)], ts[1..], ret, r)
         else if Sw1(a) == 0x61 then
           && Gathered(header[0], le, Expand(Sw2(a), 256), ts, ret, r)
           && (ret == Ok ==> |AllData(ts)| >= le)
         else |ts| == 1 && ret == Ok && r == a
  }

  /** The three ways on from a first answer. */
  lemma LongReceivePassed(header: bytes, le: nat, t: Turn, r: Rsp)
    requires |header| == 4 && t == Turn(header + [0], Some(r)) && Sw1(r) != 0x6C && Sw1(r) != 0x61
    ensures LongReceive(header, le, [t], Ok, r)
  {
  }

  lemma {:induction false} LongReceiveAgain(header: bytes, le: nat, ts: seq<Turn>, ret: Code, a: Rsp, r: bytes)
    requires |header| == 4 && Sw1(a) == 0x6C && |ts| == 2 && ts[0] == Turn(header + [0], Some(a))
    requires Plain(header + [Sw2(a)], [ts[1]], ret, r)
    ensures LongReceive(header, le, ts, ret, r)
  {
    assert ts[1..] == [ts[1]];
  }

  lemma LongReceiveGathered(header: bytes, le: nat, ts: seq<Turn>, ret: Code, a: Rsp, r: bytes)
    requires |header| == 4 && Sw1(a) == 0x61 && ts != [] && ts[0] == Turn(header + [0], Some(a))
    requires Gathered(header[0], le, Expand(Sw2(a), 256), ts, ret, r) && (ret == Ok ==> |AllData(ts)| >= le)
    ensures LongReceive(header, le, ts, ret, r)
  {
  }

  /** The extended chain, too, is OK if and only if no append was refused. */
  lemma {:induction false} LongReceiveJoins(header: bytes, le: nat, ts: seq<Turn>, ret: Code, r: bytes)
    requires |header| == 4 && LongReceive(header, le, ts, ret, r) && Answered(ts)
    requires ts[0].answer.Some? && Sw1(ts[0].answer.value) == 0x61
    ensures ret == Ok <==> forall i | 2 <= i <= |ts| :: FitsUpTo(ts, i)
    ensures ret == Ok ==> r == AllData(ts) + Status(ts[|ts| - 1].answer.value) && |AllData(ts)| >= le
  {
    assert ts[..|ts|] == ts;
    assert FitsUpTo(ts, |ts|) == !Overfull(ts);
  }

  /** Case 3E. */
  predicate ExtendedReceive(header: bytes, le: nat, ts: seq<Turn>, ret: Code, r: bytes)
    requires |header| == 4
  {
    if le <= 256 then ShortReceive(header + [le % 256], le, ts, ret, r) else LongReceive(header, le, ts, ret, r)
  }

  /** The extended GET RESPONSE that fetches the answer of case 4E; 65536 is coded 0000. */
  function LongGetResponse(cla: byte, le: nat): Cmd {
    [cla, 0xC0, 0x00, 0x00, 0x00, le / 256 % 256, le % 256]
  }

  lemma {:induction false} LongGetResponseLe(cla: byte, le: nat)
    requires 1 <= le <= 65536
    ensures CaseOf(LongGetResponse(cla, le)) == Case3E && Le(LongGetResponse(cla, le)) == le
    ensures LongGetResponse(cla, le)[..4] == [cla, 0xC0, 0x00, 0x00]
  {
    DecodeEncode([cla, 0xC0, 0x00, 0x00], true, [], le);
    assert Encode([cla, 0xC0, 0x00, 0x00], true, [], le) == LongGetResponse(cla, le);
  }

  /** The second half of case 4E: a is the answer to the last sending TPDU. */
  predicate ExtendedFetch(cla: byte, le: nat, a: Rsp, ts: seq<Turn>, ret: Code, r: bytes) {
    var header := [cla, 0xC0, 0x00, 0x00];
    if Sw1(a) == 0x61 then ExtendedReceive(header, if Sw2(a) != 0 then Min(Sw2(a), le) else le, ts, ret, r)
    else if Sw1(a) / 16 == 6 then ts == [] && ret == Ok && r == a
    else ExtendedReceive(header, le, ts, ret, r)
  }

  /** Case 4E: k exchanges send the data, the others fetch the answer. */
  predicate ExtendedBoth(c: Cmd, le: nat, k: nat, ts: seq<Turn>, ret: Code, r: bytes) {
    && 1 <= k <= |ts|
    && match ts[k - 1].answer
       case None => |ts| == k && ret != Ok && ExtendedSend(c, ts, ret, [])
       case Some(a) => ExtendedSend(c, ts[..k], Ok, a) && ExtendedFetch(c[0], le, a, ts[k..], ret, r)
  }

  lemma ExtendedBothFailed(c: Cmd, le: nat, ts: seq<Turn>, ret: Code)
    requires ret != Ok && ExtendedSend(c, ts, ret, [])
    ensures ExtendedBoth(c, le, |ts|, ts, ret, [])
  {
  }

  lemma ExtendedBothFrom(c: Cmd, le: nat, a: Rsp, sent: seq<Turn>, more: seq<Turn>, ret: Code, r: bytes)
    requires ExtendedSend(c, sent, Ok, a) && ExtendedFetch(c[0], le, a, more, ret, r)
    ensures ExtendedBoth(c, le, |sent|, sent + more, ret, r)
  {
  }

  /** The mapping of a command of any case. */
  ghost predicate Mapped(c: Cmd, ts: seq<Turn>, ret: Code, r: bytes) {
    match CaseOf(c)
    case Case1 => Plain(c + [0], ts, ret, r)
    case Case2S => Plain(c, ts, ret, r)
    case Case3S => ShortReceive(c, Le(c), ts, ret, r)
    case Case4S => ShortBoth(c, Le(c), ts, ret, r)
    case Case2E => ExtendedSend(c, ts, ret, r)
    case Case3E => ExtendedReceive(c[..4], Le(c), ts, ret, r)
    case Case4E => exists k: nat :: ExtendedBoth(c, Le(c), k, ts, ret, r)
    case Malformed => ts == [] && ret == Error
  }

  // ----- every TPDU is well formed -----

  ghost predicate AllTransportable(ts: seq<Turn>) {
    forall i | 0 <= i < |ts| :: Transportable(ts[i].cmd)
  }

  /** The TPDU of an extended command with short data carries that data. */
  lemma {:induction false} ShortenedSends(c: Cmd)
    requires 1 <= Lc(c) < 256
    ensures CaseOf(Shortened(c)) == Case2S && Data(Shortened(c)) == Data(c)
  {
    SendTpdu(c[..4], Data(c));
  }

  lemma {:induction false} EnvelopeSends(cla: byte, segment: bytes)
    requires 1 <= |segment| < 256
    ensures CaseOf(Envelope(cla, segment)) == Case2S && Data(Envelope(cla, segment)) == segment
  {
    SendTpdu([cla, 0xC2, 0x00, 0x00], segment);
    assert [cla, 0xC2, 0x00, 0x00] + [|segment|] + segment == Envelope(cla, segment);
  }

  /** Each GET RESPONSE of a long receive asks for exactly NextLength bytes, 256 being coded 00. */
  lemma FetchAsks(cla: byte, le: nat, announced: nat, ts: seq<Turn>)
    requires |AllData(ts)| < le && 1 <= announced <= 256
    ensures Le(GetResponse(cla, NextLength(le, announced, ts) % 256)) == NextLength(le, announced, ts)
  {
  }

  lemma {:induction false} ShortReceiveTransportable(c: Cmd, le: nat, ts: seq<Turn>, ret: Code, r: bytes)
    requires ShortReceive(c, le, ts, ret, r) && |c| == 5
    ensures AllTransportable(ts)
  {
    forall i | 0 <= i < |ts|
      ensures Transportable(ts[i].cmd)
    {
      if i > 0 && Sw1(ts[0].answer.value) == 0x61 {
        assert Announced(c[0], ts, i - 1);
      }
      ReceiveTpdu(ts[i].cmd);
    }
  }

  lemma {:induction false} ExtendedReceiveTransportable(header: bytes, le: nat, ts: seq<Turn>, ret: Code, r: bytes)
    requires |header| == 4 && ExtendedReceive(header, le, ts, ret, r)
    ensures AllTransportable(ts)
  {
    if le <= 256 {
      ShortReceiveTransportable(header + [le % 256], le, ts, ret, r);
    } else {
      forall i | 0 <= i < |ts|
        ensures Transportable(ts[i].cmd)
      {
        if i > 0 && Sw1(ts[0].answer.value) == 0x61 {
          assert Wanted(header[0], le, Expand(Sw2(ts[0].answer.value), 256), ts, i);
        } else if i > 0 {
          assert ts[i] == ts[1..][i - 1];
        }
        ReceiveTpdu(ts[i].cmd);
      }
    }
  }

  lemma {:induction false} ExtendedSendTransportable(c: Cmd, ts: seq<Turn>, ret: Code, r: bytes)
    requires ExtendedSend(c, ts, ret, r) && 1 <= Lc(c)
    ensures AllTransportable(ts)
  {
    if Lc(c) < 256 {
      ShortenedSends(c);
    } else {
      forall i | 0 <= i < |ts|
        ensures Transportable(ts[i].cmd)
      {
        assert Carries(c, ts, i);
        EnvelopeSends(c[0], Segment(c, i));
      }
    }
  }

  lemma {:induction false} ShortFetchTransportable(cla: byte, le: nat, a: Rsp, ts: seq<Turn>, ret: Code, r: bytes)
    requires 1 <= le <= 256 && ShortFetch(cla, le, a, ts, ret, r)
    ensures AllTransportable(ts)
  {
    if Sw1(a) == 0x61 {
      ReceiveTpdu(ts[0].cmd);
    } else if Sw1(a) / 16 != 6 {
      ShortReceiveTransportable(GetResponse(cla, le % 256), le, ts, ret, r);
    }
  }

  lemma {:induction false} ExtendedFetchTransportable(cla: byte, le: nat, a: Rsp, ts: seq<Turn>, ret: Code, r: bytes)
    requires ExtendedFetch(cla, le, a, ts, ret, r)
    ensures AllTransportable(ts)
  {
    var header := [cla, 0xC0, 0x00, 0x00];
    if Sw1(a) == 0x61 {
      ExtendedReceiveTransportable(header, if Sw2(a) != 0 then Min(Sw2(a), le) else le, ts, ret, r);
    } else if Sw1(a) / 16 != 6 {
      ExtendedReceiveTransportable(header, le, ts, ret, r);
    }
  }

  lemma BothTransportable(ts: seq<Turn>, k: nat)
    requires k <= |ts| && AllTransportable(ts[..k]) && AllTransportable(ts[k..])
    ensures AllTransportable(ts)
  {
  }

  /** The sending TPDU of case 4S is the command without its last byte, and carries its data. */
  lemma {:induction false} DropLe(c: Cmd)
    requires CaseOf(c) == Case4S
    ensures CaseOf(c[..|c| - 1]) == Case2S && Data(c[..|c| - 1]) == Data(c)
  {
    SendTpdu(c[..4], Data(c));
    assert c[..4] + [|Data(c)|] + Data(c) == c[..|c| - 1];
  }

  lemma {:induction false} ShortBothTransportable(c: Cmd, le: nat, ts: seq<Turn>, ret: Code, r: bytes)
    requires CaseOf(c) == Case4S && 1 <= le <= 256 && ShortBoth(c, le, ts, ret, r)
    ensures AllTransportable(ts)
  {
    DropLe(c);
    if ts[0].answer.Some? {
      ShortFetchTransportable(c[0], le, ts[0].answer.value, ts[1..], ret, r);
    }
    BothTransportable(ts, 1);
  }

  lemma {:induction false} ExtendedBothTransportable(c: Cmd, le: nat, k: nat, ts: seq<Turn>, ret: Code, r: bytes)
    requires ExtendedBoth(c, le, k, ts, ret, r) && 1 <= Lc(c)
    ensures AllTransportable(ts)
  {
    match ts[k - 1].answer
    case None =>
      ExtendedSendTransportable(c, ts, ret, []);
    case Some(a) =>
      ExtendedSendTransportable(c, ts[..k], Ok, a);
      ExtendedFetchTransportable(c[0], le, a, ts[k..], ret, r);
      BothTransportable(ts, k);
  }

  /** No case handler ever builds a TPDU that the transport refuses. */
  lemma {:induction false} EveryTpduTransportable(c: Cmd, ts: seq<Turn>, ret: Code, r: bytes)
    requires Mapped(c, ts, ret, r)
    ensures AllTransportable(ts)
  {
    match CaseOf(c)
    case Case1 => ReceiveTpdu(c + [0]);
    case Case2S =>
    case Case3S => ShortReceiveTransportable(c, Le(c), ts, ret, r);
    case Case4S => ShortBothTransportable(c, Le(c), ts, ret, r);
    case Case2E => ExtendedSendTransportable(c, ts, ret, r);
    case Case3E => ExtendedReceiveTransportable(c[..4], Le(c), ts, ret, r);
    case Case4E =>
      var k: nat :| ExtendedBoth(c, Le(c), k, ts, ret, r);
      ExtendedBothTransportable(c, Le(c), k, ts, ret, r);
    case Malformed =>
  }

  // ----- envelopes carry the command -----

  /** The payload bytes of all sending TPDUs in order. */
  function Payloads(ts: seq<Turn>): bytes {
    if ts == [] then [] else Data(ts[0].cmd) + Payloads(ts[1..])
  }

  lemma {:induction false} PayloadsSnoc(ts: seq<Turn>, t: Turn)
    ensures Payloads(ts + [t]) == Payloads(ts) + Data(t.cmd)
    decreases |ts|
  {
    if ts == [] {
      assert ts + [t] == [t] && Payloads([t][1..]) == [];
    } else {
      assert (ts + [t])[1..] == ts[1..] + [t];
      PayloadsSnoc(ts[1..], t);
      Associate(Data(ts[0].cmd), Payloads(ts[1..]), Data(t.cmd));
    }
  }

  lemma SegmentExtends(raw: bytes, k: nat)
    requires k < Segments(|raw|)
    ensures 255 * k < |raw| && raw[..255 * k] + Segment(raw, k) == raw[..Min(255 * (k + 1), |raw|)]
  {
  }

  lemma {:induction false} EnvelopesCarryPrefix(raw: Cmd, ts: seq<Turn>)
    requires |ts| <= Segments(|raw|) && forall i | 0 <= i < |ts| :: Carries(raw, ts, i)
    ensures Payloads(ts) == raw[..Min(255 * |ts|, |raw|)]
  {
    if ts != [] {
      var k := |ts| - 1;
      forall i | 0 <= i < k
        ensures Carries(raw, ts[..k], i)
      {
        assert Carries(raw, ts, i);
      }
      EnvelopesCarryPrefix(raw, ts[..k]);
      PayloadsSnoc(ts[..k], ts[k]);
      assert ts[..k] + [ts[k]] == ts;
      assert Carries(raw, ts, k);
      EnvelopeSends(raw[0], Segment(raw, k));
      SegmentExtends(raw, k);
    }
  }

  /** All segments but the last one tried were answered 90xx. If that one was too, the payloads are the whole
      raw command, sent in ceil(n / 255) exchanges; otherwise its answer is returned, or its failure. */
  lemma {:induction false} EnvelopeTransfer(raw: Cmd, ts: seq<Turn>, ret: Code, r: bytes)
    requires Enveloped(raw, ts, ret, r)
    ensures Payloads(ts) == raw[..Min(255 * |ts|, |raw|)] && forall i | 0 <= i < |ts| - 1 :: Affirmed(ts, i)
    ensures if Affirmed(ts, |ts| - 1) then ret == Ok && |ts| == Segments(|raw|) && Payloads(ts) == raw
            else ret != Ok || (|r| >= 2 && Sw1(r) != 0x90 && ts[|ts| - 1].answer == Some(r))
  {
    EnvelopesCarryPrefix(raw, ts);
    WholeCommand(raw, |ts|);
  }

  lemma {:induction false} WholeCommand(raw: bytes, n: nat)
    ensures n == Segments(|raw|) ==> raw[..Min(255 * n, |raw|)] == raw
  {
    SegmentsCover(|raw|);
  }

  lemma SegmentsCover(n: nat)
    ensures 255 * Segments(n) >= n
  {
  }

  // ----- long answers are reassembled exactly -----

  /** The card answers each GET RESPONSE with at least one and at most the requested number of bytes. */
  predicate Courteous(le: nat, announced: nat, ts: seq<Turn>) {
    forall i | 1 <= i < |ts| :: Modest(le, announced, ts, i)
  }

  predicate Modest(le: nat, announced: nat, ts: seq<Turn>, i: nat)
    requires i < |ts|
  {
    ts[i].answer.Some? ==> 1 <= |RspData(ts[i].answer.value)| <= NextLength(le, announced, ts[..i])
  }

  lemma {:induction false} TotalGrows(ts: seq<Turn>, j: nat)
    requires j < |ts| && ts[j].answer.Some?
    ensures |AllData(ts[..j + 1])| == |AllData(ts[..j])| + |RspData(ts[j].answer.value)|
  {
    assert ts[..j + 1] == ts[..j] + [ts[j]];
    AllDataSnoc(ts[..j], ts[j]);
  }

  /** All exchanges but possibly the last one were answered. */
  lemma {:induction false} FetchedAnswered(cla: byte, le: nat, announced: nat, ts: seq<Turn>, j: nat)
    requires Fetched(cla, le, announced, ts) && 1 <= j < |ts|
    ensures ts[j - 1].answer.Some? && |AllData(ts[..j])| < le
  {
    assert Wanted(cla, le, announced, ts, j);
    assert ts[..j][|ts[..j]| - 1] == ts[j - 1];
  }

  /** Every exchange brings the total closer to le without passing it. */
  lemma {:induction false} FetchProgress(cla: byte, le: nat, announced: nat, ts: seq<Turn>, i: nat)
    requires Answered(ts) && Fetched(cla, le, announced, ts) && Courteous(le, announced, ts)
    requires |AllData(ts[..1])| <= le && 1 <= i <= |ts|
    ensures i - 1 + |AllData(ts[..1])| <= |AllData(ts[..i])| <= le
  {
    if i > 1 {
      var j := i - 1;
      FetchProgress(cla, le, announced, ts, j);
      if i < |ts| {
        FetchedAnswered(cla, le, announced, ts, i);
      }
      FetchedAnswered(cla, le, announced, ts, j);
      TotalGrows(ts, j);
      assert Modest(le, announced, ts, j);
    }
  }

  /** A long receive over GET RESPONSE ends, never meets the append limit, and returns exactly Le bytes
      in order with the last status. */
  lemma {:induction false} LongReceiveExact(header: bytes, le: nat, ts: seq<Turn>, ret: Code, r: bytes)
    requires |header| == 4 && LongReceive(header, le, ts, ret, r) && Answered(ts) && Sw1(ts[0].answer.value) == 0x61
    requires 1 <= le <= 65536 && |RspData(ts[0].answer.value)| <= le
    requires Courteous(le, Expand(Sw2(ts[0].answer.value), 256), ts)
    ensures ret == Ok && r == Joined(ts) && |AllData(ts)| == le && |ts| <= 1 + le
  {
    var announced := Expand(Sw2(ts[0].answer.value), 256);
    assert ts[..1] == [ts[0]] && ts[..|ts|] == ts;
    JoinedOne(ts[0]);
    FetchProgress(header[0], le, announced, ts, |ts|);
  }
}
