/** What the mapping of a command comes to against a card that serves its exchanges: the response, and all that is
    sent. */
module T0Cases {
  import opened Bytes
  import opened Apdu
  import opened T0Wire
  import opened T0Mapping
  import opened T0Dialogue
  import opened T0Script
  import opened T0Card

  /** A dialogue reads the card's bytes up to the rest, and says this. */
  predicate Went(play: Play, ts: seq<Turn>, s: bytes, rest: bytes, said: bytes) {
    Left(play, ts, s) == rest && Spoken(play, ts, s) == said
  }

  /** The first of some exchanges, and the others. */
  lemma {:induction false} FirstTurn(play: Play, ts: seq<Turn>, s: bytes, e: Scene)
    requires Heard(play, ts, s) && ts != [] && play(ts[0].cmd, s) == e && e.ending.Complete?
    ensures ts[0].answer.Some? && ts[0].answer.value == e.ending.reply && Heard(play, ts[1..], e.ending.rest)
    ensures Left(play, ts, s) == Left(play, ts[1..], e.ending.rest)
    ensures Spoken(play, ts, s) == e.uttered + Spoken(play, ts[1..], e.ending.rest)
  {
  }

  /** One exchange. */
  lemma {:induction false} PlainPlayed(play: Play, c: Cmd, ts: seq<Turn>, ret: Code, r: bytes, s: bytes, e: Scene)
    requires Plain(c, ts, ret, r) && Heard(play, ts, s) && play(c, s) == e && e.ending.Complete?
    ensures ret == Ok && r == e.ending.reply && Went(play, ts, s, e.ending.rest, e.uttered)
  {
    FirstTurn(play, ts, s, e);
    assert e.uttered + [] == e.uttered;
  }

  lemma {:induction false} PlainServed(play: Play, c: Cmd, ts: seq<Turn>, ret: Code, r: bytes, p: Service, rest: bytes)
    requires Plain(c, ts, ret, r) && Serves(play, c, p) && Heard(play, ts, p.line + rest)
    ensures ret == Ok && r == p.data + p.sw && Went(play, ts, p.line + rest, rest, c)
  {
    PlainPlayed(play, c, ts, ret, r, p.line + rest, Scene(Complete(p.data + p.sw, 0, rest), c));
  }

  lemma {:induction false} PlainReceived(play: Play, c: Cmd, ts: seq<Turn>, ret: Code, r: bytes, p: Receipt, rest: bytes)
    requires Plain(c, ts, ret, r) && Receives(play, c, p) && Heard(play, ts, p.line + rest)
    ensures ret == Ok && r == p.sw && Went(play, ts, p.line + rest, rest, Cut(c, 5 + p.count))
  {
    PlainPlayed(play, c, ts, ret, r, p.line + rest, Scene(Complete(p.sw, p.count, rest), c[..5 + p.count]));
  }

  // ----- short receiving -----

  /** How a card answers a receiving command: at once; with 6Cxx and then the command with that length; or with 61xx
      and then GET RESPONSE commands. */
  datatype Talk = Once(p: Service) | Again(first: Service, again: Service) | Chain(ps: seq<Service>)

  ghost predicate Talks(play: Play, c: Cmd, talk: Talk) {
    match talk
    case Once(p) => Serves(play, c, p) && p.sw[0] != 0x61 && p.sw[0] != 0x6C
    case Again(first, again) => Serves(play, c, first) && first.sw[0] == 0x6C && Serves(play, c[..4] + [first.sw[1]], again)
    case Chain(ps) =>
      && ps != [] && Serves(play, c, ps[0]) && ps[0].sw[0] == 0x61
      && Continues(play, c[0], |ps[0].data|, ps[0].sw[1], ps[1..])
  }

  /** After `got` bytes and 61xx: GET RESPONSE for that length, until another status comes. There are 1 to 65536 bytes
      after each. */
  ghost predicate Continues(play: Play, cla: byte, got: nat, x: byte, ps: seq<Service>)
    decreases |ps|
  {
    && ps != [] && Serves(play, [cla, 0xC0, 0x00, 0x00, x], ps[0]) && 1 <= got + |ps[0].data| <= 65536
    && if ps[0].sw[0] == 0x61 then Continues(play, cla, got + |ps[0].data|, ps[0].sw[1], ps[1..]) else |ps| == 1
  }

  /** The second byte of a status. */
  function Second(sw: bytes): byte { if |sw| == 2 then sw[1] else 0 }

  function TalkLine(talk: Talk): bytes {
    match talk
    case Once(p) => p.line
    case Again(first, again) => first.line + again.line
    case Chain(ps) => Script(ps)
  }

  /** The GET RESPONSE commands for such an answer. */
  function Fetches(cla: byte, x: byte, ps: seq<Service>): bytes
    decreases |ps|
  {
    if ps == [] then []
    else [cla, 0xC0, 0x00, 0x00, x] + Fetches(cla, Second(ps[0].sw), ps[1..])
  }

  function TalkSaid(c: Cmd, talk: Talk): bytes {
    match talk
    case Once(p) => c
    case Again(first, again) => c + (c[..4] + [Second(first.sw)])
    case Chain(ps) => c + if ps == [] then [] else Fetches(c[0], Second(ps[0].sw), ps[1..])
  }

  function Cut(data: bytes, le: nat): bytes { data[..Min(le, |data|)] }

  function TalkResponse(talk: Talk, le: nat): bytes {
    match talk
    case Once(p) => p.data + p.sw
    case Again(first, again) => Cut(again.data, le) + again.sw
    case Chain(ps) => Cut(Delivery(ps), le) + LastStatus(ps, [])
  }

  lemma {:induction false} ClipParts(data: bytes, sw: bytes, le: nat)
    requires |sw| == 2
    ensures Clip(data + sw, le) == Cut(data, le) + sw && RspData(data + sw) == data && Status(data + sw) == sw
    ensures Sw1(data + sw) == sw[0] && Sw2(data + sw) == sw[1]
  {
    assert (data + sw)[..|data|] == data && (data + sw)[|data|..] == sw;
  }

  lemma {:induction false} OnceHeard(play: Play, c: Cmd, le: nat, ts: seq<Turn>, ret: Code, r: bytes, p: Service, rest: bytes)
    requires ShortReceive(c, le, ts, ret, r) && Talks(play, c, Once(p)) && Heard(play, ts, p.line + rest)
    ensures ret == Ok && r == p.data + p.sw && Went(play, ts, p.line + rest, rest, c)
  {
    FirstTurn(play, ts, p.line + rest, Scene(Complete(p.data + p.sw, 0, rest), c));
    ClipParts(p.data, p.sw, le);
    assert c + [] == c;
  }

  lemma {:induction false} AgainHeard(play: Play, c: Cmd, le: nat, ts: seq<Turn>, ret: Code, r: bytes, first: Service, again: Service, rest: bytes)
    requires ShortReceive(c, le, ts, ret, r) && Talks(play, c, Again(first, again)) && Heard(play, ts, first.line + again.line + rest)
    ensures ret == Ok && r == Cut(again.data, le) + again.sw
    ensures Went(play, ts, first.line + again.line + rest, rest, c + (c[..4] + [first.sw[1]]))
  {
    var s, d := first.line + again.line + rest, c[..4] + [first.sw[1]];
    Associate(first.line, again.line, rest);
    FirstTurn(play, ts, s, Scene(Complete(first.data + first.sw, 0, again.line + rest), c));
    ClipParts(first.data, first.sw, le);
    var us := ts[1..];
    assert us[0] == ts[1] && us[1..] == [];
    FirstTurn(play, us, again.line + rest, Scene(Complete(again.data + again.sw, 0, rest), d));
    ClipParts(again.data, again.sw, le);
    assert c + (d + []) == c + d;
  }

  /** The exchanges were answered as the first services. */
  ghost predicate Matched(ts: seq<Turn>, ps: seq<Service>) {
    |ts| <= |ps| && forall i | 0 <= i < |ts| :: Match(ts[i], ps[i])
  }

  predicate Match(t: Turn, p: Service) { |p.sw| == 2 && t.answer.Some? && t.answer.value == p.data + p.sw }

  lemma {:induction false} MatchedFirst(ts: seq<Turn>, ps: seq<Service>)
    requires ts != [] && ps != [] && Match(ts[0], ps[0]) && Matched(ts[1..], ps[1..])
    ensures Matched(ts, ps)
  {
    forall i | 0 <= i < |ts|
      ensures Match(ts[i], ps[i])
    {
      assert i > 0 ==> Match(ts[1..][i - 1], ps[1..][i - 1]);
    }
  }

  lemma {:induction false} ChainedRest(cla: byte, ts: seq<Turn>)
    requires Chained(cla, ts) && ts != []
    ensures Chained(cla, ts[1..])
  {
    var us := ts[1..];
    forall i | 0 <= i < |us| - 1
      ensures Announced(cla, us, i)
    {
      assert Announced(cla, ts, i + 1);
    }
  }

  /** The first exchange of a chain, and the others. */
  lemma {:induction false} ServiceFirst(play: Play, c: Cmd, ts: seq<Turn>, ps: seq<Service>, rest: bytes)
    requires ts != [] && ts[0].cmd == c && ps != [] && Serves(play, c, ps[0]) && Heard(play, ts, Script(ps) + rest)
    ensures Match(ts[0], ps[0]) && Sw1(ts[0].answer.value) == ps[0].sw[0] && Sw2(ts[0].answer.value) == ps[0].sw[1]
    ensures Heard(play, ts[1..], Script(ps[1..]) + rest)
    ensures Left(play, ts, Script(ps) + rest) == Left(play, ts[1..], Script(ps[1..]) + rest)
    ensures Spoken(play, ts, Script(ps) + rest) == c + Spoken(play, ts[1..], Script(ps[1..]) + rest)
  {
    Associate(ps[0].line, Script(ps[1..]), rest);
    FirstTurn(play, ts, Script(ps) + rest, Scene(Complete(ps[0].data + ps[0].sw, 0, Script(ps[1..]) + rest), c));
    ClipParts(ps[0].data, ps[0].sw, 0);
  }

  /** GET RESPONSE commands of a chain are answered as the services, and if all are, that is all that is said. */
  lemma {:induction false} ChainAnswers(play: Play, cla: byte, got: nat, x: byte, ts: seq<Turn>, ps: seq<Service>, rest: bytes)
    requires ts != [] && ts[0].cmd == [cla, 0xC0, 0x00, 0x00, x] && Chained(cla, ts)
    requires Continues(play, cla, got, x, ps) && Heard(play, ts, Script(ps) + rest)
    ensures Matched(ts, ps) && (|ts| == |ps| ==> Went(play, ts, Script(ps) + rest, rest, Fetches(cla, x, ps)))
    decreases |ps|
  {
    ServiceFirst(play, [cla, 0xC0, 0x00, 0x00, x], ts, ps, rest);
    ChainedRest(cla, ts);
    if |ts| > 1 {
      assert Announced(cla, ts, 0);
      ChainAnswers(play, cla, got + |ps[0].data|, ps[0].sw[1], ts[1..], ps[1..], rest);
    } else {
      assert |ps| == 1 ==> Script(ps[1..]) + rest == rest && Fetches(cla, ps[0].sw[1], ps[1..]) == [];
    }
    MatchedFirst(ts, ps);
  }

  lemma {:induction false} DeliverySnoc(ps: seq<Service>, p: Service)
    ensures Delivery(ps + [p]) == Delivery(ps) + p.data
    decreases |ps|
  {
    if ps == [] {
      assert ps + [p] == [p] && [p][1..] == [] && p.data + [] == p.data;
    } else {
      assert (ps + [p])[1..] == ps[1..] + [p];
      DeliverySnoc(ps[1..], p);
      Associate(ps[0].data, Delivery(ps[1..]), p.data);
    }
  }

  lemma {:induction false} MatchedData(ts: seq<Turn>, ps: seq<Service>)
    requires Matched(ts, ps)
    ensures AllData(ts) == Delivery(ps[..|ts|])
    decreases |ts|
  {
    if ts != [] {
      var n := |ts| - 1;
      assert Match(ts[n], ps[n]);
      MatchedData(ts[..n], ps);
      ClipParts(ps[n].data, ps[n].sw, 0);
      assert ps[..|ts|] == ps[..n] + [ps[n]];
      DeliverySnoc(ps[..n], ps[n]);
    }
  }

  /** The totals and statuses along a chain. */
  lemma {:induction false} ChainTotals(play: Play, cla: byte, got: nat, x: byte, ps: seq<Service>, n: nat)
    requires Continues(play, cla, got, x, ps) && 1 <= n <= |ps|
    ensures |ps[n - 1].sw| == 2 && 1 <= got + |Delivery(ps[..n])| <= 65536 && (ps[n - 1].sw[0] == 0x61 <==> n < |ps|)
    ensures n == |ps| ==> LastStatus(ps, []) == ps[n - 1].sw
    decreases |ps|
  {
    assert ps[..n][1..] == ps[1..][..n - 1];
    if n > 1 {
      ChainTotals(play, cla, got + |ps[0].data|, ps[0].sw[1], ps[1..], n - 1);
      assert LastStatus(ps, []) == LastStatus(ps[1..], ps[0].sw) == LastStatus(ps[1..], []);
    } else {
      assert Delivery(ps[..1]) == ps[0].data + [];
    }
  }

  /** The same with the answer that announced the chain. */
  lemma {:induction false} WholeTotals(play: Play, cla: byte, ps: seq<Service>, n: nat)
    requires ps != [] && |ps[0].sw| == 2 && Continues(play, cla, |ps[0].data|, ps[0].sw[1], ps[1..]) && 2 <= n <= |ps|
    ensures |ps[n - 1].sw| == 2 && 1 <= |Delivery(ps[..n])| <= 65536 && (ps[n - 1].sw[0] == 0x61 <==> n < |ps|)
    ensures n == |ps| ==> LastStatus(ps, []) == ps[n - 1].sw
  {
    ChainTotals(play, cla, |ps[0].data|, ps[0].sw[1], ps[1..], n - 1);
    assert ps[..n][0] == ps[0] && ps[..n][1..] == ps[1..][..n - 1];
    assert LastStatus(ps, []) == LastStatus(ps[1..], ps[0].sw) == LastStatus(ps[1..], []);
  }

  /** What was answered with 1 to 65536 bytes could be appended. */
  lemma {:induction false} AppendedDecides(ts: seq<Turn>, ret: Code)
    requires Answered(ts) && 1 <= |AllData(ts)| <= 65536 && Appended(ts, ret, Joined(ts))
    ensures ret == Ok
  {
  }

  lemma {:induction false} MatchedEnd(play: Play, cla: byte, ts: seq<Turn>, ps: seq<Service>)
    requires 2 <= |ts| && Matched(ts, ps) && |ps[0].sw| == 2 && Continues(play, cla, |ps[0].data|, ps[0].sw[1], ps[1..])
    ensures Answered(ts) && 1 <= |AllData(ts)| <= 65536 && (Sw1(Joined(ts)) == 0x61 <==> |ts| < |ps|)
    ensures |ts| == |ps| ==> Joined(ts) == Delivery(ps) + LastStatus(ps, [])
  {
    var n := |ts|;
    assert Match(ts[n - 1], ps[n - 1]);
    MatchedData(ts, ps);
    WholeTotals(play, cla, ps, n);
    ClipParts(ps[n - 1].data, ps[n - 1].sw, 0);
    LastStatusOf(ts);
    assert ps[..|ps|] == ps;
  }

  /** No chain stops early. */
  lemma {:induction false} ChainComplete(play: Play, cla: byte, ts: seq<Turn>, ret: Code, ps: seq<Service>)
    requires 2 <= |ts| && Matched(ts, ps) && |ps[0].sw| == 2 && Continues(play, cla, |ps[0].data|, ps[0].sw[1], ps[1..])
    requires Appended(ts, ret, if Answered(ts) then Joined(ts) else []) && (ret == Ok ==> Sw1(Joined(ts)) != 0x61)
    ensures ret == Ok && |ts| == |ps| && Joined(ts) == Delivery(ps) + LastStatus(ps, [])
  {
    MatchedEnd(play, cla, ts, ps);
    AppendedDecides(ts, ret);
  }

  lemma {:induction false} LastStatusOf(ts: seq<Turn>)
    requires Answered(ts)
    ensures Sw1(Joined(ts)) == Sw1(ts[|ts| - 1].answer.value) && Status(Joined(ts)) == Status(ts[|ts| - 1].answer.value)
    ensures RspData(Joined(ts)) == AllData(ts)
  {
    var d, sw := AllData(ts), Status(ts[|ts| - 1].answer.value);
    assert (d + sw)[..|d|] == d && (d + sw)[|d|..] == sw;
  }

  lemma {:induction false} LastStatusLength(play: Play, cla: byte, got: nat, x: byte, ps: seq<Service>)
    requires Continues(play, cla, got, x, ps)
    ensures |LastStatus(ps, [])| == 2
  {
    ChainTotals(play, cla, got, x, ps, |ps|);
  }

  lemma {:induction false} WholeChainHeard(play: Play, c: Cmd, le: nat, ts: seq<Turn>, ret: Code, r: bytes, ps: seq<Service>, rest: bytes)
    requires ShortReceive(c, le, ts, ret, r) && Talks(play, c, Chain(ps)) && Heard(play, ts, Script(ps) + rest)
    ensures ret == Ok && r == Cut(Delivery(ps), le) + LastStatus(ps, [])
    ensures Went(play, ts, Script(ps) + rest, rest, c + Fetches(c[0], ps[0].sw[1], ps[1..]))
  {
    ServiceFirst(play, c, ts, ps, rest);
    ChainedRest(c[0], ts);
    assert Announced(c[0], ts, 0);
    ChainAnswers(play, c[0], |ps[0].data|, ps[0].sw[1], ts[1..], ps[1..], rest);
    MatchedFirst(ts, ps);
    ChainComplete(play, c[0], ts, ret, ps);
    LastStatusLength(play, c[0], |ps[0].data|, ps[0].sw[1], ps[1..]);
    ClipParts(Delivery(ps), LastStatus(ps, []), le);
  }

  /** A case 3S command against such a card. */
  lemma {:induction false} TalkHeard(play: Play, c: Cmd, le: nat, ts: seq<Turn>, ret: Code, r: bytes, talk: Talk, rest: bytes)
    requires ShortReceive(c, le, ts, ret, r) && Talks(play, c, talk) && Heard(play, ts, TalkLine(talk) + rest)
    ensures ret == Ok && r == TalkResponse(talk, le) && Went(play, ts, TalkLine(talk) + rest, rest, TalkSaid(c, talk))
  {
    match talk
    case Once(p) => OnceHeard(play, c, le, ts, ret, r, p, rest);
    case Again(first, again) => AgainHeard(play, c, le, ts, ret, r, first, again, rest);
    case Chain(ps) => WholeChainHeard(play, c, le, ts, ret, r, ps, rest);
  }

  // ----- receiving more than 256 bytes -----

  /** The same for a command that asks for more than 256 bytes: it goes out with P3 = 00, and after 61xx GET RESPONSE
      commands ask for what is missing. */
  ghost predicate LongTalks(play: Play, header: bytes, le: nat, talk: Talk)
    requires |header| == 4
  {
    match talk
    case Once(p) => Serves(play, header + [0x00], p) && p.sw[0] != 0x61 && p.sw[0] != 0x6C
    case Again(first, again) => Serves(play, header + [0x00], first) && first.sw[0] == 0x6C && Serves(play, header + [first.sw[1]], again)
    case Chain(ps) => ServesLong(play, header, le, ps)
  }

  function LongSaid(header: bytes, le: nat, talk: Talk): bytes
    requires |header| == 4
  {
    match talk
    case Once(p) => header + [0x00]
    case Again(first, again) => header + [0x00] + (header + [Second(first.sw)])
    case Chain(ps) =>
      header + [0x00] + if ps == [] then [] else Requests(header[0], le, Expand(Second(ps[0].sw), 256), |ps[0].data|, ps[1..])
  }

  function LongResponse(talk: Talk): bytes {
    match talk
    case Once(p) => p.data + p.sw
    case Again(first, again) => again.data + again.sw
    case Chain(ps) => Delivery(ps) + LastStatus(ps, [])
  }

  lemma {:induction false} LongOnceHeard(play: Play, header: bytes, le: nat, ts: seq<Turn>, ret: Code, r: bytes, p: Service, rest: bytes)
    requires |header| == 4 && LongReceive(header, le, ts, ret, r) && LongTalks(play, header, le, Once(p)) && Heard(play, ts, p.line + rest)
    ensures ret == Ok && r == p.data + p.sw && Went(play, ts, p.line + rest, rest, header + [0x00])
  {
    FirstTurn(play, ts, p.line + rest, Scene(Complete(p.data + p.sw, 0, rest), header + [0x00]));
    ClipParts(p.data, p.sw, le);
    assert header + [0x00] + [] == header + [0x00];
  }

  lemma {:induction false} LongAgainHeard(play: Play, header: bytes, le: nat, ts: seq<Turn>, ret: Code, r: bytes, first: Service, again: Service, rest: bytes)
    requires |header| == 4 && LongReceive(header, le, ts, ret, r) && LongTalks(play, header, le, Again(first, again))
    requires Heard(play, ts, first.line + again.line + rest)
    ensures ret == Ok && r == again.data + again.sw
    ensures Went(play, ts, first.line + again.line + rest, rest, header + [0x00] + (header + [first.sw[1]]))
  {
    var s := first.line + again.line + rest;
    Associate(first.line, again.line, rest);
    FirstTurn(play, ts, s, Scene(Complete(first.data + first.sw, 0, again.line + rest), header + [0x00]));
    ClipParts(first.data, first.sw, le);
    PlainServed(play, header + [first.sw[1]], ts[1..], ret, r, again, rest);
  }

  lemma {:induction false} LongTalkHeard(play: Play, header: bytes, le: nat, ts: seq<Turn>, ret: Code, r: bytes, talk: Talk, rest: bytes)
    requires |header| == 4 && 1 <= le <= 65536 && LongReceive(header, le, ts, ret, r) && LongTalks(play, header, le, talk)
    requires Heard(play, ts, TalkLine(talk) + rest)
    ensures ret == Ok && r == LongResponse(talk) && Went(play, ts, TalkLine(talk) + rest, rest, LongSaid(header, le, talk))
    ensures talk.Chain? ==> |Delivery(talk.ps)| == le
  {
    match talk
    case Once(p) => LongOnceHeard(play, header, le, ts, ret, r, p, rest);
    case Again(first, again) => LongAgainHeard(play, header, le, ts, ret, r, first, again, rest);
    case Chain(ps) => LongReceiveServed(play, header, le, ts, ret, r, ps, rest);
  }

  /** Receiving any number of bytes. */
  ghost predicate WideTalks(play: Play, header: bytes, le: nat, talk: Talk)
    requires |header| == 4
  {
    if le <= 256 then Talks(play, header + [le % 256], talk) else LongTalks(play, header, le, talk)
  }

  function WideSaid(header: bytes, le: nat, talk: Talk): bytes
    requires |header| == 4
  {
    if le <= 256 then TalkSaid(header + [le % 256], talk) else LongSaid(header, le, talk)
  }

  function WideResponse(talk: Talk, le: nat): bytes {
    if le <= 256 then TalkResponse(talk, le) else LongResponse(talk)
  }

  lemma {:induction false} WideTalkHeard(play: Play, header: bytes, le: nat, ts: seq<Turn>, ret: Code, r: bytes, talk: Talk, rest: bytes)
    requires |header| == 4 && 1 <= le <= 65536 && ExtendedReceive(header, le, ts, ret, r) && WideTalks(play, header, le, talk)
    requires Heard(play, ts, TalkLine(talk) + rest)
    ensures ret == Ok && r == WideResponse(talk, le) && Went(play, ts, TalkLine(talk) + rest, rest, WideSaid(header, le, talk))
  {
    if le <= 256 {
      TalkHeard(play, header + [le % 256], le, ts, ret, r, talk, rest);
    } else {
      LongTalkHeard(play, header, le, ts, ret, r, talk, rest);
    }
  }

  // ----- sending and receiving -----

  /** How a card goes on after it took the data and sent a status: it refuses, or announces an answer, or accepts. */
  datatype Sequel = Refused | Announcing(p: Service) | Accepting(talk: Talk)

  /** P3 of the GET RESPONSE after 61xx: the smaller of Le and the announced length, 00 standing for 256. */
  function AnnouncedP3(le: nat, x: byte): byte { if x == 0 || le < x then le % 256 else x }

  ghost predicate ShortSequel(play: Play, cla: byte, le: nat, sw: bytes, q: Sequel) {
    && |sw| == 2
    && match q
       case Refused => 0x62 <= sw[0] <= 0x6F
       case Announcing(p) => sw[0] == 0x61 && Serves(play, [cla, 0xC0, 0x00, 0x00, AnnouncedP3(le, sw[1])], p)
       case Accepting(talk) => !(0x60 <= sw[0] <= 0x6F) && Talks(play, [cla, 0xC0, 0x00, 0x00, le % 256], talk)
  }

  function SequelLine(q: Sequel): bytes {
    match q
    case Refused => []
    case Announcing(p) => p.line
    case Accepting(talk) => TalkLine(talk)
  }

  function ShortSequelSaid(cla: byte, le: nat, sw: bytes, q: Sequel): bytes {
    match q
    case Refused => []
    case Announcing(p) => [cla, 0xC0, 0x00, 0x00, AnnouncedP3(le, Second(sw))]
    case Accepting(talk) => TalkSaid([cla, 0xC0, 0x00, 0x00, le % 256], talk)
  }

  function ShortSequelResponse(le: nat, sw: bytes, q: Sequel): bytes {
    match q
    case Refused => sw
    case Announcing(p) => p.data + p.sw
    case Accepting(talk) => TalkResponse(talk, le)
  }

  lemma {:induction false} ShortSequelHeard(play: Play, cla: byte, le: nat, sw: bytes, ts: seq<Turn>, ret: Code, r: bytes, q: Sequel, rest: bytes)
    requires 1 <= le <= 256 && ShortSequel(play, cla, le, sw, q)
    requires ShortFetch(cla, le, sw, ts, ret, r) && Heard(play, ts, SequelLine(q) + rest)
    ensures ret == Ok && r == ShortSequelResponse(le, sw, q)
    ensures Went(play, ts, SequelLine(q) + rest, rest, ShortSequelSaid(cla, le, sw, q))
  {
    match q
    case Refused => assert [] + rest == rest;
    case Announcing(p) => PlainServed(play, [cla, 0xC0, 0x00, 0x00, AnnouncedP3(le, sw[1])], ts, ret, r, p, rest);
    case Accepting(talk) => TalkHeard(play, [cla, 0xC0, 0x00, 0x00, le % 256], le, ts, ret, r, talk, rest);
  }

  /** Case 4S: the command without its last byte, and then the sequel. */
  lemma {:induction false} ShortBothHeard(play: Play, c: Cmd, le: nat, ts: seq<Turn>, ret: Code, r: bytes, p: Receipt, q: Sequel, rest: bytes)
    requires 1 <= le <= 256 && |c| > 5 && ShortBoth(c, le, ts, ret, r) && Receives(play, c[..|c| - 1], p) && ShortSequel(play, c[0], le, p.sw, q)
    requires Heard(play, ts, p.line + (SequelLine(q) + rest))
    ensures ret == Ok && r == ShortSequelResponse(le, p.sw, q)
    ensures Went(play, ts, p.line + (SequelLine(q) + rest), rest, Cut(c, 5 + p.count) + ShortSequelSaid(c[0], le, p.sw, q))
  {
    var s := p.line + (SequelLine(q) + rest);
    var d := c[..|c| - 1];
    assert d[..5 + p.count] == c[..5 + p.count];
    FirstTurn(play, ts, s, Scene(Complete(p.sw, p.count, SequelLine(q) + rest), d[..5 + p.count]));
    ShortSequelHeard(play, c[0], le, p.sw, ts[1..], ret, r, q, rest);
  }

  // ----- extended sending -----

  /** How a card takes a command in envelopes of up to 255 bytes, until one is not answered 90xx. */
  ghost predicate Enveloping(play: Play, cla: byte, raw: bytes, ps: seq<Receipt>)
    decreases |raw|
  {
    && raw != [] && ps != []
    && Receives(play, [cla, 0xC2, 0x00, 0x00, Min(255, |raw|)] + raw[..Min(255, |raw|)], ps[0])
    && if ps[0].sw[0] == 0x90 && |raw| > 255 then Enveloping(play, cla, raw[255..], ps[1..]) else |ps| == 1
  }

  function EnvelopesLine(ps: seq<Receipt>): bytes {
    if ps == [] then [] else ps[0].line + EnvelopesLine(ps[1..])
  }

  function LastSw(ps: seq<Receipt>): bytes { if ps == [] then [] else ps[|ps| - 1].sw }

  /** What goes out: of each envelope the header and what the card takes. */
  function EnvelopesSaid(cla: byte, raw: bytes, ps: seq<Receipt>): bytes
    decreases |ps|
  {
    if ps == [] then []
    else
      [cla, 0xC2, 0x00, 0x00, Min(255, |raw|)] + raw[..Min(ps[0].count, |raw|)]
      + EnvelopesSaid(cla, raw[Min(255, |raw|)..], ps[1..])
  }

  lemma {:induction false} SegmentAt(raw: bytes, k: nat)
    requires k < Segments(|raw|)
    ensures 255 * k < |raw|
    ensures var left := raw[255 * k..];
            Segment(raw, k) == left[..Min(255, |left|)] && (|left| <= 255 <==> k + 1 == Segments(|raw|))
  {
    var left := raw[255 * k..];
    assert Segment(raw, k) == left[..Min(255, |left|)];
  }

  lemma EnvelopePrefix(cla: byte, left: bytes, count: nat)
    requires count <= Min(255, |left|)
    ensures var n := Min(255, |left|);
            ([cla, 0xC2, 0x00, 0x00, n] + left[..n])[..5 + count] == [cla, 0xC2, 0x00, 0x00, n] + left[..Min(count, |left|)]
  {
  }

  /** The exchanges are the envelopes of the segments from the k-th on. */
  ghost predicate EnvelopesFrom(raw: Cmd, k: nat, ts: seq<Turn>) {
    |ts| + k <= Segments(|raw|) && forall i | 0 <= i < |ts| :: EnvelopeAt(raw, k, ts, i)
  }

  predicate EnvelopeAt(raw: Cmd, k: nat, ts: seq<Turn>, i: nat)
    requires i < |ts| && k + i < Segments(|raw|)
  {
    ts[i].cmd == Envelope(raw[0], Segment(raw, k + i)) && (i < |ts| - 1 ==> Affirmed(ts, i))
  }

  lemma {:induction false} EnvelopesRest(raw: Cmd, k: nat, ts: seq<Turn>)
    requires EnvelopesFrom(raw, k, ts) && ts != []
    ensures EnvelopesFrom(raw, k + 1, ts[1..])
  {
    var us, m := ts[1..], k + 1;
    forall i | 0 <= i < |us|
      ensures EnvelopeAt(raw, m, us, i)
    {
      assert EnvelopeAt(raw, k, ts, i + 1);
      assert i < |us| - 1 ==> Affirmed(ts, i + 1);
    }
  }

  /** The first envelope is heard. */
  lemma {:induction false} EnvelopeFirst(play: Play, raw: Cmd, k: nat, ts: seq<Turn>, ps: seq<Receipt>, rest: bytes)
    requires EnvelopesFrom(raw, k, ts) && ts != [] && Enveloping(play, raw[0], raw[255 * k..], ps) && Heard(play, ts, EnvelopesLine(ps) + rest)
    ensures var left := raw[255 * k..];
            var out := [raw[0], 0xC2, 0x00, 0x00, Min(255, |left|)] + left[..Min(ps[0].count, |left|)];
            && (|left| > 255 <==> k + 1 < Segments(|raw|))
            && ts[0].answer.Some? && ts[0].answer.value == ps[0].sw && Heard(play, ts[1..], EnvelopesLine(ps[1..]) + rest)
            && Left(play, ts, EnvelopesLine(ps) + rest) == Left(play, ts[1..], EnvelopesLine(ps[1..]) + rest)
            && Spoken(play, ts, EnvelopesLine(ps) + rest) == out + Spoken(play, ts[1..], EnvelopesLine(ps[1..]) + rest)
  {
    var left := raw[255 * k..];
    assert EnvelopeAt(raw, k, ts, 0);
    SegmentAt(raw, k);
    Associate(ps[0].line, EnvelopesLine(ps[1..]), rest);
    EnvelopePrefix(raw[0], left, ps[0].count);
    FirstTurn(play, ts, EnvelopesLine(ps) + rest, Scene(Complete(ps[0].sw, ps[0].count, EnvelopesLine(ps[1..]) + rest), ts[0].cmd[..5 + ps[0].count]));
  }

  /** Envelopes are sent until the card does not answer 90xx, or all are. */
  lemma {:induction false} EnvelopesHeard(play: Play, raw: Cmd, k: nat, ts: seq<Turn>, ps: seq<Receipt>, rest: bytes)
    requires EnvelopesFrom(raw, k, ts) && ts != [] && Enveloping(play, raw[0], raw[255 * k..], ps) && Heard(play, ts, EnvelopesLine(ps) + rest)
    requires ts[|ts| - 1].answer.None? || |ts| + k == Segments(|raw|) || !Affirmed(ts, |ts| - 1)
    ensures ts[|ts| - 1].answer.Some? && ts[|ts| - 1].answer.value == LastSw(ps)
    ensures Went(play, ts, EnvelopesLine(ps) + rest, rest, EnvelopesSaid(raw[0], raw[255 * k..], ps))
    decreases |ps|
  {
    var left := raw[255 * k..];
    EnvelopeFirst(play, raw, k, ts, ps, rest);
    EnvelopesRest(raw, k, ts);
    assert EnvelopeAt(raw, k, ts, 0);
    if ps[0].sw[0] == 0x90 && |left| > 255 {
      assert left[255..] == raw[255 * (k + 1)..];
      assert Affirmed(ts, 0) && |ts| > 1;
      EnvelopesHeard(play, raw, k + 1, ts[1..], ps[1..], rest);
    } else {
      assert ts[1..] == [] && ps[1..] == [] && [] + rest == rest;
    }
  }

  lemma {:induction false} EnvelopedFrom(raw: Cmd, ts: seq<Turn>, ret: Code, r: bytes)
    requires Enveloped(raw, ts, ret, r)
    ensures EnvelopesFrom(raw, 0, ts)
  {
    forall i | 0 <= i < |ts|
      ensures EnvelopeAt(raw, 0, ts, i)
    {
      assert Carries(raw, ts, i) && (i < |ts| - 1 ==> Affirmed(ts, i));
    }
  }

  /** How a card takes an extended command: in one TPDU, or from 256 bytes on in envelopes. */
  ghost predicate Uploads(play: Play, c: Cmd, data: bytes, ps: seq<Receipt>) {
    if |data| < 256 then |data| > 0 && |ps| == 1 && Receives(play, c[..4] + [|data|] + data, ps[0])
    else Enveloping(play, c[0], c, ps)
  }

  function UploadSaid(c: Cmd, data: bytes, ps: seq<Receipt>): bytes {
    if |data| < 256 then if ps == [] then [] else c[..4] + [|data|] + data[..Min(ps[0].count, |data|)]
    else EnvelopesSaid(c[0], c, ps)
  }

  lemma {:induction false} UploadHeard(play: Play, c: Cmd, data: bytes, ts: seq<Turn>, ret: Code, r: bytes, ps: seq<Receipt>, rest: bytes)
    requires Lc(c) == |data| && Data(c) == data && ExtendedSend(c, ts, ret, r) && Uploads(play, c, data, ps)
    requires Heard(play, ts, EnvelopesLine(ps) + rest)
    ensures ret == Ok && r == LastSw(ps) && Went(play, ts, EnvelopesLine(ps) + rest, rest, UploadSaid(c, data, ps))
  {
    if |data| < 256 {
      var d := c[..4] + [|data|] + data;
      assert ps[1..] == [] && EnvelopesLine(ps) == ps[0].line + EnvelopesLine(ps[1..]) == ps[0].line;
      PlainReceived(play, d, ts, ret, r, ps[0], rest);
      assert d[..5 + ps[0].count] == c[..4] + [|data|] + data[..ps[0].count];
    } else {
      EnvelopedFrom(c, ts, ret, r);
      assert c[255 * 0..] == c;
      EnvelopesHeard(play, c, 0, ts, ps, rest);
    }
  }

  // ----- extended sending and receiving -----

  /** How many bytes are asked for: after 61xx no more than announced. */
  function FetchedLe(le: nat, sw: bytes): nat {
    if |sw| == 2 && sw[0] == 0x61 && 0 < sw[1] < le then sw[1] else le
  }

  ghost predicate WideSequel(play: Play, cla: byte, le: nat, sw: bytes, q: Sequel) {
    && |sw| == 2
    && match q
       case Refused => 0x62 <= sw[0] <= 0x6F
       case Announcing(p) => false
       case Accepting(talk) =>
         && (sw[0] == 0x61 || !(0x60 <= sw[0] <= 0x6F))
         && WideTalks(play, [cla, 0xC0, 0x00, 0x00], FetchedLe(le, sw), talk)
  }

  function WideSequelSaid(cla: byte, le: nat, sw: bytes, q: Sequel): bytes {
    if q.Accepting? then WideSaid([cla, 0xC0, 0x00, 0x00], FetchedLe(le, sw), q.talk) else []
  }

  function WideSequelResponse(le: nat, sw: bytes, q: Sequel): bytes {
    if q.Accepting? then WideResponse(q.talk, FetchedLe(le, sw)) else sw
  }

  lemma {:induction false} WideSequelHeard(play: Play, cla: byte, le: nat, sw: bytes, ts: seq<Turn>, ret: Code, r: bytes, q: Sequel, rest: bytes)
    requires 1 <= le <= 65536 && WideSequel(play, cla, le, sw, q)
    requires ExtendedFetch(cla, le, sw, ts, ret, r) && Heard(play, ts, SequelLine(q) + rest)
    ensures ret == Ok && r == WideSequelResponse(le, sw, q)
    ensures Went(play, ts, SequelLine(q) + rest, rest, WideSequelSaid(cla, le, sw, q))
  {
    if q.Refused? {
      assert [] + rest == rest;
    } else {
      WideTalkHeard(play, [cla, 0xC0, 0x00, 0x00], FetchedLe(le, sw), ts, ret, r, q.talk, rest);
    }
  }

  /** Case 4E: the data and then the sequel. */
  lemma {:induction false} WideBothHeard(play: Play, c: Cmd, data: bytes, le: nat, k: nat, ts: seq<Turn>, ret: Code, r: bytes, ps: seq<Receipt>, q: Sequel, rest: bytes)
    requires Lc(c) == |data| && Data(c) == data && 1 <= le <= 65536 && ExtendedBoth(c, le, k, ts, ret, r)
    requires Uploads(play, c, data, ps) && ps != [] && WideSequel(play, c[0], le, LastSw(ps), q)
    requires Heard(play, ts, EnvelopesLine(ps) + (SequelLine(q) + rest))
    ensures ret == Ok && r == WideSequelResponse(le, LastSw(ps), q)
    ensures Went(play, ts, EnvelopesLine(ps) + (SequelLine(q) + rest), rest, UploadSaid(c, data, ps) + WideSequelSaid(c[0], le, LastSw(ps), q))
  {
    var s, tail := EnvelopesLine(ps) + (SequelLine(q) + rest), SequelLine(q) + rest;
    if ts[k - 1].answer.None? {
      UploadHeard(play, c, data, ts, ret, [], ps, tail);
    } else {
      assert ts == ts[..k] + ts[k..];
      Conversation(play, ts[..k], ts[k..], s);
      UploadHeard(play, c, data, ts[..k], Ok, ts[k - 1].answer.value, ps, tail);
      WideSequelHeard(play, c[0], le, ps[|ps| - 1].sw, ts[k..], ret, r, q, rest);
    }
  }
}
