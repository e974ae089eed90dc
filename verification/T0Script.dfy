/** Whole T=0 commands against a card that follows a script: long answers are returned to the last byte. */
module T0Script {
  import opened Bytes
  import opened Apdu
  import opened T0Wire
  import opened T0Mapping
  import opened T0Dialogue

  /** What a card does in one receiving exchange: the bytes it sends, the data among them, and the status. */
  datatype Service = Service(line: bytes, data: bytes, sw: bytes)

  /** The exchange of a command goes that way, whatever the card sends after it. */
  ghost predicate Serves(play: Play, c: Cmd, p: Service) {
    |p.sw| == 2 && forall rest :: play(c, p.line + rest) == Scene(Complete(p.data + p.sw, 0, rest), c)
  }

  /** Any schedule that delivers no more than the command asks for is such a service. */
  lemma {:induction false} ScheduleServes(c: Cmd, es: seq<Event>, sw: bytes)
    requires CaseOf(c) == Case3S && Accepts(TpduOf(c), es, START) && |Payload(es)| <= Le(c)
    requires |sw| == 2 && IsSw1(sw[0])
    ensures Serves(Played, c, Service(Render(es) + sw, Payload(es), sw))
  {
    forall rest
      ensures Played(c, Render(es) + sw + rest) == Scene(Complete(Payload(es) + sw, 0, rest), c)
    {
      ReceiveScheduleIndependent(TpduOf(c), es, sw, rest);
      assert c[..5] + [] == c;
    }
  }

  function Script(ps: seq<Service>): bytes {
    if ps == [] then [] else ps[0].line + Script(ps[1..])
  }

  /** The data of all services, in order. */
  function Delivery(ps: seq<Service>): bytes {
    if ps == [] then [] else ps[0].data + Delivery(ps[1..])
  }

  /** The status of the last service, or sw if there is none. */
  function LastStatus(ps: seq<Service>, sw: bytes): bytes
    decreases |ps|
  {
    if ps == [] then sw else LastStatus(ps[1..], ps[0].sw)
  }

  /** GET RESPONSE for what is missing, but no more than announced. */
  function Request(cla: byte, le: nat, lx: nat, got: nat): Cmd {
    GetResponse(cla, Min(le - got, lx) % 256)
  }

  /** The card serves GET RESPONSE commands, each with at least one byte, until le bytes are there. */
  ghost predicate ServesRest(play: Play, cla: byte, le: nat, lx: nat, got: nat, ps: seq<Service>)
    decreases |ps|
  {
    && got <= le
    && if got == le then ps == []
       else
         && ps != [] && Serves(play, Request(cla, le, lx, got), ps[0]) && ps[0].data != []
         && ServesRest(play, cla, le, lx, got + |ps[0].data|, ps[1..])
  }

  /** The card answers a receiving command with 61xx and then serves the rest. */
  ghost predicate ServesLong(play: Play, header: bytes, le: nat, ps: seq<Service>)
    requires |header| == 4
  {
    && ps != [] && Serves(play, header + [0], ps[0]) && ps[0].sw[0] == 0x61
    && ServesRest(play, header[0], le, Expand(ps[0].sw[1], 256), |ps[0].data|, ps[1..])
  }

  /** The GET RESPONSE commands that such a card is sent. */
  function Requests(cla: byte, le: nat, lx: nat, got: nat, ps: seq<Service>): bytes
    decreases |ps|
  {
    if ps == [] then [] else Request(cla, le, lx, got) + Requests(cla, le, lx, got + |ps[0].data|, ps[1..])
  }

  // ----- the driver follows the script -----

  lemma {:induction false} ServedTurn(play: Play, t: Turn, ps: seq<Service>, rest: bytes)
    requires ps != [] && Serves(play, t.cmd, ps[0]) && AnswerIs(t, play(t.cmd, Script(ps) + rest).ending)
    ensures t.answer.Some? && RspData(t.answer.value) == ps[0].data && Status(t.answer.value) == ps[0].sw
    ensures play(t.cmd, Script(ps) + rest).ending.rest == Script(ps[1..]) + rest && play(t.cmd, Script(ps) + rest).uttered == t.cmd
  {
    Associate(ps[0].line, Script(ps[1..]), rest);
    var d := ps[0].data;
    assert (d + ps[0].sw)[..|d|] == d && (d + ps[0].sw)[|d|..] == ps[0].sw;
  }

  /** The first k exchanges have taken the card's bytes up to what it sends for the services ps. */
  ghost predicate Reached(play: Play, cla: byte, le: nat, lx: nat, ts: seq<Turn>, k: nat, s: bytes, ps: seq<Service>, rest: bytes) {
    && 1 <= k <= |ts| && ts[k - 1].answer.Some?
    && Left(play, ts[..k], s) == Script(ps) + rest
    && ServesRest(play, cla, le, lx, |AllData(ts[..k])|, ps)
  }

  lemma {:induction false} NextService(play: Play, cla: byte, le: nat, lx: nat, ts: seq<Turn>, k: nat, s: bytes, ps: seq<Service>, rest: bytes)
    requires Heard(play, ts, s) && k < |ts| && Reached(play, cla, le, lx, ts, k, s, ps, rest) && Wanted(cla, le, lx, ts, k)
    ensures ps != [] && ts[k].answer.Some? && Status(ts[k].answer.value) == ps[0].sw
    ensures AllData(ts[..k + 1]) == AllData(ts[..k]) + ps[0].data
    ensures Spoken(play, ts[..k + 1], s) == Spoken(play, ts[..k], s) + Request(cla, le, lx, |AllData(ts[..k])|)
    ensures Reached(play, cla, le, lx, ts, k + 1, s, ps[1..], rest)
  {
    HeardAt(play, ts, s, k);
    ServedTurn(play, ts[k], ps, rest);
    assert ts[..k + 1] == ts[..k] + [ts[k]];
    AllDataSnoc(ts[..k], ts[k]);
  }

  /** From there on every exchange is answered and brings at least one byte, but no more than le in all. */
  lemma {:induction false} ServicesProgress(play: Play, cla: byte, le: nat, lx: nat, ts: seq<Turn>, k: nat, s: bytes, ps: seq<Service>, rest: bytes)
    requires Heard(play, ts, s) && Reached(play, cla, le, lx, ts, k, s, ps, rest) && Fetched(cla, le, lx, ts)
    ensures Answered(ts) && |AllData(ts[..k])| + |ts| - k <= |AllData(ts)| <= le
    decreases |ts| - k
  {
    if k == |ts| {
      assert ts[..k] == ts;
    } else {
      assert Wanted(cla, le, lx, ts, k);
      NextService(play, cla, le, lx, ts, k, s, ps, rest);
      ServicesProgress(play, cla, le, lx, ts, k + 1, s, ps[1..], rest);
    }
  }

  /** And when le bytes are there, all services were heard. */
  lemma {:induction false} AllServices(play: Play, cla: byte, le: nat, lx: nat, ts: seq<Turn>, k: nat, s: bytes, ps: seq<Service>, rest: bytes)
    requires Heard(play, ts, s) && Reached(play, cla, le, lx, ts, k, s, ps, rest) && Fetched(cla, le, lx, ts)
    requires |AllData(ts)| == le
    ensures AllData(ts) == AllData(ts[..k]) + Delivery(ps) && Left(play, ts, s) == rest
    ensures ts[|ts| - 1].answer.Some? && Status(ts[|ts| - 1].answer.value) == LastStatus(ps, Status(ts[k - 1].answer.value))
    decreases |ts| - k
  {
    if k == |ts| {
      assert ts[..k] == ts;
      assert [] + rest == rest && AllData(ts) + [] == AllData(ts);
    } else {
      assert Wanted(cla, le, lx, ts, k);
      NextService(play, cla, le, lx, ts, k, s, ps, rest);
      AllServices(play, cla, le, lx, ts, k + 1, s, ps[1..], rest);
      Regroup(AllData(ts), AllData(ts[..k + 1]), AllData(ts[..k]), ps[0].data, Delivery(ps[1..]));
    }
  }

  /** Nothing else was asked for. */
  lemma {:induction false} AllRequests(play: Play, cla: byte, le: nat, lx: nat, ts: seq<Turn>, k: nat, s: bytes, ps: seq<Service>, rest: bytes, said: bytes)
    requires Heard(play, ts, s) && Reached(play, cla, le, lx, ts, k, s, ps, rest) && Fetched(cla, le, lx, ts)
    requires |AllData(ts)| == le && said == Spoken(play, ts[..k], s)
    ensures Spoken(play, ts, s) == said + Requests(cla, le, lx, |AllData(ts[..k])|, ps)
    decreases |ts| - k
  {
    if k == |ts| {
      assert ts[..k] == ts;
      assert said + Requests(cla, le, lx, |AllData(ts[..k])|, ps) == said;
    } else {
      assert Wanted(cla, le, lx, ts, k);
      NextService(play, cla, le, lx, ts, k, s, ps, rest);
      var next := Request(cla, le, lx, |AllData(ts[..k])|);
      AllRequests(play, cla, le, lx, ts, k + 1, s, ps[1..], rest, said + next);
      Associate(said, next, Requests(cla, le, lx, |AllData(ts[..k + 1])|, ps[1..]));
    }
  }

  lemma {:induction false} FirstService(play: Play, header: bytes, le: nat, ts: seq<Turn>, ps: seq<Service>, rest: bytes)
    requires |header| == 4 && ServesLong(play, header, le, ps) && Heard(play, ts, Script(ps) + rest)
    requires ts != [] && ts[0].cmd == header + [0]
    ensures Reached(play, header[0], le, Expand(ps[0].sw[1], 256), ts, 1, Script(ps) + rest, ps[1..], rest)
    ensures Status(ts[0].answer.value) == ps[0].sw && AllData(ts[..1]) == ps[0].data
    ensures Spoken(play, ts[..1], Script(ps) + rest) == header + [0]
  {
    var t := ts[0];
    assert ts[..0] == [] && ts[..1] == [t] && ts[1..] == ts[1..];
    HeardAt(play, ts, Script(ps) + rest, 0);
    ServedTurn(play, t, ps, rest);
    JoinedOne(t);
    assert [] + (header + [0]) == header + [0];
  }

  /** A long receive against such a card: exactly le bytes, the last status, and nothing left unread. */
  lemma {:induction false} LongReceiveServed(play: Play, header: bytes, le: nat, ts: seq<Turn>, ret: Code, r: bytes, ps: seq<Service>, rest: bytes)
    requires |header| == 4 && 1 <= le <= 65536 && LongReceive(header, le, ts, ret, r) && ServesLong(play, header, le, ps)
    requires Heard(play, ts, Script(ps) + rest)
    ensures ret == Ok && r == Delivery(ps) + LastStatus(ps, []) && |Delivery(ps)| == le
    ensures Left(play, ts, Script(ps) + rest) == rest
    ensures Spoken(play, ts, Script(ps) + rest) ==
              header + [0] + Requests(header[0], le, Expand(ps[0].sw[1], 256), |ps[0].data|, ps[1..])
  {
    FirstService(play, header, le, ts, ps, rest);
    var a := ts[0].answer.value;
    assert a[|a| - 2] == Status(a)[0] && a[|a| - 1] == Status(a)[1];
    ServicesProgress(play, header[0], le, Expand(ps[0].sw[1], 256), ts, 1, Script(ps) + rest, ps[1..], rest);
    AllServices(play, header[0], le, Expand(ps[0].sw[1], 256), ts, 1, Script(ps) + rest, ps[1..], rest);
    AllRequests(play, header[0], le, Expand(ps[0].sw[1], 256), ts, 1, Script(ps) + rest, ps[1..], rest, header + [0]);
  }

  // ----- what a card took of an enveloped command -----

  /** The data bytes that the exchanges sent. */
  function TakenData(play: Play, ts: seq<Turn>, s: bytes): bytes
    decreases |ts|
  {
    if ts == [] then []
    else
      var e := play(ts[0].cmd, s).ending;
      Data(ts[0].cmd)[..Min(e.sent, Lc(ts[0].cmd))] + TakenData(play, ts[1..], e.rest)
  }

  /** Every exchange sent all its data. */
  predicate AllTaken(play: Play, ts: seq<Turn>, s: bytes)
    decreases |ts|
  {
    ts == [] || (play(ts[0].cmd, s).ending.sent >= Lc(ts[0].cmd) && AllTaken(play, ts[1..], play(ts[0].cmd, s).ending.rest))
  }

  lemma {:induction false} TakenAtMost(play: Play, ts: seq<Turn>, s: bytes)
    ensures |TakenData(play, ts, s)| <= |Payloads(ts)|
    decreases |ts|
  {
    if ts != [] {
      TakenAtMost(play, ts[1..], play(ts[0].cmd, s).ending.rest);
    }
  }

  lemma {:induction false} TakenIff(play: Play, ts: seq<Turn>, s: bytes)
    ensures TakenData(play, ts, s) == Payloads(ts) <==> AllTaken(play, ts, s)
    decreases |ts|
  {
    if ts != [] {
      var c, e := ts[0].cmd, play(ts[0].cmd, s).ending;
      TakenIff(play, ts[1..], e.rest);
      TakenAtMost(play, ts[1..], e.rest);
      var n := Min(e.sent, Lc(c));
      if n == Lc(c) {
        assert Data(c)[..n] == Data(c);
        Cancel(Data(c), TakenData(play, ts[1..], e.rest), Payloads(ts[1..]));
      }
    }
  }

  lemma {:induction false} Cancel(a: bytes, b: bytes, c: bytes)
    ensures a + b == a + c <==> b == c
  {
    assert (a + b)[|a|..] == b && (a + c)[|a|..] == c;
  }

  /** In some schedule of the card's bytes the exchange of a sending command has an ACK, or a ~ACK for every data
      byte. */
  ghost predicate Acknowledged(c: Cmd, s: bytes) {
    && CaseOf(c) == Case2S && Exchange(c, s).Complete?
    && exists es :: Explains(TpduOf(c), es, s, START, Exchange(c, s)) && Demands(es, Lc(c))
  }

  lemma {:induction false} TakenIfAcknowledged(c: Cmd, s: bytes)
    requires CaseOf(c) == Case2S && Exchange(c, s).Complete?
    ensures Exchange(c, s).sent == Lc(c) <==> Acknowledged(c, s)
  {
    var es := CompleteIsSchedule(TpduOf(c), s, START);
    SentByDemand(TpduOf(c), es);
    if Acknowledged(c, s) {
      var fs :| Explains(TpduOf(c), fs, s, START, Exchange(c, s)) && Demands(fs, Lc(c));
      SentByDemand(TpduOf(c), fs);
    }
  }

  /** So it is with every exchange. */
  ghost predicate AllAcknowledged(ts: seq<Turn>, s: bytes)
    decreases |ts|
  {
    ts == [] || (Acknowledged(ts[0].cmd, s) && AllAcknowledged(ts[1..], Played(ts[0].cmd, s).ending.rest))
  }

  lemma {:induction false} TakenByAcknowledgement(ts: seq<Turn>, s: bytes)
    requires Heard(Played, ts, s) && forall i | 0 <= i < |ts| :: CaseOf(ts[i].cmd) == Case2S && ts[i].answer.Some?
    ensures AllTaken(Played, ts, s) <==> AllAcknowledged(ts, s)
    decreases |ts|
  {
    if ts != [] {
      TakenIfAcknowledged(ts[0].cmd, s);
      TakenByAcknowledgement(ts[1..], Played(ts[0].cmd, s).ending.rest);
    }
  }

  /** A card that answered every envelope 90xx has taken the whole raw command if and only if it acknowledged
      every envelope with an ACK, or with a ~ACK for every byte of it. */
  lemma {:induction false} EnvelopeTakenIff(raw: Cmd, ts: seq<Turn>, ret: Code, r: bytes, s: bytes)
    requires Enveloped(raw, ts, ret, r) && Affirmed(ts, |ts| - 1) && Heard(Played, ts, s)
    ensures TakenData(Played, ts, s) == raw <==> AllAcknowledged(ts, s)
  {
    EnvelopeTransfer(raw, ts, ret, r);
    TakenIff(Played, ts, s);
    forall i | 0 <= i < |ts|
      ensures CaseOf(ts[i].cmd) == Case2S && ts[i].answer.Some?
    {
      assert Carries(raw, ts, i) && Affirmed(ts, i);
      EnvelopeSends(raw[0], Segment(raw, i));
    }
    TakenByAcknowledgement(ts, s);
  }

  /** It need not: any exchange completes with a status alone, although no data byte was taken. */
  lemma {:induction false} StatusAlone(c: Cmd, sw: bytes, rest: bytes)
    requires Transportable(c) && |sw| == 2 && IsSw1(sw[0])
    ensures Played(c, sw + rest) == Scene(Complete(sw, 0, rest), c[..5])
  {
    var s := sw + rest;
    assert s[..2] == sw && s[2..] == rest;
    assert c[..5] + [] == c[..5] && [] + sw == sw;
  }

  // ----- an announced answer without data -----

  lemma {:induction false} EmptyChainHeard(play: Play, c: Cmd, le: nat, ts: seq<Turn>, ret: Code, r: bytes, x: byte, sw: bytes, s: bytes)
    requires ShortReceive(c, le, ts, ret, r) && |sw| == 2 && Heard(play, ts, s)
    requires play(c, s).ending.Complete? && play(c, s).ending.reply == [0x61, x]
    requires var e := play(GetResponse(c[0], x), play(c, s).ending.rest).ending;
             e.Complete? && e.reply == sw
    ensures ret != Ok && |ts| == 2 && ts[1].answer.Some?
    ensures Left(play, ts, s) == play(GetResponse(c[0], x), play(c, s).ending.rest).ending.rest
  {
    assert ts[..0] == [] && ts[..1] == [ts[0]];
    HeardAt(play, ts, s, 0);
    assert ts[0].answer == Some([0x61, x]);
    assert Announced(c[0], ts, 0);
    HeardAt(play, ts, s, 1);
    EmptyChainRefused(c, le, ts, ret, r, x, sw);
    assert ts[..2] == ts;
  }

  /** The card answers 61xx and the GET RESPONSE after it with a status alone: the driver reports an error. */
  lemma {:induction false} EmptyChainFails(c: Cmd, ts: seq<Turn>, ret: Code, r: bytes, x: byte, sw: bytes, rest: bytes)
    requires CaseOf(c) == Case3S && ShortReceive(c, Le(c), ts, ret, r) && |sw| == 2 && IsSw1(sw[0])
    requires Heard(Played, ts, [0x61, x] + (sw + rest))
    ensures ret != Ok && |ts| == 2 && ts[1].answer.Some? && Left(Played, ts, [0x61, x] + (sw + rest)) == rest
  {
    StatusAlone(c, [0x61, x], sw + rest);
    ReceiveTpdu(GetResponse(c[0], x));
    StatusAlone(GetResponse(c[0], x), sw, rest);
    EmptyChainHeard(Played, c, Le(c), ts, ret, r, x, sw, [0x61, x] + (sw + rest));
  }
}
