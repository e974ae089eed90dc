/** What travels on the line during one T=0 exchange: a function of the bytes the card sends,
    and the procedure-byte schedules of section 10.3.3 of ISO/IEC 7816-3:2006 that it accepts. */
module T0Wire {
  import opened Bytes
  import opened Apdu

  const MAX_NULLS := 200
  const MAX_SHORT_RESPONSE := 258

  datatype Code = Ok | NullError | IccError | Error

  /** The facts of a TPDU that steer an exchange: 2S sends lc bytes, 3S receives le. */
  datatype Tpdu = Sending(ins: byte, lc: nat) | Receiving(ins: byte, le: nat)

  predicate Transportable(c: Cmd) { CaseOf(c) == Case2S || CaseOf(c) == Case3S }

  function TpduOf(c: Cmd): (t: Tpdu)
    requires Transportable(c)
    ensures t.Receiving? ==> 1 <= t.le <= 256
    ensures t.Sending? ==> 1 <= t.lc <= 255 && |c| == 5 + t.lc
  {
    if CaseOf(c) == Case2S then Sending(c[1], Lc(c)) else Receiving(c[1], Le(c))
  }

  // ----- procedure bytes -----

  const NULL: byte := 0x60

  predicate IsSw1(p: byte) { p != NULL && (p / 16 == 6 || p / 16 == 9) }

  predicate IsAck(ins: byte, p: byte) { p / 16 != 6 && p / 16 != 9 && p / 2 % 8 == ins / 2 % 8 }

  predicate IsNotAck(ins: byte, p: byte) { p / 16 != 6 && p / 16 != 9 && p / 2 % 8 == 7 - ins / 2 % 8 }

  // ----- the run of an exchange over a card's bytes -----

  /** The loop state: NULLs since the last acknowledgement, data bytes sent, reply bytes kept. */
  datatype Progress = Progress(nulls: nat, sent: nat, buf: bytes)

  const START := Progress(0, 0, [])

  /** How an exchange ends: with the reply buffer or a code, after `sent` data bytes went out,
      leaving `rest` of the card's bytes unread. */
  datatype Ending =
    | Complete(reply: bytes, sent: nat, rest: bytes)
    | Failed(code: Code, sent: nat, rest: bytes)

  /** An ACK fills the reply up to le bytes; what was kept beyond le is dropped. */
  function Fill(le: nat, buf: bytes, data: bytes): bytes {
    if |buf| < le then buf + data else buf[..le]
  }

  /** One pass of the procedure byte loop: the exchange is over, or goes on with the rest of the bytes. */
  datatype Pass = Over(e: Ending) | Next(s: bytes, g: Progress)

  /** After an ACK all remaining data bytes change hands, after a ~ACK (`single`) only the next one. */
  function Move(t: Tpdu, single: bool, s: bytes, g: Progress): (p: Pass)
    ensures if p.Next? then |p.s| <= |s| else |p.e.rest| <= |s|
  {
    if t.Sending? then
      if g.sent >= t.lc then Over(Failed(Error, g.sent, s))
      else Next(s, Progress(0, if single then g.sent + 1 else t.lc, g.buf))
    else
      var n := if single then 1 else Max(t.le - |g.buf|, 0);
      if |s| < n then Over(Failed(IccError, g.sent, s))
      else Next(s[n..], Progress(0, g.sent, if single then g.buf + s[..1] else Fill(t.le, g.buf, s[..n])))
  }

  function Advance(t: Tpdu, s: bytes, g: Progress): (p: Pass)
    ensures p.Next? ==> |p.s| < |s|
    ensures p.Over? ==> |p.e.rest| <= |s| && (s != [] && |g.buf| < MAX_SHORT_RESPONSE ==> |p.e.rest| < |s|)
  {
    if |g.buf| >= MAX_SHORT_RESPONSE then Over(Complete(g.buf, g.sent, s))
    else if s == [] then Over(Failed(IccError, g.sent, s))
    else if s[0] == NULL then
      if g.nulls + 1 >= MAX_NULLS then Over(Failed(NullError, g.sent, s[1..]))
      else Next(s[1..], g.(nulls := g.nulls + 1))
    else if IsSw1(s[0]) then
      if |g.buf| + 1 >= MAX_SHORT_RESPONSE then Over(Failed(Error, g.sent, s[1..]))
      else if |s| < 2 then Over(Failed(IccError, g.sent, s[1..]))
      else Over(Complete(g.buf + s[..2], g.sent, s[2..]))
    else if IsAck(t.ins, s[0]) then Move(t, false, s[1..], g)
    else if IsNotAck(t.ins, s[0]) then Move(t, true, s[1..], g)
    else Over(Failed(Error, g.sent, s[1..]))
  }

  /** The loop over all of the card's bytes. */
  function Run(t: Tpdu, s: bytes, g: Progress): (e: Ending)
    ensures |e.rest| <= |s|
    ensures s != [] && |g.buf| < MAX_SHORT_RESPONSE ==> |e.rest| < |s|
    ensures t.Sending? && g.sent <= t.lc ==> e.sent <= t.lc
    ensures t.Receiving? ==> e.sent == g.sent
    decreases |s|
  {
    match Advance(t, s, g)
    case Over(e) => e
    case Next(s', g') => Run(t, s', g')
  }

  /** The whole exchange of one TPDU. */
  function Exchange(c: Cmd, s: bytes): (e: Ending)
    requires Transportable(c)
    ensures e.sent <= Lc(c)
  {
    Run(TpduOf(c), s, START)
  }

  /** Against any card, however long it goes on, a sending exchange reads at most
      200 * (Lc + 1) procedure bytes and one SW2. */
  lemma {:induction false} SendReadsBounded(t: Tpdu, s: bytes, g: Progress)
    requires t.Sending? && g.sent <= t.lc && g.nulls < MAX_NULLS && g.buf == []
    ensures |s| - |Run(t, s, g).rest| <= MAX_NULLS * (t.lc - g.sent + 1) - g.nulls + 1
    ensures g.sent <= Run(t, s, g).sent <= t.lc
    decreases |s|
  {
    match Advance(t, s, g)
    case Over(_) =>
    case Next(s', g') => SendReadsBounded(t, s', g');
  }

  // ----- schedules -----

  /** One procedure byte of the card with the data bytes that follow it, if any. */
  datatype Event = Null | Ack(proc: byte, data: bytes) | Single(proc: byte, data: bytes)

  function Line(e: Event): bytes {
    match e
    case Null => [NULL]
    case Ack(p, d) => [p] + d
    case Single(p, d) => [p] + d
  }

  /** The card's bytes for a schedule. */
  function Render(es: seq<Event>): bytes {
    if es == [] then [] else Line(es[0]) + Render(es[1..])
  }

  function Delivered(e: Event): bytes { if e.Null? then [] else e.data }

  /** The data bytes a schedule delivers, in order and without any procedure byte. */
  function Payload(es: seq<Event>): bytes {
    if es == [] then [] else Delivered(es[0]) + Payload(es[1..])
  }

  /** Fewer than 200 NULLs in a row; an ACK delivers all that is missing to le, a ~ACK one byte;
      neither is sent once all data of a sending command has gone out. */
  predicate Enabled(t: Tpdu, e: Event, g: Progress) {
    && |g.buf| < MAX_SHORT_RESPONSE
    && match e
       case Null => g.nulls + 1 < MAX_NULLS
       case Ack(p, d) => IsAck(t.ins, p) && if t.Sending? then g.sent < t.lc && d == [] else |d| == Max(t.le - |g.buf|, 0)
       case Single(p, d) => IsNotAck(t.ins, p) && if t.Sending? then g.sent < t.lc && d == [] else |d| == 1
  }

  function Step(t: Tpdu, e: Event, g: Progress): Progress {
    match e
    case Null => g.(nulls := g.nulls + 1)
    case Ack(_, d) => if t.Sending? then Progress(0, t.lc, g.buf) else Progress(0, g.sent, Fill(t.le, g.buf, d))
    case Single(_, d) => if t.Sending? then Progress(0, g.sent + 1, g.buf) else Progress(0, g.sent, g.buf + d)
  }

  predicate Accepts(t: Tpdu, es: seq<Event>, g: Progress)
    decreases |es|
  {
    es == [] || (Enabled(t, es[0], g) && Accepts(t, es[1..], Step(t, es[0], g)))
  }

  function After(t: Tpdu, es: seq<Event>, g: Progress): Progress
    decreases |es|
  {
    if es == [] then g else After(t, es[1..], Step(t, es[0], g))
  }

  lemma {:induction false} AdvanceEvent(t: Tpdu, e: Event, g: Progress, tail: bytes)
    requires Enabled(t, e, g)
    ensures Advance(t, Line(e) + tail, g) == Next(tail, Step(t, e, g))
  {
    var s := Line(e) + tail;
    match e
    case Null =>
      assert s[1..] == tail;
    case Ack(p, d) =>
      assert s[1..] == d + tail;
    case Single(p, d) =>
      assert s[1..] == d + tail;
  }

  /** Following a schedule the driver goes through exactly the states of that schedule. */
  lemma {:induction false} RunRender(t: Tpdu, es: seq<Event>, g: Progress, tail: bytes)
    requires Accepts(t, es, g)
    ensures Run(t, Render(es) + tail, g) == Run(t, tail, After(t, es, g))
    decreases |es|
  {
    if es == [] {
      assert Render(es) + tail == tail;
    } else {
      assert Render(es) + tail == Line(es[0]) + (Render(es[1..]) + tail);
      AdvanceEvent(t, es[0], g, Render(es[1..]) + tail);
      RunRender(t, es[1..], Step(t, es[0], g), tail);
    }
  }

  /** Every schedule that leaves room for the status and ends in SW1 SW2 is answered with what was
      kept and that status, and nothing more is read. */
  lemma {:induction false} ScheduleCompletes(t: Tpdu, es: seq<Event>, g: Progress, sw: bytes, rest: bytes)
    requires Accepts(t, es, g) && |sw| == 2 && IsSw1(sw[0])
    requires |After(t, es, g).buf| + 2 <= MAX_SHORT_RESPONSE
    ensures var k := After(t, es, g);
            Run(t, Render(es) + sw + rest, g) == Complete(k.buf + sw, k.sent, rest)
  {
    RunRender(t, es, g, sw + rest);
    assert Render(es) + (sw + rest) == Render(es) + sw + rest;
    var tail := sw + rest;
    assert tail[..2] == sw && tail[2..] == rest;
  }

  /** How a completed run reads as a schedule: the reply is what was kept followed by SW1 SW2, or,
      when single bytes have filled the whole buffer, the 258 bytes kept and no status at all. */
  predicate Explains(t: Tpdu, es: seq<Event>, s: bytes, g: Progress, e: Ending)
    requires e.Complete?
  {
    var k := After(t, es, g);
    && Accepts(t, es, g)
    && e.sent == k.sent
    && if |k.buf| >= MAX_SHORT_RESPONSE then s == Render(es) + e.rest && e.reply == k.buf
       else |e.reply| == |k.buf| + 2 <= MAX_SHORT_RESPONSE
            && e.reply[..|k.buf|] == k.buf && IsSw1(e.reply[|k.buf|])
            && s == Render(es) + e.reply[|k.buf|..] + e.rest
  }

  /** A pass that goes on has read one event. */
  lemma {:induction false} PassIsEvent(t: Tpdu, s: bytes, g: Progress) returns (e: Event)
    requires Advance(t, s, g).Next?
    ensures var p := Advance(t, s, g);
            Enabled(t, e, g) && s == Line(e) + p.s && p.g == Step(t, e, g)
  {
    if s[0] == NULL {
      e := Null;
    } else {
      var single := !IsAck(t.ins, s[0]);
      var n := if t.Sending? then 0 else if single then 1 else Max(t.le - |g.buf|, 0);
      e := if single then Single(s[0], s[1..][..n]) else Ack(s[0], s[1..][..n]);
      assert s == [s[0]] + s[1..][..n] + s[1..][n..];
    }
  }

  /** Conversely, whatever the card sent, a completed run followed a schedule. */
  lemma {:induction false} CompleteIsSchedule(t: Tpdu, s: bytes, g: Progress) returns (es: seq<Event>)
    requires Run(t, s, g).Complete?
    ensures Explains(t, es, s, g, Run(t, s, g))
    decreases |s|
  {
    match Advance(t, s, g)
    case Over(e) =>
      es := [];
      assert Render([]) == [];
      if |g.buf| < MAX_SHORT_RESPONSE {
        assert e.reply[|g.buf|..] == s[..2] && s == [] + s[..2] + s[2..];
      } else {
        assert s == [] + s;
      }
    case Next(s', g') =>
      var first := PassIsEvent(t, s, g);
      var es' := CompleteIsSchedule(t, s', g');
      Prepend(t, first, es', s', g, Run(t, s, g));
      es := [first] + es';
  }

  lemma {:induction false} Prepend(t: Tpdu, first: Event, es: seq<Event>, s: bytes, g: Progress, e: Ending)
    requires e.Complete? && Enabled(t, first, g) && Explains(t, es, s, Step(t, first, g), e)
    ensures Explains(t, [first] + es, Line(first) + s, g, e)
  {
    var all := [first] + es;
    assert all[0] == first && all[1..] == es;
    var k := After(t, all, g);
    assert k == After(t, es, Step(t, first, g)) && Accepts(t, all, g);
    var tail := if |k.buf| >= MAX_SHORT_RESPONSE then [] else e.reply[|k.buf|..];
    Associate(Line(first), Render(es), tail);
    Associate(Line(first), Render(es) + tail, e.rest);
    assert Render(es) + [] == Render(es) && Render(all) + [] == Render(all);
  }

  // ----- what the schedules mean -----

  /** A card that delivers no more than le data bytes has every one of them kept, in order. */
  lemma {:induction false} KeptIsPayload(t: Tpdu, es: seq<Event>, g: Progress)
    requires t.Receiving? && |g.buf| + |Payload(es)| <= t.le
    ensures After(t, es, g).buf == g.buf + Payload(es)
    decreases |es|
  {
    if es != [] {
      KeptIsPayload(t, es[1..], Step(t, es[0], g));
    }
  }

  /** The bytes kept while sending are none. */
  lemma {:induction false} SendKeepsNothing(t: Tpdu, es: seq<Event>, g: Progress)
    requires t.Sending?
    ensures After(t, es, g).buf == g.buf
    decreases |es|
  {
    if es != [] {
      SendKeepsNothing(t, es[1..], Step(t, es[0], g));
    }
  }

  function SinglesIn(es: seq<Event>): nat {
    if es == [] then 0 else (if es[0].Single? then 1 else 0) + SinglesIn(es[1..])
  }

  predicate HasAck(es: seq<Event>) { exists i :: 0 <= i < |es| && es[i].Ack? }

  /** The schedule calls for all of n data bytes: by an ACK, or by a ~ACK for each. */
  predicate Demands(es: seq<Event>, n: nat) { HasAck(es) || SinglesIn(es) >= n }

  lemma {:induction false} SentSteps(t: Tpdu, es: seq<Event>, g: Progress)
    requires t.Sending? && Accepts(t, es, g) && g.sent <= t.lc
    ensures After(t, es, g).sent == if HasAck(es) then t.lc else g.sent + SinglesIn(es)
    ensures After(t, es, g).sent <= t.lc
    decreases |es|
  {
    if es != [] {
      var g' := Step(t, es[0], g);
      SentSteps(t, es[1..], g');
      assert HasAck(es) <==> es[0].Ack? || HasAck(es[1..]) by {
        if HasAck(es[1..]) {
          var i :| 0 <= i < |es[1..]| && es[1..][i].Ack?;
          assert es[i + 1].Ack?;
        }
        if i :| 0 < i < |es| && es[i].Ack? {
          assert es[1..][i - 1].Ack?;
        }
      }
      if es[0].Ack? && |es| > 1 {
        AckedAll(t, es[1..], g');
      }
    }
  }

  /** Once all data has gone out only NULLs are accepted. */
  lemma {:induction false} AckedAll(t: Tpdu, es: seq<Event>, g: Progress)
    requires t.Sending? && Accepts(t, es, g) && g.sent == t.lc
    ensures After(t, es, g).sent == t.lc
    decreases |es|
  {
    if es != [] {
      AckedAll(t, es[1..], Step(t, es[0], g));
    }
  }

  /** A schedule of a sending command takes all its data if and only if it calls for all of it. */
  lemma {:induction false} SentByDemand(t: Tpdu, es: seq<Event>)
    requires t.Sending? && Accepts(t, es, START)
    ensures After(t, es, START).sent == t.lc <==> Demands(es, t.lc)
  {
    SentSteps(t, es, START);
  }

  /** Receiving does not depend on the schedule: whatever mix of NULL, ACK and ~ACK delivers at most
      le data bytes, the reply is those bytes in order and then SW1 SW2. */
  lemma {:induction false} ReceiveScheduleIndependent(t: Tpdu, es: seq<Event>, sw: bytes, rest: bytes)
    requires t.Receiving? && t.le <= 256 && Accepts(t, es, START) && |Payload(es)| <= t.le
    requires |sw| == 2 && IsSw1(sw[0])
    ensures Run(t, Render(es) + sw + rest, START) == Complete(Payload(es) + sw, 0, rest)
  {
    assert After(t, es, START).buf == Payload(es) by {
      KeptIsPayload(t, es, START);
    }
    SentUnchanged(t, es, START);
    ScheduleCompletes(t, es, START, sw, rest);
  }

  lemma {:induction false} SentUnchanged(t: Tpdu, es: seq<Event>, g: Progress)
    requires t.Receiving?
    ensures After(t, es, g).sent == g.sent
    decreases |es|
  {
    if es != [] {
      SentUnchanged(t, es[1..], Step(t, es[0], g));
    }
  }

  /** A sending exchange that completes answers exactly SW1 SW2. */
  lemma {:induction false} SendAnswersStatus(t: Tpdu, s: bytes)
    requires t.Sending? && Run(t, s, START).Complete?
    ensures |Run(t, s, START).reply| == 2 && IsSw1(Run(t, s, START).reply[0])
  {
    var es := CompleteIsSchedule(t, s, START);
    SendKeepsNothing(t, es, START);
  }

  /** A completed exchange has a reply of at least two bytes, read from the card. */
  lemma {:induction false} CompleteHasStatus(t: Tpdu, s: bytes)
    requires Run(t, s, START).Complete?
    ensures 2 <= |Run(t, s, START).reply| && |Run(t, s, START).rest| < |s|
  {
    var es := CompleteIsSchedule(t, s, START);
    if |After(t, es, START).buf| >= MAX_SHORT_RESPONSE {
      assert es != [] && |Line(es[0])| > 0;
    }
  }

  // ----- beyond le -----

  /** No ACK arrives when more than le bytes have been delivered. */
  predicate NoLateAck(le: nat, es: seq<Event>, got: nat)
    decreases |es|
  {
    es == [] || ((es[0].Ack? ==> got <= le) && NoLateAck(le, es[1..], got + |Delivered(es[0])|))
  }

  lemma {:induction false} KeptAtMostDelivered(t: Tpdu, es: seq<Event>, g: Progress)
    requires t.Receiving?
    ensures |After(t, es, g).buf| <= |g.buf| + |Payload(es)|
    decreases |es|
  {
    if es != [] {
      KeptAtMostDelivered(t, es[1..], Step(t, es[0], g));
    }
  }

  lemma {:induction false} KeptWithoutLateAck(t: Tpdu, es: seq<Event>, g: Progress)
    requires t.Receiving? && Accepts(t, es, g) && NoLateAck(t.le, es, |g.buf|)
    ensures After(t, es, g).buf == g.buf + Payload(es)
    decreases |es|
  {
    if es == [] {
      assert g.buf + Payload(es) == g.buf;
    } else {
      var g' := Step(t, es[0], g);
      assert g'.buf == g.buf + Delivered(es[0]);
      KeptWithoutLateAck(t, es[1..], g');
      Associate(g.buf, Delivered(es[0]), Payload(es[1..]));
    }
  }

  lemma {:induction false} LostByLateAck(t: Tpdu, es: seq<Event>, g: Progress)
    requires t.Receiving? && Accepts(t, es, g) && !NoLateAck(t.le, es, |g.buf|)
    ensures |After(t, es, g).buf| < |g.buf| + |Payload(es)|
    decreases |es|
  {
    var g' := Step(t, es[0], g);
    if es[0].Ack? && |g.buf| > t.le {
      KeptAtMostDelivered(t, es[1..], g');
    } else {
      assert |g'.buf| == |g.buf| + |Delivered(es[0])|;
      LostByLateAck(t, es[1..], g');
    }
  }

  /** The driver does not compare what single bytes deliver with le. All that was delivered is kept
      if and only if no ACK follows the surplus. */
  lemma {:induction false} KeptIffNoLateAck(t: Tpdu, es: seq<Event>, g: Progress)
    requires t.Receiving? && Accepts(t, es, g)
    ensures After(t, es, g).buf == g.buf + Payload(es) <==> NoLateAck(t.le, es, |g.buf|)
  {
    if NoLateAck(t.le, es, |g.buf|) {
      KeptWithoutLateAck(t, es, g);
    } else {
      LostByLateAck(t, es, g);
    }
  }

  /** A card that follows a schedule and then sends a status gets its bytes returned, in order and with that
      status, if and only if no ACK comes late and it delivered no more than 256 bytes. */
  lemma {:induction false} ReplyIsPayloadIff(t: Tpdu, es: seq<Event>, sw: bytes, rest: bytes)
    requires t.Receiving? && t.le <= 256 && Accepts(t, es, START) && |sw| == 2 && IsSw1(sw[0])
    ensures Run(t, Render(es) + sw + rest, START) == Complete(Payload(es) + sw, 0, rest)
            <==> NoLateAck(t.le, es, 0) && |Payload(es)| <= 256
  {
    var k, tail := After(t, es, START), sw + rest;
    KeptIffNoLateAck(t, es, START);
    SentUnchanged(t, es, START);
    RunRender(t, es, START, tail);
    assert Render(es) + sw + rest == Render(es) + tail && tail[..2] == sw && tail[2..] == rest;
    assert [] + Payload(es) == Payload(es);
    assert (k.buf + sw)[..|k.buf + sw| - 2] == k.buf;
    assert (Payload(es) + sw)[..|Payload(es) + sw| - 2] == Payload(es);
  }

  /** READ BINARY with le == 1: of two bytes delivered one by one an ACK drops the second. */
  lemma {:induction false} LateAckLosesByte(x: byte, y: byte) returns (es: seq<Event>)
    ensures var t := Receiving(0xB0, 1);
            && Accepts(t, es, START) && Payload(es) == [x, y]
            && Run(t, Render(es) + [0x90, 0x00] + [], START) == Complete([x, 0x90, 0x00], 0, [])
  {
    var t, e, f, a := Receiving(0xB0, 1), Single(0x4F, [x]), Single(0x4F, [y]), Ack(0xB0, []);
    es := [e, f, a];
    assert es[1..] == [f, a] && [f, a][1..] == [a] && [a][1..] == [];
    var g1 := Step(t, e, START);
    var g2 := Step(t, f, g1);
    assert g1.buf == [x] && g2.buf == [x, y];
    assert Enabled(t, e, START) && Enabled(t, f, g1) && Enabled(t, a, g2);
    assert Accepts(t, [a], g2) && Accepts(t, [f, a], g1);
    assert Payload([a]) == [] && Payload([f, a]) == [y];
    assert Step(t, a, g2).buf == [x] && After(t, es, START) == After(t, [f, a], g1) == After(t, [a], g2) == Step(t, a, g2);
    ScheduleCompletes(t, es, START, [0x90, 0x00], []);
  }

  /** A byte delivered n times by ~ACK. */
  function Singles(x: byte, n: nat): seq<Event> {
    if n == 0 then [] else [Single(0x4F, [x])] + Singles(x, n - 1)
  }

  lemma {:induction false} SinglesKept(t: Tpdu, x: byte, n: nat, g: Progress)
    requires t == Receiving(0xB0, 1) && |g.buf| + n <= MAX_SHORT_RESPONSE
    ensures Accepts(t, Singles(x, n), g) && |Payload(Singles(x, n))| == n && NoLateAck(1, Singles(x, n), |g.buf|)
    ensures |After(t, Singles(x, n), g).buf| == |g.buf| + n
    decreases n
  {
    if n > 0 {
      assert Singles(x, n)[1..] == Singles(x, n - 1);
      SinglesKept(t, x, n - 1, Step(t, Single(0x4F, [x]), g));
    }
  }

  /** And 257 bytes delivered one by one leave no room for the status: the exchange fails. */
  lemma {:induction false} CrowdedReplyFails(x: byte)
    ensures var t := Receiving(0xB0, 1);
            && Accepts(t, Singles(x, 257), START) && NoLateAck(1, Singles(x, 257), 0)
            && Run(t, Render(Singles(x, 257)) + [0x90, 0x00], START) == Failed(Error, 0, [0x00])
  {
    var t, es := Receiving(0xB0, 1), Singles(x, 257);
    SinglesKept(t, x, 257, START);
    SentUnchanged(t, es, START);
    RunRender(t, es, START, [0x90, 0x00]);
  }
}
