/** A T=0 card of section 10.3.3 of ISO/IEC 7816-3:2006, by the bytes that it sends: what the driver makes of it, and
    what it sends to it. */
module T0Card {
  import opened Bytes
  import opened Apdu
  import opened T0Wire
  import opened T0Mapping
  import opened T0Dialogue
  import opened T0Script

  /** How a card goes on: it asks for time, for all the data that is left, or for one byte. */
  datatype Sign = Wait | All | One

  /** Instructions that are told apart from a status. */
  predicate Usable(ins: byte) { !(0x60 <= ins <= 0x6F) && !(0x90 <= ins <= 0x9F) }

  predicate IsStatus(sw: bytes) { |sw| == 2 && (0x61 <= sw[0] <= 0x6F || 0x90 <= sw[0] <= 0x9F) }

  lemma StatusStarts(sw: bytes)
    requires IsStatus(sw)
    ensures IsSw1(sw[0])
  {
  }

  /** The instruction byte acknowledges all the data, its complement one byte. */
  lemma {:induction false} SignBytes(ins: byte)
    requires Usable(ins)
    ensures IsAck(ins, ins) && IsNotAck(ins, 255 - ins)
  {
    ComplementNibble(ins);
    ComplementMiddle(ins);
  }

  lemma ComplementNibble(ins: byte)
    ensures (255 - ins) / 16 == 15 - ins / 16
  {
  }

  lemma ComplementMiddle(ins: byte)
    ensures (255 - ins) / 2 % 8 == 7 - ins / 2 % 8
  {
  }

  // ----- delivering -----

  /** What a card sends to deliver data by these signs. */
  function Delivering(ins: byte, signs: seq<Sign>, data: bytes): bytes
    decreases |signs|
  {
    if signs == [] then []
    else match signs[0]
      case Wait => [0x60] + Delivering(ins, signs[1..], data)
      case All => [ins] + data + Delivering(ins, signs[1..], [])
      case One => [255 - ins] + data[..Min(1, |data|)] + Delivering(ins, signs[1..], data[Min(1, |data|)..])
  }

  /** The signs deliver just n bytes, all at once only if the command gets what it asks for, and ask for time fewer
      than 200 times in a row. */
  predicate Delivers(signs: seq<Sign>, n: nat, full: bool, waits: nat)
    decreases |signs|
  {
    if signs == [] then n == 0
    else match signs[0]
      case Wait => waits < 199 && Delivers(signs[1..], n, full, waits + 1)
      case All => full && Delivers(signs[1..], 0, full, 0)
      case One => n > 0 && Delivers(signs[1..], n - 1, full, 0)
  }

  function Deliveries(ins: byte, signs: seq<Sign>, data: bytes): seq<Event>
    decreases |signs|
  {
    if signs == [] then []
    else match signs[0]
      case Wait => [Null] + Deliveries(ins, signs[1..], data)
      case All => [Ack(ins, data)] + Deliveries(ins, signs[1..], [])
      case One => [Single(255 - ins, data[..Min(1, |data|)])] + Deliveries(ins, signs[1..], data[Min(1, |data|)..])
  }

  /** A schedule that is accepted and sends this line; what it delivers, keeps and sends. */
  ghost predicate Accord(t: Tpdu, es: seq<Event>, line: bytes, g: Progress, data: bytes, buf: bytes, sent: nat) {
    && Accepts(t, es, g) && Render(es) == line && Payload(es) == data
    && After(t, es, g).buf == buf && After(t, es, g).sent == sent
  }

  lemma {:induction false} AccordFirst(t: Tpdu, e: Event, es: seq<Event>, line: bytes, g: Progress, data: bytes, buf: bytes, sent: nat)
    requires Enabled(t, e, g) && Accord(t, es, line, Step(t, e, g), data, buf, sent)
    ensures Accord(t, [e] + es, T0Wire.Line(e) + line, g, Delivered(e) + data, buf, sent)
  {
    assert ([e] + es)[1..] == es;
  }

  lemma {:induction false} DeliveryAccepted(t: Tpdu, signs: seq<Sign>, data: bytes, full: bool, g: Progress)
    requires t.Receiving? && t.le <= 256 && Usable(t.ins) && |g.buf| + |data| <= t.le && (full ==> |g.buf| + |data| == t.le)
    requires Delivers(signs, |data|, full, g.nulls)
    ensures Accord(t, Deliveries(t.ins, signs, data), Delivering(t.ins, signs, data), g, data, g.buf + data, g.sent)
    decreases |signs|
  {
    if signs == [] {
      assert data == [] && g.buf + data == g.buf;
    } else {
      match signs[0] {
        case Wait =>
          DeliveryAccepted(t, signs[1..], data, full, Step(t, Null, g));
          AccordFirst(t, Null, Deliveries(t.ins, signs[1..], data), Delivering(t.ins, signs[1..], data), g, data, g.buf + data, g.sent);
          assert [] + data == data;
        case All => AllDelivered(t, signs[1..], data, full, g);
        case One => OneDelivered(t, signs[1..], data, full, g);
      }
      assert [signs[0]] + signs[1..] == signs;
    }
  }

  lemma {:induction false} AllDelivered(t: Tpdu, tail: seq<Sign>, data: bytes, full: bool, g: Progress)
    requires t.Receiving? && t.le <= 256 && Usable(t.ins) && |g.buf| + |data| == t.le && full && Delivers(tail, 0, full, 0)
    ensures var signs := [All] + tail;
            Accord(t, Deliveries(t.ins, signs, data), Delivering(t.ins, signs, data), g, data, g.buf + data, g.sent)
    decreases |tail| + 1, 0
  {
    SignBytes(t.ins);
    var e := Ack(t.ins, data);
    var g' := Step(t, e, g);
    assert g'.buf == g.buf + data && g'.buf + [] == g'.buf && data + [] == data;
    DeliveryAccepted(t, tail, [], full, g');
    AccordFirst(t, e, Deliveries(t.ins, tail, []), Delivering(t.ins, tail, []), g, [], g.buf + data, g.sent);
    assert ([All] + tail)[1..] == tail;
  }

  lemma {:induction false} OneDelivered(t: Tpdu, tail: seq<Sign>, data: bytes, full: bool, g: Progress)
    requires t.Receiving? && t.le <= 256 && Usable(t.ins) && |g.buf| + |data| <= t.le && (full ==> |g.buf| + |data| == t.le)
    requires data != [] && Delivers(tail, |data| - 1, full, 0)
    ensures var signs := [One] + tail;
            Accord(t, Deliveries(t.ins, signs, data), Delivering(t.ins, signs, data), g, data, g.buf + data, g.sent)
    decreases |tail| + 1, 0
  {
    SignBytes(t.ins);
    var e, left := Single(255 - t.ins, data[..1]), data[1..];
    var g' := Step(t, e, g);
    assert data == data[..1] + left && g'.buf + left == g.buf + data;
    DeliveryAccepted(t, tail, left, full, g');
    AccordFirst(t, e, Deliveries(t.ins, tail, left), Delivering(t.ins, tail, left), g, left, g.buf + data, g.sent);
    assert ([One] + tail)[1..] == tail;
  }

  /** How many bytes P3 of a receiving command asks for. */
  function Asked(p3: byte): nat { if p3 == 0 then 256 else p3 }

  /** The card delivers data to a five-byte command and ends with a status. */
  ghost predicate Serving(c: Cmd, signs: seq<Sign>, data: bytes, sw: bytes) {
    && |c| == 5 && Usable(c[1]) && IsStatus(sw)
    && |data| <= Asked(c[4]) && Delivers(signs, |data|, |data| == Asked(c[4]), 0)
  }

  function Served(c: Cmd, signs: seq<Sign>, data: bytes, sw: bytes): Service {
    Service(Delivering(c[1], signs, data) + sw, data, sw)
  }

  /** Whatever follows, the exchange completes with those bytes and the status, and just the command goes out. */
  lemma {:induction false} CardServes(c: Cmd, signs: seq<Sign>, data: bytes, sw: bytes)
    requires Serving(c, signs, data, sw)
    ensures Serves(Played, c, Served(c, signs, data, sw))
  {
    ReceiveTpdu(c);
    StatusStarts(sw);
    DeliveryAccepted(TpduOf(c), signs, data, |data| == Asked(c[4]), START);
    ScheduleServes(c, Deliveries(c[1], signs, data), sw);
  }

  /** All at once. */
  lemma {:induction false} AckReceives(ins: byte, data: bytes, sw: bytes, rest: bytes)
    requires Usable(ins) && 1 <= |data| <= 256 && IsStatus(sw)
    ensures Run(Receiving(ins, |data|), [ins] + data + sw + rest, START) == Complete(data + sw, 0, rest)
  {
    var t, e := Receiving(ins, |data|), Ack(ins, data);
    SignBytes(ins);
    StatusStarts(sw);
    AccordFirst(t, e, [], [], START, [], data, 0);
    assert [e] + [] == [e] && ([ins] + data) + [] == [ins] + data && data + [] == data;
    ReceiveScheduleIndependent(t, [e], sw, rest);
  }

  function Interleaved(p: byte, data: bytes): bytes {
    if data == [] then [] else [p, data[0]] + Interleaved(p, data[1..])
  }

  /** One by one. */
  lemma {:induction false} SinglesReceive(ins: byte, le: nat, data: bytes, sw: bytes, rest: bytes)
    requires Usable(ins) && |data| <= le <= 256 && IsStatus(sw)
    ensures Run(Receiving(ins, le), Interleaved(255 - ins, data) + sw + rest, START) == Complete(data + sw, 0, rest)
  {
    var signs := seq(|data|, _ => One);
    OnesDeliver(ins, data);
    StatusStarts(sw);
    DeliveryAccepted(Receiving(ins, le), signs, data, false, START);
    ReceiveScheduleIndependent(Receiving(ins, le), Deliveries(ins, signs, data), sw, rest);
  }

  lemma {:induction false} OnesDeliver(ins: byte, data: bytes)
    ensures var signs := seq(|data|, _ => One);
            Delivers(signs, |data|, false, 0) && Delivering(ins, signs, data) == Interleaved(255 - ins, data)
  {
    if data != [] {
      OnesDeliver(ins, data[1..]);
      var signs := seq(|data|, _ => One);
      assert signs[1..] == seq(|data[1..]|, _ => One);
      assert [255 - ins] + data[..1] == [255 - ins, data[0]];
    }
  }

  // ----- taking -----

  /** What a card sends to take data by these signs. */
  function Taking(ins: byte, signs: seq<Sign>): bytes {
    if signs == [] then []
    else [match signs[0] case Wait => 0x60 case All => ins case One => 255 - ins] + Taking(ins, signs[1..])
  }

  /** The signs ask for data only while some of the n bytes are left, and for time fewer than 200 times in a row. */
  predicate Calls(signs: seq<Sign>, n: nat, waits: nat)
    decreases |signs|
  {
    signs == [] || match signs[0]
      case Wait => waits < 199 && Calls(signs[1..], n, waits + 1)
      case All => n > 0 && Calls(signs[1..], 0, 0)
      case One => n > 0 && Calls(signs[1..], n - 1, 0)
  }

  /** How many of n bytes they ask for. */
  function Taken(signs: seq<Sign>, n: nat): (k: nat)
    ensures k <= n
    decreases |signs|
  {
    if signs == [] || n == 0 then 0
    else match signs[0]
      case Wait => Taken(signs[1..], n)
      case All => n
      case One => 1 + Taken(signs[1..], n - 1)
  }

  function Calling(ins: byte, signs: seq<Sign>): seq<Event> {
    if signs == [] then []
    else [CallOf(ins, signs[0])] + Calling(ins, signs[1..])
  }

  function CallOf(ins: byte, sign: Sign): Event {
    match sign case Wait => Null case All => Ack(ins, []) case One => Single(255 - ins, [])
  }

  /** The signs of a card that takes data are events of a schedule. */
  lemma {:induction false} CallStep(t: Tpdu, sign: Sign, g: Progress)
    requires t.Sending? && Usable(t.ins) && g.sent <= t.lc && |g.buf| < 258
    requires if sign.Wait? then g.nulls < 199 else g.sent < t.lc
    ensures var e := CallOf(t.ins, sign);
            && Enabled(t, e, g) && Delivered(e) == [] && T0Wire.Line(e) == [match sign case Wait => 0x60 case All => t.ins case One => 255 - t.ins]
            && Step(t, e, g) == (match sign case Wait => g.(nulls := g.nulls + 1) case All => Progress(0, t.lc, g.buf) case One => Progress(0, g.sent + 1, g.buf))
  {
    SignBytes(t.ins);
  }

  lemma {:induction false} CallsAccepted(t: Tpdu, signs: seq<Sign>, g: Progress)
    requires t.Sending? && Usable(t.ins) && g.sent <= t.lc && |g.buf| < 258 && Calls(signs, t.lc - g.sent, g.nulls)
    ensures Accord(t, Calling(t.ins, signs), Taking(t.ins, signs), g, [], g.buf, g.sent + Taken(signs, t.lc - g.sent))
    decreases |signs|
  {
    if signs != [] {
      CallStep(t, signs[0], g);
      var e, tail := CallOf(t.ins, signs[0]), signs[1..];
      var g' := Step(t, e, g);
      CallsAccepted(t, tail, g');
      NoneTaken(tail);
      AccordFirst(t, e, Calling(t.ins, tail), Taking(t.ins, tail), g, [], g.buf, g'.sent + Taken(tail, t.lc - g'.sent));
    }
  }

  lemma NoneTaken(signs: seq<Sign>)
    ensures Taken(signs, 0) == 0
  {
  }

  /** A command with data, by its bytes. */
  predicate Carrying(c: Cmd, data: bytes) {
    1 <= |data| <= 255 && |c| == 5 + |data| && c[4] == |data| && c[5..] == data
  }

  /** The card takes data of a command and ends with a status. */
  ghost predicate Accepting(c: Cmd, data: bytes, signs: seq<Sign>, sw: bytes) {
    Carrying(c, data) && Usable(c[1]) && IsStatus(sw) && Calls(signs, |data|, 0)
  }

  /** What a card does in one sending exchange: the bytes it sends, how many data bytes it takes, and the status. */
  datatype Receipt = Receipt(line: bytes, count: nat, sw: bytes)

  /** The exchange of a command goes that way, whatever the card sends after it. */
  ghost predicate Receives(play: Play, c: Cmd, p: Receipt) {
    |p.sw| == 2 && 5 + p.count <= |c| && forall rest :: play(c, p.line + rest) == Scene(Complete(p.sw, p.count, rest), c[..5 + p.count])
  }

  function Accepted(ins: byte, n: nat, signs: seq<Sign>, sw: bytes): Receipt {
    Receipt(Taking(ins, signs) + sw, Taken(signs, n), sw)
  }

  /** Whatever follows, the exchange completes with the status, and the header and the data asked for go out. */
  lemma {:induction false} CardTakes(c: Cmd, data: bytes, signs: seq<Sign>, sw: bytes)
    requires Accepting(c, data, signs, sw)
    ensures Receives(Played, c, Accepted(c[1], |data|, signs, sw))
  {
    var k, t := Taken(signs, |data|), Sending(c[1], |data|);
    CarryingSends(c, data);
    StatusStarts(sw);
    CallsAccepted(t, signs, START);
    TpduPrefix(c, k);
    forall rest
      ensures Played(c, Taking(c[1], signs) + sw + rest) == Scene(Complete(sw, k, rest), c[..5 + k])
    {
      ScheduleCompletes(t, Calling(c[1], signs), START, sw, rest);
      assert [] + sw == sw;
    }
  }

  lemma {:induction false} CarryingSends(c: Cmd, data: bytes)
    requires Carrying(c, data)
    ensures CaseOf(c) == Case2S && Lc(c) == |data| && Data(c) == data && TpduOf(c) == Sending(c[1], |data|)
  {
  }

  /** All at once. */
  lemma {:induction false} AckSends(ins: byte, lc: nat, sw: bytes, rest: bytes)
    requires Usable(ins) && lc >= 1 && IsStatus(sw)
    ensures Run(Sending(ins, lc), [ins] + sw + rest, START) == Complete(sw, lc, rest)
  {
    var t := Sending(ins, lc);
    StatusStarts(sw);
    assert [All][1..] == [];
    CallsAccepted(t, [All], START);
    ScheduleCompletes(t, Calling(ins, [All]), START, sw, rest);
    assert [ins] + [] == [ins] && [] + sw == sw;
  }
}
