/** What travels on the line during one T=1 command: the send and receive phases as functions of the
    bytes the card sends, and the block scripts of clause 11 of ISO/IEC 7816-3:2006 they follow. */
module T1Wire {
  import opened Bytes
  import opened T1Block

  /** Undefined: the driver follows a null pointer (a WTX request without information field). */
  datatype Code = Ok | IccError | NotImplemented | Undefined

  const MAX_IFSC := 251

  /** The block at the head of the card's bytes. */
  function HeadLength(s: bytes): nat { if |s| < 4 then 0 else 4 + s[2] as int }

  predicate HasBlock(s: bytes) { 4 <= |s| && HeadLength(s) <= |s| }

  function Head(s: bytes): (b: bytes)
    requires HasBlock(s)
    ensures IsBlock(b)
  {
    s[..HeadLength(s)]
  }

  function Tail(s: bytes): bytes
    requires HasBlock(s)
  {
    s[HeadLength(s)..]
  }

  /** The k-th transmission after the first ones was this block. */
  predicate Carries(frames: seq<bytes>, first: nat, k: nat, b: Block) {
    first + k < |frames| && frames[first + k] == Encode(b)
  }

  // ----- sending -----

  /** The first block for what is left of a command. */
  function Piece(cmd: bytes, ifsc: nat, ns: byte): (b: Block)
    requires 1 <= ifsc <= MAX_IFSC && ns < 2
    ensures Sendable(b)
  {
    I(cmd[..Min(|cmd|, ifsc)], ns, |cmd| > ifsc)
  }

  /** The chain for a command. */
  function Pieces(cmd: bytes, ifsc: nat, ns: byte): (bs: seq<Block>)
    requires 1 <= ifsc <= MAX_IFSC && ns < 2
    ensures bs != []
  {
    [Piece(cmd, ifsc, ns)] + if |cmd| <= ifsc then [] else Pieces(cmd[ifsc..], ifsc, 1 - ns)
  }

  /** The information fields of a sequence of blocks, joined. */
  function Infs(bs: seq<Block>): bytes {
    if bs == [] then [] else Inf(bs[0]) + Infs(bs[1..])
  }

  /** One I-block of a chain. */
  predicate Link(b: Block, ns: int, last: bool) {
    Sendable(b) && b.I? && b.ns == ns && b.more == !last
  }

  /** Numbers alternate from ns and only the last block has M clear. */
  predicate Chain(bs: seq<Block>, ns: byte)
    requires ns < 2
  {
    bs != [] && Link(bs[0], ns, |bs| == 1) && (|bs| > 1 ==> Chain(bs[1..], 1 - ns))
  }

  /** So the k-th block has number ns + k modulo 2. */
  lemma {:induction false} ChainNumbers(bs: seq<Block>, ns: byte, k: nat)
    requires ns < 2 && Chain(bs, ns) && k < |bs|
    ensures Link(bs[k], (ns + k) % 2, k == |bs| - 1)
  {
    if k > 0 {
      ChainNumbers(bs[1..], 1 - ns, k - 1);
      assert (1 - ns + (k - 1)) % 2 == (ns + k) % 2;
    }
  }

  /** The blocks for a command form a chain whose information fields are the command. */
  lemma {:induction false} PiecesChain(cmd: bytes, ifsc: nat, ns: byte)
    requires 1 <= ifsc <= MAX_IFSC && ns < 2
    ensures Chain(Pieces(cmd, ifsc, ns), ns) && Infs(Pieces(cmd, ifsc, ns)) == cmd
  {
    var b := Piece(cmd, ifsc, ns);
    if |cmd| <= ifsc {
      ChainCons(b, [], ns);
      assert cmd[..|cmd|] == cmd && cmd + [] == cmd;
    } else {
      PiecesChain(cmd[ifsc..], ifsc, 1 - ns);
      ChainCons(b, Pieces(cmd[ifsc..], ifsc, 1 - ns), ns);
      assert cmd[..ifsc] + cmd[ifsc..] == cmd;
    }
  }

  /** Every block but the last is full, and the last is empty only for an empty command. */
  lemma {:induction false} PiecesFull(cmd: bytes, ifsc: nat, ns: byte, k: nat)
    requires 1 <= ifsc <= MAX_IFSC && ns < 2 && k < |Pieces(cmd, ifsc, ns)|
    ensures var ps := Pieces(cmd, ifsc, ns);
            if k < |ps| - 1 then |Inf(ps[k])| == ifsc else |Inf(ps[k])| <= ifsc && (cmd != [] ==> Inf(ps[k]) != [])
    decreases k
  {
    if k > 0 {
      PiecesFull(cmd[ifsc..], ifsc, 1 - ns, k - 1);
    }
  }

  lemma {:induction false} ChainCons(b: Block, bs: seq<Block>, ns: byte)
    requires ns < 2
    ensures Infs([b] + bs) == Inf(b) + Infs(bs)
    ensures Link(b, ns, bs == []) && (bs != [] ==> Chain(bs, 1 - ns)) ==> Chain([b] + bs, ns)
  {
    assert ([b] + bs)[1..] == bs;
  }

  /** A positive R-block stands at the head of the card's bytes. */
  predicate Acked(s: bytes) { HasBlock(s) && GetType(Head(s)) == R_OK }

  /** How many of them stand there in a row, up to n. */
  function Acks(s: bytes, n: nat): (k: nat)
    ensures k <= n
    decreases n
  {
    if n == 0 || !Acked(s) then 0 else 1 + Acks(Tail(s), n - 1)
  }

  /** What follows the first k blocks. */
  function Skip(s: bytes, k: nat): bytes
    decreases k
  {
    if k == 0 || !HasBlock(s) then s else Skip(Tail(s), k - 1)
  }

  /** Sending a chain of m blocks to a card whose bytes were s0: n blocks went out and all but the last of them
      were acknowledged. */
  predicate OnTrack(s0: bytes, s: bytes, m: nat, n: nat) {
    && 1 <= n <= m
    && Skip(s0, m - 1) == Skip(s, m - n)
    && Acks(s0, m - 1) == n - 1 + Acks(s, m - n)
  }

  lemma TrackStart(s: bytes, m: nat)
    requires m > 0
    ensures OnTrack(s, s, m, 1)
  {
  }

  lemma TrackEnd(s0: bytes, s: bytes, m: nat)
    requires OnTrack(s0, s, m, m)
    ensures s == Skip(s0, m - 1) && Acks(s0, m - 1) == m - 1
  {
  }

  lemma TrackStep(s0: bytes, s: bytes, m: nat, n: nat)
    requires OnTrack(s0, s, m, n) && n < m && Acked(s)
    ensures OnTrack(s0, Tail(s), m, n + 1)
  {
  }

  lemma TrackStops(s0: bytes, s: bytes, m: nat, n: nat)
    requires OnTrack(s0, s, m, n) && n < m && !Acked(s)
    ensures Acks(s0, m - 1) < m - 1
  {
  }

  /** The line grew by the first n of the blocks ps. */
  ghost predicate Told(base: seq<Block>, line: seq<Block>, ps: seq<Block>, n: nat) {
    && n <= |ps| && |line| == |base| + n
    && forall k {:trigger Tells(base, line, ps, k)} | 0 <= k < |line| :: Tells(base, line, ps, k)
  }

  predicate Tells(base: seq<Block>, line: seq<Block>, ps: seq<Block>, k: nat) {
    k < |line| && if k < |base| then line[k] == base[k] else k - |base| < |ps| && line[k] == ps[k - |base|]
  }

  lemma ToldNothing(base: seq<Block>, ps: seq<Block>)
    ensures Told(base, base, ps, 0)
  {
  }

  lemma {:induction false} ToldNext(base: seq<Block>, line: seq<Block>, ps: seq<Block>, n: nat)
    requires Told(base, line, ps, n) && n < |ps|
    ensures Told(base, line + [ps[n]], ps, n + 1)
  {
    forall k | 0 <= k < |line| + 1
      ensures Tells(base, line + [ps[n]], ps, k)
    {
      assert k < |line| ==> Tells(base, line, ps, k);
    }
  }

  lemma {:induction false} ToldAll(base: seq<Block>, line: seq<Block>, ps: seq<Block>, n: nat)
    requires Told(base, line, ps, n)
    ensures line == base + ps[..n]
  {
    assert forall k | 0 <= k < |line| :: Tells(base, line, ps, k) && line[k] == (base + ps[..n])[k];
  }

  // ----- receiving -----

  /** How the receive phase ends: the buffer and its 16-bit fill count, the answers sent, the bytes unread. */
  datatype Received = Received(code: Code, buffer: bytes, counter: nat, answers: seq<Block>, rest: bytes)

  function Answering(answer: Block, q: Received): Received { q.(answers := [answer] + q.answers) }

  /** q is the outcome r seen from before n answers were sent. */
  predicate Owing(q: Received, r: Received, n: nat) {
    n <= |q.answers| && r == q.(answers := q.answers[n..])
  }

  /** What one block makes of the buffer: receiving stops, or goes on after an answer. */
  datatype Effect = Stop(code: Code, buffer: bytes, counter: nat) | Go(answer: Block, buffer: bytes, counter: nat)

  function Take(b: bytes, buffer: bytes, counter: nat): (e: Effect)
    requires IsBlock(b) && counter <= |buffer|
    ensures e.counter <= |e.buffer| && (e.Go? ==> Sendable(e.answer))
  {
    if GetType(b) == I_TYPE then
      var filled := buffer[..counter] + GetInf(b);
      var count := |filled| % 0x1_0000;
      if GetMore(b) then Go(R((GetNS(b) + 1) % 2), filled, count) else Stop(Ok, filled, count)
    else if GetType(b) == S_WTX_REQ then
      if |b| < 5 then Stop(Undefined, buffer, counter) else Go(WtxResponse(b[3]), buffer, counter)
    else Stop(NotImplemented, buffer, counter)
  }

  function ReceiveRun(s: bytes, buffer: bytes, counter: nat): (q: Received)
    requires counter <= |buffer|
    ensures q.counter <= |q.buffer|
    decreases |s|
  {
    if !HasBlock(s) then Received(IccError, buffer, counter, [], s)
    else match Take(Head(s), buffer, counter)
      case Stop(code, filled, count) => Received(code, filled, count, [], Tail(s))
      case Go(answer, filled, count) => Answering(answer, ReceiveRun(Tail(s), filled, count))
  }

  /** The timeouts of the receive phase: for the first bytes of a block the block waiting time, or that times the
      multiplier of a WTX request before it, in 16 bits; for the others the character waiting time. */
  function Limit(wtx: byte, bwt: nat): nat { if wtx > 1 then wtx * bwt % 0x1_0000 else bwt }

  function FieldWait(s: bytes, cwt: nat): seq<nat> { if |s| >= 4 && s[2] != 0 then [cwt] else [] }

  function BlockWaits(s: bytes, wtx: byte, bwt: nat, cwt: nat): seq<nat> { [Limit(wtx, bwt)] + FieldWait(s, cwt) }

  /** The multiplier for the next block. */
  function NextWtx(b: bytes, wtx: byte): byte
    requires IsBlock(b)
  {
    if GetType(b) == S_WTX_REQ && |b| >= 5 then b[3] else if wtx > 1 then 0 else wtx
  }

  function Waits(s: bytes, wtx: byte, bwt: nat, cwt: nat): seq<nat>
    decreases |s|
  {
    BlockWaits(s, wtx, bwt, cwt)
    + if HasBlock(s) && Take(Head(s), [], 0).Go? then Waits(Tail(s), NextWtx(Head(s), wtx), bwt, cwt) else []
  }

  lemma TakeGoes(b: bytes, buffer: bytes, counter: nat)
    requires IsBlock(b) && counter <= |buffer|
    ensures Take(b, buffer, counter).Go? == Take(b, [], 0).Go?
  {
  }

  // ----- scripts -----

  /** A block of the card: any node address, any bits the driver does not look at, any check byte. */
  datatype RawCardBlock =
    | Info(nad: byte, ns: byte, more: bool, low: byte, inf: bytes, edc: byte)
    | WtxRequest(nad: byte, nr: byte, inf: bytes, edc: byte)
    | Positive(nad: byte, nr: byte, inf: bytes, edc: byte)

  type CardBlock = c: RawCardBlock | WellFormed(c) witness Positive(0, 0, [], 0)

  predicate WellFormed(c: RawCardBlock) {
    && |c.inf| < 256
    && match c
       case Info(_, ns, _, low, _, _) => ns < 2 && low < 32
       case WtxRequest(_, nr, inf, _) => nr < 2 && inf != []
       case Positive(_, nr, _, _) => nr < 2
  }

  function CardPcb(c: CardBlock): byte {
    match c
    case Info(_, ns, more, low, _, _) => 64 * ns + (if more then 32 else 0) + low
    case WtxRequest(_, nr, _, _) => S_WTX_REQ + 16 * nr
    case Positive(_, nr, _, _) => R_OK + 16 * nr
  }

  function Line(c: CardBlock): bytes {
    [c.nad, CardPcb(c), |c.inf|] + c.inf + [c.edc]
  }

  function Render(cs: seq<CardBlock>): bytes {
    if cs == [] then [] else Line(cs[0]) + Render(cs[1..])
  }

  /** The driver reads a card block as it was written. */
  lemma {:induction false} ReadLine(c: CardBlock, tail: bytes)
    ensures var s := Line(c) + tail;
            && HasBlock(s) && Head(s) == Line(c) && Tail(s) == tail && GetInf(Line(c)) == c.inf
            && GetType(Line(c)) == (match c case Info(_, _, _, _, _, _) => I_TYPE case WtxRequest(_, _, _, _) => S_WTX_REQ case Positive(_, _, _, _) => R_OK)
            && (c.Info? ==> GetNS(Line(c)) == c.ns && GetMore(Line(c)) == c.more)
  {
    var s := Line(c) + tail;
    assert s[2] == |c.inf|;
    assert s[..4 + |c.inf|] == Line(c) && s[4 + |c.inf|..] == tail;
  }

  /** An answer: chained I-blocks and WTX requests in any order, then the last I-block. */
  predicate AnswerScript(cs: seq<CardBlock>) {
    && cs != []
    && if |cs| == 1 then cs[0].Info? && !cs[0].more
       else (cs[0].WtxRequest? || (cs[0].Info? && cs[0].more)) && AnswerScript(cs[1..])
  }

  function Payload(cs: seq<CardBlock>): bytes {
    if cs == [] then [] else Content(cs[0]) + Payload(cs[1..])
  }

  /** What the driver owes for each block but the last: R with the next number for a chained I-block,
      the same multiplier for a WTX request. */
  function Owed(cs: seq<CardBlock>): seq<Block> {
    if |cs| <= 1 then [] else [Debt(cs[0])] + Owed(cs[1..])
  }

  function Debt(c: CardBlock): Block {
    match c
    case Info(_, ns, _, _, _, _) => R((ns + 1) % 2)
    case WtxRequest(_, _, inf, _) => WtxResponse(inf[0])
    case Positive(_, nr, _, _) => R(nr)
  }

  function Content(c: CardBlock): bytes { if c.Info? then c.inf else [] }

  /** The buffer and its fill count after a card block. */
  function Filled(c: CardBlock, buffer: bytes, counter: nat): (bytes, nat)
    requires counter <= |buffer|
  {
    if c.Info? then (buffer[..counter] + c.inf, (counter + |c.inf|) % 0x1_0000) else (buffer, counter)
  }

  lemma {:induction false} TakeLine(c: CardBlock, buffer: bytes, counter: nat)
    requires !c.Positive? && IsBlock(Line(c)) && counter <= |buffer|
    ensures var (b, n) := Filled(c, buffer, counter);
            Take(Line(c), buffer, counter) == if c.Info? && !c.more then Stop(Ok, b, n) else Go(Debt(c), b, n)
  {
    ReadLine(c, []);
    if c.WtxRequest? {
      assert Line(c)[3] == c.inf[0];
    }
  }

  /** One card block at the head of the line. */
  lemma {:induction false} RunLine(c: CardBlock, buffer: bytes, counter: nat, tail: bytes)
    requires !c.Positive? && counter <= |buffer|
    ensures var (b, n) := Filled(c, buffer, counter);
            && n <= |b|
            && ReceiveRun(Line(c) + tail, buffer, counter)
               == if c.Info? && !c.more then Received(Ok, b, n, [], tail) else Answering(Debt(c), ReceiveRun(tail, b, n))
  {
    ReadLine(c, tail);
    TakeLine(c, buffer, counter);
  }

  /** An answer script followed block by block. */
  function Collect(cs: seq<CardBlock>, buffer: bytes, counter: nat, rest: bytes): (q: Received)
    requires AnswerScript(cs) && counter <= |buffer|
    ensures q.counter <= |q.buffer|
    decreases |cs|
  {
    var (b, n) := Filled(cs[0], buffer, counter);
    if |cs| == 1 then Received(Ok, b, n, [], rest) else Answering(Debt(cs[0]), Collect(cs[1..], b, n, rest))
  }

  /** The driver follows it. */
  lemma {:induction false} ReceiveCollects(cs: seq<CardBlock>, rest: bytes, buffer: bytes, counter: nat)
    requires AnswerScript(cs) && counter <= |buffer|
    ensures ReceiveRun(Render(cs) + rest, buffer, counter) == Collect(cs, buffer, counter, rest)
    decreases |cs|
  {
    var (b, n) := Filled(cs[0], buffer, counter);
    if |cs| == 1 {
      assert Render(cs) == Line(cs[0]) + Render([]) == Line(cs[0]);
      RunLine(cs[0], buffer, counter, rest);
    } else {
      Associate(Line(cs[0]), Render(cs[1..]), rest);
      RunLine(cs[0], buffer, counter, Render(cs[1..]) + rest);
      ReceiveCollects(cs[1..], rest, b, n);
    }
  }

  lemma {:induction false} CollectsPayload(cs: seq<CardBlock>, rest: bytes, buffer: bytes)
    requires AnswerScript(cs) && |buffer| + |Payload(cs)| <= 65535
    ensures Collect(cs, buffer, |buffer|, rest) == Received(Ok, buffer + Payload(cs), |buffer + Payload(cs)|, Owed(cs), rest)
    decreases |cs|
  {
    FilledSmall(cs[0], buffer);
    Associate(buffer, Content(cs[0]), Payload(cs[1..]));
    if |cs| > 1 {
      CollectsPayload(cs[1..], rest, buffer + Content(cs[0]));
    } else {
      assert Payload(cs[1..]) == [];
    }
  }

  /** Every answer script is received as the concatenation of its information fields, up to 65535
      bytes, and every debt is paid in order. */
  lemma {:induction false} ReceiveScript(cs: seq<CardBlock>, rest: bytes)
    requires AnswerScript(cs) && |Payload(cs)| <= 65535
    ensures ReceiveRun(Render(cs) + rest, [], 0) == Received(Ok, Payload(cs), |Payload(cs)|, Owed(cs), rest)
  {
    ReceiveCollects(cs, rest, [], 0);
    CollectsPayload(cs, rest, []);
    assert [] + Payload(cs) == Payload(cs);
  }

  lemma {:induction false} FilledSmall(c: CardBlock, buffer: bytes)
    requires |buffer| + |Content(c)| <= 65535
    ensures Filled(c, buffer, |buffer|) == (buffer + Content(c), |buffer + Content(c)|)
  {
    assert buffer[..|buffer|] == buffer && buffer + [] == buffer;
  }

  lemma {:induction false} OwingStep(q: Received, a: Block, r: Received, n: nat)
    requires Owing(q, Answering(a, r), n)
    ensures n < |q.answers| && q.answers[n] == a && Owing(q, r, n + 1)
  {
    assert q.answers[n..][0] == a && q.answers[n..][1..] == r.answers && q.answers[n + 1..] == q.answers[n..][1..];
  }

  // ----- whole commands -----

  /** How a command ends for a card that sends s: the acknowledgements of the chain, then the answer. */
  function Outcome(cmd: bytes, ifsc: nat, ns: byte, s: bytes): (q: Received)
    requires 1 <= ifsc <= MAX_IFSC && ns < 2
    ensures q.counter <= |q.buffer|
  {
    var n := |Pieces(cmd, ifsc, ns)| - 1;
    if Acks(s, n) < n then Received(NotImplemented, [], 0, [], s) else ReceiveRun(Skip(s, n), [], 0)
  }

  lemma AckLine(c: CardBlock, tail: bytes, n: nat)
    requires c.Positive?
    ensures Acks(Line(c) + tail, n + 1) == 1 + Acks(tail, n) && Skip(Line(c) + tail, n + 1) == Skip(tail, n)
  {
  }

  lemma {:induction false} AckScript(acks: seq<CardBlock>, tail: bytes)
    requires forall i | 0 <= i < |acks| :: acks[i].Positive?
    ensures Acks(Render(acks) + tail, |acks|) == |acks| && Skip(Render(acks) + tail, |acks|) == tail
  {
    if acks == [] {
      assert Render(acks) + tail == tail;
    } else {
      var n, s := |acks| - 1, Render(acks[1..]) + tail;
      AckScript(acks[1..], tail);
      assert Acks(s, n) == n && Skip(s, n) == tail;
      Associate(Line(acks[0]), Render(acks[1..]), tail);
      assert Render(acks) + tail == Line(acks[0]) + s;
      AckLine(acks[0], s, n);
    }
  }

  /** Following an answer script every debt is paid, in order, and nothing more is read. */
  lemma {:induction false} CollectPays(cs: seq<CardBlock>, buffer: bytes, counter: nat, rest: bytes)
    requires AnswerScript(cs) && counter <= |buffer|
    ensures var q := Collect(cs, buffer, counter, rest);
            q.code == Ok && q.answers == Owed(cs) && q.rest == rest
    decreases |cs|
  {
    if |cs| > 1 {
      var (b, n) := Filled(cs[0], buffer, counter);
      CollectPays(cs[1..], b, n, rest);
    }
  }

  /** A card that acknowledges every chained block and then answers by any script is followed to the end of
      the script. */
  lemma {:induction false} CommandCompletes(cmd: bytes, ifsc: nat, ns: byte, acks: seq<CardBlock>, cs: seq<CardBlock>, rest: bytes)
    requires 1 <= ifsc <= MAX_IFSC && ns < 2
    requires forall i | 0 <= i < |acks| :: acks[i].Positive?
    requires |acks| == |Pieces(cmd, ifsc, ns)| - 1 && AnswerScript(cs)
    ensures Outcome(cmd, ifsc, ns, Render(acks) + (Render(cs) + rest)) == Collect(cs, [], 0, rest)
  {
    var s, n := Render(cs) + rest, |acks|;
    assert Acks(Render(acks) + s, n) == n && Skip(Render(acks) + s, n) == s by {
      AckScript(acks, s);
    }
    assert Outcome(cmd, ifsc, ns, Render(acks) + s) == ReceiveRun(s, [], 0);
    ReceiveCollects(cs, rest, [], 0);
  }

  // ----- timeouts -----

  /** The timeouts for a script: each block is awaited for BWT, after a WTX request with a multiplier above one for
      that many BWT, and the bytes behind the first four for CWT. */
  function ScriptWaits(cs: seq<CardBlock>, limit: nat, bwt: nat, cwt: nat): seq<nat>
    decreases |cs|
  {
    if cs == [] then []
    else
      [limit] + (if cs[0].inf == [] then [] else [cwt])
      + ScriptWaits(cs[1..], if cs[0].WtxRequest? && cs[0].inf[0] > 1 then cs[0].inf[0] * bwt % 0x1_0000 else bwt, bwt, cwt)
  }

  lemma {:induction false} LineWaits(c: CardBlock, tail: bytes, wtx: byte, bwt: nat, cwt: nat)
    requires !c.Positive?
    ensures var s := Line(c) + tail;
            && HasBlock(s) && Tail(s) == tail && Take(Head(s), [], 0).Go? == !(c.Info? && !c.more)
            && BlockWaits(s, wtx, bwt, cwt) == [Limit(wtx, bwt)] + (if c.inf == [] then [] else [cwt])
            && Limit(NextWtx(Head(s), wtx), bwt) == if c.WtxRequest? && c.inf[0] > 1 then c.inf[0] * bwt % 0x1_0000 else bwt
  {
    ReadLine(c, tail);
    TakeLine(c, [], 0);
    if c.WtxRequest? {
      assert Line(c)[3] == c.inf[0];
    }
  }

  /** The timeouts set in the receive phase are those. */
  lemma {:induction false} WaitsScript(cs: seq<CardBlock>, rest: bytes, wtx: byte, bwt: nat, cwt: nat)
    requires AnswerScript(cs)
    ensures Waits(Render(cs) + rest, wtx, bwt, cwt) == ScriptWaits(cs, Limit(wtx, bwt), bwt, cwt)
    decreases |cs|
  {
    var tail := Render(cs[1..]) + rest;
    Associate(Line(cs[0]), Render(cs[1..]), rest);
    LineWaits(cs[0], tail, wtx, bwt, cwt);
    if |cs| > 1 {
      WaitsScript(cs[1..], rest, NextWtx(Head(Line(cs[0]) + tail), wtx), bwt, cwt);
    } else {
      assert cs[1..] == [];
    }
  }

  // ----- the bytes of scripts and debts -----

  /** The bytes of a card's block. */
  lemma LineBytes(c: CardBlock)
    ensures c.Info? ==> Line(c) == [c.nad, 64 * c.ns + (if c.more then 32 else 0) + c.low, |c.inf|] + c.inf + [c.edc]
    ensures c.WtxRequest? ==> Line(c) == [c.nad, if c.nr == 0 then 0xC3 else 0xD3, |c.inf|] + c.inf + [c.edc]
    ensures c.Positive? ==> Line(c) == [c.nad, if c.nr == 0 then 0x80 else 0x90, |c.inf|] + c.inf + [c.edc]
  {
  }

  /** The bytes that are owed, up to the LRC: a chained block is acknowledged with the other number, and a WTX request
      answered with its multiplier. */
  lemma {:induction false} DebtBytes(c: CardBlock)
    requires !c.Positive?
    ensures var raw := Encode(Debt(c));
            && |raw| >= 4 && raw[|raw| - 1] == XorAll(raw[..|raw| - 1])
            && raw[..|raw| - 1] == if c.Info? then [0x00, if c.ns == 0 then 0x90 else 0x80, 0x00] else [0x00, 0xE3, 0x01, c.inf[0]]
  {
    EncodedBytes(Debt(c));
  }

  // ----- the 16-bit counter -----

  lemma FilledCount(c: CardBlock, buffer: bytes, counter: nat, more: nat)
    requires counter <= |buffer| && counter < 0x1_0000
    ensures var n := Filled(c, buffer, counter).1;
            n < 0x1_0000 && (n + more) % 0x1_0000 == (counter + (|Content(c)| + more)) % 0x1_0000
  {
  }

  lemma {:induction false} CollectsCount(cs: seq<CardBlock>, rest: bytes, buffer: bytes, counter: nat)
    requires AnswerScript(cs) && counter <= |buffer| && counter < 0x1_0000
    ensures var q := Collect(cs, buffer, counter, rest);
            q.code == Ok && q.counter == (counter + |Payload(cs)|) % 0x1_0000
    decreases |cs|
  {
    var (b, n) := Filled(cs[0], buffer, counter);
    FilledCount(cs[0], buffer, counter, |Payload(cs[1..])|);
    if |cs| > 1 {
      CollectsCount(cs[1..], rest, b, n);
    } else {
      assert Payload(cs[1..]) == [];
    }
  }

  /** The response that the driver makes of what it collected; none of fewer than two bytes. */
  function ResponseOf(q: Received): (r: Option<bytes>)
    requires q.counter <= |q.buffer|
    ensures r.Some? ==> |r.value| >= 2
  {
    if q.counter < 2 then None else Some(q.buffer[..q.counter])
  }

  lemma {:induction false} ReceiveCounts(cs: seq<CardBlock>, rest: bytes)
    requires AnswerScript(cs)
    ensures var q := ReceiveRun(Render(cs) + rest, [], 0);
            q.code == Ok && q.counter == |Payload(cs)| % 0x1_0000
  {
    ReceiveCollects(cs, rest, [], 0);
    CollectsCount(cs, rest, [], 0);
  }

  lemma {:induction false} ResponseIffFits(q: Received, p: bytes)
    requires q.counter <= |q.buffer| && q.counter == |p| % 0x1_0000 && (|p| <= 65535 ==> q.buffer == p)
    ensures ResponseOf(q) == Some(p) <==> 2 <= |p| <= 65535
  {
    assert p[..|p|] == p;
    assert ResponseOf(q).Some? ==> |ResponseOf(q).value| == q.counter;
  }

  /** The response is the whole answer if and only if the answer has 2 to 65535 bytes. */
  lemma {:induction false} AnswerIffFits(cs: seq<CardBlock>, rest: bytes)
    requires AnswerScript(cs)
    ensures var q := ReceiveRun(Render(cs) + rest, [], 0);
            q.code == Ok && (ResponseOf(q) == Some(Payload(cs)) <==> 2 <= |Payload(cs)| <= 65535)
  {
    ReceiveCounts(cs, rest);
    if |Payload(cs)| <= 65535 {
      ReceiveScript(cs, rest);
    }
    ResponseIffFits(ReceiveRun(Render(cs) + rest, [], 0), Payload(cs));
  }

  /** n full blocks and a last one. */
  function LongScript(n: nat, x: byte): (cs: seq<CardBlock>)
    ensures cs != []
  {
    if n == 0 then [Info(0, 0, false, 0, [x], 0)]
    else [Info(0, n % 2, true, 0, seq(255, _ => x), 0)] + LongScript(n - 1, x)
  }

  lemma {:induction false} LongScriptLength(n: nat, x: byte)
    ensures AnswerScript(LongScript(n, x)) && |Payload(LongScript(n, x))| == 255 * n + 1
  {
    var cs := LongScript(n, x);
    if n == 0 {
      assert Payload(cs[1..]) == [];
    } else {
      LongScriptLength(n - 1, x);
      assert cs[1..] == LongScript(n - 1, x);
    }
  }

  /** An answer of 258 blocks is not returned. */
  lemma {:induction false} LongAnswerLost(x: byte, rest: bytes)
    ensures var cs := LongScript(257, x);
            AnswerScript(cs) && ResponseOf(ReceiveRun(Render(cs) + rest, [], 0)) != Some(Payload(cs))
  {
    LongScriptLength(257, x);
    AnswerIffFits(LongScript(257, x), rest);
  }

  // ----- every run is a script -----

  /** Chained I-blocks and WTX requests, to which the driver answers and goes on. */
  predicate Interim(cs: seq<CardBlock>) {
    forall i | 0 <= i < |cs| :: Passing(cs[i])
  }

  predicate Passing(c: CardBlock) { c.WtxRequest? || (c.Info? && c.more) }

  /** A block that the driver understands is a block of a script. */
  lemma {:induction false} BlockIsLine(b: bytes) returns (c: CardBlock)
    requires IsBlock(b) && (GetType(b) == I_TYPE || (GetType(b) == S_WTX_REQ && |b| >= 5))
    ensures Line(c) == b && c.Info? == (GetType(b) == I_TYPE) && !c.Positive?
    ensures c.Info? ==> c.more == GetMore(b)
  {
    var inf, edc := b[3..|b| - 1], b[|b| - 1];
    if b[1] < 128 {
      c := Info(b[0], b[1] / 64 % 2, b[1] / 32 % 2 == 1, b[1] % 32, inf, edc);
    } else {
      c := WtxRequest(b[0], b[1] / 16 % 2, inf, edc);
    }
    assert CardPcb(c) == b[1];
    assert Line(c) == b;
  }

  /** What stops the driver at the head of the line, if anything but the last block of an answer. */
  predicate Halts(s: bytes, code: Code) {
    match code
    case Ok => false
    case IccError => !HasBlock(s)
    case Undefined => HasBlock(s) && GetType(Head(s)) == S_WTX_REQ && |Head(s)| == 4
    case NotImplemented => HasBlock(s) && GetType(Head(s)) != I_TYPE && GetType(Head(s)) != S_WTX_REQ
  }

  lemma {:induction false} ScriptCons(c: CardBlock, cs: seq<CardBlock>, tail: bytes)
    requires Passing(c)
    ensures Line(c) + (Render(cs) + tail) == Render([c] + cs) + tail
    ensures (Interim(cs) ==> Interim([c] + cs)) && (AnswerScript(cs) ==> AnswerScript([c] + cs))
  {
    assert ([c] + cs)[1..] == cs;
    Associate(Line(c), Render(cs), tail);
  }

  lemma {:induction false} ScriptEnd(c: CardBlock, tail: bytes)
    requires c.Info? && !c.more
    ensures AnswerScript([c]) && Line(c) + tail == Render([c]) + tail
  {
    assert Render([c]) == Line(c) + Render([]) == Line(c);
  }

  /** The head of the line stops the driver, or is a block of a script. */
  lemma {:induction false} HeadOfScript(s: bytes, buffer: bytes, counter: nat) returns (c: Option<CardBlock>)
    requires counter <= |buffer|
    ensures c.None? ==> ReceiveRun(s, buffer, counter).code != Ok && Halts(s, ReceiveRun(s, buffer, counter).code)
    ensures c.Some? ==>
              && HasBlock(s) && s == Line(c.value) + Tail(s) && !c.value.Positive?
              && (!Passing(c.value) ==> ReceiveRun(s, buffer, counter).code == Ok)
    ensures c.Some? ==>
              var (b, n) := Filled(c.value, buffer, counter);
              n <= |b| && (Passing(c.value) ==> ReceiveRun(s, buffer, counter).code == ReceiveRun(Tail(s), b, n).code)
  {
    c := None;
    if HasBlock(s) {
      var b := Head(s);
      assert s == b + Tail(s);
      if GetType(b) == I_TYPE || (GetType(b) == S_WTX_REQ && |b| >= 5) {
        var d := BlockIsLine(b);
        RunLine(d, buffer, counter, Tail(s));
        c := Some(d);
      }
    }
  }

  /** Whatever the card sends, the driver follows a script: to its end, or through interim blocks up to what
      stops it. */
  lemma {:induction false} ReceiveIsScript(s: bytes, buffer: bytes, counter: nat) returns (cs: seq<CardBlock>, rest: bytes)
    requires counter <= |buffer|
    ensures s == Render(cs) + rest
    ensures var code := ReceiveRun(s, buffer, counter).code;
            if code == Ok then AnswerScript(cs) && ReceiveRun(s, buffer, counter) == Collect(cs, buffer, counter, rest)
            else Interim(cs) && Halts(rest, code)
    decreases |s|
  {
    var c := HeadOfScript(s, buffer, counter);
    if c.None? {
      cs, rest := [], s;
      assert [] + s == s;
    } else if Passing(c.value) {
      var (b, n) := Filled(c.value, buffer, counter);
      var ds;
      ds, rest := ReceiveIsScript(Tail(s), b, n);
      ScriptCons(c.value, ds, rest);
      cs := [c.value] + ds;
    } else {
      cs, rest := [c.value], Tail(s);
      ScriptEnd(c.value, rest);
    }
    if ReceiveRun(s, buffer, counter).code == Ok {
      ReceiveCollects(cs, rest, buffer, counter);
    }
  }

  /** Conversely, what stops the driver after interim blocks decides the code. */
  lemma {:induction false} InterimRun(cs: seq<CardBlock>, rest: bytes, code: Code, buffer: bytes, counter: nat)
    requires Interim(cs) && Halts(rest, code) && counter <= |buffer|
    ensures ReceiveRun(Render(cs) + rest, buffer, counter).code == code
    decreases |cs|
  {
    if cs == [] {
      assert Render(cs) + rest == rest;
    } else {
      var (b, n) := Filled(cs[0], buffer, counter);
      assert Passing(cs[0]) && forall i | 0 <= i < |cs[1..]| :: Passing(cs[1..][i]);
      Associate(Line(cs[0]), Render(cs[1..]), rest);
      RunLine(cs[0], buffer, counter, Render(cs[1..]) + rest);
      InterimRun(cs[1..], rest, code, b, n);
    }
  }

  ghost predicate FollowsNull(s: bytes, cs: seq<CardBlock>, rest: bytes) {
    s == Render(cs) + rest && Interim(cs) && Halts(rest, Undefined)
  }

  /** The driver follows a null pointer if and only if the card sends, after interim blocks, a WTX request
      without information field. */
  lemma {:induction false} UndefinedIff(s: bytes)
    ensures ReceiveRun(s, [], 0).code == Undefined <==> exists cs, rest :: FollowsNull(s, cs, rest)
  {
    if ReceiveRun(s, [], 0).code == Undefined {
      var cs, rest := ReceiveIsScript(s, [], 0);
      assert FollowsNull(s, cs, rest);
    }
    if cs, rest :| FollowsNull(s, cs, rest) {
      InterimRun(cs, rest, Undefined, [], 0);
    }
  }

  lemma {:induction false} UndefinedExists(nad: byte, edc: byte)
    ensures ReceiveRun([nad, S_WTX_REQ, 0x00, edc], [], 0).code == Undefined
  {
    var s: bytes := [nad, S_WTX_REQ, 0x00, edc];
    assert Head(s) == s;
  }
}
