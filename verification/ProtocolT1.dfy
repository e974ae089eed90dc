/** The T=1 protocol handler (src/driver/protocol_t1.c). */
module ProtocolT1 {
  import opened Bytes
  import Apdu
  import opened IccAsync
  import opened T1Block
  import opened T1Wire

  const DEFAULT_IFSC := 32

  class T1 {
    const icc: Icc
    var ifsc: nat
    var bwt: nat
    var cwt: nat
    var ns: byte
    /** I-blocks built since Init. */
    ghost var built: nat

    /** All blocks sent since Init. */
    ghost var line: seq<Block>
    /** Transmissions before that. */
    ghost const first: nat

    /** The transmissions since Init are the blocks on the line, in order. */
    ghost predicate Wired()
      reads this, icc`frames
    {
      && |icc.frames| == first + |line|
      && forall k {:trigger Carries(icc.frames, first, k, line[k])} | 0 <= k < |line| :: Carries(icc.frames, first, k, line[k])
    }

    /** Between commands: the k-th I-block built since Init has number k modulo 2, and the card's block
        timeout is the block waiting time. */
    ghost predicate Valid()
      reads this, icc
    {
      && 1 <= ifsc <= MAX_IFSC && bwt < 0x1_0000 && cwt < 0x1_0000
      && ns == (built + 1) % 2
      && icc.timings.blockTimeout == bwt
      && Wired()
    }

    /** Protocol_T1_Init with TA3 and the computed waiting times. */
    constructor Init(icc: Icc, ta: Option<byte>, bwt: nat, cwt: nat, bgt: nat)
      requires bwt < 0x1_0000 && cwt < 0x1_0000
      modifies icc
      ensures Valid() && this.icc == icc && built == 0 && line == [] && this.bwt == bwt && this.cwt == cwt
      ensures icc.incoming == old(icc.incoming) && icc.outgoing == old(icc.outgoing) && icc.faults == old(icc.faults)
      ensures ifsc == if ta.Some? && ta.value != 0x00 && ta.value != 0xFF then Min(ta.value, 251) else 32
    {
      this.icc := icc;
      var size := if ta.None? then DEFAULT_IFSC else if ta.value != 0x00 && ta.value != 0xFF then ta.value else DEFAULT_IFSC;
      this.ifsc := Min(size, MAX_IFSC);
      this.bwt, this.cwt, this.ns, this.built := bwt, cwt, 1, 0;
      this.line, this.first := [], |icc.frames|;
      new;
      icc.SetTimings(icc.timings.(blockTimeout := bwt, charTimeout := cwt, blockDelay := bgt));
    }

    /** Protocol_T1_UpdateBWT; the parameter is a 16-bit number. */
    method UpdateBwt(t: nat)
      modifies icc`timings
      ensures icc.timings == old(icc.timings).(blockTimeout := t % 0x1_0000)
    {
      icc.SetTimings(icc.timings.(blockTimeout := t % 0x1_0000));
    }

    method SendBlock(b: Block) returns (ret: Code)
      requires Sendable(b) && Wired()
      modifies this`line, icc`outgoing, icc`frames, icc`faults
      ensures Wired() && line == if ret == Ok then old(line) + [b] else old(line)
      ensures old(icc.Healthy()) ==> icc.Healthy() && ret == Ok
      ensures ret == Ok || ret == IccError
    {
      var block := New(b);
      var ok := icc.Attempt();
      if !ok {
        return IccError;
      }
      ok := icc.Transmit(block[..]);
      if !ok {
        ok := icc.Attempt();
        return IccError;
      }
      ghost var was := line;
      line := was + [b];
      forall k | 0 <= k < |line|
        ensures Carries(icc.frames, first, k, line[k])
      {
        assert k < |was| ==> old(Carries(icc.frames, first, k, line[k]));
      }
      ret := Ok;
    }

    /** Protocol_T1_ReceiveBlock: four bytes, then as many as LEN says under the character timeout. */
    method ReceiveBlock() returns (ret: Code, block: bytes)
      requires bwt < 0x1_0000 && cwt < 0x1_0000
      modifies icc`incoming, icc`waited, icc`faults, icc`timings
      ensures icc.timings == old(icc.timings) || icc.timings == old(icc.timings).(blockTimeout := bwt)
      ensures ret == Ok || ret == IccError
      ensures ret == Ok ==>
                HasBlock(old(icc.incoming)) && block == Head(old(icc.incoming)) && icc.incoming == Tail(old(icc.incoming))
      ensures old(icc.Healthy()) ==> icc.Healthy() && (ret == Ok <==> HasBlock(old(icc.incoming)))
      ensures ret == Ok || old(icc.Healthy()) ==>
                icc.waited == old(icc.waited) + ([old(icc.timings.blockTimeout)] + FieldWait(old(icc.incoming), cwt))
    {
      ret := Ok;
      var ok;
      ghost var s := icc.incoming;
      ok, block := icc.Receive(4);
      if !ok {
        ret := IccError;
      } else if block[2] != 0x00 {
        UpdateBwt(cwt);
        var more;
        var n: nat := block[2];
        ok, more := icc.Receive(n);
        if !ok {
          ret := IccError;
        } else {
          assert block + more == s[..4 + n];
          block := block + more;
        }
        UpdateBwt(bwt);
      }
      ok := icc.Attempt();
      if !ok {
        ret := IccError;
      }
      ok := icc.Attempt();
      if !ok {
        ret := IccError;
      }
    }

    /** The first loop of Protocol_T1_Command: the command goes out in chained I-blocks. */
    method SendPhase(cmd: bytes) returns (ret: Code, ghost sent: seq<Block>)
      requires Valid() && |cmd| <= 65535
      modifies this`ns, this`built, this`line, icc
      ensures Valid() && line == old(line) + sent && (old(icc.Healthy()) ==> icc.Healthy()) && icc.timings == old(icc.timings)
      ensures built == old(built) + |sent| || (built == old(built) + |sent| + 1 && ret != Ok)
      ensures var ps := Pieces(cmd, ifsc, old(built) % 2);
              && |sent| <= |ps| && sent == ps[..|sent|]
              && (ret == Ok ==> sent == ps && Acks(old(icc.incoming), |ps| - 1) == |ps| - 1
                                && icc.incoming == Skip(old(icc.incoming), |ps| - 1))
              && (old(icc.Healthy()) ==> (ret == Ok <==> Acks(old(icc.incoming), |ps| - 1) == |ps| - 1))
      ensures old(icc.Healthy()) && ret != Ok ==> ret == NotImplemented
    {
      ghost var ps := Pieces(cmd, ifsc, built % 2);
      assert cmd[0..] == cmd && forall k | 0 <= k < |ps| :: Agree(ps, 0, ps, k);
      ret, sent := SendChain(cmd, ps);
    }

    /** The same for the chain ps of the command. */
    method SendChain(cmd: bytes, ghost ps: seq<Block>) returns (ret: Code, ghost sent: seq<Block>)
      requires Valid() && Awaiting(cmd, 0, ifsc, built, true, ps, 0)
      modifies this`ns, this`built, this`line, icc
      ensures Valid() && line == old(line) + sent && (old(icc.Healthy()) ==> icc.Healthy()) && icc.timings == old(icc.timings)
      ensures built == old(built) + |sent| || (built == old(built) + |sent| + 1 && ret != Ok)
      ensures |sent| <= |ps| && sent == ps[..|sent|]
      ensures ret == Ok ==>
                sent == ps && Acks(old(icc.incoming), |ps| - 1) == |ps| - 1 && icc.incoming == Skip(old(icc.incoming), |ps| - 1)
      ensures ret != Ok && old(icc.Healthy()) ==> ret == NotImplemented && Acks(old(icc.incoming), |ps| - 1) < |ps| - 1
    {
      ghost var s0 := icc.incoming;
      ghost var n: nat := 0;
      var counter: nat, size: nat, more := 0, 0, true;
      ToldNothing(line, ps);
      ret, size, more, n := SendTold(cmd, 0, ps, line, 0);
      if ret == Ok {
        TrackStart(s0, |ps|);
      }
      while ret == Ok && more
        invariant Valid() && (old(icc.Healthy()) ==> icc.Healthy()) && icc.timings == old(icc.timings)
        invariant Told(old(line), line, ps, n)
        invariant built == old(built) + n + (if ret == IccError then 1 else 0)
        invariant ret == Ok ==> Awaiting(cmd, counter + size, ifsc, built, more, ps, n) && (more ==> size > 0)
        invariant ret == Ok ==> OnTrack(s0, icc.incoming, |ps|, n)
        invariant ret != Ok && old(icc.Healthy()) ==> Acks(s0, |ps| - 1) < |ps| - 1 && ret == NotImplemented
        decreases ret == Ok, |cmd| - counter
      {
        counter := counter + size;
        ghost var s, k := icc.incoming, n;
        ret, size, more, n := SendNext(cmd, counter, ps, old(line), n);
        if ret == Ok {
          TrackStep(s0, s, |ps|, k);
        } else if !Acked(s) {
          TrackStops(s0, s, |ps|, k);
        }
      }
      sent := ps[..n];
      ToldAll(old(line), line, ps, n);
      if ret == Ok {
        TrackEnd(s0, icc.incoming, |ps|);
      }
    }

    /** Waits for the acknowledgement of the last of n blocks and sends the next one. */
    method SendNext(cmd: bytes, counter: nat, ghost ps: seq<Block>, ghost base: seq<Block>, ghost n: nat)
      returns (ret: Code, size: nat, more: bool, ghost n': nat)
      requires Valid() && Awaiting(cmd, counter, ifsc, built, true, ps, n) && Told(base, line, ps, n)
      modifies this`ns, this`built, this`line, icc
      ensures Valid() && (old(icc.Healthy()) ==> icc.Healthy()) && icc.timings == old(icc.timings)
      ensures n < |ps| && Told(base, line, ps, n') && built == old(built) + n' - n + (if ret == IccError then 1 else 0)
      ensures ret == Ok ==> n' == n + 1 && Awaiting(cmd, counter + size, ifsc, built, more, ps, n') && (more ==> size > 0)
      ensures ret == Ok ==> Acked(old(icc.incoming)) && icc.incoming == Tail(old(icc.incoming))
      ensures ret != Ok && old(icc.Healthy()) ==> !Acked(old(icc.incoming)) && ret == NotImplemented
    {
      NextPiece(cmd, counter, ifsc, built, ps, n);
      var ok := AwaitAck();
      if !ok {
        return NotImplemented, 0, false, n;
      }
      ret, size, more, n' := SendTold(cmd, counter, ps, base, n);
    }

    /** Sends the n-th block of the chain. */
    method SendTold(cmd: bytes, counter: nat, ghost ps: seq<Block>, ghost base: seq<Block>, ghost n: nat)
      returns (ret: Code, size: nat, more: bool, ghost n': nat)
      requires Valid() && Awaiting(cmd, counter, ifsc, built, true, ps, n) && Told(base, line, ps, n)
      modifies this`ns, this`built, this`line, icc`outgoing, icc`frames, icc`faults
      ensures Valid() && (old(icc.Healthy()) ==> icc.Healthy() && ret == Ok)
      ensures ret == Ok || ret == IccError
      ensures n < |ps| && n' == (if ret == Ok then n + 1 else n) && Told(base, line, ps, n') && built == old(built) + 1
      ensures Awaiting(cmd, counter + size, ifsc, built, more, ps, n + 1) && (more ==> size > 0)
    {
      ret, size, more := SendPiece(cmd, counter, ps, n);
      n' := n;
      if ret == Ok {
        ToldNext(base, old(line), ps, n);
        n' := n + 1;
      }
    }

    /** Receives a block and tells whether it is a positive R-block. */
    method AwaitAck() returns (ok: bool)
      requires Valid()
      modifies icc`incoming, icc`waited, icc`faults, icc`timings
      ensures Valid() && (old(icc.Healthy()) ==> icc.Healthy()) && icc.timings == old(icc.timings)
      ensures ok ==> Acked(old(icc.incoming)) && icc.incoming == Tail(old(icc.incoming))
      ensures old(icc.Healthy()) && Acked(old(icc.incoming)) ==> ok
    {
      var ret, block := ReceiveBlock();
      ok := ret == Ok && GetType(block) == R_OK;
    }

    /** Builds and sends the I-block that starts at command byte `counter`, the n-th of the chain. */
    method SendPiece(cmd: bytes, counter: nat, ghost ps: seq<Block>, ghost n: nat) returns (ret: Code, size: nat, more: bool)
      requires Valid() && Awaiting(cmd, counter, ifsc, built, true, ps, n)
      modifies this`ns, this`built, this`line, icc`outgoing, icc`frames, icc`faults
      ensures Valid() && (old(icc.Healthy()) ==> icc.Healthy() && ret == Ok)
      ensures ret == Ok || ret == IccError
      ensures n < |ps| && built == old(built) + 1 && line == if ret == Ok then old(line) + [ps[n]] else old(line)
      ensures Awaiting(cmd, counter + size, ifsc, built, more, ps, n + 1) && (more ==> size > 0)
    {
      NextPiece(cmd, counter, ifsc, built, ps, n);
      size := Min(|cmd| - counter, ifsc);
      more := |cmd| - counter > ifsc;
      ns := (ns + 1) % 2;
      built := built + 1;
      ret := SendBlock(I(cmd[counter..counter + size], ns, more));
    }

    /** One pass of the second loop of Protocol_T1_Command: receives a block, under an extended block
        timeout after a WTX request, and answers it. */
    method TakeNext(wtx: byte, buffer: bytes, counter: nat)
      returns (ret: Code, more: bool, wtx': byte, buffer': bytes, counter': nat, answer: Block)
      requires Valid() && counter <= |buffer|
      modifies this`line, icc
      ensures Valid() && (old(icc.Healthy()) ==> icc.Healthy()) && icc.timings == old(icc.timings) && counter' <= |buffer'|
      ensures line == if ret == Ok && more then old(line) + [answer] else old(line)
      ensures ret == Ok ==>
                && HasBlock(old(icc.incoming)) && icc.incoming == Tail(old(icc.incoming))
                && Take(Head(old(icc.incoming)), buffer, counter)
                   == if more then Go(answer, buffer', counter') else Stop(Ok, buffer', counter')
      ensures ret != Ok && old(icc.Healthy()) ==>
                if HasBlock(old(icc.incoming)) then Take(Head(old(icc.incoming)), buffer, counter) == Stop(ret, buffer', counter')
                else ret == IccError && buffer' == buffer && counter' == counter
      // the block is awaited for BWT, times the multiplier after a WTX request
      ensures ret == Ok || old(icc.Healthy()) ==> icc.waited == old(icc.waited) + BlockWaits(old(icc.incoming), wtx, bwt, cwt)
      ensures ret == Ok ==> wtx' == NextWtx(Head(old(icc.incoming)), wtx)
    {
      var block;
      ret, block, wtx' := ReceiveWithin(wtx);
      if ret != Ok {
        return ret, true, wtx', buffer, counter, R(0);
      }
      if GetType(block) == I_TYPE {
        ret, more, buffer', counter', answer := TakeInfo(block, buffer, counter);
      } else {
        more, buffer', counter' := true, buffer, counter;
        ret, wtx', answer := TakeOther(block, wtx', buffer, counter);
      }
    }

    /** Receives a block; after a WTX request the block timeout is extended for it. */
    method ReceiveWithin(wtx: byte) returns (ret: Code, block: bytes, wtx': byte)
      requires Valid()
      modifies icc`incoming, icc`waited, icc`faults, icc`timings
      ensures Valid() && (old(icc.Healthy()) ==> icc.Healthy()) && icc.timings == old(icc.timings)
      ensures ret == Ok || ret == IccError
      ensures ret == Ok ==>
                HasBlock(old(icc.incoming)) && block == Head(old(icc.incoming)) && icc.incoming == Tail(old(icc.incoming))
      ensures old(icc.Healthy()) ==> (ret == Ok <==> HasBlock(old(icc.incoming)))
      ensures wtx' == if wtx > 1 then 0 else wtx
      ensures ret == Ok || old(icc.Healthy()) ==> icc.waited == old(icc.waited) + BlockWaits(old(icc.incoming), wtx, bwt, cwt)
    {
      wtx' := wtx;
      if wtx > 1 {
        UpdateBwt(wtx * bwt);
      }
      ret, block := ReceiveBlock();
      if wtx > 1 {
        UpdateBwt(bwt);
        wtx' := 0;
      }
    }

    /** An I-block: its information field is appended, and a chained one acknowledged. */
    method TakeInfo(block: bytes, buffer: bytes, counter: nat)
      returns (ret: Code, more: bool, buffer': bytes, counter': nat, answer: Block)
      requires Valid() && counter <= |buffer| && IsBlock(block) && GetType(block) == I_TYPE
      modifies this`line, icc`outgoing, icc`frames, icc`faults
      ensures Valid() && (old(icc.Healthy()) ==> icc.Healthy() && ret == Ok) && counter' <= |buffer'|
      ensures line == if ret == Ok && more then old(line) + [answer] else old(line)
      ensures ret == Ok ==> Take(block, buffer, counter) == if more then Go(answer, buffer', counter') else Stop(Ok, buffer', counter')
    {
      ret, answer := Ok, R((GetNS(block) + 1) % 2);
      buffer' := buffer[..counter] + GetInf(block);
      counter' := (counter + |GetInf(block)|) % 0x1_0000;
      more := GetMore(block);
      if more {
        ret := SendBlock(answer);
      }
    }

    /** A WTX request is answered with the same multiplier; no other block is expected. */
    method TakeOther(block: bytes, wtx: byte, ghost buffer: bytes, ghost counter: nat) returns (ret: Code, wtx': byte, answer: Block)
      requires Valid() && counter <= |buffer| && IsBlock(block) && GetType(block) != I_TYPE
      modifies this`line, icc`outgoing, icc`frames, icc`faults
      ensures Valid() && (old(icc.Healthy()) ==> icc.Healthy() && ret != IccError)
      ensures line == if ret == Ok then old(line) + [answer] else old(line)
      ensures ret == Ok ==> Take(block, buffer, counter) == Go(answer, buffer, counter)
      ensures ret != Ok && ret != IccError ==> Take(block, buffer, counter) == Stop(ret, buffer, counter)
      ensures wtx' == if GetType(block) == S_WTX_REQ && |block| >= 5 then block[3] else wtx
    {
      wtx', answer := wtx, R(0);
      if GetType(block) == S_WTX_REQ {
        if |block| < 5 {
          return Undefined, wtx', answer;
        }
        wtx' := block[3];
        answer := WtxResponse(wtx');
        ret := SendBlock(answer);
      } else {
        ret := NotImplemented;
      }
    }

    /** The second loop of Protocol_T1_Command. */
    method ReceivePhase() returns (ret: Code, buffer: bytes, counter: nat, ghost answers: seq<Block>)
      requires Valid()
      modifies this`line, icc
      ensures Valid() && (old(icc.Healthy()) ==> icc.Healthy()) && icc.timings == old(icc.timings) && line == old(line) + answers
      ensures ret == Ok ==> ReceiveRun(old(icc.incoming), [], 0) == Received(Ok, buffer, counter, answers, icc.incoming)
      ensures old(icc.Healthy()) ==> ret == ReceiveRun(old(icc.incoming), [], 0).code
      ensures ret == Ok || old(icc.Healthy()) ==> icc.waited == old(icc.waited) + Waits(old(icc.incoming), 0, bwt, cwt)
      ensures ret == Ok ==> Ends(icc.waited, Waits(old(icc.incoming), 0, bwt, cwt))
    {
      ret, buffer, counter := Ok, [], 0;
      var more, wtx: byte := true, 0;
      ghost var q, all := ReceiveRun(icc.incoming, [], 0), icc.waited + Waits(icc.incoming, 0, bwt, cwt);
      ghost var n: nat := 0;
      assert q.answers[0..] == q.answers;
      ToldNothing(line, q.answers);
      while ret == Ok && more
        invariant Valid() && (old(icc.Healthy()) ==> icc.Healthy()) && icc.timings == old(icc.timings) && counter <= |buffer|
        invariant Told(old(line), line, q.answers, n)
        invariant ret == Ok && more ==> Owing(q, ReceiveRun(icc.incoming, buffer, counter), n)
        invariant ret == Ok && !more ==> Owing(q, Received(Ok, buffer, counter, [], icc.incoming), n)
        invariant ret != Ok && old(icc.Healthy()) ==> ret == q.code
        invariant ret == Ok && more ==> all == icc.waited + Waits(icc.incoming, wtx, bwt, cwt)
        invariant (ret == Ok && !more) || (ret != Ok && old(icc.Healthy())) ==> all == icc.waited
        decreases ret == Ok, more, |icc.incoming|
      {
        ret, more, wtx, buffer, counter, n := TakeTurn(wtx, buffer, counter, q, old(line), n, all);
      }
      answers := q.answers[..n];
      ToldAll(old(line), line, q.answers, n);
      assert ret == Ok ==> n == |q.answers| && answers == q.answers;
      AppendedEnds(old(icc.waited), Waits(old(icc.incoming), 0, bwt, cwt));
    }

    /** A block of the answer, and what is owed for it. */
    method TakeTurn(wtx: byte, buffer: bytes, counter: nat, ghost q: Received, ghost base: seq<Block>, ghost n: nat, ghost all: seq<nat>)
      returns (ret: Code, more: bool, wtx': byte, buffer': bytes, counter': nat, ghost n': nat)
      requires Valid() && counter <= |buffer| && Owing(q, ReceiveRun(icc.incoming, buffer, counter), n) && Told(base, line, q.answers, n)
      requires all == icc.waited + Waits(icc.incoming, wtx, bwt, cwt)
      modifies this`line, icc
      ensures Valid() && (old(icc.Healthy()) ==> icc.Healthy()) && icc.timings == old(icc.timings) && counter' <= |buffer'|
      ensures Told(base, line, q.answers, n') && (ret == Ok ==> |icc.incoming| < |old(icc.incoming)|)
      ensures ret == Ok && more ==> Owing(q, ReceiveRun(icc.incoming, buffer', counter'), n')
      ensures ret == Ok && !more ==> Owing(q, Received(Ok, buffer', counter', [], icc.incoming), n')
      ensures ret != Ok && old(icc.Healthy()) ==> ret == q.code
      ensures ret == Ok && more ==> all == icc.waited + Waits(icc.incoming, wtx', bwt, cwt)
      ensures (ret == Ok && !more) || (ret != Ok && old(icc.Healthy())) ==> all == icc.waited
    {
      ghost var s, w := icc.incoming, icc.waited;
      WaitsUnfold(s, wtx, bwt, cwt, buffer, counter, w);
      var answer;
      ret, more, wtx', buffer', counter', answer := TakeNext(wtx, buffer, counter);
      n' := n;
      if ret == Ok && more {
        OwingStep(q, answer, ReceiveRun(icc.incoming, buffer', counter'), n);
        ToldNext(base, old(line), q.answers, n);
        n' := n + 1;
      }
    }

    /** Protocol_T1_Command. The response is null when fewer than two bytes were collected. */
    method Command(cmd: bytes) returns (ret: Code, rsp: Apdu.Response?, ghost sent: seq<Block>, ghost answers: seq<Block>)
      requires Valid() && |cmd| <= 65535
      modifies this`ns, this`built, this`line, icc
      ensures Valid() && (old(icc.Healthy()) ==> icc.Healthy()) && icc.timings == old(icc.timings) && line == old(line) + sent + answers
      // what went out: the whole command in chained blocks, or the beginning of that chain
      ensures |sent| <= |Pieces(cmd, ifsc, old(built) % 2)| && sent == Pieces(cmd, ifsc, old(built) % 2)[..|sent|]
      ensures ret == Ok ==> sent == Pieces(cmd, ifsc, old(built) % 2)
      ensures ret == Ok ==>
                var q := Outcome(cmd, ifsc, old(built) % 2, old(icc.incoming));
                && q.code == Ok && answers == q.answers && icc.incoming == q.rest
                && (rsp == null <==> ResponseOf(q).None?)
                && (rsp != null ==> fresh(rsp) && rsp.Valid() && ResponseOf(q) == Some(rsp.response))
      ensures old(icc.Healthy()) ==> ret == Outcome(cmd, ifsc, old(built) % 2, old(icc.incoming)).code
      // the answer was awaited for BWT, extended as the card asked for it
      ensures ret == Ok ==> Ends(icc.waited, Waits(Skip(old(icc.incoming), |Pieces(cmd, ifsc, old(built) % 2)| - 1), 0, bwt, cwt))
    {
      rsp, answers := null, [];
      ret, sent := SendPhase(cmd);
      assert old(line) + sent + [] == old(line) + sent;
      if ret != Ok {
        return;
      }
      var buffer, counter;
      ret, buffer, counter, answers := ReceivePhase();
      if ret == Ok && counter >= 2 {
        rsp := new Apdu.Response(buffer[..counter]);
      }
    }
  }

  /** From the command to its answer: a card that acknowledges every chained block and then answers by any
      script of chained blocks and waiting time requests was sent the command in chained blocks and what the
      answer called for, and nothing else; the response is the information fields of its answer, in order, if and
      only if there are 2 to 65535 bytes of them. */
  method Transact(t1: T1, cmd: bytes, ghost acks: seq<CardBlock>, ghost cs: seq<CardBlock>, ghost rest: bytes)
    returns (ret: Code, rsp: Apdu.Response?)
    requires t1.Valid() && |cmd| <= 65535 && t1.icc.Healthy()
    requires t1.icc.incoming == Render(acks) + (Render(cs) + rest)
    requires |acks| == |Pieces(cmd, t1.ifsc, t1.built % 2)| - 1 && forall i | 0 <= i < |acks| :: acks[i].Positive?
    requires AnswerScript(cs)
    modifies t1`ns, t1`built, t1`line, t1.icc
    ensures ret == Ok && t1.icc.incoming == rest && t1.icc.timings == old(t1.icc.timings)
    ensures t1.Valid() && t1.line == old(t1.line) + Pieces(cmd, t1.ifsc, old(t1.built) % 2) + Owed(cs)
    ensures rsp != null && rsp.response == Payload(cs) <==> 2 <= |Payload(cs)| <= 65535
    ensures Ends(t1.icc.waited, ScriptWaits(cs, t1.bwt, t1.bwt, t1.cwt))
  {
    AckScript(acks, Render(cs) + rest);
    WaitsScript(cs, rest, 0, t1.bwt, t1.cwt);
    CommandCompletes(cmd, t1.ifsc, t1.built % 2, acks, cs, rest);
    CollectPays(cs, [], 0, rest);
    ReceiveCollects(cs, rest, [], 0);
    AnswerIffFits(cs, rest);
    ghost var sent, answers;
    ret, rsp, sent, answers := t1.Command(cmd);
  }

  predicate Ends(a: seq<nat>, b: seq<nat>) { |b| <= |a| && a[|a| - |b|..] == b }

  lemma AppendedEnds(a: seq<nat>, b: seq<nat>)
    ensures Ends(a + b, b)
  {
  }

  /** The n-th block of the chain starts at command byte `at`, if there is one. */
  ghost predicate Awaiting(cmd: bytes, at: nat, ifsc: nat, built: nat, more: bool, ps: seq<Block>, n: nat)
    requires 1 <= ifsc <= MAX_IFSC
  {
    at <= |cmd| && Remains(ps, n, if more then Pieces(cmd[at..], ifsc, built % 2) else [])
  }

  /** From the n-th on, the blocks ps are these. */
  ghost predicate Remains(ps: seq<Block>, n: nat, rest: seq<Block>) {
    |ps| == n + |rest| && forall k {:trigger Agree(ps, n, rest, k)} | 0 <= k < |rest| :: Agree(ps, n, rest, k)
  }

  predicate Agree(ps: seq<Block>, n: nat, rest: seq<Block>, k: nat) {
    k < |rest| && n + k < |ps| && ps[n + k] == rest[k]
  }

  lemma {:induction false} RemainsNext(ps: seq<Block>, n: nat, rest: seq<Block>)
    requires Remains(ps, n, rest) && rest != []
    ensures n < |ps| && ps[n] == rest[0] && Remains(ps, n + 1, rest[1..])
  {
    assert Agree(ps, n, rest, 0);
    var m, tail := n + 1, rest[1..];
    forall k | 0 <= k < |tail|
      ensures Agree(ps, m, tail, k)
    {
      assert Agree(ps, n, rest, k + 1);
    }
  }

  lemma {:induction false} NextPiece(cmd: bytes, at: nat, ifsc: nat, built: nat, ps: seq<Block>, n: nat)
    requires 1 <= ifsc <= MAX_IFSC && Awaiting(cmd, at, ifsc, built, true, ps, n)
    ensures var size, more := Min(|cmd| - at, ifsc), |cmd| - at > ifsc;
            && n < |ps| && ps[n] == I(cmd[at..at + size], built % 2, more)
            && Awaiting(cmd, at + size, ifsc, built + 1, more, ps, n + 1)
  {
    var left := cmd[at..];
    RemainsNext(ps, n, Pieces(left, ifsc, built % 2));
    assert left[..Min(|left|, ifsc)] == cmd[at..at + Min(|left|, ifsc)];
    assert |left| > ifsc ==> left[ifsc..] == cmd[at + ifsc..];
    assert (built + 1) % 2 == 1 - built % 2;
  }

  /** The timeouts for the next block and those after it. */
  lemma {:induction false} WaitsUnfold(s: bytes, wtx: byte, bwt: nat, cwt: nat, buffer: bytes, counter: nat, w: seq<nat>)
    requires counter <= |buffer|
    ensures w + Waits(s, wtx, bwt, cwt) == w + BlockWaits(s, wtx, bwt, cwt)
            + if HasBlock(s) && Take(Head(s), buffer, counter).Go? then Waits(Tail(s), NextWtx(Head(s), wtx), bwt, cwt) else []
  {
    if HasBlock(s) {
      TakeGoes(Head(s), buffer, counter);
    }
    Associate(w, BlockWaits(s, wtx, bwt, cwt),
              if HasBlock(s) && Take(Head(s), [], 0).Go? then Waits(Tail(s), NextWtx(Head(s), wtx), bwt, cwt) else []);
  }
}
