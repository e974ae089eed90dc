/** The T=0 protocol handler (src/driver/protocol_t0.c), built with PROTOCOL_T0_ISO. */
module ProtocolT0 {
  import opened Bytes
  import opened Apdu
  import opened IccAsync
  import opened T0Wire
  import opened T0Mapping
  import opened T0Dialogue
  import T0Script

  class T0 {
    const icc: Icc

    constructor (icc: Icc)
      ensures this.icc == icc
    {
      this.icc := icc;
    }

    ghost function Now(): Line
      reads icc
    {
      Line(icc.incoming, icc.outgoing)
    }

    /** Protocol_T0_ExchangeTPDU. */
    method ExchangeTPDU(cmd: Cmd) returns (ret: Code, rsp: Response?)
      modifies icc
      ensures old(icc.Healthy()) ==> icc.Healthy()
      // a command of any other case is refused before anything is sent
      ensures !Transportable(cmd) ==> ret == Error && icc.outgoing == old(icc.outgoing) && icc.incoming == old(icc.incoming)
      // an OK exchange followed the card's bytes to their end
      ensures ret == Ok ==> Transportable(cmd) && rsp != null && rsp.Valid() && fresh(rsp)
      ensures ret == Ok ==>
                var e := Exchange(cmd, old(icc.incoming));
                && e.Complete? && rsp.response == e.reply && icc.incoming == e.rest
                && icc.outgoing == old(icc.outgoing) + cmd[..5] + Data(cmd)[..e.sent]
      // without reader failures the outcome is decided by the card's bytes alone
      ensures Transportable(cmd) && old(icc.Healthy()) ==>
                var e := Exchange(cmd, old(icc.incoming));
                && (ret == Ok <==> e.Complete?) && (e.Failed? ==> ret == e.code) && icc.incoming == e.rest
                && icc.outgoing == old(icc.outgoing) + cmd[..5] + Data(cmd)[..e.sent]
      // in every case, reader failures included, only the header and a prefix of the data went out
      ensures Broken(cmd, old(icc.outgoing), icc.outgoing)
      // and a sending command ends after boundedly many bytes
      ensures |icc.incoming| <= |old(icc.incoming)| && (ret == Ok ==> |icc.incoming| < |old(icc.incoming)|)
      ensures CaseOf(cmd) == Case2S ==> |old(icc.incoming)| - |icc.incoming| <= MAX_NULLS * (Lc(cmd) + 1) + 1
    {
      rsp := null;
      if CaseOf(cmd) != Case2S && CaseOf(cmd) != Case3S {
        return Error, null;
      }

      var ok := icc.Attempt();
      if !ok {
        return IccError, null;
      }
      ok := icc.Transmit(cmd[..5]);
      if !ok {
        ok := icc.Attempt();
        return IccError, null;
      }

      var buffer := new byte[MAX_SHORT_RESPONSE];
      var abandon, recv;
      ghost var took;
      if CaseOf(cmd) == Case2S { SendReadsBounded(TpduOf(cmd), icc.incoming, START); }
      ret, abandon, recv, took := Converse(TpduOf(cmd), Data(cmd), buffer);
      TpduPrefix(cmd, took);
      Associate(old(icc.outgoing), cmd[..5], Data(cmd)[..took]);
      if abandon {
        return;
      }

      ok := icc.Attempt();
      if !ok {
        ret := IccError;
      }
      if ret == Ok {
        CompleteHasStatus(TpduOf(cmd), old(icc.incoming));
        rsp := new Response(buffer[..recv]);
      }
      ok := icc.Attempt();
      if !ok {
        ret := IccError;
      }
    }

    /** SW1 lies at buffer[recv]: reads SW2 behind it. */
    method TakeStatus(buffer: array<byte>, recv: nat) returns (ret: Code, abandon: bool, recv': nat)
      requires buffer.Length == MAX_SHORT_RESPONSE && recv < MAX_SHORT_RESPONSE
      modifies icc`incoming, icc`waited, icc`faults, buffer
      ensures old(icc.Healthy()) ==> icc.Healthy() && (ret == IccError ==> old(icc.incoming) == [])
      ensures abandon <==> recv + 1 >= MAX_SHORT_RESPONSE
      ensures recv' <= MAX_SHORT_RESPONSE
      ensures if ret == Ok then
                && old(icc.incoming) != [] && icc.incoming == old(icc.incoming)[1..]
                && recv' == recv + 2 <= MAX_SHORT_RESPONSE
                && buffer[..recv'] == old(buffer[..recv + 1]) + [old(icc.incoming)[0]]
              else ret == (if abandon then Error else IccError) && icc.incoming == old(icc.incoming)
    {
      ret, abandon, recv' := Ok, false, recv + 1;
      if recv' >= MAX_SHORT_RESPONSE {
        return Error, true, recv';
      }
      var got, sw2 := icc.Receive(1);
      if !got {
        return IccError, false, recv';
      }
      buffer[recv'] := sw2[0];
      recv' := recv' + 1;
    }

    /** ACK or, when `single`, ~ACK received: the next data byte or all remaining ones change hands. */
    method Acknowledged(t: Tpdu, data: bytes, single: bool, buffer: array<byte>, ghost nulls: nat, sent: nat, recv: nat)
      returns (ret: Code, abandon: bool, sent': nat, recv': nat)
      requires Fits(t, data) && buffer.Length == MAX_SHORT_RESPONSE && recv < MAX_SHORT_RESPONSE && sent <= |data|
      modifies icc`incoming, icc`waited, icc`outgoing, icc`frames, icc`faults, buffer
      ensures old(icc.Healthy()) ==> icc.Healthy()
      ensures abandon ==> ret == Error
      ensures sent <= sent' <= |data| && recv' <= MAX_SHORT_RESPONSE
      ensures icc.outgoing == old(icc.outgoing) + data[sent..sent'] && (t.Sending? ==> recv' == recv)
      ensures var p := Move(t, single, old(icc.incoming), old(Progress(nulls, sent, buffer[..recv])));
              if ret == Ok then p == Next(icc.incoming, Progress(0, sent', buffer[..recv']))
              else
                && icc.incoming == old(icc.incoming)
                && (old(icc.Healthy()) ==> p == Over(Failed(ret, sent', icc.incoming)))
    {
      ret, abandon, sent', recv' := Ok, false, sent, recv;
      if t.Sending? {
        if sent >= t.lc {
          return Error, true, sent, recv;
        }
        var ok := icc.Attempt();
        if !ok {
          return IccError, false, sent, recv;
        }
        var last := if single then sent + 1 else t.lc;
        ok := icc.Transmit(data[sent..last]);
        if !ok {
          return IccError, false, sent, recv;
        }
        sent' := last;
      } else {
        var ok, more := icc.Receive(if single then 1 else Max(t.le - recv, 0));
        if !ok {
          return IccError, false, sent, recv;
        }
        ghost var was := buffer[..recv];
        Store(buffer, recv, more);
        recv' := if single then recv + 1 else t.le;
        assert buffer[..recv'] == if single then was + more else Fill(t.le, was, more);
      }
    }

    /** One pass of the procedure byte loop. Either the run goes on from the new state, or it is over:
        the reply is buffer[..recv'] or the exchange failed. */
    method NextProcedureByte(t: Tpdu, data: bytes, buffer: array<byte>, nulls: nat, sent: nat, recv: nat)
      returns (ret: Code, abandon: bool, done: bool, nulls': nat, sent': nat, recv': nat)
      requires Fits(t, data) && buffer.Length == MAX_SHORT_RESPONSE
      requires nulls < MAX_NULLS && recv < MAX_SHORT_RESPONSE && sent <= |data| && (t.Sending? ==> recv == 0)
      modifies icc`incoming, icc`waited, icc`outgoing, icc`frames, icc`faults, buffer
      ensures old(icc.Healthy()) ==> icc.Healthy()
      ensures nulls' < MAX_NULLS && sent <= sent' <= |data| && recv' <= MAX_SHORT_RESPONSE
      ensures t.Sending? && !done ==> recv' == 0
      ensures icc.outgoing == old(icc.outgoing) + data[sent..sent']
      ensures (abandon ==> ret == Error) && (!done ==> ret == Ok && !abandon)
      ensures var p := Advance(t, old(icc.incoming), old(Progress(nulls, sent, buffer[..recv])));
              if !done then p == Next(icc.incoming, Progress(nulls', sent', buffer[..recv']))
              else
                && (ret == Ok ==> p == Over(Complete(buffer[..recv'], sent', icc.incoming)))
                && (ret != Ok && old(icc.Healthy()) ==> p == Over(Failed(ret, sent', icc.incoming)))
      ensures |icc.incoming| >= |old(icc.incoming)| - 1 || !done || ret == Ok
      ensures |icc.incoming| <= |old(icc.incoming)|
    {
      ret, abandon, done, nulls', sent', recv' := Ok, false, true, nulls, sent, recv;
      ghost var s, buf := icc.incoming, buffer[..recv];
      var got, proc := icc.Receive(1);
      if !got {
        ret := IccError;
        return;
      }
      buffer[recv] := proc[0];
      var p := buffer[recv];
      assert p == s[0] && icc.incoming == s[1..] && buffer[..recv] == buf && buffer[..recv + 1] == buf + [p];

      if p == NULL {
        if nulls + 1 >= MAX_NULLS {
          ret := NullError;
        } else {
          nulls', done := nulls + 1, false;
        }
      } else if IsSw1(p) {
        ret, abandon, recv' := TakeStatus(buffer, recv);
        assert ret == Ok ==> s[..2] == [p, s[1]];
      } else if IsAck(t.ins, p) || IsNotAck(t.ins, p) {
        var single := !IsAck(t.ins, p);
        ret, abandon, sent', recv' := Acknowledged(t, data, single, buffer, nulls, sent, recv);
        nulls', done := 0, ret != Ok;
      } else {
        ret := Error;
      }
    }

    /** The procedure byte loop, after the header has been sent. The reply is buffer[..recv];
        `abandon` marks the returns that skip the end of the transmission. */
    method Converse(t: Tpdu, data: bytes, buffer: array<byte>) returns (ret: Code, abandon: bool, recv: nat, ghost took: nat)
      requires Fits(t, data) && buffer.Length == MAX_SHORT_RESPONSE
      modifies icc`incoming, icc`waited, icc`outgoing, icc`frames, icc`faults, buffer
      ensures Exchanged(t, old(icc.incoming), icc.incoming, ret, buffer, recv)
      ensures old(icc.Healthy()) ==> icc.Healthy() && Settled(t, old(icc.incoming), icc.incoming, ret)
      ensures abandon ==> ret == Error
      ensures took <= |data| && icc.outgoing == old(icc.outgoing) + data[..took]
      ensures ret == Ok || old(icc.Healthy()) ==> took == Run(t, old(icc.incoming), START).sent
    {
      ghost var e := Run(t, icc.incoming, START);
      var nulls: nat, sent: nat, done := 0, 0, false;
      ret, abandon, recv := Ok, false, 0;
      assert buffer[..0] == [] && data[..0] == [];

      while !done && recv < MAX_SHORT_RESPONSE
        invariant nulls < MAX_NULLS && recv <= MAX_SHORT_RESPONSE && sent <= |data|
        invariant t.Sending? && !done ==> recv == 0
        invariant icc.outgoing == old(icc.outgoing) + data[..sent]
        invariant old(icc.Healthy()) ==> icc.Healthy()
        invariant (abandon ==> ret == Error) && (!done ==> ret == Ok && !abandon)
        invariant |e.rest| <= |icc.incoming| <= |old(icc.incoming)|
        invariant !done ==> e == Run(t, icc.incoming, Progress(nulls, sent, buffer[..recv]))
        invariant done && ret == Ok ==> e == Complete(buffer[..recv], sent, icc.incoming)
        invariant done && ret != Ok && old(icc.Healthy()) ==> e == Failed(ret, sent, icc.incoming)
        decreases !done, |icc.incoming|
      {
        ghost var sent0 := sent;
        ret, abandon, done, nulls, sent, recv := NextProcedureByte(t, data, buffer, nulls, sent, recv);
        assert data[..sent0] + data[sent0..sent] == data[..sent];
      }
      took := sent;
    }

    // ----- the case handlers -----

    /** An exchange as the case handlers use it. */
    method Ask(cmd: Cmd) returns (ret: Code, rsp: Response?, ghost t: Turn)
      modifies icc
      ensures old(icc.Healthy()) ==> icc.Healthy()
      ensures ret == Ok ==> rsp != null && rsp.Valid() && fresh(rsp) && |icc.incoming| < |old(icc.incoming)|
      ensures t == Turn(cmd, if ret == Ok then Some(rsp.response) else None)
      ensures Dialogue(Played, [t], old(icc.Healthy()), ret, old(Now()), Now())
    {
      ret, rsp := ExchangeTPDU(cmd);
      t := Turn(cmd, if ret == Ok then Some(rsp.response) else None);
      PlayedDialogue(t, old(icc.Healthy()), ret, old(Now()), Now());
    }

    /** An exchange after others that were answered. */
    method AskNext(cmd: Cmd, ghost ts: seq<Turn>, ghost h: bool, ghost start: Line) returns (ret: Code, rsp: Response?, ghost t: Turn)
      requires Full(ts) && (h ==> icc.Healthy()) && Dialogue(Played, ts, h, Ok, start, Now())
      modifies icc
      ensures ret == Ok ==> rsp != null && rsp.Valid() && fresh(rsp) && |icc.incoming| < |old(icc.incoming)|
      ensures t == Turn(cmd, if ret == Ok then Some(rsp.response) else None)
      ensures (h ==> icc.Healthy()) && Dialogue(Played, ts + [t], h, ret, start, Now())
    {
      ret, rsp, t := Ask(cmd);
      DialogueJoin(Played, ts, [t], h, old(icc.Healthy()), Ok, ret, start, old(Now()), Now());
    }

    /** Case 1: the TPDU gets a fifth byte P3 = 00. */
    method Case1Handler(cmd: Cmd) returns (ret: Code, rsp: Response?, ghost ts: seq<Turn>)
      requires CaseOf(cmd) == Case1
      modifies icc
      ensures old(icc.Healthy()) ==> icc.Healthy()
      ensures ret == Ok ==> rsp != null && rsp.Valid() && fresh(rsp)
      ensures Plain(cmd + [0], ts, ret, Answer(ret, rsp))
      ensures Dialogue(Played, ts, old(icc.Healthy()), ret, old(Now()), Now())
    {
      ghost var t;
      ret, rsp, t := Ask(cmd[..4] + [0]);
      assert cmd[..4] + [0] == cmd + [0];
      ts := [t];
    }

    method Case2SHandler(cmd: Cmd) returns (ret: Code, rsp: Response?, ghost ts: seq<Turn>)
      requires CaseOf(cmd) == Case2S
      modifies icc
      ensures old(icc.Healthy()) ==> icc.Healthy()
      ensures ret == Ok ==> rsp != null && rsp.Valid() && fresh(rsp)
      ensures Plain(cmd, ts, ret, Answer(ret, rsp))
      ensures Dialogue(Played, ts, old(icc.Healthy()), ret, old(Now()), Now())
    {
      ghost var t;
      ret, rsp, t := Ask(cmd);
      ts := [t];
    }

    method Case3SHandler(cmd: Cmd) returns (ret: Code, rsp: Response?, ghost ts: seq<Turn>)
      requires CaseOf(cmd) == Case3S
      modifies icc
      ensures old(icc.Healthy()) ==> icc.Healthy()
      ensures ret == Ok ==> rsp != null && rsp.Valid() && fresh(rsp)
      ensures ShortReceive(cmd, Le(cmd), ts, ret, Answer(ret, rsp))
      ensures Dialogue(Played, ts, old(icc.Healthy()), ret, old(Now()), Now())
    {
      ret, rsp, ts := ReceiveShort(cmd, Le(cmd));
    }

    /** Case 3S with the decoded Le. */
    method ReceiveShort(cmd: Cmd, le: nat) returns (ret: Code, rsp: Response?, ghost ts: seq<Turn>)
      requires le > 0
      modifies icc
      ensures old(icc.Healthy()) ==> icc.Healthy()
      ensures ret == Ok ==> rsp != null && rsp.Valid() && fresh(rsp)
      ensures ShortReceive(cmd, le, ts, ret, Answer(ret, rsp))
      ensures Dialogue(Played, ts, old(icc.Healthy()), ret, old(Now()), Now())
    {
      ghost var t;
      ret, rsp, t := Ask(cmd);
      ts := [t];
      if ret == Ok {
        ret, rsp, ts := FollowUpShort(cmd, le, rsp, t, old(icc.Healthy()), old(Now()));
      }
    }

    /** What case 3S does with the first answer; 67xx and all but 6Cxx and 61xx are passed on without change. */
    method FollowUpShort(cmd: Cmd, le: nat, first: Response, ghost t: Turn, ghost h: bool, ghost start: Line)
      returns (ret: Code, rsp: Response?, ghost ts: seq<Turn>)
      requires le > 0 && first.Valid() && t == Turn(cmd, Some(first.response))
      requires (h ==> icc.Healthy()) && Dialogue(Played, [t], h, Ok, start, Now())
      modifies icc, first
      ensures ret == Ok ==> rsp != null && rsp.Valid() && (rsp == first || fresh(rsp))
      ensures ShortReceive(cmd, le, ts, ret, Answer(ret, rsp))
      ensures (h ==> icc.Healthy()) && Dialogue(Played, ts, h, ret, start, Now())
    {
      ret, rsp, ts := Ok, first, [t];
      if first.GetSw1() == 0x6C {
        ret, rsp, ts := RepeatShort(cmd, le, first.GetSw2(), first.response, t, h, start);
      } else if first.GetSw1() == 0x61 {
        ret, ts := CollectShort(cmd, le, first, t, h, start);
      } else {
        ShortReceivePassed(cmd, le, t, first.response);
      }
    }

    /** After 6Cxx: the command again, with the length that the card told. */
    method RepeatShort(cmd: Cmd, le: nat, length: byte, ghost a: Rsp, ghost t: Turn, ghost h: bool, ghost start: Line)
      returns (ret: Code, rsp: Response?, ghost ts: seq<Turn>)
      requires le > 0 && t == Turn(cmd, Some(a)) && Sw1(a) == 0x6C && length == Sw2(a)
      requires (h ==> icc.Healthy()) && Dialogue(Played, [t], h, Ok, start, Now())
      modifies icc
      ensures ret == Ok ==> rsp != null && rsp.Valid() && fresh(rsp)
      ensures ShortReceive(cmd, le, ts, ret, Answer(ret, rsp))
      ensures (h ==> icc.Healthy()) && Dialogue(Played, ts, h, ret, start, Now())
    {
      ret, rsp, ts := AskAgain(cmd[..4] + [length], t, h, start);
      if ret == Ok {
        Limit(rsp, le);
      }
      ShortReceiveAgain(cmd, le, ts, ret, a, Answer(ret, rsp));
    }

    /** After 61xx: GET RESPONSE commands. */
    method CollectShort(cmd: Cmd, le: nat, rsp: Response, ghost t: Turn, ghost h: bool, ghost start: Line)
      returns (ret: Code, ghost ts: seq<Turn>)
      requires le > 0 && rsp.Valid() && t == Turn(cmd, Some(rsp.response)) && Sw1(rsp.response) == 0x61
      requires (h ==> icc.Healthy()) && Dialogue(Played, [t], h, Ok, start, Now())
      modifies icc, rsp
      ensures rsp.Valid() && ShortReceive(cmd, le, ts, ret, Answer(ret, rsp))
      ensures (h ==> icc.Healthy()) && Dialogue(Played, ts, h, ret, start, Now())
    {
      ghost var a: Rsp := rsp.response;
      ret, ts := FollowShort(cmd, rsp, t, h, start);
      if ret == Ok {
        Limit(rsp, le);
      }
      ShortReceiveCollected(cmd, le, ts, ret, a, Answer(ret, rsp));
    }

    /** The second exchange after a first one that was answered. */
    method AskAgain(cmd: Cmd, ghost first: Turn, ghost h: bool, ghost start: Line)
      returns (ret: Code, rsp: Response?, ghost ts: seq<Turn>)
      requires first.answer.Some? && (h ==> icc.Healthy()) && Dialogue(Played, [first], h, Ok, start, Now())
      modifies icc
      ensures ret == Ok ==> rsp != null && rsp.Valid() && fresh(rsp)
      ensures |ts| == 2 && ts[0] == first && ts[1] == Turn(cmd, if ret == Ok then Some(rsp.response) else None)
      ensures (h ==> icc.Healthy()) && Dialogue(Played, ts, h, ret, start, Now())
    {
      ghost var t;
      ret, rsp, t := AskNext(cmd, [first], h, start);
      ts := [first] + [t];
    }

    /** One GET RESPONSE whose answer is appended to rsp. */
    method AskAndAppend(gr: Cmd, rsp: Response, ghost ts: seq<Turn>, ghost h: bool, ghost start: Line)
      returns (ret: Code, ghost t: Turn)
      requires rsp.Valid() && Appended(ts, Ok, rsp.response)
      requires (h ==> icc.Healthy()) && Dialogue(Played, ts, h, Ok, start, Now())
      modifies icc, rsp
      ensures rsp.Valid() && t.cmd == gr && (ret == Ok ==> |icc.incoming| < |old(icc.incoming)|)
      ensures Appended(ts + [t], ret, rsp.response)
      ensures (h ==> icc.Healthy()) && Dialogue(Played, ts + [t], h, ret, start, Now())
    {
      var part;
      ret, part, t := AskNext(gr, ts, h, start);
      FittingSnoc(ts, t);
      if ret == Ok {
        var ok := Append(rsp, part, ts, gr);
        if !ok {
          DialogueRefused(Played, ts + [t], h, start, Now());
          ret := Error;
        }
      }
    }

    /** The GET RESPONSE loop of case 3S: asks for what each answer announces and appends it to rsp. */
    method FollowShort(cmd: Cmd, rsp: Response, ghost first: Turn, ghost h: bool, ghost start: Line)
      returns (ret: Code, ghost ts: seq<Turn>)
      requires rsp.Valid() && first.answer == Some(rsp.response) && rsp.GetSw1() == 0x61
      requires (h ==> icc.Healthy()) && Dialogue(Played, [first], h, Ok, start, Now())
      modifies icc, rsp
      ensures rsp.Valid() && |ts| >= 2 && ts[0] == first
      ensures Collected(cmd[0], ts, ret, rsp.response) && (ret == Ok ==> rsp.GetSw1() != 0x61)
      ensures (h ==> icc.Healthy()) && Dialogue(Played, ts, h, ret, start, Now())
    {
      ts := [first];
      JoinedOne(first);
      ret, ts := FollowOnce(cmd[0], rsp, ts, h, start);
      while ret == Ok && rsp.GetSw1() == 0x61
        invariant rsp.Valid() && |ts| >= 2 && ts[0] == first
        invariant Collected(cmd[0], ts, ret, rsp.response)
        invariant (h ==> icc.Healthy()) && Dialogue(Played, ts, h, ret, start, Now())
        decreases ret == Ok, |icc.incoming|
      {
        ret, ts := FollowOnce(cmd[0], rsp, ts, h, start);
      }
    }

    method FollowOnce(cla: byte, rsp: Response, ghost ts: seq<Turn>, ghost h: bool, ghost start: Line)
      returns (ret: Code, ghost ts': seq<Turn>)
      requires rsp.Valid() && Collected(cla, ts, Ok, rsp.response) && rsp.GetSw1() == 0x61
      requires (h ==> icc.Healthy()) && Dialogue(Played, ts, h, Ok, start, Now())
      modifies icc, rsp
      ensures rsp.Valid() && |ts'| == |ts| + 1 && ts'[0] == ts[0]
      ensures Collected(cla, ts', ret, rsp.response)
      ensures ret == Ok ==> |icc.incoming| < |old(icc.incoming)|
      ensures (h ==> icc.Healthy()) && Dialogue(Played, ts', h, ret, start, Now())
    {
      var gr := GetResponse(cla, rsp.GetSw2());
      ghost var t;
      ret, t := AskAndAppend(gr, rsp, ts, h, start);
      ts' := ts + [t];
      ChainedSnoc(cla, ts, t);
    }

    method Case4SHandler(cmd: Cmd) returns (ret: Code, rsp: Response?, ghost ts: seq<Turn>)
      requires CaseOf(cmd) == Case4S
      modifies icc
      ensures old(icc.Healthy()) ==> icc.Healthy()
      ensures ret == Ok ==> rsp != null && rsp.Valid() && fresh(rsp)
      ensures ShortBoth(cmd, Le(cmd), ts, ret, Answer(ret, rsp))
      ensures Dialogue(Played, ts, old(icc.Healthy()), ret, old(Now()), Now())
    {
      ghost var t, more := *, [];
      ret, rsp, t := Ask(cmd[..|cmd| - 1]);
      ts := [t];
      if ret == Ok {
        ghost var mid, g := Now(), icc.Healthy();
        ret, rsp, more := FetchShort(cmd[0], Le(cmd), rsp);
        DialogueJoin(Played, [t], more, old(icc.Healthy()), g, Ok, ret, old(Now()), mid, Now());
        ts := [t] + more;
      }
      assert ts[1..] == more;
    }

    /** The second half of case 4S: sw is the answer to the sending TPDU. */
    method FetchShort(cla: byte, le: nat, sw: Response) returns (ret: Code, rsp: Response?, ghost ts: seq<Turn>)
      requires sw.Valid() && 1 <= le <= 256
      modifies icc
      ensures old(icc.Healthy()) ==> icc.Healthy()
      ensures ret == Ok ==> rsp != null && rsp.Valid() && (rsp == sw || fresh(rsp))
      ensures ShortFetch(cla, le, old(sw.response), ts, ret, Answer(ret, rsp))
      ensures Dialogue(Played, ts, old(icc.Healthy()), ret, old(Now()), Now())
    {
      if sw.GetSw1() == 0x61 {
        ghost var t;
        ret, rsp, t := Ask(GetResponse(cla, if sw.GetSw2() == 0 then le % 256 else Min(le, sw.GetSw2())));
        ts := [t];
      } else if sw.GetSw1() / 16 == 6 {
        ret, rsp, ts := Ok, sw, [];
        DialogueNone(Played, icc.Healthy(), Ok, Now());
      } else {
        var gr := GetResponse(cla, le % 256);
        ReceiveTpduLe(gr[..4], le);
        assert gr[..4] + [le % 256] == gr;
        ret, rsp, ts := Case3SHandler(gr);
      }
    }

    /** Case 2E; the sending half of case 4E is the same. */
    method Case2EHandler(cmd: Cmd) returns (ret: Code, rsp: Response?, ghost ts: seq<Turn>)
      modifies icc
      ensures old(icc.Healthy()) ==> icc.Healthy()
      ensures ret == Ok ==> rsp != null && rsp.Valid() && fresh(rsp)
      ensures ExtendedSend(cmd, ts, ret, Answer(ret, rsp))
      ensures Dialogue(Played, ts, old(icc.Healthy()), ret, old(Now()), Now())
    {
      if Lc(cmd) < 256 {
        ghost var t;
        ret, rsp, t := Ask(cmd[..4] + [Lc(cmd)] + Data(cmd));
        ts := [t];
      } else {
        ret, rsp, ts := SendEnvelopes(cmd);
      }
    }

    /** The ENVELOPE loop of case 2E. */
    method SendEnvelopes(raw: Cmd) returns (ret: Code, rsp: Response?, ghost ts: seq<Turn>)
      modifies icc
      ensures old(icc.Healthy()) ==> icc.Healthy()
      ensures ret == Ok ==> rsp != null && rsp.Valid() && fresh(rsp)
      ensures Enveloped(raw, ts, ret, Answer(ret, rsp))
      ensures Dialogue(Played, ts, old(icc.Healthy()), ret, old(Now()), Now())
    {
      var i := 0;
      ret, rsp, ts := Ok, null, [];
      ghost var h, start := icc.Healthy(), Now();
      DialogueNone(Played, h, Ok, start);
      while i < |raw|
        invariant i == Min(255 * |ts|, |raw|) && Underway(raw, ts) && Full(ts) && ret == Ok
        invariant ts != [] ==> rsp != null && rsp.Valid() && fresh(rsp) && ts[|ts| - 1].answer == Some(rsp.response)
        invariant (h ==> icc.Healthy()) && Dialogue(Played, ts, h, Ok, start, Now())
      {
        var n := Min(255, |raw| - i);
        var envelope := [raw[0], 0xC2, 0x00, 0x00, n] + raw[i..i + n];
        assert envelope == Envelope(raw[0], Segment(raw, |ts|));
        ret, rsp, ts := SendEnvelope(raw, envelope, ts, h, start);
        if ret != Ok || rsp.GetSw1() != 0x90 {
          return;
        }
        i := i + n;
      }
    }

    method SendEnvelope(raw: Cmd, envelope: Cmd, ghost ts: seq<Turn>, ghost h: bool, ghost start: Line)
      returns (ret: Code, rsp: Response?, ghost ts': seq<Turn>)
      requires Underway(raw, ts) && |ts| < Segments(|raw|) && envelope == Envelope(raw[0], Segment(raw, |ts|))
      requires Full(ts) && (h ==> icc.Healthy()) && Dialogue(Played, ts, h, Ok, start, Now())
      modifies icc
      ensures |ts'| == |ts| + 1
      ensures ret == Ok ==> rsp != null && rsp.Valid() && fresh(rsp) && ts'[|ts|].answer == Some(rsp.response)
      ensures if ret == Ok && rsp.GetSw1() == 0x90 then Underway(raw, ts') else Enveloped(raw, ts', ret, Answer(ret, rsp))
      ensures (h ==> icc.Healthy()) && Dialogue(Played, ts', h, ret, start, Now())
    {
      ghost var t;
      ret, rsp, t := AskNext(envelope, ts, h, start);
      UnderwaySnoc(raw, ts, t, ret, Answer(ret, rsp));
      ts' := ts + [t];
    }

    method Case3EHandler(cmd: Cmd) returns (ret: Code, rsp: Response?, ghost ts: seq<Turn>)
      requires CaseOf(cmd) == Case3E
      modifies icc
      ensures old(icc.Healthy()) ==> icc.Healthy()
      ensures ret == Ok ==> rsp != null && rsp.Valid() && fresh(rsp)
      ensures ExtendedReceive(cmd[..4], Le(cmd), ts, ret, Answer(ret, rsp))
      ensures Dialogue(Played, ts, old(icc.Healthy()), ret, old(Now()), Now())
    {
      ret, rsp, ts := ReceiveExtended(cmd[..4], Le(cmd));
    }

    /** Case 3E with the decoded Le. */
    method ReceiveExtended(header: bytes, le: nat) returns (ret: Code, rsp: Response?, ghost ts: seq<Turn>)
      requires |header| == 4 && 1 <= le <= 65536
      modifies icc
      ensures old(icc.Healthy()) ==> icc.Healthy()
      ensures ret == Ok ==> rsp != null && rsp.Valid() && fresh(rsp)
      ensures ExtendedReceive(header, le, ts, ret, Answer(ret, rsp))
      ensures Dialogue(Played, ts, old(icc.Healthy()), ret, old(Now()), Now())
    {
      if le <= 256 {
        ReceiveTpduLe(header, le);
        ret, rsp, ts := Case3SHandler(header + [le % 256]);
      } else {
        ret, rsp, ts := ReceiveLong(header, le);
      }
    }

    method ReceiveLong(header: bytes, le: nat) returns (ret: Code, rsp: Response?, ghost ts: seq<Turn>)
      requires |header| == 4
      modifies icc
      ensures old(icc.Healthy()) ==> icc.Healthy()
      ensures ret == Ok ==> rsp != null && rsp.Valid() && fresh(rsp)
      ensures LongReceive(header, le, ts, ret, Answer(ret, rsp))
      ensures Dialogue(Played, ts, old(icc.Healthy()), ret, old(Now()), Now())
    {
      ghost var t;
      ret, rsp, t := Ask(header + [0]);
      ts := [t];
      if ret == Ok {
        ret, rsp, ts := FollowUpLong(header, le, rsp, t, old(icc.Healthy()), old(Now()));
      }
    }

    /** What case 3E does with the first answer; 67xx and all but 6Cxx and 61xx are passed on without change. */
    method FollowUpLong(header: bytes, le: nat, first: Response, ghost t: Turn, ghost h: bool, ghost start: Line)
      returns (ret: Code, rsp: Response?, ghost ts: seq<Turn>)
      requires |header| == 4 && first.Valid() && t == Turn(header + [0], Some(first.response))
      requires (h ==> icc.Healthy()) && Dialogue(Played, [t], h, Ok, start, Now())
      modifies icc, first
      ensures ret == Ok ==> rsp != null && rsp.Valid() && (rsp == first || fresh(rsp))
      ensures LongReceive(header, le, ts, ret, Answer(ret, rsp))
      ensures (h ==> icc.Healthy()) && Dialogue(Played, ts, h, ret, start, Now())
    {
      ret, rsp, ts := Ok, first, [t];
      ghost var a := first.response;
      if first.GetSw1() == 0x6C {
        ret, rsp, ts := AskAgain(header + [first.GetSw2()], t, h, start);
        LongReceiveAgain(header, le, ts, ret, a, Answer(ret, rsp));
      } else if first.GetSw1() == 0x61 {
        ret, ts := FollowLong(header[0], le, first, t, h, start);
        LongReceiveGathered(header, le, ts, ret, a, Answer(ret, rsp));
      } else {
        LongReceivePassed(header, le, t, a);
      }
    }

    /** The GET RESPONSE loop of case 3E: Lm counts the bytes still missing. */
    method FollowLong(cla: byte, le: nat, rsp: Response, ghost first: Turn, ghost h: bool, ghost start: Line)
      returns (ret: Code, ghost ts: seq<Turn>)
      requires rsp.Valid() && first.answer == Some(rsp.response)
      requires (h ==> icc.Healthy()) && Dialogue(Played, [first], h, Ok, start, Now())
      modifies icc, rsp
      ensures rsp.Valid() && ts != [] && ts[0] == first
      ensures Gathered(cla, le, Expand(Sw2(first.answer.value), 256), ts, ret, rsp.response)
      ensures ret == Ok ==> |AllData(ts)| >= le
      ensures (h ==> icc.Healthy()) && Dialogue(Played, ts, h, ret, start, Now())
    {
      ts := [first];
      JoinedOne(first);
      ret := Ok;
      var lx := Expand(rsp.GetSw2(), 256);
      var lm := le - rsp.DataLen();
      while ret == Ok && lm > 0
        invariant rsp.Valid() && ts != [] && ts[0] == first
        invariant Gathered(cla, le, lx, ts, ret, rsp.response)
        invariant ret == Ok ==> lm == le - rsp.DataLen()
        invariant (h ==> icc.Healthy()) && Dialogue(Played, ts, h, ret, start, Now())
        decreases ret == Ok, |icc.incoming|
      {
        ret, ts := FetchOnce(cla, le, lx, lm, rsp, ts, h, start);
        lm := le - rsp.DataLen();
      }
    }

    method FetchOnce(cla: byte, le: nat, lx: nat, lm: nat, rsp: Response, ghost ts: seq<Turn>, ghost h: bool, ghost start: Line)
      returns (ret: Code, ghost ts': seq<Turn>)
      requires rsp.Valid() && Gathered(cla, le, lx, ts, Ok, rsp.response)
      requires lm == le - rsp.DataLen() && lm > 0
      requires (h ==> icc.Healthy()) && Dialogue(Played, ts, h, Ok, start, Now())
      modifies icc, rsp
      ensures rsp.Valid() && |ts'| == |ts| + 1 && ts'[0] == ts[0]
      ensures Gathered(cla, le, lx, ts', ret, rsp.response)
      ensures ret == Ok ==> |icc.incoming| < |old(icc.incoming)|
      ensures (h ==> icc.Healthy()) && Dialogue(Played, ts', h, ret, start, Now())
    {
      var gr := GetResponse(cla, Min(lm, lx) % 256);
      ghost var t;
      ret, t := AskAndAppend(gr, rsp, ts, h, start);
      ts' := ts + [t];
      FetchedSnoc(cla, le, lx, ts, t);
    }

    /** Case 4E; k counts the exchanges of the sending half. */
    method Case4EHandler(cmd: Cmd) returns (ret: Code, rsp: Response?, ghost ts: seq<Turn>, ghost k: nat)
      requires CaseOf(cmd) == Case4E
      modifies icc
      ensures old(icc.Healthy()) ==> icc.Healthy()
      ensures ret == Ok ==> rsp != null && rsp.Valid() && fresh(rsp)
      ensures ExtendedBoth(cmd, Le(cmd), k, ts, ret, Answer(ret, rsp))
      ensures Dialogue(Played, ts, old(icc.Healthy()), ret, old(Now()), Now())
    {
      ret, rsp, ts, k := SendAndFetch(cmd, Le(cmd));
    }

    /** Case 4E with the decoded Le. */
    method SendAndFetch(cmd: Cmd, le: nat) returns (ret: Code, rsp: Response?, ghost ts: seq<Turn>, ghost k: nat)
      requires 1 <= le <= 65536
      modifies icc
      ensures old(icc.Healthy()) ==> icc.Healthy()
      ensures ret == Ok ==> rsp != null && rsp.Valid() && fresh(rsp)
      ensures ExtendedBoth(cmd, le, k, ts, ret, Answer(ret, rsp))
      ensures Dialogue(Played, ts, old(icc.Healthy()), ret, old(Now()), Now())
    {
      var sw;
      ghost var sent, more;
      ret, sw, sent := Case2EHandler(cmd);
      k := |sent|;
      if ret != Ok {
        ExtendedBothFailed(cmd, le, sent, ret);
        return ret, null, sent, k;
      }
      ghost var a, mid, g := sw.response, Now(), icc.Healthy();
      ret, rsp, more := FetchLong(cmd[0], le, sw);
      ExtendedBothFrom(cmd, le, a, sent, more, ret, Answer(ret, rsp));
      DialogueJoin(Played, sent, more, old(icc.Healthy()), g, Ok, ret, old(Now()), mid, Now());
      ts := sent + more;
    }

    /** The second half of case 4E: sw is the answer to the last sending TPDU. */
    method FetchLong(cla: byte, le: nat, sw: Response) returns (ret: Code, rsp: Response?, ghost ts: seq<Turn>)
      requires sw.Valid() && 1 <= le <= 65536
      modifies icc
      ensures old(icc.Healthy()) ==> icc.Healthy()
      ensures ret == Ok ==> rsp != null && rsp.Valid() && (rsp == sw || fresh(rsp))
      ensures ExtendedFetch(cla, le, old(sw.response), ts, ret, Answer(ret, rsp))
      ensures Dialogue(Played, ts, old(icc.Healthy()), ret, old(Now()), Now())
    {
      if sw.GetSw1() == 0x61 {
        var most := if sw.GetSw2() != 0 then Min(sw.GetSw2(), le) else le;
        LongGetResponseLe(cla, most);
        ret, rsp, ts := Case3EHandler(LongGetResponse(cla, most));
      } else if sw.GetSw1() / 16 == 6 {
        ret, rsp, ts := Ok, sw, [];
        DialogueNone(Played, icc.Healthy(), Ok, Now());
      } else {
        LongGetResponseLe(cla, le);
        ret, rsp, ts := Case3EHandler(LongGetResponse(cla, le));
      }
    }

    /** Protocol_T0_Command: the exchanges follow the mapping of the command's case, their answers are what the
        card's bytes make of them, and they are all that goes out. */
    method Command(cmd: Cmd) returns (ret: Code, rsp: Response?, ghost ts: seq<Turn>)
      modifies icc
      ensures old(icc.Healthy()) ==> icc.Healthy()
      ensures ret == Ok ==> rsp != null && rsp.Valid() && fresh(rsp)
      ensures Mapped(cmd, ts, ret, Answer(ret, rsp))
      ensures Dialogue(Played, ts, old(icc.Healthy()), ret, old(Now()), Now())
    {
      match CaseOf(cmd) {
        case Case1 => ret, rsp, ts := Case1Handler(cmd);
        case Case2S => ret, rsp, ts := Case2SHandler(cmd);
        case Case3S => ret, rsp, ts := Case3SHandler(cmd);
        case Case4S => ret, rsp, ts := Case4SHandler(cmd);
        case Case2E => ret, rsp, ts := Case2EHandler(cmd);
        case Case3E => ret, rsp, ts := Case3EHandler(cmd);
        case Case4E =>
          ghost var k;
          ret, rsp, ts, k := Case4EHandler(cmd);
        case Malformed =>
          ret, rsp, ts := Error, null, [];
          DialogueNone(Played, icc.Healthy(), Error, Now());
      }
    }
  }

  /** A receiving exchange with a card that follows any schedule of NULL, ACK and ~ACK delivering at most Le
      bytes: only the header is sent, and the response is the delivered bytes and the status. */
  method ReceiveBySchedule(t0: T0, cmd: Cmd, ghost es: seq<Event>, ghost sw: bytes, ghost rest: bytes)
    returns (ret: Code, rsp: Response?)
    requires CaseOf(cmd) == Case3S && t0.icc.Healthy() && Accepts(TpduOf(cmd), es, START) && |Payload(es)| <= Le(cmd)
    requires |sw| == 2 && IsSw1(sw[0]) && t0.icc.incoming == Render(es) + sw + rest
    modifies t0.icc
    ensures ret == Ok && rsp != null && rsp.response == Payload(es) + sw
    ensures t0.icc.incoming == rest && t0.icc.outgoing == old(t0.icc.outgoing) + cmd
  {
    ReceiveScheduleIndependent(TpduOf(cmd), es, sw, rest);
    ret, rsp := t0.ExchangeTPDU(cmd);
    assert cmd[..5] == cmd;
    assert old(t0.icc.outgoing) + cmd + [] == old(t0.icc.outgoing) + cmd;
  }

  /** A command for more than 256 bytes and a card that announces 61xx and serves every GET RESPONSE with at least
      one byte, in any schedule, until Le bytes are there: the response is exactly these Le bytes and the last
      status, and nothing but the command and the GET RESPONSE commands goes out. */
  method ReceiveLongAnswer(t0: T0, cmd: Cmd, ghost ps: seq<T0Script.Service>, ghost rest: bytes) returns (ret: Code, rsp: Response?)
    requires CaseOf(cmd) == Case3E && 256 < Le(cmd) && t0.icc.Healthy()
    requires T0Script.ServesLong(Played, cmd[..4], Le(cmd), ps) && t0.icc.incoming == T0Script.Script(ps) + rest
    modifies t0.icc
    ensures ret == Ok && rsp != null && rsp.response == T0Script.Delivery(ps) + T0Script.LastStatus(ps, [])
    ensures |T0Script.Delivery(ps)| == Le(cmd) && t0.icc.incoming == rest
    ensures t0.icc.outgoing == old(t0.icc.outgoing)
              + (cmd[..4] + [0] + T0Script.Requests(cmd[0], Le(cmd), Expand(ps[0].sw[1], 256), |ps[0].data|, ps[1..]))
  {
    ghost var ts;
    ret, rsp, ts := t0.Command(cmd);
    T0Script.LongReceiveServed(Played, cmd[..4], Le(cmd), ts, ret, Answer(ret, rsp), ps, rest);
  }

  /** A card that announces data with 61xx and then answers GET RESPONSE with a status alone, even 9000: the command
      ends in an error, because an empty total cannot be appended. */
  method ReceiveEmptyChain(t0: T0, cmd: Cmd, ghost x: byte, ghost sw: bytes, ghost rest: bytes) returns (ret: Code, rsp: Response?)
    requires CaseOf(cmd) == Case3S && t0.icc.Healthy() && |sw| == 2 && IsSw1(sw[0])
    requires t0.icc.incoming == [0x61, x] + (sw + rest)
    modifies t0.icc
    ensures ret == Error && t0.icc.incoming == rest
  {
    ghost var ts;
    ret, rsp, ts := t0.Command(cmd);
    T0Script.EmptyChainFails(cmd, ts, ret, Answer(ret, rsp), x, sw, rest);
  }

  ghost function Answer(ret: Code, rsp: Response?): bytes
    requires ret == Ok ==> rsp != null && rsp.Valid()
    reads rsp
  {
    if ret == Ok then rsp.response else []
  }

  /** The data bytes that go with a TPDU. */
  ghost predicate Fits(t: Tpdu, data: bytes) {
    if t.Sending? then |data| == t.lc else data == [] && t.le <= MAX_SHORT_RESPONSE - 2
  }

  /** What an exchange leaves behind in every case. */
  ghost predicate Exchanged(t: Tpdu, before: bytes, after: bytes, ret: Code, buffer: array<byte>, recv: nat)
    reads buffer
  {
    var e := Run(t, before, START);
    && |e.rest| <= |after| <= |before|
    && (ret == Ok ==> e.Complete? && recv <= buffer.Length && buffer[..recv] == e.reply && after == e.rest)
  }

  /** What it leaves behind when the reader did not fail. */
  ghost predicate Settled(t: Tpdu, before: bytes, after: bytes, ret: Code)
  {
    var e := Run(t, before, START);
    (ret == Ok <==> e.Complete?) && (e.Failed? ==> ret == e.code) && after == e.rest
  }

  /** Appends an answer to what the answers before it join to. */
  method Append(rsp: Response, part: Response, ghost ts: seq<Turn>, ghost gr: Cmd) returns (ok: bool)
    requires rsp.Valid() && part.Valid() && Answered(ts) && rsp.response == Joined(ts)
    modifies rsp
    ensures rsp.Valid()
    ensures var us := ts + [Turn(gr, Some(old(part.response)))];
            ok == !Overfull(us) && (ok ==> rsp.response == Joined(us))
  {
    JoinedSnoc(ts, gr, part.response);
    ok := rsp.AppendData(part);
  }

  /** Cuts a response that is longer than the command asked for. */
  method Limit(rsp: Response, le: nat)
    requires rsp.Valid() && le > 0
    modifies rsp
    ensures rsp.Valid() && rsp.response == Clip(old(rsp.response), le)
  {
    if rsp.DataLen() > le {
      rsp.TruncateData(le);
    }
  }

  /** memcpy into the reply buffer. */
  method Store(buffer: array<byte>, at: nat, data: bytes)
    requires at + |data| <= buffer.Length
    modifies buffer
    ensures buffer[..] == old(buffer[..at]) + data + old(buffer[at + |data|..])
  {
    forall i | 0 <= i < |data| {
      buffer[at + i] := data[i];
    }
  }
}
