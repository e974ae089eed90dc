/** How a sequence of T=0 exchanges looks from the line: every answer is what the card's bytes make of the
    command, and what is sent is those commands as far as the card took them. */
module T0Dialogue {
  import opened Bytes
  import opened Apdu
  import opened T0Wire
  import opened T0Mapping

  /** What the card has still to send, and what it has been sent. */
  datatype Line = Line(unread: bytes, sent: bytes)

  /** How an exchange ends, and what it sent. */
  datatype Scene = Scene(ending: Ending, uttered: bytes)

  /** The laws of this module hold for any way to play an exchange; the transport's is Played. */
  type Play = (Cmd, bytes) -> Scene

  /** The exchange of any command. Of a 2S or 3S command the header and the data bytes that the card takes
      go out; the transport refuses every other. */
  function Played(c: Cmd, s: bytes): Scene {
    if Transportable(c) then Scene(Exchange(c, s), c[..5] + Data(c)[..Exchange(c, s).sent]) else Scene(Failed(Error, 0, s), [])
  }

  predicate AnswerIs(t: Turn, e: Ending) {
    if e.Complete? then t.answer.Some? && t.answer.value == e.reply else t.answer.None?
  }

  /** What the card has still to send after some exchanges. */
  function Left(play: Play, ts: seq<Turn>, s: bytes): bytes
    decreases |ts|
  {
    if ts == [] then s else Left(play, ts[1..], play(ts[0].cmd, s).ending.rest)
  }

  /** Every answer is the reply that the card's bytes make, each exchange going on where the one before it
      stopped; no answer means that the exchange failed. */
  predicate Heard(play: Play, ts: seq<Turn>, s: bytes)
    decreases |ts|
  {
    ts == [] || (AnswerIs(ts[0], play(ts[0].cmd, s).ending) && Heard(play, ts[1..], play(ts[0].cmd, s).ending.rest))
  }

  /** All that the exchanges sent. */
  function Spoken(play: Play, ts: seq<Turn>, s: bytes): bytes
    decreases |ts|
  {
    if ts == [] then [] else play(ts[0].cmd, s).uttered + Spoken(play, ts[1..], play(ts[0].cmd, s).ending.rest)
  }

  lemma {:induction false} Conversation(play: Play, a: seq<Turn>, b: seq<Turn>, s: bytes)
    ensures Left(play, a + b, s) == Left(play, b, Left(play, a, s))
    ensures Heard(play, a + b, s) <==> Heard(play, a, s) && Heard(play, b, Left(play, a, s))
    ensures Spoken(play, a + b, s) == Spoken(play, a, s) + Spoken(play, b, Left(play, a, s))
    decreases |a|
  {
    if a == [] {
      assert a + b == b;
    } else {
      assert (a + b)[1..] == a[1..] + b;
      Conversation(play, a[1..], b, play(a[0].cmd, s).ending.rest);
    }
  }

  lemma {:induction false} OneExchange(play: Play, t: Turn, s: bytes)
    ensures var e := play(t.cmd, s);
            && Left(play, [t], s) == e.ending.rest && Spoken(play, [t], s) == e.uttered
            && (Heard(play, [t], s) <==> AnswerIs(t, e.ending))
  {
    assert [t][1..] == [] && play(t.cmd, s).uttered + [] == play(t.cmd, s).uttered;
  }

  lemma {:induction false} HeardAt(play: Play, ts: seq<Turn>, s: bytes, k: nat)
    requires Heard(play, ts, s) && k < |ts|
    ensures var e := play(ts[k].cmd, Left(play, ts[..k], s));
            && AnswerIs(ts[k], e.ending) && Left(play, ts[..k + 1], s) == e.ending.rest
            && Spoken(play, ts[..k + 1], s) == Spoken(play, ts[..k], s) + e.uttered
  {
    assert ts == ts[..k] + ts[k..] && ts[..k + 1] == ts[..k] + [ts[k]] && ts[k..][0] == ts[k];
    Conversation(play, ts[..k], ts[k..], s);
    Conversation(play, ts[..k], [ts[k]], s);
    OneExchange(play, ts[k], Left(play, ts[..k], s));
  }

  /** The last exchange was answered. */
  predicate Full(ts: seq<Turn>) { ts == [] || ts[|ts| - 1].answer.Some? }

  /** The exchanges that were answered: all, or all but the last. */
  function Part(ts: seq<Turn>): seq<Turn> { if Full(ts) then ts else ts[..|ts| - 1] }

  /** What a broken exchange may have sent after what was sent before: nothing, or the header and a prefix of
      the data, which is a prefix of the command. */
  predicate Broken(c: Cmd, before: bytes, after: bytes) {
    after == before || exists k | 5 <= k <= |c| :: after == before + c[..k]
  }

  /** The header and some data bytes of a TPDU are a prefix of it. */
  lemma TpduPrefix(c: Cmd, k: nat)
    requires Transportable(c) && k <= Lc(c)
    ensures 5 + k <= |c| && c[..5] + Data(c)[..k] == c[..5 + k]
  {
  }

  /** A command's exchanges on the line from a to b. The answered ones are heard and spoken whatever the reader
      does; without reader errors so is one that fails, and its code is returned. */
  predicate Dialogue(play: Play, ts: seq<Turn>, healthy: bool, ret: Code, a: Line, b: Line) {
    && Heard(play, Part(ts), a.unread)
    && (Full(ts) || healthy ==> Heard(play, ts, a.unread) && b == Line(Left(play, ts, a.unread), a.sent + Spoken(play, ts, a.unread)))
    && (Full(ts) && ret != Ok ==> ret == Error)
    && (!Full(ts) ==> ret != Ok && Broken(ts[|ts| - 1].cmd, a.sent + Spoken(play, Part(ts), a.unread), b.sent))
    && (!Full(ts) && healthy ==>
          var e := play(ts[|ts| - 1].cmd, Left(play, Part(ts), a.unread)).ending;
          e.Failed? && ret == e.code)
  }

  lemma {:induction false} DialogueNone(play: Play, healthy: bool, ret: Code, a: Line)
    requires ret == Ok || ret == Error
    ensures Dialogue(play, [], healthy, ret, a, a)
  {
    assert a.sent + [] == a.sent;
  }

  lemma {:induction false} DialogueOne(play: Play, t: Turn, healthy: bool, ret: Code, a: Line, b: Line)
    requires ret == Ok <==> t.answer.Some?
    requires var e := play(t.cmd, a.unread);
             && (ret == Ok || healthy ==> AnswerIs(t, e.ending) && b == Line(e.ending.rest, a.sent + e.uttered))
             && (ret != Ok && healthy ==> ret == e.ending.code)
    requires Broken(t.cmd, a.sent, b.sent)
    ensures Dialogue(play, [t], healthy, ret, a, b)
  {
    OneExchange(play, t, a.unread);
    assert ret != Ok ==> Part([t]) == [] && a.sent + [] == a.sent;
  }

  /** An exchange of the transport. */
  lemma {:induction false} PlayedDialogue(t: Turn, healthy: bool, ret: Code, a: Line, b: Line)
    requires (ret == Ok <==> t.answer.Some?) && Broken(t.cmd, a.sent, b.sent)
    requires !Transportable(t.cmd) ==> ret == Error && b == a
    requires Transportable(t.cmd) && (ret == Ok || healthy) ==>
               var e := Exchange(t.cmd, a.unread);
               && AnswerIs(t, e) && b == Line(e.rest, a.sent + t.cmd[..5] + Data(t.cmd)[..e.sent])
               && (ret != Ok ==> ret == e.code)
    ensures Dialogue(Played, [t], healthy, ret, a, b)
  {
    if Transportable(t.cmd) {
      Associate(a.sent, t.cmd[..5], Data(t.cmd)[..Exchange(t.cmd, a.unread).sent]);
    } else {
      assert a.sent + [] == a.sent;
    }
    DialogueOne(Played, t, healthy, ret, a, b);
  }

  lemma {:induction false} PartJoin(ts: seq<Turn>, us: seq<Turn>)
    requires Full(ts) && us != []
    ensures Full(ts + us) == Full(us) && Part(ts + us) == ts + Part(us) && (ts + us)[|ts + us| - 1] == us[|us| - 1]
  {
    assert (ts + us)[..|ts + us| - 1] == ts + us[..|us| - 1];
  }

  /** The answers may still be refused. */
  lemma {:induction false} DialogueRefused(play: Play, ts: seq<Turn>, h: bool, a: Line, b: Line)
    requires Full(ts) && Dialogue(play, ts, h, Ok, a, b)
    ensures Dialogue(play, ts, h, Error, a, b)
  {
  }

  /** Exchanges that go on after answered ones. */
  lemma {:induction false} DialogueJoin(play: Play, ts: seq<Turn>, us: seq<Turn>, h: bool, g: bool, r: Code, ret: Code, a: Line, b: Line, c: Line)
    requires Full(ts) && Dialogue(play, ts, h, r, a, b) && Dialogue(play, us, g, ret, b, c) && (h ==> g)
    ensures Dialogue(play, ts + us, h, ret, a, c)
  {
    if us == [] {
      assert ts + us == ts;
      assert b.sent + [] == b.sent;
    } else {
      PartJoin(ts, us);
      Conversation(play, ts, us, a.unread);
      Conversation(play, ts, Part(us), a.unread);
      Associate(a.sent, Spoken(play, ts, a.unread), Spoken(play, us, b.unread));
      Associate(a.sent, Spoken(play, ts, a.unread), Spoken(play, Part(us), b.unread));
    }
  }
}
