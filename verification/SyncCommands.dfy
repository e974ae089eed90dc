/** Whole commands for memory cards, from the bytes of the command and the cells of the card to the answer. */
module SyncCommands {
  import opened Bytes
  import Apdu
  import opened MemoryCard
  import IccSync
  import opened Tlv
  import opened Directory
  import opened ProtocolSync

  /** READ BINARY of n bytes: those of the section and 9000, or what there is and 6282; all from the offset on and 9000
      if n is zero. */
  method ReadBytes(sync: Sync, cla: byte, p1: byte, p2: byte, n: nat, wide: bool, locals: Scan) returns (ret: Code, answer: bytes)
    requires sync.Valid() && (n == 0 || Codable(n, wide))
    modifies sync`path, sync`length, sync.card, sync.card.ifd
    ensures sync.Valid() && sync.card.ifd.mem == old(sync.card.ifd.mem) && sync.Selected() == old(sync.Selected())
    ensures old(sync.card.ifd.Healthy() && sync.card.PinInv()) ==> ret == Ok
    ensures var mem, s, from := sync.card.ifd.mem, sync.Selected(), 256 * p1 + p2;
            answer == if ret != Ok then [0x65, 0x01]
                      else if n == 0 then mem[Place(s, from)..s.path + s.length] + [0x90, 0x00]
                      else mem[Place(s, from)..Place(s, from + n)] + if from + n <= s.length then [0x90, 0x00] else [0x62, 0x82]
  {
    ReadParts(cla, p1, p2, n, wide);
    ret, answer := sync.Command(ReadOf(cla, p1, p2, n, wide), locals);
    ReadExactly(sync.card.ifd.mem, sync.Selected(), cla, p1, p2, n, wide);
  }

  /** UPDATE BINARY on a card that does as it is told and whose PIN, if any, is cached: the data is written as far as the
      section goes, and answered 9000 if that is all of it, and 6200 if not. */
  method UpdateBytes(sync: Sync, cla: byte, p1: byte, p2: byte, data: bytes, wide: bool, locals: Scan) returns (ret: Code, answer: bytes)
    requires sync.Valid() && Codable(|data|, wide)
    requires sync.card.ifd.Healthy() && sync.card.PinInv() && sync.card.Unlockable() && sync.card.ifd.Obeys()
    modifies sync`path, sync`length, sync.card, sync.card.ifd
    ensures sync.Valid() && sync.Selected() == old(sync.Selected())
    ensures answer == if 256 * p1 + p2 + |data| <= sync.length then [0x90, 0x00] else [0x62, 0x00]
    ensures var from, to := Place(sync.Selected(), 256 * p1 + p2), Place(sync.Selected(), 256 * p1 + p2 + |data|);
            from <= to <= |old(sync.card.ifd.mem)|
            && sync.card.ifd.mem == old(sync.card.ifd.mem)[..from] + data[..to - from] + old(sync.card.ifd.mem)[to..]
  {
    UpdateParts(cla, p1, p2, data, wide);
    UpdateExactly(sync.card.ifd.mem, sync.Selected(), cla, p1, p2, data, wide);
    ret, answer := sync.Command(UpdateOf(cla, p1, p2, data, wide), locals);
  }

  /** Three bytes of a PIN, filled up with zero bytes. */
  function Padded(pin: bytes): bytes {
    if |pin| == 0 then [0, 0, 0] else if |pin| == 1 then [pin[0], 0, 0] else if |pin| == 2 then [pin[0], pin[1], 0] else pin[..3]
  }

  /** VERIFY with a PIN, cut or filled up to three bytes: 9000 for the card's PIN, 63Cx with the trials left for another one, and 6983 if
      none were left. */
  method VerifyPin(sync: Sync, cla: byte, p1: byte, p2: byte, pin: bytes, locals: Scan) returns (ret: Code, answer: bytes)
    requires sync.Valid() && 1 <= |pin| <= 255 && HasPin(sync.card.ifd.kind) && sync.card.ifd.Healthy()
    modifies sync`path, sync`length, sync.card, sync.card.ifd
    ensures sync.Valid()
    ensures answer == if old(sync.card.ifd.trials) == 0 then [0x69, 0x83]
                      else if sync.card.ifd.Knows(Padded(pin)) then [0x90, 0x00]
                      else [0x63, 0xC0 + old(sync.card.ifd.trials) - 1]
  {
    VerifyParts(cla, p1, p2, pin);
    ret, answer := sync.Command([cla, 0x20, p1, p2] + [|pin|] + pin, locals);
  }

  lemma {:induction false} VerifyParts(cla: byte, p1: byte, p2: byte, pin: bytes)
    requires 1 <= |pin| <= 255
    ensures var c: Apdu.Cmd := [cla, 0x20, p1, p2] + [|pin|] + pin;
            Ins(c) == 0x20 && PinOf(c) == Padded(pin)
  {
    Apdu.ShortForms([cla, 0x20, p1, p2], pin, |pin|, 0);
  }

  /** CHANGE VERIFY DATA with the card's PIN and a new one: 9000, and the card has the new PIN; with another PIN nothing
      changes but the trials. */
  method ChangePin(sync: Sync, cla: byte, p1: byte, p2: byte, pin: bytes, newPin: bytes, locals: Scan) returns (ret: Code, answer: bytes)
    requires sync.Valid() && |pin| == 3 && |newPin| == 3 && HasPin(sync.card.ifd.kind) && sync.card.ifd.Healthy() && sync.card.PinInv()
    modifies sync`path, sync`length, sync.card, sync.card.ifd
    ensures sync.Valid() && sync.card.PinInv() && sync.card.ifd.Healthy()
    ensures var right := Shown(sync.card.ifd.kind, pin) == Shown(sync.card.ifd.kind, old(sync.card.ifd.secret));
            && answer == (if old(sync.card.ifd.trials) == 0 then [0x69, 0x83] else if right then [0x90, 0x00]
                          else [0x63, 0xC0 + old(sync.card.ifd.trials) - 1])
            && sync.card.ifd.secret == if answer == [0x90, 0x00] then newPin else old(sync.card.ifd.secret)
  {
    ChangeParts(cla, p1, p2, pin, newPin);
    ret, answer := sync.Command([cla, 0x24, p1, p2] + [6] + (pin + newPin), locals);
  }

  lemma {:induction false} ChangeParts(cla: byte, p1: byte, p2: byte, pin: bytes, newPin: bytes)
    requires |pin| == 3 && |newPin| == 3
    ensures var c: Apdu.Cmd := [cla, 0x24, p1, p2] + [6] + (pin + newPin);
            Ins(c) == 0x24 && |Apdu.DataTail(c)| == 6 && Apdu.DataTail(c)[..3] == pin && Apdu.DataTail(c)[3..6] == newPin
  {
    var both := pin + newPin;
    var c: Apdu.Cmd := [cla, 0x24, p1, p2] + [6] + both;
    Apdu.ShortForms([cla, 0x24, p1, p2], both, 6, 0);
    assert Apdu.DataTail(c) == both && both[..3] == pin && both[3..6] == newPin;
  }

  /** SELECT FILE by an application identifier on a card whose directory is one identifier: the object after it is
      selected and 9000 answered if the two agree, and otherwise 6A82 answered and the selection kept. */
  method SelectOne(sync: Sync, cla: byte, p2: byte, aid: bytes, dir: Item, app: Item, locals: Scan) returns (ret: Code, answer: bytes)
    requires sync.Valid() && 1 <= |aid| <= 255 && sync.card.ifd.Healthy() && sync.history.HasDirectory() && dir.tag == 0x4F
    requires Holds(sync.card.ifd.mem, sync.history.Start(), Tlv.Encode(dir) + Tlv.Encode(app))
    modifies sync`path, sync`length, sync.card, sync.card.ifd
    ensures sync.Valid()
    ensures if Agree(aid[..Min(16, |aid|)], dir.content) then
              answer == [0x90, 0x00] && sync.Selected() == Section(sync.history.Start() + |Tlv.Encode(dir)|, |Tlv.Encode(app)|)
            else answer == [0x6A, 0x82] && sync.Selected() == old(sync.Selected())
  {
    var c: Apdu.Cmd := [cla, 0xA4, 0x04, p2] + [|aid|] + aid;
    SelectsBy(cla, p2, aid);
    ghost var sec := OneIdentifier(sync.card.ifd.mem, sync.history, dir, app, locals.(aid := aid[..Min(16, |aid|)], app := None, broken := false));
    ret, answer := sync.Command(c, locals);
  }

  lemma {:induction false} SelectsBy(cla: byte, p2: byte, aid: bytes)
    requires 1 <= |aid| <= 255
    ensures var c: Apdu.Cmd := [cla, 0xA4, 0x04, p2] + [|aid|] + aid;
            Ins(c) == 0xA4 && P1(c) == 0x04 && Apdu.Lc(c) == |aid| && Apdu.Data(c)[..Min(Apdu.Lc(c), AID_SIZE)] == aid[..Min(16, |aid|)]
  {
    Apdu.ShortForms([cla, 0xA4, 0x04, p2], aid, |aid|, 0);
  }

  /** Any other selection is answered as not found. */
  lemma OtherSelection(mem: bytes, h: History, c: Apdu.Cmd, locals: Scan)
    requires c[2] != 0x00 && c[2] != 0x04
    ensures Wanted(mem, h, c, locals) == Missing
  {
  }

  /** SELECT FILE by a file identifier: the section that it names is selected and 9000 answered, or 6A82. */
  method SelectFile(sync: Sync, cla: byte, p2: byte, f1: byte, f0: byte, locals: Scan) returns (ret: Code, answer: bytes)
    requires sync.Valid() && sync.card.ifd.Healthy()
    modifies sync`path, sync`length, sync.card, sync.card.ifd
    ensures sync.Valid() && sync.card.ifd.mem == old(sync.card.ifd.mem)
    ensures match FileSection(sync.card.ifd.mem, sync.history, 256 * f1 + f0)
            case Some(s) => answer == [0x90, 0x00] && sync.Selected() == s
            case None => answer == [0x6A, 0x82] && sync.Selected() == old(sync.Selected())
  {
    var c: Apdu.Cmd := [cla, 0xA4, 0x00, p2] + [2] + [f1, f0];
    Apdu.ShortForms([cla, 0xA4, 0x00, p2], [f1, f0], 2, 0);
    assert Apdu.DataTail(c) == [f1, f0];
    ret, answer := sync.Command(c, locals);
  }
}
