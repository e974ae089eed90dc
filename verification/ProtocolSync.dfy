/** The interindustry commands for memory cards (src/driver/protocol_sync.c). */
module ProtocolSync {
  import opened Bytes
  import Apdu
  import opened MemoryCard
  import IccSync
  import Tlv
  import opened Directory

  const OKAY: bytes := [0x90, 0x00]
  const NOT_FOUND: bytes := [0x6A, 0x82]
  const WARNING: bytes := [0x62, 0x00]
  const END_REACHED: bytes := [0x62, 0x82]
  const MEMORY_FAILURE: bytes := [0x65, 0x01]

  /** `Undefined`: the driver reads behind the command or writes behind its path buffer. */
  datatype Code = Ok | IccError | Undefined

  function Ins(c: Apdu.Cmd): byte { c[1] }

  predicate ForPin(c: Apdu.Cmd) { Ins(c) == 0x20 || Ins(c) == 0x24 }

  function P1(c: Apdu.Cmd): byte { c[2] }

  function Offset(c: Apdu.Cmd): nat { Word(c[2], c[3]) }

  // ----- READ BINARY and UPDATE BINARY on the memory -----

  function Available(s: Section, c: Apdu.Cmd): nat { Max(s.length - Offset(c), 0) }

  function Expected(s: Section, c: Apdu.Cmd): nat {
    Min(if Apdu.LeAvailable(c) then Available(s, c) else Apdu.Le(c), Apdu.MAX_RSP_SIZE - 2)
  }

  /** The answer to a READ BINARY: the expected bytes, or those there are and a warning. */
  function ReadAnswer(mem: bytes, s: Section, c: Apdu.Cmd): bytes {
    Fetch(mem, s.path + Offset(c), Min(Expected(s, c), Available(s, c)))
    + if Expected(s, c) > Available(s, c) then END_REACHED else OKAY
  }

  /** The memory after an UPDATE BINARY that is carried out: what lies in the section is written. */
  function Updated(mem: bytes, s: Section, c: Apdu.Cmd): (r: bytes)
    requires Inside(mem, s)
    ensures |r| == |mem|
  {
    var n := Min(Available(s, c), Apdu.Lc(c));
    if n == 0 then mem else Splice(mem, s.path + Offset(c), Apdu.Data(c)[..n])
  }

  /** Reading shows nothing outside the section. */
  lemma {:induction false} ReadStaysInside(mem: bytes, other: bytes, s: Section, c: Apdu.Cmd)
    requires Inside(mem, s) && |other| == |mem| && mem[s.path..s.path + s.length] == other[s.path..s.path + s.length]
    ensures ReadAnswer(mem, s, c) == ReadAnswer(other, s, c)
  {
    var at, n := s.path + Offset(c), Min(Expected(s, c), Available(s, c));
    forall i | 0 <= i < n
      ensures Fetch(mem, at, n)[i] == Fetch(other, at, n)[i]
    {
      var k := Offset(c) + i;
      assert mem[s.path..s.path + s.length][k] == other[s.path..s.path + s.length][k];
    }
    assert Fetch(mem, at, n) == Fetch(other, at, n);
  }

  /** Updating changes nothing outside the section. */
  lemma {:induction false} UpdateStaysInside(mem: bytes, s: Section, c: Apdu.Cmd)
    requires Inside(mem, s)
    ensures Confined(mem, Updated(mem, s, c), s.path, s.length)
  {
    var n := Min(Available(s, c), Apdu.Lc(c));
    if n > 0 {
      WithinSection(mem, Updated(mem, s, c), s, Offset(c), n);
    }
  }

  lemma WithinSection(mem: bytes, now: bytes, s: Section, offset: nat, n: nat)
    requires Inside(mem, s) && offset + n <= s.length
    requires Confined(mem, now, s.path + offset, n)
    ensures Confined(mem, now, s.path, s.length)
  {
  }

  /** The 16-bit address of an access is exact where there is anything to access. */
  lemma AddressInside(mem: bytes, s: Section, c: Apdu.Cmd, n: nat)
    requires Inside(mem, s) && |mem| <= 65535 && n <= Available(s, c)
    ensures n > 0 ==> s.path + Offset(c) + n <= |mem| && (s.path + Offset(c)) % 0x1_0000 == s.path + Offset(c)
    ensures n == 0 ==> forall at: nat :: Fetch(mem, at, n) == []
  {
  }

  /** The update has room in the section. */
  predicate FitsSection(s: Section, c: Apdu.Cmd) { Apdu.Lc(c) <= Available(s, c) }

  lemma {:induction false} WrittenIsRead(mem: bytes, s: Section, u: Apdu.Cmd, r: Apdu.Cmd)
    requires Inside(mem, s) && FitsSection(s, u)
    requires Offset(r) == Offset(u) && !Apdu.LeAvailable(r) && Apdu.Le(r) == Apdu.Lc(u)
    ensures ReadAnswer(Updated(mem, s, u), s, r) == Apdu.Data(u) + OKAY
  {
    var n, d := Apdu.Lc(u), Apdu.Data(u);
    LcBound(u);
    assert d[..n] == d;
    if n > 0 {
      var now := Splice(mem, s.path + Offset(u), d);
      assert now[s.path + Offset(u)..s.path + Offset(u) + n] == d;
    }
  }

  // ----- the same by the bytes of the commands -----

  /** A length fits a short or an extended command. */
  predicate Codable(n: nat, wide: bool) { 1 <= n <= if wide then 65535 else 255 }

  /** UPDATE BINARY. */
  function UpdateOf(cla: byte, p1: byte, p2: byte, data: bytes, wide: bool): Apdu.Cmd
    requires Codable(|data|, wide)
  {
    if wide then [cla, 0xD6, p1, p2] + [0x00, |data| / 256, |data| % 256] + data else [cla, 0xD6, p1, p2] + [|data|] + data
  }

  /** READ BINARY for n bytes; 0 asks for everything. */
  function ReadOf(cla: byte, p1: byte, p2: byte, n: nat, wide: bool): Apdu.Cmd
    requires n == 0 || Codable(n, wide)
  {
    if wide then [cla, 0xB0, p1, p2] + [0x00, n / 256, n % 256] else [cla, 0xB0, p1, p2] + [n]
  }

  lemma {:induction false} UpdateParts(cla: byte, p1: byte, p2: byte, data: bytes, wide: bool)
    requires Codable(|data|, wide)
    ensures var u := UpdateOf(cla, p1, p2, data, wide);
            Ins(u) == 0xD6 && Offset(u) == 256 * p1 + p2 && Apdu.Lc(u) == |data| && Apdu.Data(u) == data
  {
    var h := [cla, 0xD6, p1, p2];
    if wide {
      Apdu.ExtendedForms(h, data, |data| / 256, |data| % 256, 0, 0);
    } else {
      Apdu.ShortForms(h, data, |data|, 0);
    }
  }

  lemma {:induction false} ReadParts(cla: byte, p1: byte, p2: byte, n: nat, wide: bool)
    requires n == 0 || Codable(n, wide)
    ensures var r := ReadOf(cla, p1, p2, n, wide);
            Ins(r) == 0xB0 && Offset(r) == 256 * p1 + p2 && (Apdu.LeAvailable(r) <==> n == 0) && (n > 0 ==> Apdu.Le(r) == n)
  {
    var h := [cla, 0xB0, p1, p2];
    if wide {
      Apdu.ExtendedForms(h, [0], 0, 1, n / 256, n % 256);
    } else {
      Apdu.ShortForms(h, [0], 1, n);
    }
  }

  /** Where an offset lies in the memory, at most at the end of the section. */
  function Place(s: Section, offset: nat): nat { s.path + Min(offset, s.length) }

  /** READ BINARY answers the bytes asked for and 9000; what there is and 6282 if the section ends before; and all from
      the offset on and 9000 if no number is given. */
  lemma {:induction false} ReadExactly(mem: bytes, s: Section, cla: byte, p1: byte, p2: byte, n: nat, wide: bool)
    requires Inside(mem, s) && |mem| <= 65535 && (n == 0 || Codable(n, wide))
    ensures var from := 256 * p1 + p2;
            ReadAnswer(mem, s, ReadOf(cla, p1, p2, n, wide)) ==
            if n == 0 then mem[Place(s, from)..s.path + s.length] + [0x90, 0x00]
            else mem[Place(s, from)..Place(s, from + n)] + if from + n <= s.length then [0x90, 0x00] else [0x62, 0x82]
  {
    ReadParts(cla, p1, p2, n, wide);
    var from, r := 256 * p1 + p2, ReadOf(cla, p1, p2, n, wide);
    var m := Min(Expected(s, r), Available(s, r));
    assert m == 0 ==> Fetch(mem, s.path + from, m) == [];
    assert m > 0 ==> Fetch(mem, s.path + from, m) == mem[s.path + from..s.path + from + m];
  }

  /** UPDATE BINARY that is carried out writes the data as far as the section goes. */
  lemma {:induction false} UpdateExactly(mem: bytes, s: Section, cla: byte, p1: byte, p2: byte, data: bytes, wide: bool)
    requires Inside(mem, s) && Codable(|data|, wide)
    ensures var from, to := Place(s, 256 * p1 + p2), Place(s, 256 * p1 + p2 + |data|);
            Updated(mem, s, UpdateOf(cla, p1, p2, data, wide)) == mem[..from] + data[..to - from] + mem[to..]
    ensures FitsSection(s, UpdateOf(cla, p1, p2, data, wide)) <==> 256 * p1 + p2 + |data| <= s.length
  {
    UpdateParts(cla, p1, p2, data, wide);
    var u := UpdateOf(cla, p1, p2, data, wide);
    var from, to := Place(s, 256 * p1 + p2), Place(s, 256 * p1 + p2 + |data|);
    assert Min(Available(s, u), |data|) == to - from && (from < to ==> from == s.path + Offset(u));
    SpliceNone(mem, from, data);
  }

  lemma SpliceNone(mem: bytes, at: nat, data: bytes)
    requires at <= |mem|
    ensures mem == mem[..at] + data[..0] + mem[at..]
  {
  }

  /** Reading the written length at the written offset gives the written bytes, whatever the form of the commands. */
  lemma {:induction false} ReadAfterUpdate(mem: bytes, s: Section, cu: byte, cr: byte, p1: byte, p2: byte, data: bytes, wu: bool, wr: bool)
    requires Inside(mem, s) && Codable(|data|, wu) && Codable(|data|, wr) && 256 * p1 + p2 + |data| <= s.length
    ensures ReadAnswer(Updated(mem, s, UpdateOf(cu, p1, p2, data, wu)), s, ReadOf(cr, p1, p2, |data|, wr)) == data + [0x90, 0x00]
  {
    UpdateParts(cu, p1, p2, data, wu);
    ReadParts(cr, p1, p2, |data|, wr);
    WrittenIsRead(mem, s, UpdateOf(cu, p1, p2, data, wu), ReadOf(cr, p1, p2, |data|, wr));
  }

  lemma LcBound(c: Apdu.Cmd)
    ensures Apdu.Lc(c) <= 65535
  {
  }

  /** A read that does not meet the written bytes is not changed by the update. */
  lemma {:induction false} ReadElsewhere(mem: bytes, s: Section, u: Apdu.Cmd, r: Apdu.Cmd)
    requires Inside(mem, s)
    requires Offset(r) + Expected(s, r) <= Offset(u) || Offset(u) + Apdu.Lc(u) <= Offset(r)
    ensures ReadAnswer(Updated(mem, s, u), s, r) == ReadAnswer(mem, s, r)
  {
    var now, at, n := Updated(mem, s, u), s.path + Offset(r), Min(Expected(s, r), Available(s, r));
    assert Fetch(now, at, n) == Fetch(mem, at, n);
  }

  const AID_SIZE := 16
  const PIN_SIZE := 3

  /** The PIN in a VERIFY command, filled up with zero bytes. */
  function PinOf(c: Apdu.Cmd): (r: bytes)
    ensures |r| == PIN_SIZE
  {
    var given := Apdu.Data(c)[..Min(Apdu.Lc(c), PIN_SIZE)];
    given + seq(PIN_SIZE - |given|, _ => 0)
  }

  /** The status for a PIN: right, wrong with so many trials left, or blocked. */
  function PinAnswer(kind: Kind, trials: nat, right: bool): bytes {
    if !HasPin(kind) then OKAY
    else if trials == 0 then [0x69, 0x83]
    else if right then OKAY
    else [0x63, 0xC0 + (trials - 1) % 16]
  }

  /** What a SELECT FILE asks for. A file identifier is taken from the command without looking at Lc. */
  function Wanted(mem: bytes, h: History, c: Apdu.Cmd, locals: Scan): (r: Finding)
    ensures r.Found? ==> Inside(mem, r.section)
  {
    if P1(c) == 0x00 then
      if |Apdu.DataTail(c)| < 2 then Broken else FindingOf(FileSection(mem, h, Word(Apdu.DataTail(c)[0], Apdu.DataTail(c)[1])))
    else if P1(c) == 0x04 then
      ApplicationSection(mem, h, locals.(aid := Apdu.Data(c)[..Min(Apdu.Lc(c), AID_SIZE)], app := None, broken := false))
    else Missing
  }

  /** The commands that the driver has no defined answer to. Both PINs are taken without looking at Lc, too. */
  predicate Unanswerable(mem: bytes, h: History, c: Apdu.Cmd, locals: Scan) {
    (Ins(c) == 0xA4 && Wanted(mem, h, c, locals).Broken?) || (Ins(c) == 0x24 && |Apdu.DataTail(c)| < 2 * PIN_SIZE)
  }

  /** With a file identifier too short by one byte, the Le field is taken for that byte: this command selects the
      master file. */
  lemma {:induction false} LeCompletesFile(mem: bytes, h: History, locals: Scan)
    ensures var c: Apdu.Cmd := [0x00, 0xA4, 0x00, 0x00, 0x01, 0x3F, 0x00];
            Apdu.Lc(c) == 1 && Wanted(mem, h, c, locals) == Found(Section(0, |mem|))
  {
    var c: Apdu.Cmd := [0x00, 0xA4, 0x00, 0x00, 0x01, 0x3F, 0x00];
    assert Apdu.CaseOf(c) == Apdu.Case4S && Apdu.DataTail(c) == [0x3F, 0x00];
  }

  // ----- the protocol object -----

  class Sync {
    const card: IccSync.Card
    const history: History
    var path: nat
    var length: nat

    /** The selected section lies in the memory. */
    ghost predicate Valid()
      reads this, card, card.ifd
    {
      card.Valid() && Inside(card.ifd.mem, Selected())
    }

    function Selected(): Section
      reads this
    {
      Section(path, length)
    }

    /** Protocol_Sync_Init selects the master file. */
    constructor (card: IccSync.Card, history: History)
      requires card.Valid()
      ensures Valid() && this.card == card && this.history == history && Selected() == Section(0, |card.ifd.mem|)
    {
      this.card, this.history := card, history;
      this.path, this.length := 0, |card.ifd.mem|;
    }

    method Choose(s: Option<Section>) returns (sw: bytes)
      requires card.Valid() && (s.Some? ==> Inside(card.ifd.mem, s.value))
      modifies this`path, this`length
      ensures s.Some? ==> sw == OKAY && Selected() == s.value
      ensures s.None? ==> sw == NOT_FOUND && Selected() == old(Selected())
    {
      sw := NOT_FOUND;
      if s.Some? {
        path, length := s.value.path, s.value.length;
        sw := OKAY;
      }
    }

    method FindFile(fid: nat) returns (s: Option<Section>)
      requires card.Valid()
      modifies card`active, card`pinNeeded, card.ifd`faults, card.ifd`powered, card.ifd`verified, card.ifd`readAt
      ensures card.Valid()
      ensures old(card.ifd.Healthy()) ==> card.ifd.Healthy() && (old(card.PinInv()) ==> card.PinInv())
      ensures s.Some? || old(card.ifd.Healthy()) ==> s == FileSection(card.ifd.mem, history, fid)
    {
      s := None;
      var size := |card.ifd.mem|;
      if fid == 0x3F00 {
        s := Some(Section(0, size));
      } else if fid == 0x2F01 {
        if history.HasDirectory() && history.Start() > 4 && size > 4 {
          s := Some(Section(4, Min(history.Start(), size) - 4));
        }
      } else if fid == 0x2F00 {
        if history.HasDirectory() {
          s := FindObject(history.Start());
        }
      }
    }

    /** The section of the object at an address. */
    method FindObject(at: nat) returns (s: Option<Section>)
      requires card.Valid()
      modifies card`active, card`pinNeeded, card.ifd`faults, card.ifd`powered, card.ifd`verified, card.ifd`readAt
      ensures card.Valid()
      ensures old(card.ifd.Healthy()) ==> card.ifd.Healthy() && (old(card.PinInv()) ==> card.PinInv())
      ensures s.Some? || old(card.ifd.Healthy()) ==> s == SectionAt(card.ifd.mem, at)
    {
      s := None;
      var o := Tlv.New(card, at);
      if o.Some? {
        s := Some(SectionOf(o.value));
      }
    }

    /** Compares the identifier that a template holds, and cuts the wanted one. */
    method CompareIdentifier(template: Tlv.Object, aid: bytes) returns (same: bool, cut: bytes)
      requires card.Valid()
      modifies card`active, card`pinNeeded, card.ifd`faults, card.ifd`powered, card.ifd`verified, card.ifd`readAt
      ensures card.Valid()
      ensures old(card.ifd.Healthy()) ==> card.ifd.Healthy() && (old(card.PinInv()) ==> card.PinInv())
      ensures old(card.ifd.Healthy()) ==>
                var e := EntryOf(card.ifd.mem, template);
                same == Matches(aid, e) && cut == Cut(aid, e)
    {
      same, cut := false, aid;
      var id := Tlv.GetObjectByTag(card, template, TAG_AID);
      if id.Some? {
        same, cut := Tlv.CompareValue(card, id.value, aid);
      }
    }

    /** The body of the loop over the templates of a directory. */
    method VisitTemplate(template: Tlv.Object, s: Scan) returns (t: Scan)
      requires card.Valid() && Searching(s)
      modifies card`active, card`pinNeeded, card.ifd`faults, card.ifd`powered, card.ifd`verified, card.ifd`readAt
      ensures card.Valid() && (t.app.Some? ==> Tlv.Placed(card.ifd.mem, t.app.value))
      ensures old(card.ifd.Healthy()) ==> card.ifd.Healthy() && (old(card.PinInv()) ==> card.PinInv())
      ensures old(card.ifd.Healthy()) ==> t == Visit(card.ifd.mem, s, EntryOf(card.ifd.mem, template))
    {
      var same, cut := CompareIdentifier(template, s.aid);
      t := s.(aid := cut);
      if same {
        var p := Tlv.GetObjectByTag(card, template, TAG_PATH);
        if p.Some? {
          t := FollowPath(p.value, t);
        }
      }
    }

    method FollowPath(p: Tlv.Object, s: Scan) returns (t: Scan)
      requires card.Valid() && Searching(s) && Tlv.Placed(card.ifd.mem, p)
      modifies card`active, card`pinNeeded, card.ifd`faults, card.ifd`powered, card.ifd`verified, card.ifd`readAt
      ensures card.Valid() && (t.app.Some? ==> Tlv.Placed(card.ifd.mem, t.app.value))
      ensures old(card.ifd.Healthy()) ==> card.ifd.Healthy() && (old(card.PinInv()) ==> card.PinInv())
      ensures old(card.ifd.Healthy()) ==>
                var u := ReadPath(s, Fetch(card.ifd.mem, p.value, p.length));
                t == if u.broken then u else u.(app := Tlv.Decode(card.ifd.mem, Address(u)))
    {
      var room := Min(s.room, p.length);
      t := s.(room := room);
      var value := Tlv.GetValue(card, p, s.room);
      if room > 2 {
        return t.(broken := true);
      }
      if value.Some? {
        if room > 0 {
          t := t.(first := value.value[0]);
        }
        if room > 1 {
          t := t.(second := value.value[1]);
        }
        var app := Tlv.New(card, if room < 2 then t.first else Word(t.first, t.second));
        t := t.(app := app);
      }
    }

    /** The loop over the templates of a directory. */
    method FindInSequence(dir: Tlv.Object, s0: Scan) returns (s: Scan)
      requires card.Valid() && Searching(s0) && Tlv.Placed(card.ifd.mem, dir)
      modifies card`active, card`pinNeeded, card.ifd`faults, card.ifd`powered, card.ifd`verified, card.ifd`readAt
      ensures card.Valid() && (s.app.Some? ==> Tlv.Placed(card.ifd.mem, s.app.value))
      ensures old(card.ifd.Healthy()) ==> card.ifd.Healthy() && (old(card.PinInv()) ==> card.PinInv())
      ensures old(card.ifd.Healthy()) ==> s == Search(card.ifd.mem, s0, Tlv.Children(card.ifd.mem, dir))
    {
      s := s0;
      ghost var mem := card.ifd.mem;
      ghost var coming := Tlv.Coming(mem, dir, None);
      ghost var goal := Search(mem, s0, coming);
      var template, more := None, true;
      while Searching(s) && more
        invariant card.Valid() && (s.app.Some? ==> Tlv.Placed(mem, s.app.value)) && (template.Some? ==> Tlv.Placed(mem, template.value))
        invariant old(card.ifd.Healthy()) ==> card.ifd.Healthy() && (old(card.PinInv()) ==> card.PinInv())
        invariant old(card.ifd.Healthy()) ==> goal == Search(mem, s, coming) && (!more ==> coming == [])
        invariant more ==> coming == Tlv.Coming(mem, dir, template)
        decreases more, if template.Some? then |mem| - template.value.address else |mem| + 1
      {
        template := Tlv.Iterate(card, dir, template);
        more := template.Some?;
        if more {
          s := VisitTemplate(template.value, s);
          coming := coming[1..];
        }
      }
    }

    /** The section that an application identifier selects, by the structure of the directory. */
    method FindApplication(s: Scan) returns (r: Finding)
      requires card.Valid() && Searching(s)
      modifies card`active, card`pinNeeded, card.ifd`faults, card.ifd`powered, card.ifd`verified, card.ifd`readAt
      ensures card.Valid() && (r.Found? ==> Inside(card.ifd.mem, r.section))
      ensures old(card.ifd.Healthy()) ==> card.ifd.Healthy() && (old(card.PinInv()) ==> card.PinInv())
      ensures old(card.ifd.Healthy()) ==> r == ApplicationSection(card.ifd.mem, history, s)
    {
      r := Missing;
      if !history.HasDirectory() {
        return;
      }
      var dir := Tlv.New(card, history.Start());
      if dir.None? {
        return;
      }
      if dir.value.tag == TAG_AID {
        var found := FindIf(dir.value, Some(dir.value), s.aid);
        r := FindingOf(found);
      } else if dir.value.tag == TAG_TEMPLATE {
        var id := Tlv.GetObjectByTag(card, dir.value, TAG_AID);
        var found := FindIf(dir.value, id, s.aid);
        r := FindingOf(found);
      } else if dir.value.tag == TAG_SEQUENCE {
        var t := FindInSequence(dir.value, s);
        r := FindingIn(t);
      }
    }

    /** A card with one application: its section is the object after the directory, if the identifier
        agrees. */
    method FindIf(dir: Tlv.Object, id: Option<Tlv.Object>, aid: bytes) returns (r: Option<Section>)
      requires card.Valid() && (id.Some? ==> Tlv.Placed(card.ifd.mem, id.value))
      modifies card`active, card`pinNeeded, card.ifd`faults, card.ifd`powered, card.ifd`verified, card.ifd`readAt
      ensures card.Valid() && (r.Some? ==> Inside(card.ifd.mem, r.value))
      ensures old(card.ifd.Healthy()) ==> card.ifd.Healthy() && (old(card.PinInv()) ==> card.PinInv())
      ensures old(card.ifd.Healthy()) ==>
                r == if Matches(aid, Entry(Content(card.ifd.mem, id), None)) then SectionAt(card.ifd.mem, dir.End()) else None
    {
      r := None;
      if id.None? {
        return;
      }
      var same, _ := Tlv.CompareValue(card, id.value, aid);
      if same {
        var next := Tlv.Shift(card, dir);
        if next.Some? {
          r := Some(SectionOf(next.value));
        }
      }
    }

    /** SELECT FILE. `locals` holds the uninitialised variables of the directory search. */
    method SelectFile(c: Apdu.Cmd, locals: Scan) returns (ret: Code, rsp: bytes)
      requires Valid()
      modifies this`path, this`length
      modifies card`active, card`pinNeeded, card.ifd`faults, card.ifd`powered, card.ifd`verified, card.ifd`readAt
      ensures Valid() && ret != IccError
      ensures if ret == Ok then rsp == OKAY || rsp == NOT_FOUND else rsp == []
      ensures rsp != OKAY ==> Selected() == old(Selected())
      ensures old(card.ifd.Healthy()) ==> card.ifd.Healthy() && (old(card.PinInv()) ==> card.PinInv())
      ensures P1(c) != 0x04 ==> (ret == Undefined <==> Wanted(card.ifd.mem, history, c, locals).Broken?)
      ensures old(card.ifd.Healthy()) ==>
                match Wanted(card.ifd.mem, history, c, locals)
                case Found(s) => rsp == OKAY && Selected() == s
                case Missing => rsp == NOT_FOUND
                case Broken => ret == Undefined
    {
      var r := Missing;
      if P1(c) == 0x00 {
        var tail := Apdu.DataTail(c);
        if |tail| < 2 {
          return Undefined, [];
        }
        var s := FindFile(Word(tail[0], tail[1]));
        r := FindingOf(s);
      } else if P1(c) == 0x04 {
        r := FindApplication(locals.(aid := Apdu.Data(c)[..Min(Apdu.Lc(c), AID_SIZE)], app := None, broken := false));
      }
      if r.Broken? {
        return Undefined, [];
      }
      ret := Ok;
      rsp := Choose(if r.Found? then Some(r.section) else None);
    }

    /** Reads a part of the section. */
    method ReadSection(c: Apdu.Cmd, n: nat) returns (r: IccSync.Code, data: bytes)
      requires Valid() && n <= Available(Selected(), c)
      modifies card`active, card`pinNeeded, card.ifd`faults, card.ifd`powered, card.ifd`verified, card.ifd`readAt
      ensures Valid()
      ensures old(card.ifd.Healthy()) ==> r == IccSync.Ok && card.ifd.Healthy() && (old(card.PinInv()) ==> card.PinInv())
      ensures r == IccSync.Ok ==> data == Fetch(card.ifd.mem, path + Offset(c), n)
    {
      AddressInside(card.ifd.mem, Selected(), c, n);
      r, data := card.Read((path + Offset(c)) % 0x1_0000, n);
    }

    method ReadBinary(c: Apdu.Cmd) returns (ret: Code, rsp: bytes)
      requires Valid()
      modifies card`active, card`pinNeeded, card.ifd`faults, card.ifd`powered, card.ifd`verified, card.ifd`readAt
      ensures Valid() && ret != Undefined
      ensures old(card.ifd.Healthy()) ==> ret == Ok && card.ifd.Healthy() && (old(card.PinInv()) ==> card.PinInv())
      ensures rsp == if ret == Ok then ReadAnswer(card.ifd.mem, Selected(), c) else MEMORY_FAILURE
    {
      var available := Max(length - Offset(c), 0);
      var expected := if Apdu.LeAvailable(c) then available else Apdu.Le(c);
      expected := Min(expected, Apdu.MAX_RSP_SIZE - 2);
      var status, n := OKAY, expected;
      if expected > available {
        status, n := END_REACHED, available;
      }
      var r, data := ReadSection(c, n);
      if r != IccSync.Ok {
        return IccError, MEMORY_FAILURE;
      }
      ret, rsp := Ok, data + status;
    }

    /** Writes the part of the data that lies in the section. */
    method WriteSection(c: Apdu.Cmd, n: nat) returns (r: IccSync.Code)
      requires Valid() && n == Min(Available(Selected(), c), Apdu.Lc(c))
      modifies card, card.ifd`faults, card.ifd`writes, card.ifd`mem, card.ifd`powered, card.ifd`trials, card.ifd`verified,
               card.ifd`readAt, card.ifd`writeAt, card.ifd`lockedWrites
      ensures Valid() && Confined(old(card.ifd.mem), card.ifd.mem, path, length)
      ensures r == IccSync.Ok ==> card.ifd.mem == Updated(old(card.ifd.mem), Selected(), c)
      ensures old(card.ifd.Healthy()) ==> card.ifd.Healthy()
      ensures old(card.ifd.Healthy() && card.PinInv()) ==>
                (r == IccSync.Ok || r == IccSync.RoError) && card.PinInv() && card.pinOk == old(card.pinOk)
      ensures old(card.ifd.Healthy() && card.PinInv() && card.Unlockable()) ==>
                card.ifd.lockedWrites == old(card.ifd.lockedWrites) && (old(card.ifd.Obeys()) ==> r == IccSync.Ok)
    {
      ghost var s, mem := Selected(), card.ifd.mem;
      AddressInside(mem, s, c, n);
      r := card.Write((path + Offset(c)) % 0x1_0000, Apdu.Data(c)[..n]);
      if n > 0 {
        WithinSection(mem, card.ifd.mem, s, Offset(c), n);
      } else {
        assert Apdu.Data(c)[..n] == [];
      }
    }

    method UpdateBinary(c: Apdu.Cmd) returns (ret: Code, rsp: bytes)
      requires Valid()
      modifies card, card.ifd`faults, card.ifd`writes, card.ifd`mem, card.ifd`powered, card.ifd`trials, card.ifd`verified,
               card.ifd`readAt, card.ifd`writeAt, card.ifd`lockedWrites
      ensures Valid() && ret != Undefined && (rsp == OKAY || rsp == WARNING)
      // nothing outside the section changes, whatever happens
      ensures Confined(old(card.ifd.mem), card.ifd.mem, path, length)
      // 9000 means that all the data is in the memory, whatever the card does
      ensures rsp == OKAY ==> ret == Ok && FitsSection(Selected(), c) && card.ifd.mem == Updated(old(card.ifd.mem), Selected(), c)
      ensures old(card.ifd.Healthy()) ==> card.ifd.Healthy()
      ensures old(card.ifd.Healthy() && card.PinInv()) ==> ret == Ok && card.PinInv() && card.pinOk == old(card.pinOk)
      // with the PIN cached no write reaches a locked card, and a card that does as it is told is written
      ensures old(card.ifd.Healthy() && card.PinInv() && card.Unlockable()) ==>
                && card.ifd.lockedWrites == old(card.ifd.lockedWrites)
                && (old(card.ifd.Obeys()) ==>
                      && card.ifd.mem == Updated(old(card.ifd.mem), Selected(), c)
                      && (rsp == OKAY <==> FitsSection(Selected(), c)))
    {
      var available, provided := Max(length - Offset(c), 0), Apdu.Lc(c);
      var r := WriteSection(c, Min(available, provided));
      ret, rsp := Ok, WARNING;
      if r == IccSync.RoError {
        return;
      }
      if r != IccSync.Ok {
        return IccError, WARNING;
      }
      if available >= provided {
        rsp := OKAY;
      }
    }

    /** The answer of the card to a PIN. */
    method TryPin(pin: bytes) returns (ret: Code, rsp: bytes)
      requires Valid()
      modifies card, card.ifd`faults, card.ifd`powered, card.ifd`trials, card.ifd`verified
      ensures Valid() && ret != Undefined && (rsp == OKAY ==> ret == Ok)
      ensures old(card.ifd.Healthy()) ==> ret == Ok && card.ifd.Healthy() && (old(card.PinInv()) ==> card.PinInv())
      ensures HasPin(card.ifd.kind) && rsp == OKAY ==> card.pinOk && card.pin == pin && card.ifd.Knows(pin)
      ensures old(card.ifd.Healthy()) ==> rsp == PinAnswer(card.ifd.kind, old(card.ifd.trials), card.ifd.Knows(pin))
    {
      var r, trials := card.EnterPin(pin);
      ret := Ok;
      if r == IccSync.PinError {
        rsp := [0x63, 0xC0 + trials % 16];
      } else if r == IccSync.BlockedError {
        rsp := [0x69, 0x83];
      } else if r != IccSync.Ok {
        ret, rsp := IccError, [0x63, 0x00];
      } else {
        rsp := OKAY;
      }
    }

    method Verify(c: Apdu.Cmd) returns (ret: Code, rsp: bytes)
      requires Valid()
      modifies card, card.ifd`faults, card.ifd`powered, card.ifd`trials, card.ifd`verified
      ensures Valid() && ret != Undefined
      ensures old(card.ifd.Healthy()) ==> ret == Ok && card.ifd.Healthy() && (old(card.PinInv()) ==> card.PinInv())
      ensures old(card.ifd.Healthy()) ==> rsp == PinAnswer(card.ifd.kind, old(card.ifd.trials), card.ifd.Knows(PinOf(c)))
      ensures rsp == OKAY ==> card.Unlockable()
    {
      ret, rsp := TryPin(PinOf(c));
    }

    /** The current PIN of the command is answered as the card decides, and if it was right the card has the new one. */
    ghost predicate PinReplaced(c: Apdu.Cmd, trials: nat, was: bytes, rsp: bytes)
      reads card.ifd`secret
    {
      && |Apdu.DataTail(c)| >= 6
      && var kind, pin := card.ifd.kind, Apdu.DataTail(c)[..3];
         && rsp == PinAnswer(kind, trials, Shown(kind, pin) == Shown(kind, was))
         && card.ifd.secret == if HasPin(kind) && rsp == OKAY then Apdu.DataTail(c)[3..6] else was
    }

    /** The new PIN is stored only after the current one has been verified, so the driver's belief about the
        PIN stays true. */
    method ChangeVerifyData(c: Apdu.Cmd) returns (ret: Code, rsp: bytes)
      requires Valid()
      modifies card, card.ifd`faults, card.ifd`powered, card.ifd`trials, card.ifd`verified, card.ifd`secret
      ensures Valid() && (ret == Undefined <==> |Apdu.DataTail(c)| < 2 * PIN_SIZE) && (ret == Undefined ==> rsp == []) && (rsp == OKAY ==> card.Unlockable())
      ensures old(card.ifd.Healthy()) ==> card.ifd.Healthy() && (old(card.PinInv()) ==> ret != IccError && card.PinInv())
      ensures old(card.ifd.Healthy() && card.PinInv()) && ret == Ok ==>
                PinReplaced(c, old(card.ifd.trials), old(card.ifd.secret), rsp)
    {
      var tail := Apdu.DataTail(c);
      if |tail| < 2 * PIN_SIZE {
        return Undefined, [];
      }
      ret, rsp := TryPin(tail[..3]);
      if rsp != OKAY {
        return;
      }
      var r := card.ChangePin(tail[3..6]);
      if r != IccSync.Ok {
        ret, rsp := IccError, [0x63, 0x00];
      }
    }

    /** Protocol_Sync_Command. Every command keeps the selection inside the memory; only a SELECT FILE that
        succeeds changes it, and only UPDATE BINARY changes the memory, inside the selected section. */
    method Command(c: Apdu.Cmd, locals: Scan) returns (ret: Code, rsp: bytes)
      requires Valid()
      modifies this`path, this`length, card, card.ifd
      ensures Valid()
      ensures old(card.ifd.Healthy()) ==> card.ifd.Healthy()
      ensures old(card.ifd.Healthy()) || Ins(c) != 0xA4 || P1(c) != 0x04 ==>
                (ret == Undefined <==> Unanswerable(old(card.ifd.mem), history, c, locals))
      ensures ret == Undefined ==> rsp == []
      ensures old(card.ifd.Healthy() && card.PinInv()) ==> ret != IccError && card.PinInv()
      ensures old(card.ifd.Healthy() && card.PinInv() && card.Unlockable()) && (ForPin(c) ==> rsp == OKAY) ==>
                card.Unlockable() && card.ifd.lockedWrites == old(card.ifd.lockedWrites)
      ensures Ins(c) == 0x20 && old(card.ifd.Healthy()) ==>
                rsp == PinAnswer(card.ifd.kind, old(card.ifd.trials), card.ifd.Knows(PinOf(c))) && (rsp == OKAY ==> card.Unlockable())
      ensures Selected() == old(Selected()) || (Ins(c) == 0xA4 && rsp == OKAY)
      ensures if Ins(c) == 0xD6 then Confined(old(card.ifd.mem), card.ifd.mem, path, length) else card.ifd.mem == old(card.ifd.mem)
      ensures Ins(c) == 0xA4 && old(card.ifd.Healthy()) ==>
                match Wanted(old(card.ifd.mem), history, c, locals)
                case Found(s) => rsp == OKAY && Selected() == s
                case Missing => rsp == NOT_FOUND && Selected() == old(Selected())
                case Broken => ret == Undefined
      ensures Ins(c) == 0xB0 ==> rsp == if ret == Ok then ReadAnswer(card.ifd.mem, Selected(), c) else MEMORY_FAILURE
      ensures Ins(c) == 0xD6 && rsp == OKAY ==>
                FitsSection(Selected(), c) && card.ifd.mem == Updated(old(card.ifd.mem), Selected(), c)
      ensures Ins(c) == 0xD6 && old(card.ifd.Healthy() && card.PinInv() && card.Unlockable() && card.ifd.Obeys()) ==>
                card.ifd.mem == Updated(old(card.ifd.mem), Selected(), c) && rsp == if FitsSection(Selected(), c) then OKAY else WARNING
      ensures Ins(c) == 0x24 && old(card.ifd.Healthy() && card.PinInv()) && ret == Ok ==> PinReplaced(c, old(card.ifd.trials), old(card.ifd.secret), rsp)
      ensures Ins(c) !in {0xA4, 0xB0, 0xD6, 0x20, 0x24} ==> rsp == [0x6E, 0x00]
    {
      var _ := card.ifd.Attempt();
      if Ins(c) == 0xA4 {
        ret, rsp := SelectFile(c, locals);
      } else if Ins(c) == 0xB0 {
        ret, rsp := ReadBinary(c);
      } else if Ins(c) == 0xD6 {
        ret, rsp := UpdateBinary(c);
      } else if Ins(c) == 0x20 {
        ret, rsp := Verify(c);
      } else if Ins(c) == 0x24 {
        ret, rsp := ChangeVerifyData(c);
      } else {
        ret, rsp := Ok, [0x6E, 0x00];
      }
    }

    /** Any history of commands keeps the selection inside the memory and the belief about the PIN true, and
        moves the selection only by SELECT FILE commands that succeed. Once the PIN has been verified, however
        often the card is powered down in between and as long as every PIN command succeeds, no write reaches it
        before the PIN is presented again. */
    method Session(commands: seq<Apdu.Cmd>, locals: seq<Scan>) returns (answers: seq<bytes>)
      requires Valid() && |locals| == |commands|
      modifies this`path, this`length, card, card.ifd
      ensures Valid() && |answers| == |commands|
      ensures old(card.ifd.Healthy() && card.PinInv()) ==> card.ifd.Healthy() && card.PinInv()
      ensures old(card.ifd.Healthy() && card.PinInv() && card.Unlockable()) && (forall i | 0 <= i < |commands| && ForPin(commands[i]) :: answers[i] == OKAY) ==>
                card.Unlockable() && card.ifd.lockedWrites == old(card.ifd.lockedWrites)
      ensures (forall i | 0 <= i < |commands| :: Ins(commands[i]) != 0xA4 || answers[i] != OKAY) ==> Selected() == old(Selected())
      ensures (forall i | 0 <= i < |commands| :: Ins(commands[i]) != 0xD6) ==> card.ifd.mem == old(card.ifd.mem)
    {
      answers := [];
      for k := 0 to |commands|
        invariant Valid() && |answers| == k
        invariant old(card.ifd.Healthy() && card.PinInv()) ==> card.ifd.Healthy() && card.PinInv()
        invariant old(card.ifd.Healthy() && card.PinInv() && card.Unlockable()) && (forall i | 0 <= i < k && ForPin(commands[i]) :: answers[i] == OKAY) ==>
                    card.Unlockable() && card.ifd.lockedWrites == old(card.ifd.lockedWrites)
        invariant (forall i | 0 <= i < k :: Ins(commands[i]) != 0xA4 || answers[i] != OKAY) ==> Selected() == old(Selected())
        invariant (forall i | 0 <= i < k :: Ins(commands[i]) != 0xD6) ==> card.ifd.mem == old(card.ifd.mem)
      {
        var ret, rsp := Command(commands[k], locals[k]);
        answers := answers + [rsp];
      }
    }

    /** From the command to the memory cells and back: what UPDATE BINARY has answered 9000 for, READ BINARY
        gives back, through the section, the pages and the blocks of the reader. */
    method UpdateThenRead(cu: byte, cr: byte, p1: byte, p2: byte, data: bytes, wu: bool, wr: bool, locals: Scan)
      returns (updated: bytes, ret: Code, answer: bytes)
      requires Valid() && Codable(|data|, wu) && Codable(|data|, wr)
      modifies this`path, this`length, card, card.ifd
      ensures Valid()
      ensures updated == [0x90, 0x00] ==> answer == if ret == Ok then data + [0x90, 0x00] else MEMORY_FAILURE
      ensures old(card.ifd.Healthy() && card.PinInv()) ==> ret == Ok
    {
      UpdateParts(cu, p1, p2, data, wu);
      ReadParts(cr, p1, p2, |data|, wr);
      var first;
      first, updated := Command(UpdateOf(cu, p1, p2, data, wu), locals);
      if updated == OKAY {
        ReadAfterUpdate(old(card.ifd.mem), Selected(), cu, cr, p1, p2, data, wu, wr);
      }
      ret, answer := Command(ReadOf(cr, p1, p2, |data|, wr), locals);
    }
  }
}
