/** What SELECT FILE looks for on a memory card, as functions of its memory (the directory search of
    Protocol_Sync_SelectFile in src/driver/protocol_sync.c). */
module Directory {
  import opened Bytes
  import opened MemoryCard
  import opened Tlv

  const TAG_AID := 0x4F
  const TAG_PATH := 0x51
  const TAG_TEMPLATE := 0x61
  const TAG_SEQUENCE := 0x30

  /** A data section: its first byte and its length. */
  datatype Section = Section(path: nat, length: nat)

  /** The whole of a data object. */
  function SectionOf(o: Object): Section { Section(o.address, o.RawLength()) }

  predicate Inside(mem: bytes, s: Section) { s.path + s.length <= |mem| }

  function SectionAt(mem: bytes, at: nat): (r: Option<Section>)
    ensures r.Some? ==> Inside(mem, r.value)
  {
    match Decode(mem, at)
    case None => None
    case Some(o) => Some(SectionOf(o))
  }

  /** The two historical bytes of the ATR that say whether and where there is a directory. */
  datatype History = History(category: byte, reference: byte) {
    predicate HasDirectory() { category == 0x10 && reference >= 128 }

    function Start(): nat { reference % 128 }
  }

  function FileSection(mem: bytes, h: History, fid: nat): (r: Option<Section>)
    ensures r.Some? ==> Inside(mem, r.value)
  {
    if fid == 0x3F00 then Some(Section(0, |mem|))
    else if fid == 0x2F01 then
      if h.HasDirectory() && h.Start() > 4 && |mem| > 4 then Some(Section(4, Min(h.Start(), |mem|) - 4)) else None
    else if fid == 0x2F00 then
      if h.HasDirectory() then SectionAt(mem, h.Start()) else None
    else None
  }

  /** A card whose memory holds the ATR, bytes that describe it, the directory and the rest: the identifiers 3F00, 2F01
      and 2F00 select the whole, the description, and the directory. */
  lemma {:induction false} FilesOfCard(atr: bytes, about: bytes, dir: Item, rest: bytes)
    requires |atr| == 4 && 4 + |about| < 128
    ensures var mem := atr + about + Encode(dir) + rest;
            var h := History(0x10, 0x80 + 4 + |about|);
            && FileSection(mem, h, 0x3F00) == Some(Section(0, |mem|))
            && FileSection(mem, h, 0x2F01) == (if about == [] then None else Some(Section(4, |about|)))
            && FileSection(mem, h, 0x2F00) == Some(Section(4 + |about|, |Encode(dir)|))
  {
    var mem, at := atr + about + Encode(dir) + rest, 4 + |about|;
    assert mem[at..at + |Encode(dir)|] == Encode(dir);
    DecodeEncode(mem, at, dir);
  }

  /** Other identifiers select nothing, and only 3F00 does if there is no directory. */
  lemma NoOtherFile(mem: bytes, h: History, fid: nat)
    requires fid != 0x3F00
    ensures fid != 0x2F00 && fid != 0x2F01 ==> FileSection(mem, h, fid) == None
    ensures h.category != 0x10 || h.reference < 0x80 ==> FileSection(mem, h, fid) == None
  {
  }

  // ----- the search through a directory of several applications -----

  /** What a template says: the application identifier and the path, where present. */
  datatype Entry = Entry(id: Option<bytes>, path: Option<bytes>)

  function Content(mem: bytes, o: Option<Object>): Option<bytes> {
    if o.None? then None else Some(Fetch(mem, o.value.value, o.value.length))
  }

  function EntryOf(mem: bytes, template: Object): Entry {
    var parts := Children(mem, template);
    Entry(Content(mem, FirstWith(parts, TAG_AID)), Content(mem, FirstWith(parts, TAG_PATH)))
  }

  /** The variables of the search. The two bytes of the path buffer and `room`, the length of a path, start out
      uninitialised in the driver. Once `broken`, more than two bytes have been written. */
  datatype Scan = Scan(aid: bytes, first: byte, second: byte, room: nat, app: Option<Object>, broken: bool)

  predicate Searching(s: Scan) { s.app.None? && !s.broken }

  /** Comparing with an identifier cuts the wanted one to its length, for good. */
  function Cut(aid: bytes, e: Entry): bytes {
    if e.id.None? then aid else aid[..Min(|aid|, |e.id.value|)]
  }

  function Matches(aid: bytes, e: Entry): bool { e.id.Some? && Agree(aid, e.id.value) }

  /** Reading a path leaves the rest of the buffer and lowers the room, for good. More than two bytes are
      written behind the buffer. */
  function ReadPath(s: Scan, p: bytes): Scan {
    var n := Min(s.room, |p|);
    if n > 2 then s.(room := n, broken := true)
    else s.(first := if n > 0 then p[0] else s.first, second := if n > 1 then p[1] else s.second, room := n)
  }

  function Address(s: Scan): nat { if s.room < 2 then s.first else Word(s.first, s.second) }

  /** One template of the directory. */
  function Visit(mem: bytes, s: Scan, e: Entry): Scan {
    var hit := Matches(s.aid, e);
    var t := s.(aid := Cut(s.aid, e));
    if hit && e.path.Some? then
      var u := ReadPath(t, e.path.value);
      if u.broken then u else u.(app := Decode(mem, Address(u)))
    else t
  }

  function Search(mem: bytes, s: Scan, ts: seq<Object>): (r: Scan)
    requires s.app.Some? ==> Placed(mem, s.app.value)
    ensures r.app.Some? ==> Placed(mem, r.app.value)
    decreases |ts|
  {
    if ts == [] || !Searching(s) then s else Search(mem, Visit(mem, s, EntryOf(mem, ts[0])), ts[1..])
  }

  /** What a selection comes to; `Broken` if memory that is not the driver's was read or written. */
  datatype Finding = Found(section: Section) | Missing | Broken

  function FindingOf(s: Option<Section>): Finding { if s.Some? then Found(s.value) else Missing }

  function FindingIn(s: Scan): Finding {
    if s.broken then Broken else if s.app.Some? then Found(SectionOf(s.app.value)) else Missing
  }

  /** The section that an application identifier selects. */
  function ApplicationSection(mem: bytes, h: History, s: Scan): (r: Finding)
    ensures r.Found? ==> Inside(mem, r.section)
  {
    if !h.HasDirectory() then Missing
    else match Decode(mem, h.Start())
      case None => Missing
      case Some(dir) =>
        if dir.tag == TAG_AID then
          if Agree(s.aid, Fetch(mem, dir.value, dir.length)) then FindingOf(SectionAt(mem, dir.End())) else Missing
        else if dir.tag == TAG_TEMPLATE then
          if Matches(s.aid, EntryOf(mem, dir)) then FindingOf(SectionAt(mem, dir.End())) else Missing
        else if dir.tag == TAG_SEQUENCE then FindingIn(Search(mem, s.(app := None, broken := false), Children(mem, dir)))
        else Missing
  }

  // ----- cards with one application -----

  lemma {:induction false} HeldItem(mem: bytes, at: nat, i: Item, next: bytes) returns (o: Object)
    requires Holds(mem, at, Encode(i) + next)
    ensures Decode(mem, at) == Some(o) && Holds(mem, at, Encode(i)) && Holds(mem, o.End(), next)
    ensures o.tag == i.tag && o.End() == at + |Encode(i)| && Fetch(mem, o.value, o.length) == i.content
  {
    HoldsParts(mem, at, Encode(i), next);
    DecodeEncode(mem, at, i);
    o := Decode(mem, at).value;
  }

  lemma {:induction false} HeldSection(mem: bytes, at: nat, i: Item)
    requires Holds(mem, at, Encode(i))
    ensures SectionAt(mem, at) == Some(Section(at, |Encode(i)|))
  {
    DecodeEncode(mem, at, i);
  }

  /** The object after a directory that holds one identifier. */
  lemma OneFound(mem: bytes, h: History, dir: Object, s: Scan, id: bytes, app: Section)
    requires h.HasDirectory() && Decode(mem, h.Start()) == Some(dir) && SectionAt(mem, dir.End()) == Some(app)
    requires (dir.tag == TAG_AID && id == Fetch(mem, dir.value, dir.length)) || (dir.tag == TAG_TEMPLATE && EntryOf(mem, dir).id == Some(id))
    ensures ApplicationSection(mem, h, s) == if Agree(s.aid, id) then Found(app) else Missing
  {
  }

  /** The directory stands at its place, followed by the application. */
  lemma {:induction false} HeldDirectory(mem: bytes, h: History, dir: Item, app: Item) returns (o: Object, sec: Section)
    requires h.HasDirectory() && Holds(mem, h.Start(), Encode(dir) + Encode(app))
    ensures Decode(mem, h.Start()) == Some(o) && o.tag == dir.tag && Fetch(mem, o.value, o.length) == dir.content
    ensures SectionAt(mem, o.End()) == Some(sec) && sec == Section(h.Start() + |Encode(dir)|, |Encode(app)|)
    ensures Holds(mem, h.Start(), Encode(dir))
  {
    o := HeldItem(mem, h.Start(), dir, Encode(app));
    HeldSection(mem, o.End(), app);
    sec := Section(o.End(), |Encode(app)|);
  }

  /** What a card with one application selects. */
  predicate Selects(mem: bytes, h: History, s: Scan, id: bytes, sec: Section) {
    ApplicationSection(mem, h, s) == if Agree(s.aid, id) then Found(sec) else Missing
  }

  /** The directory is an application identifier: the object after it is the application, if the wanted identifier
      agrees as far as both go. */
  lemma {:induction false} OneIdentifier(mem: bytes, h: History, dir: Item, app: Item, s: Scan) returns (sec: Section)
    requires h.HasDirectory() && dir.tag == 0x4F && Holds(mem, h.Start(), Encode(dir) + Encode(app))
    ensures sec == Section(h.Start() + |Encode(dir)|, |Encode(app)|) && Selects(mem, h, s, dir.content, sec)
  {
    var o;
    o, sec := HeldDirectory(mem, h, dir, app);
    OneFound(mem, h, o, s, dir.content, sec);
  }

  lemma {:induction false} FirstSays(mem: bytes, os: seq<Object>, items: seq<Item>, k: nat, tag: nat)
    requires AllSay(mem, os, items) && k < |items| && items[k].tag == tag && forall j | 0 <= j < k :: items[j].tag != tag
    ensures FirstWith(os, tag) == Some(os[k])
    decreases |os|
  {
    assert Says(mem, os[0], items[0]) && Says(mem, os[k], items[k]);
    if k > 0 {
      assert items[0].tag != tag;
      forall j | 0 <= j < |os[1..]|
        ensures Says(mem, os[1..][j], items[1..][j])
      {
        assert Says(mem, os[j + 1], items[j + 1]);
      }
      FirstSays(mem, os[1..], items[1..], k - 1, tag);
    }
  }

  /** The directory is a template: the same with the first identifier in it. */
  lemma {:induction false} OneTemplate(mem: bytes, h: History, dir: Item, items: seq<Item>, k: nat, app: Item, s: Scan) returns (sec: Section)
    requires h.HasDirectory() && dir.tag == 0x61 && dir.content == EncodeAll(items) && Holds(mem, h.Start(), Encode(dir) + Encode(app))
    requires k < |items| && items[k].tag == 0x4F && forall j | 0 <= j < k :: items[j].tag != 0x4F
    ensures sec == Section(h.Start() + |Encode(dir)|, |Encode(app)|) && Selects(mem, h, s, items[k].content, sec)
  {
    var o;
    o, sec := HeldDirectory(mem, h, dir, app);
    IdentifierIn(mem, h.Start(), dir, items, k);
    OneFound(mem, h, o, s, items[k].content, sec);
  }

  lemma {:induction false} IdentifierIn(mem: bytes, at: nat, dir: Item, items: seq<Item>, k: nat)
    requires dir.tag == 0x61 && dir.content == EncodeAll(items) && Holds(mem, at, Encode(dir))
    requires k < |items| && items[k].tag == 0x4F && forall j | 0 <= j < k :: items[j].tag != 0x4F
    ensures Decode(mem, at).Some? && EntryOf(mem, Decode(mem, at).value).id == Some(items[k].content)
  {
    assert dir == Item(0x61, EncodeAll(items));
    ChildrenOfEncoded(mem, at, 0x61, items);
    IdentifierSays(mem, Children(mem, Decode(mem, at).value), items, k);
  }

  lemma {:induction false} IdentifierSays(mem: bytes, parts: seq<Object>, items: seq<Item>, k: nat)
    requires AllSay(mem, parts, items) && k < |items| && items[k].tag == 0x4F && forall j | 0 <= j < k :: items[j].tag != 0x4F
    ensures Content(mem, FirstWith(parts, TAG_AID)) == Some(items[k].content)
  {
    FirstSays(mem, parts, items, k, 0x4F);
    assert Says(mem, parts[k], items[k]);
  }

  // ----- what the search finds -----

  /** The wanted identifier as the k-th template is compared with it. */
  function CutBy(aid: bytes, es: seq<Entry>): (r: bytes)
    ensures |r| <= |aid| && r == aid[..|r|]
    decreases |es|
  {
    if es == [] then aid else CutBy(Cut(aid, es[0]), es[1..])
  }

  /** How many leading bytes two strings have in common. */
  function Common(a: bytes, b: bytes): (n: nat)
    ensures n <= |a| && n <= |b| && a[..n] == b[..n]
    ensures n < |a| && n < |b| ==> a[n] != b[n]
  {
    if a == [] || b == [] || a[0] != b[0] then 0
    else
      var n := Common(a[1..], b[1..]);
      assert a[..n + 1] == [a[0]] + a[1..][..n] && b[..n + 1] == [b[0]] + b[1..][..n];
      n + 1
  }

  /** The length of the cut identifier: that of the shortest one seen, if shorter. */
  lemma {:induction false} CutLength(aid: bytes, es: seq<Entry>, n: nat)
    ensures |CutBy(aid, es)| <= n <==> |aid| <= n || exists j :: 0 <= j < |es| && es[j].id.Some? && |es[j].id.value| <= n
    decreases |es|
  {
    if es != [] {
      CutLength(Cut(aid, es[0]), es[1..], n);
      if exists j :: 0 <= j < |es[1..]| && es[1..][j].id.Some? && |es[1..][j].id.value| <= n {
        var j :| 0 <= j < |es[1..]| && es[1..][j].id.Some? && |es[1..][j].id.value| <= n;
        assert es[j + 1].id.Some? && |es[j + 1].id.value| <= n;
      }
      if exists j :: 0 < j < |es| && es[j].id.Some? && |es[j].id.value| <= n {
        var j :| 0 < j < |es| && es[j].id.Some? && |es[j].id.value| <= n;
        assert es[1..][j - 1] == es[j];
      }
    }
  }

  lemma {:induction false} AgreeCut(aid: bytes, id: bytes, m: nat)
    requires m <= |aid|
    ensures Agree(aid[..m], id) <==> Agree(aid, id) || m <= Common(aid, id)
  {
    var n, full, part := Common(aid, id), Min(|aid|, |id|), Min(m, |id|);
    if n < part {
      assert aid[..m][..part][n] != id[..part][n];
      assert aid[..full][n] != id[..full][n];
    } else {
      assert aid[..m][..part] == aid[..n][..part] == id[..n][..part] == id[..part];
    }
  }

  /** The identifier of a template agrees with the cut one if and only if it agrees with the wanted one, or an
      earlier template has an identifier no longer than what the two have in common. */
  lemma {:induction false} HitExactly(aid: bytes, es: seq<Entry>, k: nat)
    requires k < |es| && es[k].id.Some?
    ensures Matches(CutBy(aid, es[..k]), es[k]) <==> Matches(aid, es[k]) || Blurred(aid, es, k)
  {
    var id, before := es[k].id.value, es[..k];
    var n, c := Common(aid, id), CutBy(aid, before);
    AgreeCut(aid, id, |c|);
    CutLength(aid, before, n);
    if Blurred(aid, es, k) {
      var j :| 0 <= j < k && es[j].id.Some? && |es[j].id.value| <= n;
      assert before[j] == es[j];
    }
  }

  /** An earlier identifier is no longer than what the k-th has in common with the wanted one. */
  predicate Blurred(aid: bytes, es: seq<Entry>, k: nat)
    requires k < |es| && es[k].id.Some?
  {
    exists j :: 0 <= j < k && es[j].id.Some? && |es[j].id.value| <= Common(aid, es[k].id.value)
  }

  // ----- the search as a whole -----

  function Entries(mem: bytes, ts: seq<Object>): (es: seq<Entry>)
    ensures |es| == |ts| && forall i | 0 <= i < |ts| :: es[i] == EntryOf(mem, ts[i])
  {
    seq(|ts|, i requires 0 <= i < |ts| => EntryOf(mem, ts[i]))
  }

  /** The variables of the search as it comes to the k-th template. */
  function Before(mem: bytes, s: Scan, es: seq<Entry>, k: nat): Scan
    requires k <= |es|
  {
    if k == 0 then s else Visit(mem, Before(mem, s, es, k - 1), es[k - 1]).(app := None, broken := false)
  }

  /** The identifier of the k-th template agrees with the cut one. */
  predicate Hit(aid: bytes, es: seq<Entry>, k: nat)
    requires k < |es|
  {
    es[k].id.Some? && (Matches(aid, es[k]) || Blurred(aid, es, k))
  }

  /** The address that a path names: its last two bytes, or its only one. */
  function Own(p: bytes): Option<nat> {
    if p == [] then None else if |p| == 1 then Some(p[0]) else Some(Word(p[|p| - 2], p[|p| - 1]))
  }

  /** The address that the driver reads, with so much room and `left` in the buffer. */
  function Seen(p: bytes, room: nat, left: byte): nat {
    var n := Min(room, |p|);
    if n == 0 then left else if n == 1 then p[0] else Word(p[0], p[1])
  }

  predicate TooLong(p: bytes, room: nat) { room > 2 && |p| > 2 }

  predicate Misread(p: bytes, room: nat, left: byte) { Own(p) != Some(Seen(p, room, left)) }

  /** The path of the k-th template would be written behind the buffer. */
  predicate Bursts(mem: bytes, s: Scan, es: seq<Entry>, k: nat)
    requires k < |es|
  {
    es[k].path.Some? && TooLong(es[k].path.value, Before(mem, s, es, k).room)
  }

  /** It would be read as another address. */
  predicate Garbled(mem: bytes, s: Scan, es: seq<Entry>, k: nat)
    requires k < |es|
  {
    var b := Before(mem, s, es, k);
    es[k].path.Some? && Misread(es[k].path.value, b.room, b.first)
  }

  /** The application that the k-th template's path leads the driver to. */
  function Goal(mem: bytes, s: Scan, es: seq<Entry>, k: nat): Option<Object>
    requires k < |es|
  {
    var b := Before(mem, s, es, k);
    if es[k].path.None? || Bursts(mem, s, es, k) then None else Decode(mem, Seen(es[k].path.value, b.room, b.first))
  }

  /** The application that a template names. */
  function Meant(mem: bytes, e: Entry): Option<Object> {
    if e.path.None? || Own(e.path.value).None? then None else Decode(mem, Own(e.path.value).value)
  }

  /** The search takes the k-th template. */
  predicate Takes(mem: bytes, s: Scan, es: seq<Entry>, k: nat)
    requires k < |es|
  {
    Matches(Before(mem, s, es, k).aid, es[k]) && Goal(mem, s, es, k).Some?
  }

  /** The search breaks at the k-th template. */
  predicate Breaks(mem: bytes, s: Scan, es: seq<Entry>, k: nat)
    requires k < |es|
  {
    Matches(Before(mem, s, es, k).aid, es[k]) && Bursts(mem, s, es, k)
  }

  predicate Stops(mem: bytes, s: Scan, es: seq<Entry>, k: nat)
    requires k < |es|
  {
    Takes(mem, s, es, k) || Breaks(mem, s, es, k)
  }

  /** It should take it: the identifier is the wanted one, and there is the application that it names. */
  predicate Right(mem: bytes, aid: bytes, e: Entry) {
    Matches(aid, e) && Meant(mem, e).Some?
  }

  /** The k-th template leads astray: its identifier agrees with the cut one, and its path does not fit the
      buffer, or it leads to an application although the identifier is not the wanted one or the path is
      misread. */
  predicate Strays(mem: bytes, s: Scan, es: seq<Entry>, k: nat)
    requires k < |es|
  {
    && Hit(s.aid, es, k)
    && (Bursts(mem, s, es, k) || (Goal(mem, s, es, k).Some? && (!Matches(s.aid, es[k]) || Garbled(mem, s, es, k))))
  }

  lemma {:induction false} CutBySnoc(aid: bytes, es: seq<Entry>, e: Entry)
    ensures CutBy(aid, es + [e]) == Cut(CutBy(aid, es), e)
    decreases |es|
  {
    if es == [] {
      assert es + [e] == [e] && [e][1..] == [];
    } else {
      assert (es + [e])[1..] == es[1..] + [e];
      CutBySnoc(Cut(aid, es[0]), es[1..], e);
    }
  }

  lemma {:induction false} BeforeAid(mem: bytes, s: Scan, es: seq<Entry>, k: nat)
    requires k <= |es|
    ensures Before(mem, s, es, k).aid == CutBy(s.aid, es[..k])
    decreases k
  {
    if k > 0 {
      BeforeAid(mem, s, es, k - 1);
      CutBySnoc(s.aid, es[..k - 1], es[k - 1]);
      assert es[..k] == es[..k - 1] + [es[k - 1]];
    }
  }

  /** What the search takes and where it breaks, by the identifiers seen before. */
  lemma {:induction false} TakesExactly(mem: bytes, s: Scan, es: seq<Entry>, k: nat)
    requires k < |es|
    ensures Matches(Before(mem, s, es, k).aid, es[k]) <==> Hit(s.aid, es, k)
    ensures Takes(mem, s, es, k) <==> Hit(s.aid, es, k) && Goal(mem, s, es, k).Some?
    ensures Breaks(mem, s, es, k) <==> Hit(s.aid, es, k) && Bursts(mem, s, es, k)
  {
    BeforeAid(mem, s, es, k);
    if es[k].id.Some? {
      HitExactly(s.aid, es, k);
    }
  }

  /** A template with an agreeing identifier and a path of no more than n bytes. */
  predicate Lowers(aid: bytes, es: seq<Entry>, j: nat, n: nat)
    requires j < |es|
  {
    Hit(aid, es, j) && es[j].path.Some? && |es[j].path.value| <= n
  }

  lemma {:induction false} VisitRoom(mem: bytes, s: Scan, e: Entry, n: nat)
    ensures Visit(mem, s, e).room <= n <==> s.room <= n || (Matches(s.aid, e) && e.path.Some? && |e.path.value| <= n)
  {
  }

  /** The room left for the path of the k-th template: what it was at first, or the length of a path that a hit
      before it read. */
  lemma {:induction false} RoomExactly(mem: bytes, s: Scan, es: seq<Entry>, k: nat, n: nat)
    requires k <= |es|
    ensures Before(mem, s, es, k).room <= n <==> s.room <= n || exists j :: 0 <= j < k && Lowers(s.aid, es, j, n)
    decreases k
  {
    if k > 0 {
      RoomExactly(mem, s, es, k - 1, n);
      TakesExactly(mem, s, es, k - 1);
      VisitRoom(mem, Before(mem, s, es, k - 1), es[k - 1], n);
      if Lowers(s.aid, es, k - 1, n) {
        assert exists j :: 0 <= j < k && Lowers(s.aid, es, j, n);
      }
    }
  }

  /** The place of the first template that stops the search, from k on, or their number. */
  function FirstStop(mem: bytes, s: Scan, es: seq<Entry>, k: nat): (n: nat)
    requires k <= |es|
    ensures k <= n <= |es| && (forall i | k <= i < n :: !Stops(mem, s, es, i)) && (n < |es| ==> Stops(mem, s, es, n))
    decreases |es| - k
  {
    if k == |es| || Stops(mem, s, es, k) then k else FirstStop(mem, s, es, k + 1)
  }

  function FirstRight(mem: bytes, aid: bytes, es: seq<Entry>, k: nat): (n: nat)
    requires k <= |es|
    ensures k <= n <= |es| && (forall i | k <= i < n :: !Right(mem, aid, es[i])) && (n < |es| ==> Right(mem, aid, es[n]))
    decreases |es| - k
  {
    if k == |es| || Right(mem, aid, es[k]) then k else FirstRight(mem, aid, es, k + 1)
  }

  lemma {:induction false} PathSeen(s: Scan, p: bytes)
    requires !s.broken
    ensures var u := ReadPath(s, p);
            u.broken == TooLong(p, s.room) && (!u.broken ==> Address(u) == Seen(p, s.room, s.first))
  {
  }

  lemma {:induction false} VisitStep(mem: bytes, s: Scan, es: seq<Entry>, k: nat)
    requires k < |es| && Searching(s)
    ensures var v := Visit(mem, Before(mem, s, es, k), es[k]);
            && Searching(Before(mem, s, es, k))
            && v.broken == Breaks(mem, s, es, k)
            && v.app == (if Takes(mem, s, es, k) then Goal(mem, s, es, k) else None)
            && (!Stops(mem, s, es, k) ==> v == Before(mem, s, es, k + 1))
  {
    var b := Before(mem, s, es, k);
    assert Searching(b);
    if es[k].path.Some? {
      PathSeen(b.(aid := Cut(b.aid, es[k])), es[k].path.value);
    }
  }

  /** The search over what the templates say. */
  function Scanned(mem: bytes, s: Scan, es: seq<Entry>): Scan
    decreases |es|
  {
    if es == [] || !Searching(s) then s else Scanned(mem, Visit(mem, s, es[0]), es[1..])
  }

  lemma {:induction false} SearchScans(mem: bytes, s: Scan, ts: seq<Object>)
    requires s.app.Some? ==> Placed(mem, s.app.value)
    ensures Search(mem, s, ts) == Scanned(mem, s, Entries(mem, ts))
    decreases |ts|
  {
    if ts != [] && Searching(s) {
      SearchScans(mem, Visit(mem, s, EntryOf(mem, ts[0])), ts[1..]);
      assert Entries(mem, ts)[1..] == Entries(mem, ts[1..]);
    }
  }

  lemma {:induction false} ScanStep(mem: bytes, s: Scan, es: seq<Entry>, k: nat)
    requires Searching(s) && k < |es|
    ensures var v := Visit(mem, s, es[k]);
            Scanned(mem, s, es[k..]) == if Searching(v) then Scanned(mem, v, es[k + 1..]) else v
  {
    assert es[k..][0] == es[k] && es[k..][1..] == es[k + 1..];
  }

  /** How a search ends: broken or with the application that it is led to, or without one if nothing stopped it. */
  predicate EndsAt(mem: bytes, s: Scan, es: seq<Entry>, n: nat, r: Scan)
    requires n <= |es|
  {
    && r.app == (if n < |es| && Takes(mem, s, es, n) then Goal(mem, s, es, n) else None)
    && r.broken == (n < |es| && Breaks(mem, s, es, n))
  }

  lemma {:induction false} ScanFindsFirst(mem: bytes, s: Scan, es: seq<Entry>, k: nat)
    requires Searching(s) && k <= |es|
    ensures Searching(Before(mem, s, es, k))
    ensures EndsAt(mem, s, es, FirstStop(mem, s, es, k), Scanned(mem, Before(mem, s, es, k), es[k..]))
    decreases |es| - k
  {
    if k < |es| {
      VisitStep(mem, s, es, k);
      ScanStep(mem, Before(mem, s, es, k), es, k);
      if !Stops(mem, s, es, k) {
        ScanFindsFirst(mem, s, es, k + 1);
      }
    }
  }

  /** The search ends at the first template that stops it. */
  lemma {:induction false} SearchFindsFirst(mem: bytes, s: Scan, ts: seq<Object>)
    requires Searching(s)
    ensures var es := Entries(mem, ts);
            EndsAt(mem, s, es, FirstStop(mem, s, es, 0), Search(mem, s, ts))
  {
    var es := Entries(mem, ts);
    SearchScans(mem, s, ts);
    ScanFindsFirst(mem, s, es, 0);
    assert es[0..] == es;
  }

  /** A template before the first right one stops the search if and only if it leads astray. */
  lemma {:induction false} StopsOrStrays(mem: bytes, s: Scan, es: seq<Entry>, k: nat)
    requires k < |es| && !Right(mem, s.aid, es[k])
    ensures Stops(mem, s, es, k) <==> Strays(mem, s, es, k)
  {
    TakesExactly(mem, s, es, k);
  }

  /** A right one is taken for what it names if and only if its path fits the buffer and is not misread. */
  lemma {:induction false} RightTaken(mem: bytes, s: Scan, es: seq<Entry>, k: nat)
    requires k < |es| && Right(mem, s.aid, es[k])
    ensures Takes(mem, s, es, k) && Goal(mem, s, es, k) == Meant(mem, es[k])
       <==> !Bursts(mem, s, es, k) && !Garbled(mem, s, es, k)
  {
    TakesExactly(mem, s, es, k);
  }

  lemma {:induction false} SearchOutcome(mem: bytes, s: Scan, ts: seq<Object>)
    requires Searching(s)
    ensures var es := Entries(mem, ts);
            var n := FirstStop(mem, s, es, 0);
            FindingIn(Search(mem, s, ts)) ==
            if n == |es| then Missing else if Takes(mem, s, es, n) then Found(SectionOf(Goal(mem, s, es, n).value)) else Broken
  {
    SearchFindsFirst(mem, s, ts);
  }

  /** The search selects the application that the first template with the wanted identifier names, or nothing if
      there is none, if and only if no template before it leads astray and its own path fits the buffer and is not
      misread. */
  lemma {:induction false} SearchRightIff(mem: bytes, s: Scan, ts: seq<Object>)
    requires Searching(s)
    ensures var es := Entries(mem, ts);
            var m := FirstRight(mem, s.aid, es, 0);
            && (RightAt(mem, s, es, m) <==> (forall k | 0 <= k < m :: !Strays(mem, s, es, k))
                                            && (m < |es| ==> !Bursts(mem, s, es, m) && !Garbled(mem, s, es, m)))
            && (RightAt(mem, s, es, m) ==>
                  FindingIn(Search(mem, s, ts)) == if m < |es| then Found(SectionOf(Meant(mem, es[m]).value)) else Missing)
  {
    var es := Entries(mem, ts);
    RightExactly(mem, s, es);
    SearchOutcome(mem, s, ts);
  }

  /** The search comes to the m-th template, if there is one, and takes it for what it names. */
  predicate RightAt(mem: bytes, s: Scan, es: seq<Entry>, m: nat)
    requires m <= |es|
  {
    FirstStop(mem, s, es, 0) == m && (m < |es| ==> Takes(mem, s, es, m) && Goal(mem, s, es, m) == Meant(mem, es[m]))
  }

  lemma {:induction false} RightExactly(mem: bytes, s: Scan, es: seq<Entry>)
    ensures var m := FirstRight(mem, s.aid, es, 0);
            RightAt(mem, s, es, m) <==> (forall k | 0 <= k < m :: !Strays(mem, s, es, k))
                                        && (m < |es| ==> !Bursts(mem, s, es, m) && !Garbled(mem, s, es, m))
  {
    var m := FirstRight(mem, s.aid, es, 0);
    forall k | 0 <= k < m
      ensures Stops(mem, s, es, k) <==> Strays(mem, s, es, k)
    {
      StopsOrStrays(mem, s, es, k);
    }
    var n := FirstStop(mem, s, es, 0);
    if m < |es| {
      RightTaken(mem, s, es, m);
      assert Takes(mem, s, es, m) ==> Stops(mem, s, es, m);
      assert m < n ==> !Stops(mem, s, es, m);
    }
    assert n < m ==> Strays(mem, s, es, n);
  }

  /** A path of one or two bytes fits the buffer. It is misread if and only if there is less room, because there was
      at first or an earlier hit had a shorter path, and the bytes are not by chance those that the driver takes. */
  lemma {:induction false} ShortPathGarbled(mem: bytes, s: Scan, es: seq<Entry>, k: nat, n: nat)
    requires k < |es| && es[k].path.Some? && n < 2 && |es[k].path.value| == n + 1
    ensures !Bursts(mem, s, es, k)
    ensures var b, p := Before(mem, s, es, k), es[k].path.value;
            Garbled(mem, s, es, k) <==> (s.room <= n || exists j :: 0 <= j < k && Lowers(s.aid, es, j, n))
                                        && p != (if b.room == 1 then [0, 0] else if n == 0 then [b.first] else [0, b.first])
  {
    RoomExactly(mem, s, es, k, n);
    var b, p := Before(mem, s, es, k), es[k].path.value;
    if n == 0 {
      assert p == [p[0]];
    } else {
      assert p == [p[0], p[1]];
    }
  }

  // ----- directories that mislead -----

  lemma {:induction false} SequenceAt(mem: bytes, n: nat) returns (dir: Object)
    requires 2 + n <= |mem| && 1 <= n < 128 && mem[0] == 0x30 && mem[1] == n
    ensures Decode(mem, 0) == Some(dir) && dir.tag == TAG_SEQUENCE && dir.value == 2 && dir.length == n
  {
    ShortObject(mem, 0);
    dir := Object(0, 0x30, 2, n);
  }

  /** A directory at the start of the memory that is a sequence of templates. */
  lemma {:induction false} SequenceSection(mem: bytes, dir: Object, s: Scan)
    requires Decode(mem, 0) == Some(dir) && dir.tag == TAG_SEQUENCE && Searching(s)
    ensures ApplicationSection(mem, History(0x10, 0x80), s) == FindingIn(Search(mem, s, Children(mem, dir)))
  {
    assert s == s.(app := None, broken := false);
  }

  /** A template at `at` with an identifier of n bytes and a path of m bytes. */
  predicate TemplateAt(mem: bytes, at: nat, n: nat, m: nat) {
    && 1 <= n < 50 && 1 <= m < 50 && at + n + m + 6 < |mem| && mem[at] == 0x61 && mem[at + 1] == n + m + 4
    && mem[at + 2] == 0x4F && mem[at + 3] == n && mem[at + n + 4] == 0x51 && mem[at + n + 5] == m
  }

  lemma {:induction false} TwoParts(id: Object, path: Object)
    requires id.tag == TAG_AID && path.tag == TAG_PATH
    ensures FirstWith([id, path], TAG_AID) == Some(id) && FirstWith([id, path], TAG_PATH) == Some(path)
  {
    assert [id, path][1..] == [path];
  }

  lemma {:induction false} TwoSiblings(mem: bytes, a: Object, b: Object)
    requires Decode(mem, a.address) == Some(a) && Decode(mem, b.address) == Some(b) && a.End() == b.address
    ensures Siblings(mem, a.address, b.End()) == [a, b]
  {
    var end := b.End();
    assert Siblings(mem, b.address, end) == [b] + Rest(mem, b, end) == [b];
    assert Siblings(mem, a.address, end) == [a] + Rest(mem, a, end) == [a, b];
  }

  lemma {:induction false} TemplateEntry(mem: bytes, at: nat, n: nat, m: nat) returns (o: Object)
    requires TemplateAt(mem, at, n, m)
    ensures Decode(mem, at) == Some(o) && o.End() == at + n + m + 6
    ensures EntryOf(mem, o) == Entry(Some(mem[at + 4..at + 4 + n]), Some(mem[at + n + 6..at + n + m + 6]))
  {
    ShortObject(mem, at);
    ShortObject(mem, at + 2);
    ShortObject(mem, at + n + 4);
    o := Object(at, 0x61, at + 2, n + m + 4);
    var id, path := Object(at + 2, 0x4F, at + 4, n), Object(at + n + 4, 0x51, at + n + 6, m);
    TwoSiblings(mem, id, path);
    TwoParts(id, path);
  }

  /** A sequence of three templates with the identifiers B0, A0 02 and A0 01, and their applications. */
  predicate Misleading(mem: bytes) {
    && |mem| == 40 && mem[0] == 0x30 && mem[1] == 29
    && TemplateAt(mem, 2, 1, 2) && mem[6] == 0xB0 && mem[9] == 0 && mem[10] == 31
    && TemplateAt(mem, 11, 2, 2) && mem[15] == 0xA0 && mem[16] == 0x02 && mem[19] == 0 && mem[20] == 34
    && TemplateAt(mem, 21, 2, 2) && mem[25] == 0xA0 && mem[26] == 0x01 && mem[29] == 0 && mem[30] == 37
    && mem[31] == 0x53 && mem[32] == 1 && mem[34] == 0x53 && mem[35] == 1 && mem[37] == 0x53 && mem[38] == 1
  }

  /** Such a memory, with applications of the content x. */
  function MisleadingMemory(x: byte): (mem: bytes)
    ensures Misleading(mem)
  {
    var a: bytes := [0x30, 29, 0x61, 7, 0x4F, 1, 0xB0, 0x51, 2, 0, 31];
    var b: bytes := [0x61, 8, 0x4F, 2, 0xA0, 0x02, 0x51, 2, 0, 34];
    var c: bytes := [0x61, 8, 0x4F, 2, 0xA0, 0x01, 0x51, 2, 0, 37];
    var d: bytes := [0x53, 1, x, 0x53, 1, x, 0x53, 1, x];
    a + b + c + d
  }

  lemma {:induction false} ThreeSiblings(mem: bytes, a: Object, b: Object, c: Object)
    requires Decode(mem, a.address) == Some(a) && Decode(mem, b.address) == Some(b) && Decode(mem, c.address) == Some(c)
    requires a.End() == b.address && b.End() == c.address
    ensures Siblings(mem, a.address, c.End()) == [a, b, c]
  {
    var end := c.End();
    assert Siblings(mem, c.address, end) == [c] + Rest(mem, c, end) == [c];
    assert Siblings(mem, b.address, end) == [b] + Rest(mem, b, end) == [b, c];
    assert Siblings(mem, a.address, end) == [a] + Rest(mem, a, end) == [a, b, c];
  }

  lemma {:induction false} MisleadingEntries(mem: bytes) returns (a: Object, b: Object, c: Object)
    requires Misleading(mem)
    ensures Decode(mem, 2) == Some(a) && EntryOf(mem, a) == Entry(Some([0xB0]), Some([0, 31])) && a.End() == 11
    ensures Decode(mem, 11) == Some(b) && EntryOf(mem, b) == Entry(Some([0xA0, 0x02]), Some([0, 34])) && b.End() == 21
    ensures Decode(mem, 21) == Some(c) && EntryOf(mem, c) == Entry(Some([0xA0, 0x01]), Some([0, 37])) && c.End() == 31
  {
    a := TemplateEntry(mem, 2, 1, 2);
    b := TemplateEntry(mem, 11, 2, 2);
    c := TemplateEntry(mem, 21, 2, 2);
    assert mem[6..7] == [0xB0] && mem[15..17] == [0xA0, 0x02] && mem[25..27] == [0xA0, 0x01];
    assert mem[9..11] == [0, 31] && mem[19..21] == [0, 34] && mem[29..31] == [0, 37];
  }

  lemma {:induction false} MisleadingSearch(mem: bytes, s: Scan, a: Object, b: Object, c: Object)
    requires s.aid == [0xA0, 0x01] && s.room >= 2 && Searching(s) && Decode(mem, 34).Some?
    requires EntryOf(mem, a) == Entry(Some([0xB0]), Some([0, 31])) && EntryOf(mem, b) == Entry(Some([0xA0, 0x02]), Some([0, 34]))
    ensures FindingIn(Search(mem, s, [a, b, c])) == Found(SectionOf(Decode(mem, 34).value))
  {
    var t := Visit(mem, s, EntryOf(mem, a));
    assert s.aid[..1] == [0xA0] && [0xB0][..1] == [0xB0];
    assert t == s.(aid := [0xA0]);
    var u := Visit(mem, t, EntryOf(mem, b));
    assert [0xA0][..1] == [0xA0, 0x02][..1];
    PathSeen(t.(aid := [0xA0]), [0, 34]);
    assert u.app == Decode(mem, 34);
    assert [a, b, c][1..] == [b, c] && [b, c][1..] == [c];
    assert Search(mem, t, [b, c]) == Search(mem, u, [c]) == u;
  }

  /** Looking for A0 01 in it selects the application of A0 02, although that of A0 01 is there. */
  lemma {:induction false} WrongApplication(mem: bytes, s: Scan)
    requires Misleading(mem) && s.aid == [0xA0, 0x01] && s.room >= 2 && Searching(s)
    ensures ApplicationSection(mem, History(0x10, 0x80), s) == Found(Section(34, 3))
    ensures Decode(mem, 21).Some? && EntryOf(mem, Decode(mem, 21).value) == Entry(Some([0xA0, 0x01]), Some([0, 37]))
    ensures SectionAt(mem, 37) == Some(Section(37, 3))
  {
    var a, b, c := MisleadingEntries(mem);
    var dir := SequenceAt(mem, 29);
    assert Children(mem, dir) == [a, b, c] by {
      ThreeSiblings(mem, a, b, c);
    }
    ShortObject(mem, 34);
    ShortObject(mem, 37);
    MisleadingSearch(mem, s, a, b, c);
    SequenceSection(mem, dir, s);
  }

  /** A sequence of one template with the identifier A0 01 and a path of m bytes to the application that follows. */
  predicate Single(mem: bytes, m: nat) {
    && 2 <= m < 50 && |mem| == 13 + m && mem[0] == 0x30 && mem[1] == 8 + m
    && TemplateAt(mem, 2, 2, m) && mem[6] == 0xA0 && mem[7] == 0x01 && mem[8 + m] == 0 && mem[9 + m] == 10 + m
    && mem[10 + m] == 0x53 && mem[11 + m] == 1
  }

  lemma {:induction false} SingleSearch(mem: bytes, m: nat, s: Scan)
    requires Single(mem, m) && s.aid == [0xA0, 0x01] && Searching(s)
    ensures ApplicationSection(mem, History(0x10, 0x80), s) == FindingIn(Visit(mem, s, Entry(Some([0xA0, 0x01]), Some(mem[10..10 + m]))))
  {
    var dir := SequenceAt(mem, 8 + m);
    var t := TemplateEntry(mem, 2, 2, m);
    assert mem[6..8] == [0xA0, 0x01];
    OneSibling(mem, t);
    SequenceSection(mem, dir, s);
    SearchOne(mem, s, t);
  }

  lemma {:induction false} OneSibling(mem: bytes, a: Object)
    requires Decode(mem, a.address) == Some(a)
    ensures Siblings(mem, a.address, a.End()) == [a]
  {
    assert Rest(mem, a, a.End()) == [];
  }

  lemma {:induction false} SearchOne(mem: bytes, s: Scan, t: Object)
    requires Searching(s)
    ensures Search(mem, s, [t]) == Visit(mem, s, EntryOf(mem, t))
  {
    assert [t][1..] == [];
  }

  /** The application that it names is there. */
  lemma {:induction false} SingleMeant(mem: bytes, m: nat)
    requires Single(mem, m)
    ensures Meant(mem, Entry(Some([0xA0, 0x01]), Some(mem[10..10 + m]))) == Some(Object(10 + m, 0x53, 12 + m, 1))
  {
    var p := mem[10..10 + m];
    assert p[m - 2] == 0 && p[m - 1] == 10 + m;
    ShortObject(mem, 10 + m);
  }

  /** If the room is one at first, the path 00 0C selects the directory itself, although the application is there. */
  lemma {:induction false} ShortRoom(mem: bytes, s: Scan)
    requires Single(mem, 2) && s.aid == [0xA0, 0x01] && s.room == 1 && Searching(s)
    ensures ApplicationSection(mem, History(0x10, 0x80), s) == Found(Section(0, 12)) && SectionAt(mem, 12) == Some(Section(12, 3))
  {
    SingleSearch(mem, 2, s);
    PathSeen(s, mem[10..12]);
    ShortObject(mem, 0);
    ShortObject(mem, 12);
  }

  /** A path of more than two bytes, with as much room, is written behind the buffer. */
  lemma {:induction false} LongPath(mem: bytes, m: nat, s: Scan)
    requires Single(mem, m) && m > 2 && s.aid == [0xA0, 0x01] && s.room > 2 && Searching(s)
    ensures ApplicationSection(mem, History(0x10, 0x80), s) == Broken
    ensures Meant(mem, Entry(Some([0xA0, 0x01]), Some(mem[10..10 + m]))).Some?
  {
    SingleSearch(mem, m, s);
    SingleMeant(mem, m);
    PathSeen(s, mem[10..10 + m]);
  }

  /** Such a memory, with an application of the content x. */
  function SingleMemory(m: nat, x: byte): (mem: bytes)
    requires 2 <= m < 50
    ensures Single(mem, m)
  {
    var a: bytes := [0x30, 8 + m, 0x61, 6 + m, 0x4F, 2, 0xA0, 0x01, 0x51, m];
    a + seq(m - 2, _ => 0x3F) + [0, 10 + m, 0x53, 1, x]
  }

  /** A sequence of two templates with the identifier A0 01, of which the first names an address where nothing is. */
  predicate Lowering(mem: bytes) {
    && |mem| == 24 && mem[0] == 0x30 && mem[1] == 19
    && TemplateAt(mem, 2, 2, 1) && mem[6] == 0xA0 && mem[7] == 0x01 && mem[10] == 0xFF
    && TemplateAt(mem, 11, 2, 2) && mem[15] == 0xA0 && mem[16] == 0x01 && mem[19] == 0 && mem[20] == 21
    && mem[21] == 0x53 && mem[22] == 1
  }

  function LoweringMemory(x: byte): (mem: bytes)
    ensures Lowering(mem)
  {
    var a: bytes := [0x30, 19, 0x61, 7, 0x4F, 2, 0xA0, 0x01, 0x51, 1, 0xFF];
    var b: bytes := [0x61, 8, 0x4F, 2, 0xA0, 0x01, 0x51, 2, 0, 21];
    a + b + [0x53, 1, x]
  }

  lemma {:induction false} LoweringEntries(mem: bytes) returns (a: Object, b: Object)
    requires Lowering(mem)
    ensures Decode(mem, 2) == Some(a) && EntryOf(mem, a) == Entry(Some([0xA0, 0x01]), Some([0xFF])) && a.End() == 11
    ensures Decode(mem, 11) == Some(b) && EntryOf(mem, b) == Entry(Some([0xA0, 0x01]), Some([0, 21])) && b.End() == 21
  {
    a := TemplateEntry(mem, 2, 2, 1);
    b := TemplateEntry(mem, 11, 2, 2);
    assert mem[6..8] == [0xA0, 0x01] && mem[15..17] == [0xA0, 0x01];
    assert mem[10..11] == [0xFF] && mem[19..21] == [0, 21];
  }

  lemma {:induction false} LoweringSearch(mem: bytes, s: Scan, a: Object, b: Object)
    requires s.aid == [0xA0, 0x01] && s.room == 2 && Searching(s) && Decode(mem, 0xFF).None? && Decode(mem, 0).Some?
    requires EntryOf(mem, a) == Entry(Some([0xA0, 0x01]), Some([0xFF])) && EntryOf(mem, b) == Entry(Some([0xA0, 0x01]), Some([0, 21]))
    ensures FindingIn(Search(mem, s, [a, b])) == Found(SectionOf(Decode(mem, 0).value))
  {
    PathSeen(s, [0xFF]);
    var t := Visit(mem, s, EntryOf(mem, a));
    assert s.aid[..2] == s.aid;
    assert t.aid == s.aid && t.room == 1 && Searching(t);
    PathSeen(t, [0, 21]);
    var u := Visit(mem, t, EntryOf(mem, b));
    assert u.app == Decode(mem, 0);
    assert [a, b][1..] == [b] && [b][1..] == [];
    assert Search(mem, t, [b]) == Search(mem, u, []) == u;
  }

  /** There, even with room for two bytes at first, looking for A0 01 selects the directory itself: the path of the
      first template has lowered the room. */
  lemma {:induction false} LoweredRoom(mem: bytes, s: Scan)
    requires Lowering(mem) && s.aid == [0xA0, 0x01] && s.room == 2 && Searching(s)
    ensures ApplicationSection(mem, History(0x10, 0x80), s) == Found(Section(0, 21)) && SectionAt(mem, 21) == Some(Section(21, 3))
  {
    var a, b := LoweringEntries(mem);
    var dir := SequenceAt(mem, 19);
    assert Children(mem, dir) == [a, b] by {
      TwoSiblings(mem, a, b);
    }
    ShortObject(mem, 21);
    LoweringSearch(mem, s, a, b);
    SequenceSection(mem, dir, s);
  }
}
