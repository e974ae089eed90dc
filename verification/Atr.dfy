/** The answer to reset of an asynchronous card: what parsing and printing mean (src/driver/atr.c, clause 8.2
    of ISO/IEC 7816-3:2006). */
module Atr {
  import opened Bytes

  const MAX_SIZE := 33
  const MAX_PROTOCOLS := 7

  /** The interface bytes TAi, TBi, TCi and TDi that are present. */
  datatype Row = Row(ta: Option<byte>, tb: Option<byte>, tc: Option<byte>, td: Option<byte>)

  /** A parsed ATR. There are |rows| protocols. */
  datatype Record = Record(length: nat, ts: byte, t0: byte, rows: seq<Row>, hb: bytes, tck: Option<byte>)

  /** `Overrun`: the driver would write behind the seven rows it has. */
  datatype Outcome = Ok(record: Record) | Malformed | IoError | Overrun

  // ----- one row -----

  predicate HasA(td: byte) { td / 16 % 2 == 1 }

  predicate HasB(td: byte) { td / 32 % 2 == 1 }

  predicate HasC(td: byte) { td / 64 % 2 == 1 }

  predicate HasD(td: byte) { td / 128 == 1 }

  function One(present: bool): nat { if present then 1 else 0 }

  /** How many interface bytes a format byte announces. */
  function RowLength(td: byte): nat { One(HasA(td)) + One(HasB(td)) + One(HasC(td)) + One(HasD(td)) }

  function ByteAt(s: bytes, at: nat, present: bool): Option<byte>
    requires present ==> at < |s|
  {
    if present then Some(s[at]) else None
  }

  /** The row at `at` that a format byte announces. */
  function ReadRow(s: bytes, at: nat, td: byte): Row
    requires at + RowLength(td) <= |s|
  {
    var b := at + One(HasA(td));
    var c := b + One(HasB(td));
    var d := c + One(HasC(td));
    Row(ByteAt(s, at, HasA(td)), ByteAt(s, b, HasB(td)), ByteAt(s, c, HasC(td)), ByteAt(s, d, HasD(td)))
  }

  /** A byte appended if present. */
  function Put(p: bytes, b: Option<byte>): bytes { if b.Some? then p + [b.value] else p }

  function PutRow(p: bytes, r: Row): bytes { Put(Put(Put(Put(p, r.ta), r.tb), r.tc), r.td) }

  /** The row has just the bytes that the format byte announces. */
  predicate Fits(r: Row, td: byte) {
    r.ta.Some? == HasA(td) && r.tb.Some? == HasB(td) && r.tc.Some? == HasC(td) && r.td.Some? == HasD(td)
  }

  lemma PutStands(s: bytes, p: bytes, b: Option<byte>)
    ensures |Put(p, b)| == |p| + One(b.Some?)
    ensures Put(p, b) <= s <==> p <= s && |p| + One(b.Some?) <= |s| && (b.Some? ==> s[|p|] == b.value)
  {
  }

  /** A printed row is a part of the input if and only if it is the one read there. */
  lemma {:induction false} RowStands(s: bytes, p: bytes, r: Row, td: byte)
    requires Fits(r, td)
    ensures |PutRow(p, r)| == |p| + RowLength(td)
    ensures PutRow(p, r) <= s <==> p <= s && |p| + RowLength(td) <= |s| && ReadRow(s, |p|, td) == r
  {
    var a := Put(p, r.ta);
    var b := Put(a, r.tb);
    var c := Put(b, r.tc);
    PutStands(s, p, r.ta);
    PutStands(s, a, r.tb);
    PutStands(s, b, r.tc);
    PutStands(s, c, r.td);
  }

  // ----- all rows -----

  datatype RowsResult = Rows(rows: seq<Row>, end: nat, last: byte) | Short | TooMany

  /** What is parsed: an array, or a stream from a card of either convention. */
  datatype Mode = FromArray | FromStream(inverse: bool)

  /** How many bytes are looked for before a row is stored: all of them in an array, and TAi in a stream. From an
      inverse card the place of TAi is inverted even if nothing arrived. */
  function Ahead(td: byte, mode: Mode): nat {
    match mode
    case FromArray => RowLength(td)
    case FromStream(inverse) => if inverse then 0 else One(HasA(td))
  }

  /** The rows from `at` on, the first of them being the k-th and announced by `td`. */
  function ParseRows(s: bytes, at: nat, td: byte, k: nat, mode: Mode): RowsResult
    decreases MAX_PROTOCOLS - k, s
  {
    if k >= MAX_PROTOCOLS then
      if at + Ahead(td, mode) > |s| then Short else TooMany
    else if at + RowLength(td) > |s| then Short
    else
      var row, next := ReadRow(s, at, td), at + RowLength(td);
      if row.td.None? then Rows([row], next, td) else Prepend([row], ParseRows(s, next, row.td.value, k + 1, mode))
  }

  function Prepend(rows: seq<Row>, r: RowsResult): RowsResult {
    if r.Rows? then r.(rows := rows + r.rows) else r
  }

  /** Rows that announce each other, starting from `td`. */
  predicate Coherent(rows: seq<Row>, td: byte) {
    rows != [] && Fits(rows[0], td) && if rows[0].td.None? then |rows| == 1 else Coherent(rows[1..], rows[0].td.value)
  }

  /** The format byte that announces the last row. */
  function LastTd(rows: seq<Row>, td: byte): byte
    requires Coherent(rows, td)
  {
    if rows[0].td.None? then td else LastTd(rows[1..], rows[0].td.value)
  }

  /** The rows appended. */
  function PutRows(p: bytes, rows: seq<Row>): bytes
    decreases |rows|
  {
    if rows == [] then p else PutRows(PutRow(p, rows[0]), rows[1..])
  }

  lemma RowsCons(p: bytes, row: Row, rows: seq<Row>, td: byte)
    ensures PutRows(p, [row] + rows) == PutRows(PutRow(p, row), rows)
    ensures Fits(row, td) && row.td.Some? && Coherent(rows, row.td.value) ==>
              Coherent([row] + rows, td) && LastTd([row] + rows, td) == LastTd(rows, row.td.value)
  {
  }

  lemma SingleRow(p: bytes, row: Row, td: byte)
    ensures PutRows(p, [row]) == PutRow(p, row)
    ensures Fits(row, td) && row.td.None? ==> Coherent([row], td) && LastTd([row], td) == td
  {
  }

  /** The rows that are found announce each other, and printing them gives what was read. */
  lemma {:induction false} ParsedRows(s: bytes, p: bytes, td: byte, k: nat, mode: Mode)
    requires p <= s && ParseRows(s, |p|, td, k, mode).Rows?
    ensures var r := ParseRows(s, |p|, td, k, mode);
            && PutRows(p, r.rows) <= s && r.end == |PutRows(p, r.rows)|
            && k + |r.rows| <= MAX_PROTOCOLS && Coherent(r.rows, td) && LastTd(r.rows, td) == r.last
    decreases MAX_PROTOCOLS - k
  {
    var row := ReadRow(s, |p|, td);
    RowStands(s, p, row, td);
    if row.td.None? {
      SingleRow(p, row, td);
    } else {
      var q := PutRow(p, row);
      ParsedRows(s, q, row.td.value, k + 1, mode);
      RowsCons(p, row, ParseRows(s, |q|, row.td.value, k + 1, mode).rows, td);
    }
  }

  /** What is printed first is a part of all that is printed, and is read again. */
  lemma {:induction false} FirstRow(s: bytes, p: bytes, rows: seq<Row>, td: byte)
    requires PutRows(p, rows) <= s && Coherent(rows, td)
    ensures p <= s && |p| + RowLength(td) <= |s| && ReadRow(s, |p|, td) == rows[0]
    ensures |PutRow(p, rows[0])| == |p| + RowLength(td)
    decreases |rows|
  {
    if rows[0].td.Some? {
      FirstRow(s, PutRow(p, rows[0]), rows[1..], rows[0].td.value);
    }
    RowStands(s, p, rows[0], td);
  }

  /** The rows stand in the input from `at` to `end`. */
  predicate Found(s: bytes, at: nat, rows: seq<Row>, td: byte, end: nat)
    decreases |rows|
  {
    && rows != [] && at + RowLength(td) <= |s| && ReadRow(s, at, td) == rows[0]
    && if rows[0].td.None? then |rows| == 1 && end == at + RowLength(td)
       else Found(s, at + RowLength(td), rows[1..], rows[0].td.value, end)
  }

  lemma {:induction false} PrintedFound(s: bytes, p: bytes, rows: seq<Row>, td: byte)
    requires PutRows(p, rows) <= s && Coherent(rows, td)
    ensures Found(s, |p|, rows, td, |PutRows(p, rows)|)
    decreases |rows|
  {
    FirstRow(s, p, rows, td);
    if rows[0].td.Some? {
      PrintedFound(s, PutRow(p, rows[0]), rows[1..], rows[0].td.value);
    } else {
      assert rows == [rows[0]];
      SingleRow(p, rows[0], td);
    }
  }

  /** Rows that announce each other are found again. */
  lemma {:induction false} FoundRows(s: bytes, at: nat, rows: seq<Row>, td: byte, end: nat, k: nat, mode: Mode)
    requires Found(s, at, rows, td, end) && Coherent(rows, td) && k + |rows| <= MAX_PROTOCOLS
    ensures ParseRows(s, at, td, k, mode) == Rows(rows, end, LastTd(rows, td))
    decreases |rows|
  {
    if rows[0].td.Some? {
      FoundRows(s, at + RowLength(td), rows[1..], rows[0].td.value, end, k + 1, mode);
      assert rows == [rows[0]] + rows[1..];
    } else {
      assert rows == [rows[0]];
    }
  }

  lemma {:induction false} PrintedRows(s: bytes, p: bytes, rows: seq<Row>, td: byte, k: nat, mode: Mode)
    requires PutRows(p, rows) <= s && Coherent(rows, td) && k + |rows| <= MAX_PROTOCOLS
    ensures ParseRows(s, |p|, td, k, mode) == Rows(rows, |PutRows(p, rows)|, LastTd(rows, td))
  {
    PrintedFound(s, p, rows, td);
    FoundRows(s, |p|, rows, td, |PutRows(p, rows)|, k, mode);
  }

  // ----- more rows than there is room for -----

  /** Rows that announce each other, the last one announcing yet another. */
  predicate Announcing(rows: seq<Row>, td: byte) {
    rows == [] || (Fits(rows[0], td) && rows[0].td.Some? && Announcing(rows[1..], rows[0].td.value))
  }

  /** The format byte after such rows. */
  function NextTd(rows: seq<Row>, td: byte): byte
    requires Announcing(rows, td)
  {
    if rows == [] then td else NextTd(rows[1..], rows[0].td.value)
  }

  /** All the rows there is room for stand after p, announce another one, and as much of that one as is
      looked for is there too. */
  predicate Crowded(s: bytes, p: bytes, rows: seq<Row>, td: byte, k: nat, mode: Mode) {
    && k + |rows| == MAX_PROTOCOLS && Announcing(rows, td)
    && PutRows(p, rows) <= s && |PutRows(p, rows)| + Ahead(NextTd(rows, td), mode) <= |s|
  }

  lemma {:induction false} TooManyIsCrowded(s: bytes, p: bytes, td: byte, k: nat, mode: Mode) returns (rows: seq<Row>)
    requires p <= s && k <= MAX_PROTOCOLS && ParseRows(s, |p|, td, k, mode).TooMany?
    ensures Crowded(s, p, rows, td, k, mode)
    decreases MAX_PROTOCOLS - k
  {
    rows := [];
    if k < MAX_PROTOCOLS {
      var row := ReadRow(s, |p|, td);
      RowStands(s, p, row, td);
      var more := TooManyIsCrowded(s, PutRow(p, row), row.td.value, k + 1, mode);
      rows := [row] + more;
      assert rows[1..] == more;
    }
  }

  /** Such rows stand in the input from `at` to `end`. */
  predicate Stacked(s: bytes, at: nat, rows: seq<Row>, td: byte, end: nat)
    decreases |rows|
  {
    if rows == [] then at == end
    else
      && at + RowLength(td) <= |s| && ReadRow(s, at, td) == rows[0] && rows[0].td.Some?
      && Stacked(s, at + RowLength(td), rows[1..], rows[0].td.value, end)
  }

  lemma {:induction false} AnnouncingStands(s: bytes, p: bytes, rows: seq<Row>, td: byte)
    requires PutRows(p, rows) <= s && Announcing(rows, td)
    ensures p <= s && Stacked(s, |p|, rows, td, |PutRows(p, rows)|)
    decreases |rows|
  {
    if rows != [] {
      AnnouncingStands(s, PutRow(p, rows[0]), rows[1..], rows[0].td.value);
      RowStands(s, p, rows[0], td);
    }
  }

  lemma {:induction false} StackedTooMany(s: bytes, at: nat, rows: seq<Row>, td: byte, end: nat, k: nat, mode: Mode)
    requires Stacked(s, at, rows, td, end) && Announcing(rows, td) && k + |rows| == MAX_PROTOCOLS
    requires end + Ahead(NextTd(rows, td), mode) <= |s|
    ensures ParseRows(s, at, td, k, mode).TooMany?
    decreases |rows|
  {
    if rows != [] {
      StackedTooMany(s, at + RowLength(td), rows[1..], rows[0].td.value, end, k + 1, mode);
    }
  }

  lemma {:induction false} CrowdedIsTooMany(s: bytes, p: bytes, rows: seq<Row>, td: byte, k: nat, mode: Mode)
    requires Crowded(s, p, rows, td, k, mode)
    ensures p <= s && ParseRows(s, |p|, td, k, mode).TooMany?
  {
    AnnouncingStands(s, p, rows, td);
    StackedTooMany(s, |p|, rows, td, |PutRows(p, rows)|, k, mode);
  }

  // ----- the whole ATR -----

  function HistoryLength(t0: byte): nat { t0 % 16 }

  /** A check byte is expected if the last protocol type is not T=0. */
  predicate HasTck(rows: seq<Row>, last: byte) { |rows| > 1 && last % 16 != 0 }

  /** The historical bytes and the check byte that follow the rows. */
  function Assemble(s: bytes, r: RowsResult): Outcome
    requires |s| >= 2
  {
    match r
    case Short => Malformed
    case TooMany => Overrun
    case Rows(rows, at, last) =>
      var end := at + HistoryLength(s[1]);
      var length := end + if HasTck(rows, last) then 1 else 0;
      if length > |s| then Malformed
      else Ok(Record(length, s[0], s[1], rows, s[at..end], if HasTck(rows, last) then Some(s[end]) else None))
  }

  function Parse(s: bytes, mode: Mode): Outcome {
    if |s| < 2 then Malformed else Assemble(s, ParseRows(s, 2, s[1], 0, mode))
  }

  function Print(r: Record): bytes {
    Put(PutRows([r.ts, r.t0], r.rows) + r.hb, r.tck)
  }

  /** A record as the parsers build it. */
  predicate Proper(r: Record) {
    && Coherent(r.rows, r.t0) && |r.rows| <= MAX_PROTOCOLS
    && |r.hb| == HistoryLength(r.t0)
    && r.tck.Some? == HasTck(r.rows, LastTd(r.rows, r.t0))
    && r.length == |Print(r)|
  }

  /** Printing a parsed ATR gives the part of the input that was parsed. */
  lemma {:induction false} PrintParse(s: bytes, mode: Mode)
    ensures Parse(s, mode).Ok? ==>
              var r := Parse(s, mode).record;
              r.length <= |s| && Proper(r) && Print(r) == s[..r.length]
  {
    if Parse(s, mode).Ok? {
      var r := ParseRows(s, 2, s[1], 0, mode);
      ParsedRows(s, s[..2], s[1], 0, mode);
      AssembledStands(s, PutRows(s[..2], r.rows), r);
      assert s[..2] == [s[0], s[1]];
    }
  }

  lemma AssembledStands(s: bytes, p: bytes, r: RowsResult)
    requires |s| >= 2 && r.Rows? && p <= s && r.end == |p| && Assemble(s, r).Ok?
    ensures var a := Assemble(s, r).record;
            a.length <= |s| && a.length == |Put(p + a.hb, a.tck)| && Put(p + a.hb, a.tck) == s[..a.length]
  {
  }

  lemma HistoryStands(s: bytes, p: bytes, h: bytes)
    ensures p + h <= s <==> p <= s && |p| + |h| <= |s| && s[|p|..|p| + |h|] == h
  {
  }

  /** Parsing a printed record, whatever follows it, gives the record. */
  lemma {:induction false} ParsePrint(r: Record, rest: bytes, mode: Mode)
    requires Proper(r)
    ensures Parse(Print(r) + rest, mode) == Ok(r)
  {
    var s, p := Print(r) + rest, PutRows([r.ts, r.t0], r.rows);
    PutStands(s, p + r.hb, r.tck);
    HistoryStands(s, p, r.hb);
    FirstRow(s, [r.ts, r.t0], r.rows, r.t0);
    PrintedRows(s, [r.ts, r.t0], r.rows, r.t0, 0, mode);
  }

  /** The parsers write behind their seven rows if and only if seven rows of interface bytes follow T0, each
      announcing another, and of an eighth as much is there as they look for. */
  lemma {:induction false} OverrunIff(s: bytes, mode: Mode)
    ensures Parse(s, mode).Overrun? <==> |s| >= 2 && exists rows :: Crowded(s, s[..2], rows, s[1], 0, mode)
  {
    if |s| >= 2 {
      if ParseRows(s, 2, s[1], 0, mode).TooMany? {
        var rows := TooManyIsCrowded(s, s[..2], s[1], 0, mode);
      }
      if rows :| Crowded(s, s[..2], rows, s[1], 0, mode) {
        CrowdedIsTooMany(s, s[..2], rows, s[1], 0, mode);
      }
    }
  }

  /** The format byte 80 announces nothing but TD. */
  lemma {:induction false} OnlyTd(s: bytes, at: nat, k: nat, mode: Mode)
    requires at < |s| && k < MAX_PROTOCOLS
    ensures ParseRows(s, at, 0x80, k, mode).TooMany? <==> ParseRows(s, at + 1, s[at], k + 1, mode).TooMany?
  {
    assert RowLength(0x80) == 1 && ReadRow(s, at, 0x80).td == Some(s[at]);
  }

  lemma {:induction false} ManyTds(s: bytes, at: nat, k: nat, mode: Mode)
    requires k < MAX_PROTOCOLS && at + MAX_PROTOCOLS - k == |s|
    requires forall i | at <= i < |s| - 1 :: s[i] == 0x80
    ensures ParseRows(s, at, 0x80, k, mode).TooMany? <==> Ahead(s[|s| - 1], mode) == 0
    decreases MAX_PROTOCOLS - k
  {
    OnlyTd(s, at, k, mode);
    if k + 1 < MAX_PROTOCOLS {
      ManyTds(s, at + 1, k + 1, mode);
    }
  }

  /** Nine bytes are enough: after any TS, T0 and six TD bytes that announce one more, and that one, whatever it
      announces of which nothing is looked for. */
  lemma {:induction false} OverrunExists(s: bytes, mode: Mode)
    requires |s| == 9 && forall i | 1 <= i < 8 :: s[i] == 0x80
    ensures Parse(s, mode).Overrun? <==> Ahead(s[8], mode) == 0
  {
    ManyTds(s, 2, 0, mode);
  }

  /** If the last of them announces TA8, which does not arrive, only an inverse card makes the driver write behind
      the rows. */
  lemma {:induction false} InverseOverrun(s: bytes)
    requires |s| == 9 && s[8] == 0x10 && forall i | 1 <= i < 8 :: s[i] == 0x80
    ensures Parse(s, FromStream(true)).Overrun? && Parse(s, FromStream(false)) == Parse(s, FromArray) == Malformed
  {
    OverrunExists(s, FromStream(true));
    OverrunExists(s, FromStream(false));
    OverrunExists(s, FromArray);
    NeverEnds(s, 2, 0, FromStream(false));
    NeverEnds(s, 2, 0, FromArray);
  }

  lemma {:induction false} NeverEnds(s: bytes, at: nat, k: nat, mode: Mode)
    requires k < MAX_PROTOCOLS && at + MAX_PROTOCOLS - k == |s| && forall i | at <= i < |s| - 1 :: s[i] == 0x80
    ensures !ParseRows(s, at, 0x80, k, mode).Rows?
    decreases MAX_PROTOCOLS - k
  {
    assert RowLength(0x80) == 1 && ReadRow(s, at, 0x80).td == Some(s[at]);
    if k + 1 < MAX_PROTOCOLS {
      NeverEnds(s, at + 1, k + 1, mode);
    }
  }

  /** What is looked ahead for makes no difference to what is accepted. */
  lemma {:induction false} ParsersAgree(s: bytes, inverse: bool)
    ensures var a, b := Parse(s, FromArray), Parse(s, FromStream(inverse));
            a == b || (a.Malformed? && b.Overrun?)
  {
    if |s| >= 2 {
      RowsAgree(s, 2, s[1], 0, inverse);
    }
  }

  lemma {:induction false} RowsAgree(s: bytes, at: nat, td: byte, k: nat, inverse: bool)
    ensures var a, b := ParseRows(s, at, td, k, FromArray), ParseRows(s, at, td, k, FromStream(inverse));
            a == b || (a.Short? && b.TooMany?)
    decreases MAX_PROTOCOLS - k
  {
    if k < MAX_PROTOCOLS && at + RowLength(td) <= |s| {
      var row, next := ReadRow(s, at, td), at + RowLength(td);
      if row.td.Some? {
        RowsAgree(s, next, row.td.value, k + 1, inverse);
      }
    }
  }

  /** What follows an accepted ATR has no part in it. */
  lemma {:induction false} TrailingBytesIgnored(s: bytes, rest: bytes, mode: Mode)
    ensures match Parse(s, mode)
            case Ok(r) => r.length <= |s| && Parse(s[..r.length] + rest, mode) == Ok(r)
            case _ => true
  {
    PrintParse(s, mode);
    if Parse(s, mode).Ok? {
      ParsePrint(Parse(s, mode).record, rest, mode);
    }
  }

  // ----- an ATR byte by byte -----

  /** TAi, TBi and TCi of a row. */
  datatype Group = Group(ta: Option<byte>, tb: Option<byte>, tc: Option<byte>)

  /** The high nibble that announces a row, and whether TDi is there too. */
  function Nibble(g: Group, more: bool): (n: nat)
    ensures n < 16
  {
    (if g.ta.Some? then 1 else 0) + (if g.tb.Some? then 2 else 0) + (if g.tc.Some? then 4 else 0) + if more then 8 else 0
  }

  function Three(g: Group): bytes {
    (if g.ta.Some? then [g.ta.value] else []) + (if g.tb.Some? then [g.tb.value] else []) + if g.tc.Some? then [g.tc.value] else []
  }

  /** The rows, and the protocol types that the TDi between them tell. */
  predicate Described(gs: seq<Group>, ps: seq<byte>) {
    gs != [] && |ps| == |gs| - 1 && forall i | 0 <= i < |ps| :: ps[i] < 16
  }

  /** TDi of the first of several rows. */
  function Td(gs: seq<Group>, ps: seq<byte>): byte
    requires Described(gs, ps) && |gs| > 1
  {
    16 * Nibble(gs[1], |gs| > 2) + ps[0]
  }

  function Interface(gs: seq<Group>, ps: seq<byte>): bytes
    requires Described(gs, ps)
    decreases |gs|
  {
    Three(gs[0]) + if |gs| == 1 then [] else [Td(gs, ps)] + Interface(gs[1..], ps[1..])
  }

  function RowsOf(gs: seq<Group>, ps: seq<byte>): (rows: seq<Row>)
    requires Described(gs, ps)
    ensures |rows| == |gs|
    decreases |gs|
  {
    var g := gs[0];
    if |gs| == 1 then [Row(g.ta, g.tb, g.tc, None)]
    else [Row(g.ta, g.tb, g.tc, Some(Td(gs, ps)))] + RowsOf(gs[1..], ps[1..])
  }

  lemma {:induction false} NibbleFits(g: Group, td: Option<byte>, low: nat)
    requires low < 16
    ensures Fits(Row(g.ta, g.tb, g.tc, td), 16 * Nibble(g, td.Some?) + low)
  {
    var n := Nibble(g, td.Some?);
    assert (16 * n + low) / 16 == n;
    assert (16 * n + low) / 32 == n / 2 && (16 * n + low) / 64 == n / 4 && (16 * n + low) / 128 == n / 8;
  }

  lemma {:induction false} RowsOfCoherent(gs: seq<Group>, ps: seq<byte>, low: nat)
    requires Described(gs, ps) && low < 16
    ensures var rows, td := RowsOf(gs, ps), 16 * Nibble(gs[0], |gs| > 1) + low;
            Coherent(rows, td) && LastTd(rows, td) % 16 == if ps == [] then low else ps[|ps| - 1]
    decreases |gs|
  {
    var td := 16 * Nibble(gs[0], |gs| > 1) + low;
    var g := gs[0];
    if |gs| == 1 {
      NibbleFits(g, None, low);
    } else {
      NibbleFits(g, Some(Td(gs, ps)), low);
      RowsOfCoherent(gs[1..], ps[1..], ps[0]);
      RowsCons([], RowsOf(gs, ps)[0], RowsOf(gs[1..], ps[1..]), td);
    }
  }

  lemma {:induction false} PutGroup(p: bytes, g: Group, td: Option<byte>)
    ensures PutRow(p, Row(g.ta, g.tb, g.tc, td)) == p + (Three(g) + if td.Some? then [td.value] else [])
  {
  }

  lemma {:induction false} RowsOfPrinted(p: bytes, gs: seq<Group>, ps: seq<byte>)
    requires Described(gs, ps)
    ensures PutRows(p, RowsOf(gs, ps)) == p + Interface(gs, ps)
    decreases |gs|
  {
    var g := gs[0];
    if |gs| == 1 {
      PutGroup(p, g, None);
      SingleRow(p, RowsOf(gs, ps)[0], 0);
    } else {
      var td, row, tail := Td(gs, ps), RowsOf(gs, ps)[0], Interface(gs[1..], ps[1..]);
      PutGroup(p, g, Some(td));
      RowsCons(p, row, RowsOf(gs[1..], ps[1..]), 0);
      RowsOfPrinted(PutRow(p, row), gs[1..], ps[1..]);
      Associate(p, Three(g) + [td], tail);
      Associate(Three(g), [td], tail);
    }
  }

  /** The check byte is there if the last TDi tells another protocol type than T=0. */
  predicate Checked(ps: seq<byte>) { ps != [] && ps[|ps| - 1] != 0 }

  /** The ATR with these parts. T0 announces the first row and tells the number of historical bytes. */
  function Built(ts: byte, gs: seq<Group>, ps: seq<byte>, hb: bytes, tck: byte): bytes
    requires Described(gs, ps) && |hb| < 16
  {
    [ts, 16 * Nibble(gs[0], |gs| > 1) + |hb|] + Interface(gs, ps) + hb + if Checked(ps) then [tck] else []
  }

  /** Parsing an ATR of up to seven rows, whatever follows it, records exactly its parts. */
  lemma {:induction false} ParseBuilt(ts: byte, gs: seq<Group>, ps: seq<byte>, hb: bytes, tck: byte, rest: bytes, mode: Mode)
    requires Described(gs, ps) && |gs| <= 7 && |hb| < 16
    ensures var atr := Built(ts, gs, ps, hb, tck);
            Parse(atr + rest, mode) ==
            Ok(Record(|atr|, ts, 16 * Nibble(gs[0], |gs| > 1) + |hb|, RowsOf(gs, ps), hb, if Checked(ps) then Some(tck) else None))
  {
    var t0, rows, check := 16 * Nibble(gs[0], |gs| > 1) + |hb|, RowsOf(gs, ps), if Checked(ps) then Some(tck) else None;
    var r := Record(|Built(ts, gs, ps, hb, tck)|, ts, t0, rows, hb, check);
    RowsOfCoherent(gs, ps, |hb|);
    RowsOfPrinted([ts, t0], gs, ps);
    PrintBuilt([ts, t0] + Interface(gs, ps), hb, check);
    assert t0 % 16 == |hb|;
    ParsePrint(r, rest, mode);
  }

  lemma PrintBuilt(p: bytes, hb: bytes, check: Option<byte>)
    ensures Put(p + hb, check) == p + hb + if check.Some? then [check.value] else []
  {
  }

  // ----- the size of an ATR -----

  /** The printed form of an accepted ATR fits a number of bytes if and only if the recorded length does; one that
      was accepted from as many bytes always fits. */
  lemma {:induction false} PrintFitsIff(s: bytes, mode: Mode, size: nat)
    ensures match Parse(s, mode)
            case Ok(r) => (|Print(r)| <= size <==> r.length <= size) && (|s| <= size ==> |Print(r)| <= size)
            case _ => true
  {
    PrintParse(s, mode);
  }

  lemma FullByte(td: byte)
    requires td / 16 == 15
    ensures HasA(td) && HasB(td) && HasC(td) && HasD(td) && RowLength(td) == 4
  {
  }

  /** A format byte Fx announces four interface bytes. */
  lemma {:induction false} FullRow(s: bytes, at: nat, td: byte, k: nat, mode: Mode)
    requires td / 16 == 15 && at + 4 <= |s| && k < MAX_PROTOCOLS && ParseRows(s, at + 4, s[at + 3], k + 1, mode).Rows?
    ensures var r, tail := ParseRows(s, at, td, k, mode), ParseRows(s, at + 4, s[at + 3], k + 1, mode);
            r.Rows? && r.end == tail.end && r.last == tail.last
  {
    FullByte(td);
    assert ReadRow(s, at, td).td == Some(s[at + 3]);
  }

  /** The format byte 10 announces TA alone. */
  lemma {:induction false} LastRow(s: bytes, at: nat, k: nat, mode: Mode)
    requires at < |s| && k < MAX_PROTOCOLS
    ensures var r := ParseRows(s, at, 0x10, k, mode);
            r.Rows? && r.end == at + 1 && r.last == 0x10
  {
    assert HasA(0x10) && RowLength(0x10) == 1 && ReadRow(s, at, 0x10).td == None;
  }

  /** 34 bytes with four full rows, TA5 and fifteen historical bytes are accepted. */
  lemma {:induction false} LongAtr(s: bytes, mode: Mode)
    requires |s| == 34 && s[1] == 0xFF && s[5] == s[9] == s[13] == 0xF0 && s[17] == 0x10
    ensures Parse(s, mode).Ok? && Parse(s, mode).record.length == 34 > MAX_SIZE
  {
    LastRow(s, 18, 4, mode);
    FullRow(s, 14, s[13], 3, mode);
    FullRow(s, 10, s[9], 2, mode);
    FullRow(s, 6, s[5], 1, mode);
    FullRow(s, 2, s[1], 0, mode);
  }

  // ----- conventions -----

  /** Bytes as the driver takes them from a card of either convention. */
  function Taken(invert: bool, s: bytes): (r: bytes)
    ensures |r| == |s|
    ensures forall i | 0 <= i < |s| :: r[i] == if invert then Flip(s[i]) else s[i]
  {
    if invert then FlipAll(s) else s
  }

  predicate IsInverse(s: bytes) { s != [] && s[0] == 0x03 }

  function Logical(s: bytes): (r: bytes)
    ensures |r| == |s|
  {
    Taken(IsInverse(s), s)
  }

  lemma FlipInitial()
    ensures Flip(0x03) == 0x3F
  {
  }
}
