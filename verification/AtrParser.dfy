/** ATR_InitFromArray, ATR_InitFromStream and ATR_GetRaw (src/driver/atr.c) on the structure they fill. */
module AtrParser {
  import opened Bytes
  import opened Atr

  datatype Code = AtrOk | AtrMalformed | AtrIoError | AtrOverrun

  function CodeOf(o: Outcome): Code {
    match o
    case Ok(_) => AtrOk
    case Malformed => AtrMalformed
    case IoError => AtrIoError
    case Overrun => AtrOverrun
  }

  predicate KnownStart(s: bytes) { s != [] && (s[0] == 0x03 || s[0] == 0x3B || s[0] == 0x3F) }

  /** What the stream parser makes of the bytes that arrive. */
  function StreamOutcome(s: bytes): Outcome {
    if s == [] then IoError else if KnownStart(s) then Parse(Logical(s), FromStream(IsInverse(s))) else Malformed
  }

  /** The initial character decides: 3B and 3F are direct, 03 is inverse, and no other is known. */
  lemma {:induction false} ByInitial(s: bytes)
    ensures StreamOutcome(s) ==
            if s == [] then IoError
            else if s[0] == 0x3B || s[0] == 0x3F then Parse(s, FromStream(false))
            else if s[0] == 0x03 then Parse(FlipAll(s), FromStream(true))
            else Malformed
    ensures s != [] ==> Logical(s) == if s[0] == 0x03 then FlipAll(s) else s
  {
  }

  /** On ATRs with a known initial character the two parsers accept the same inputs and build the same
      record. */
  lemma {:induction false} SameAcceptance(s: bytes)
    requires KnownStart(s)
    ensures StreamOutcome(s).Ok? <==> Parse(Logical(s), FromArray).Ok?
    ensures StreamOutcome(s).Ok? ==> StreamOutcome(s) == Parse(Logical(s), FromArray)
  {
    ParsersAgree(Logical(s), IsInverse(s));
  }

  /** Printing an accepted ATR gives the accepted bytes, flipped if the card uses the inverse convention; and
      flipping the printed form gives what the card sent. */
  lemma {:induction false} PrintedIsSent(s: bytes, mode: Mode)
    ensures match Parse(Logical(s), mode)
            case Ok(r) =>
              && r.length <= |s| && Print(r) == Logical(s)[..r.length]
              && Taken(IsInverse(s), Print(r)) == s[..r.length]
            case _ => true
  {
    PrintParse(Logical(s), mode);
    if Parse(Logical(s), mode).Ok? {
      var r := Parse(Logical(s), mode).record;
      forall i | 0 <= i < r.length
        ensures Taken(IsInverse(s), Print(r))[i] == s[i]
      {
        FlipInvolution(s[i]);
      }
    }
  }

  /** An ATR accepted from a stream need not fit the 33 bytes that it is printed into. */
  lemma {:induction false} LongStream(s: bytes)
    requires |s| == 34 && s[0] == 0x3B && s[1] == 0xFF && s[5] == s[9] == s[13] == 0xF0 && s[17] == 0x10
    ensures StreamOutcome(s).Ok? && |Print(StreamOutcome(s).record)| == 34 > MAX_SIZE
  {
    LongAtr(s, FromStream(false));
    PrintParse(s, FromStream(false));
  }

  // ----- rows, step by step -----

  /** How far the rows have been read: the next one starts at `at` and is announced by `td`. */
  ghost predicate OnWay(whole: RowsResult, rows: seq<Row>, s: bytes, at: nat, td: byte, mode: Mode) {
    whole == Prepend(rows, ParseRows(s, at, td, |rows|, mode))
  }

  lemma StartRows(s: bytes, at: nat, td: byte, mode: Mode)
    ensures OnWay(ParseRows(s, at, td, 0, mode), [], s, at, td, mode)
  {
  }

  /** What the next row may be: none, for a reason, or one that leads on or ends the rows. */
  ghost predicate Took(whole: RowsResult, rows: seq<Row>, s: bytes, at: nat, td: byte, mode: Mode, code: Code, row: Row) {
    match code
    case AtrMalformed => whole == Short
    case AtrOverrun => whole == TooMany
    case AtrIoError => false
    case AtrOk =>
      |rows| < MAX_PROTOCOLS
      && if row.td.Some? then OnWay(whole, rows + [row], s, at, row.td.value, mode) else whole == Rows(rows + [row], at, td)
  }

  lemma NextRow(whole: RowsResult, rows: seq<Row>, s: bytes, at: nat, td: byte, mode: Mode)
    requires OnWay(whole, rows, s, at, td, mode) && |rows| < MAX_PROTOCOLS && at + RowLength(td) <= |s|
    ensures Took(whole, rows, s, at + RowLength(td), td, mode, AtrOk, ReadRow(s, at, td))
  {
  }

  lemma NoNextRow(whole: RowsResult, rows: seq<Row>, s: bytes, at: nat, td: byte, mode: Mode)
    requires OnWay(whole, rows, s, at, td, mode)
    ensures |rows| < MAX_PROTOCOLS && at + RowLength(td) > |s| ==> whole == Short
    ensures |rows| >= MAX_PROTOCOLS ==> whole == if at + Ahead(td, mode) > |s| then Short else TooMany
  {
  }

  const NO_ROW: Row := Row(None, None, None, None)

  /** The interface bytes behind `pointer` that a format byte announces. */
  method RowFromArray(buffer: bytes, pointer: nat, td: byte) returns (row: Row, p: nat)
    requires pointer + RowLength(td) < |buffer|
    ensures p == pointer + RowLength(td) && row == ReadRow(buffer, pointer + 1, td)
  {
    row, p := NO_ROW, pointer;
    if HasA(td) {
      p := p + 1;
      row := row.(ta := Some(buffer[p]));
    }
    if HasB(td) {
      p := p + 1;
      row := row.(tb := Some(buffer[p]));
    }
    if HasC(td) {
      p := p + 1;
      row := row.(tc := Some(buffer[p]));
    }
    if HasD(td) {
      p := p + 1;
      row := row.(td := Some(buffer[p]));
    }
  }

  /** One round of the loop over the interface bytes in an array. */
  method TakeFromArray(buffer: bytes, rows: seq<Row>, pointer: nat, td: byte, ghost whole: RowsResult)
    returns (code: Code, row: Row, p: nat)
    requires pointer < |buffer| && OnWay(whole, rows, buffer, pointer + 1, td, FromArray)
    ensures p < |buffer| && Took(whole, rows, buffer, p + 1, td, FromArray, code, row)
  {
    NoNextRow(whole, rows, buffer, pointer + 1, td, FromArray);
    if pointer + RowLength(td) >= |buffer| {
      return AtrMalformed, NO_ROW, pointer;
    }
    if |rows| >= MAX_PROTOCOLS {
      return AtrOverrun, NO_ROW, pointer;
    }
    code := AtrOk;
    row, p := RowFromArray(buffer, pointer, td);
    NextRow(whole, rows, buffer, pointer + 1, td, FromArray);
  }

  /** The bytes that arrive from a card. */
  class Stream {
    const sent: bytes
    var at: nat

    constructor (sent: bytes)
      ensures this.sent == sent && at == 0
    {
      this.sent, at := sent, 0;
    }

    /** ATR_GetNextByte: nothing arrives after the last byte. */
    method Next(invert: bool) returns (b: Option<byte>)
      modifies this
      ensures b == if old(at) < |sent| then Some(Taken(invert, sent)[old(at)]) else None
      ensures at == old(at) + One(b.Some?)
    {
      b := None;
      if at < |sent| {
        b := Some(if invert then Flip(sent[at]) else sent[at]);
        at := at + 1;
      }
    }

    /** A byte that is read only if announced. */
    method NextIf(present: bool, invert: bool) returns (ok: bool, b: Option<byte>)
      modifies this
      ensures ok <==> old(at) + One(present) <= |sent| || !present
      ensures ok ==> b == ByteAt(Taken(invert, sent), old(at), present) && at == old(at) + One(present)
    {
      ok, b := true, None;
      if present {
        b := Next(invert);
        ok := b.Some?;
      }
    }
  }

  /** The interface bytes that a format byte announces; none if the stream ends before. */
  method RowFromStream(io: Stream, invert: bool, td: byte) returns (ok: bool, row: Row)
    modifies io
    ensures ok ==> old(io.at) + RowLength(td) <= |io.sent| || RowLength(td) == 0
    ensures ok && old(io.at) <= |io.sent| ==>
              row == ReadRow(Taken(invert, io.sent), old(io.at), td) && io.at == old(io.at) + RowLength(td)
    ensures !ok ==> old(io.at) + RowLength(td) > |io.sent|
  {
    row := NO_ROW;
    var a, b, c, d;
    ok, a := io.NextIf(HasA(td), invert);
    if !ok {
      return;
    }
    ok, b := io.NextIf(HasB(td), invert);
    if !ok {
      return;
    }
    ok, c := io.NextIf(HasC(td), invert);
    if !ok {
      return;
    }
    ok, d := io.NextIf(HasD(td), invert);
    row := Row(a, b, c, d);
  }

  /** One round of the loop over the interface bytes in a stream. */
  method TakeFromStream(io: Stream, invert: bool, rows: seq<Row>, td: byte, ghost whole: RowsResult) returns (code: Code, row: Row)
    requires io.at <= |io.sent| && OnWay(whole, rows, Taken(invert, io.sent), io.at, td, FromStream(invert))
    modifies io
    ensures Took(whole, rows, Taken(invert, io.sent), io.at, td, FromStream(invert), code, row)
    ensures code == AtrOk ==> io.at <= |io.sent|
  {
    ghost var s := Taken(invert, io.sent);
    NoNextRow(whole, rows, s, io.at, td, FromStream(invert));
    if |rows| >= MAX_PROTOCOLS {
      var ok, _ := io.NextIf(HasA(td), invert);
      return if ok || invert then AtrOverrun else AtrMalformed, NO_ROW;
    }
    var ok;
    ok, row := RowFromStream(io, invert, td);
    code := if ok then AtrOk else AtrMalformed;
    if ok {
      NextRow(whole, rows, s, old(io.at), td, FromStream(invert));
    }
  }

  // ----- printing into a buffer -----

  /** Stores a byte if it is present; it may not fit. */
  method Store(buffer: array<byte>, j: nat, b: Option<byte>) returns (ok: bool, k: nat)
    requires j <= buffer.Length
    modifies buffer
    ensures ok <==> |Put(old(buffer[..j]), b)| <= buffer.Length
    ensures ok ==> k == |Put(old(buffer[..j]), b)| && buffer[..k] == Put(old(buffer[..j]), b)
    ensures ok ==> forall m | k <= m < buffer.Length :: buffer[m] == old(buffer[m])
  {
    ok, k := true, j;
    if b.Some? {
      if j == buffer.Length {
        return false, j;
      }
      buffer[j] := b.value;
      k := j + 1;
    }
  }

  lemma RowGrows(p: bytes, r: Row)
    ensures |PutRow(p, r)| == |p| + One(r.ta.Some?) + One(r.tb.Some?) + One(r.tc.Some?) + One(r.td.Some?)
  {
  }

  lemma {:induction false} RowsGrow(p: bytes, rows: seq<Row>)
    ensures |PutRows(p, rows)| >= |p|
    decreases |rows|
  {
    if rows != [] {
      RowGrows(p, rows[0]);
      RowsGrow(PutRow(p, rows[0]), rows[1..]);
    }
  }

  lemma {:induction false} PrintGrows(r: Record)
    ensures 2 <= |PutRows([r.ts, r.t0], r.rows)| <= |PutRows([r.ts, r.t0], r.rows) + r.hb| <= |Print(r)|
  {
    RowsGrow([r.ts, r.t0], r.rows);
  }

  method StoreRow(buffer: array<byte>, j: nat, r: Row) returns (ok: bool, k: nat)
    requires j <= buffer.Length
    modifies buffer
    ensures ok <==> |PutRow(old(buffer[..j]), r)| <= buffer.Length
    ensures ok ==> k == |PutRow(old(buffer[..j]), r)| && buffer[..k] == PutRow(old(buffer[..j]), r)
    ensures ok ==> forall m | k <= m < buffer.Length :: buffer[m] == old(buffer[m])
  {
    RowGrows(buffer[..j], r);
    ok, k := Store(buffer, j, r.ta);
    if ok {
      ok, k := Store(buffer, k, r.tb);
    }
    if ok {
      ok, k := Store(buffer, k, r.tc);
    }
    if ok {
      ok, k := Store(buffer, k, r.td);
    }
  }

  method StoreRows(buffer: array<byte>, from: nat, rows: seq<Row>) returns (ok: bool, j: nat)
    requires from <= buffer.Length
    modifies buffer
    ensures ok <==> |PutRows(old(buffer[..from]), rows)| <= buffer.Length
    ensures ok ==> j == |PutRows(old(buffer[..from]), rows)| && buffer[..j] == PutRows(old(buffer[..from]), rows)
    ensures ok ==> forall m | j <= m < buffer.Length :: buffer[m] == old(buffer[m])
  {
    j := from;
    ghost var goal := PutRows(buffer[..from], rows);
    assert rows[0..] == rows;
    for i := 0 to |rows|
      invariant from <= j <= buffer.Length && PutRows(buffer[..j], rows[i..]) == goal
      invariant forall m | j <= m < buffer.Length :: buffer[m] == old(buffer[m])
    {
      assert rows[i..][0] == rows[i] && rows[i..][1..] == rows[i + 1..];
      RowGrows(buffer[..j], rows[i]);
      RowsGrow(PutRow(buffer[..j], rows[i]), rows[i + 1..]);
      ok, j := StoreRow(buffer, j, rows[i]);
      if !ok {
        return;
      }
    }
    assert rows[|rows|..] == [];
    ok := true;
  }

  method StoreAll(buffer: array<byte>, from: nat, data: bytes) returns (ok: bool, j: nat)
    requires from <= buffer.Length
    modifies buffer
    ensures ok <==> from + |data| <= buffer.Length
    ensures ok ==> j == from + |data| && buffer[..j] == old(buffer[..from]) + data
    ensures ok ==> forall m | j <= m < buffer.Length :: buffer[m] == old(buffer[m])
  {
    j := from;
    for i := 0 to |data|
      invariant j == from + i <= buffer.Length && buffer[..j] == old(buffer[..from]) + data[..i]
      invariant forall m | j <= m < buffer.Length :: buffer[m] == old(buffer[m])
    {
      if j == buffer.Length {
        return false, j;
      }
      buffer[j] := data[i];
      j := j + 1;
    }
    ok := true;
  }

  // ----- the structure -----

  class Answer {
    var length: nat
    var ts: byte
    var t0: byte
    /** The rows of interface bytes filled so far; seven is all there is room for. */
    var ib: seq<Row>
    var hb: bytes
    var tckPresent: bool
    var tck: byte

    constructor ()
    {
    }

    function Value(): Record
      reads this
    {
      Record(length, ts, t0, ib, hb, if tckPresent then Some(tck) else None)
    }

    /** The rows are stored, and the flag for the check byte is set from the last format byte. */
    ghost predicate Stored(r: RowsResult, at: nat)
      reads this`ib, this`tckPresent
    {
      r.Rows? && r == Rows(ib, at, r.last) && tckPresent == HasTck(ib, r.last)
    }

    /** The loop over the interface bytes in an array. */
    method RowsFromArray(buffer: bytes, ghost whole: RowsResult) returns (code: Code, pointer: nat)
      requires |buffer| >= 2 && OnWay(whole, [], buffer, 2, t0, FromArray)
      modifies this`ib, this`tckPresent
      ensures match code
              case AtrMalformed => whole == Short
              case AtrOverrun => whole == TooMany
              case AtrIoError => false
              case AtrOk => pointer < |buffer| && Stored(whole, pointer + 1)
    {
      ib, tckPresent, pointer := [], false, 1;
      var td := t0;
      while true
        invariant pointer < |buffer| && OnWay(whole, ib, buffer, pointer + 1, td, FromArray)
        invariant tckPresent == (|ib| > 0 && td % 16 != 0)
        decreases MAX_PROTOCOLS - |ib|
      {
        var row;
        code, row, pointer := TakeFromArray(buffer, ib, pointer, td, whole);
        if code != AtrOk {
          return;
        }
        ib := ib + [row];
        if row.td.None? {
          return;
        }
        td := row.td.value;
        tckPresent := td % 16 != 0;
      }
    }

    /** The historical bytes and the check byte in an array. */
    method RestFromArray(buffer: bytes, from: nat, ghost r: RowsResult) returns (code: Code)
      requires |buffer| >= 2 && ts == buffer[0] && t0 == buffer[1] && from < |buffer| && Stored(r, from + 1)
      modifies this`length, this`hb, this`tck
      ensures code == CodeOf(Assemble(buffer, r)) && (code == AtrOk ==> Value() == Assemble(buffer, r).record)
    {
      var hbn: int, pointer := t0 % 16, from;
      if pointer + hbn >= |buffer| {
        return AtrMalformed;
      }
      hb := buffer[pointer + 1..pointer + 1 + hbn];
      pointer := pointer + hbn;
      if tckPresent {
        if pointer + 1 >= |buffer| {
          return AtrMalformed;
        }
        pointer := pointer + 1;
        tck := buffer[pointer];
      }
      length := pointer + 1;
      code := AtrOk;
    }

    /** ATR_InitFromArray. */
    method InitFromArray(raw: bytes) returns (code: Code)
      requires |raw| <= MAX_SIZE
      modifies this
      ensures code == CodeOf(Parse(Logical(raw), FromArray))
      ensures code == AtrOk ==> Value() == Parse(Logical(raw), FromArray).record
    {
      if |raw| < 2 {
        return AtrMalformed;
      }
      var buffer := Normalise(raw);
      ts, t0 := buffer[0], buffer[1];
      var pointer;
      ghost var whole := ParseRows(buffer, 2, t0, 0, FromArray);
      StartRows(buffer, 2, t0, FromArray);
      code, pointer := RowsFromArray(buffer, whole);
      if code == AtrOk {
        code := RestFromArray(buffer, pointer, whole);
      }
    }

    /** The loop over the interface bytes in a stream. */
    method RowsFromStream(io: Stream, invert: bool, ghost whole: RowsResult) returns (code: Code)
      requires io.at <= |io.sent| && OnWay(whole, [], Taken(invert, io.sent), io.at, t0, FromStream(invert))
      modifies this`ib, this`tckPresent, io
      ensures match code
              case AtrMalformed => whole == Short
              case AtrOverrun => whole == TooMany
              case AtrIoError => false
              case AtrOk => io.at <= |io.sent| && Stored(whole, io.at)
    {
      ib, tckPresent := [], false;
      var td := t0;
      while true
        invariant io.at <= |io.sent| && OnWay(whole, ib, Taken(invert, io.sent), io.at, td, FromStream(invert))
        invariant tckPresent == (|ib| > 0 && td % 16 != 0)
        decreases MAX_PROTOCOLS - |ib|
      {
        var row;
        code, row := TakeFromStream(io, invert, ib, td, whole);
        if code != AtrOk {
          return;
        }
        ib := ib + [row];
        if row.td.None? {
          return;
        }
        td := row.td.value;
        tckPresent := td % 16 != 0;
      }
    }

    /** The historical bytes and the check byte in a stream. The number of bytes read is the length. */
    method RestFromStream(io: Stream, invert: bool, ghost r: RowsResult) returns (code: Code)
      requires 2 <= |io.sent| && io.at <= |io.sent| && Stored(r, io.at)
      requires ts == Taken(invert, io.sent)[0] && t0 == Taken(invert, io.sent)[1]
      modifies this`length, this`hb, this`tck, io
      ensures code == CodeOf(Assemble(Taken(invert, io.sent), r))
      ensures code == AtrOk ==> Value() == Assemble(Taken(invert, io.sent), r).record && io.at == length
    {
      ghost var s, at := Taken(invert, io.sent), io.at;
      var hbn: int := t0 % 16;
      hb := [];
      for i := 0 to hbn
        invariant io.at == at + i <= |s| && hb == s[at..at + i]
        invariant ib == old(ib) && tckPresent == old(tckPresent)
      {
        var b := io.Next(invert);
        if b.None? {
          return AtrMalformed;
        }
        hb := hb + [b.value];
      }
      if tckPresent {
        var b := io.Next(invert);
        if b.None? {
          return AtrMalformed;
        }
        tck := b.value;
      }
      length := io.at;
      code := AtrOk;
    }

    /** TS and T0, with the convention that TS shows. */
    method HeaderFromStream(io: Stream) returns (code: Code, invert: bool)
      requires io.at == 0
      modifies this`ts, this`t0, io
      ensures code == AtrIoError <==> io.sent == []
      ensures code == AtrMalformed <==> io.sent != [] && (!KnownStart(io.sent) || |io.sent| < 2)
      ensures code == AtrOk ==>
                invert == IsInverse(io.sent) && ts == Logical(io.sent)[0] && t0 == Logical(io.sent)[1] && io.at == 2
      ensures code != AtrOverrun
    {
      FlipInitial();
      invert := false;
      var b := io.Next(invert);
      if b.None? {
        return AtrIoError, invert;
      }
      ts := b.value;
      if ts == 0x03 {
        ts, invert := 0x3F, true;
      }
      if ts != 0x3B && ts != 0x3F {
        return AtrMalformed, invert;
      }
      b := io.Next(invert);
      if b.None? {
        return AtrMalformed, invert;
      }
      t0 := b.value;
      code := AtrOk;
    }

    /** ATR_InitFromStream. On success just the bytes of the ATR have been taken from the stream. */
    method InitFromStream(io: Stream) returns (code: Code)
      requires io.at == 0
      modifies this, io
      ensures code == CodeOf(StreamOutcome(io.sent))
      ensures code == AtrOk ==> Value() == StreamOutcome(io.sent).record && io.at == length
    {
      var invert;
      code, invert := HeaderFromStream(io);
      if code != AtrOk {
        return;
      }
      ghost var whole := ParseRows(Logical(io.sent), 2, t0, 0, FromStream(invert));
      StartRows(Logical(io.sent), 2, t0, FromStream(invert));
      code := RowsFromStream(io, invert, whole);
      if code == AtrOk {
        code := RestFromStream(io, invert, whole);
      }
    }

    /** ATR_GetRaw: the printed ATR fills the front of the buffer, if it fits. */
    method GetRaw(buffer: array<byte>) returns (code: Code, size: nat)
      modifies buffer
      ensures code == if |Print(Value())| <= buffer.Length then AtrOk else AtrOverrun
      ensures code == AtrOk ==> size == |Print(Value())| && buffer[..size] == Print(Value())
      ensures code == AtrOk ==> forall m | size <= m < buffer.Length :: buffer[m] == old(buffer[m])
    {
      code, size := AtrOverrun, 0;
      PrintGrows(Value());
      if buffer.Length < 2 {
        return;
      }
      buffer[0], buffer[1] := ts, t0;
      assert buffer[..2] == [ts, t0];
      var ok, j := StoreRows(buffer, 2, ib);
      if ok {
        ok, j := StoreAll(buffer, j, hb);
      }
      if ok {
        ok, j := Store(buffer, j, if tckPresent then Some(tck) else None);
      }
      if ok {
        code, size := AtrOk, j;
      }
    }
  }

  /** Copies an array, flipping every byte of an inverse convention card. */
  method Normalise(raw: bytes) returns (buffer: bytes)
    requires raw != []
    ensures buffer == Logical(raw)
  {
    buffer := raw;
    if raw[0] == 0x03 {
      for i := 0 to |raw|
        invariant |buffer| == |raw| && forall j | 0 <= j < i :: buffer[j] == Flip(raw[j])
      {
        buffer := buffer[i := Flip(raw[i])];
      }
    }
  }
}
