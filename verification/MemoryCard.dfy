/** A memory card in the reader, as the driver sees it through src/driver/ifd_towitoko.c. The card may store
    anything instead of what it is told to write, and the reader may fail at any operation. */
module MemoryCard {
  import opened Bytes

  datatype Kind = I2cShort | I2cLong | TwoWire | ThreeWire

  type Page = p: nat | p == 64 || p == 256 witness 64

  /** A page write runs around inside a page of this size. */
  function PageSize(kind: Kind): Page { if kind == I2cLong then 64 else 256 }

  /** How many cells the address bytes of the read and write commands reach. */
  function AddressSpace(kind: Kind): nat {
    match kind
    case I2cShort => 2048
    case I2cLong => 65536
    case TwoWire => 256
    case ThreeWire => 1024
  }

  lemma {:induction false} AddressKept(kind: Kind, address: nat)
    requires address < AddressSpace(kind)
    ensures address % AddressSpace(kind) == address
  {
    match kind {
      case I2cShort => assert address % 2048 == address;
      case I2cLong => assert address % 65536 == address;
      case TwoWire => assert address % 256 == address;
      case ThreeWire => assert address % 1024 == address;
    }
  }

  predicate HasPin(kind: Kind) { kind == TwoWire || kind == ThreeWire }

  /** The bytes of a PIN that are presented to the card: two of a 3-wire card's. */
  function Shown(kind: Kind, pin: bytes): bytes { if kind == ThreeWire then pin[..Min(2, |pin|)] else pin }

  function MaxTrials(kind: Kind): nat { if kind == TwoWire then 3 else 8 }

  // ----- memory contents -----

  /** n bytes read upwards from a cell. */
  function Fetch(mem: bytes, at: nat, n: nat): (r: bytes)
    ensures |r| == n
    ensures at + n <= |mem| ==> r == mem[at..at + n]
  {
    seq(n, i requires 0 <= i < n => if at + i < |mem| then mem[at + i] else 0xFF)
  }

  lemma FetchJoin(mem: bytes, at: nat, m: nat, n: nat)
    ensures Fetch(mem, at, m) + Fetch(mem, at + m, n) == Fetch(mem, at, m + n)
  {
  }

  /** The memory with `data` written flat at a cell. */
  function Splice(mem: bytes, at: nat, data: bytes): (r: bytes)
    requires at + |data| <= |mem|
    ensures |r| == |mem|
  {
    mem[..at] + data + mem[at + |data|..]
  }

  lemma SpliceJoin(mem: bytes, at: nat, a: bytes, b: bytes)
    requires at + |a| + |b| <= |mem|
    ensures Splice(Splice(mem, at, a), at + |a|, b) == Splice(mem, at, a + b)
  {
  }

  /** The same memory outside n cells from `at`. */
  predicate Confined(was: bytes, now: bytes, at: nat, n: nat) {
    |was| == |now| && at + n <= |was| && was[..at] == now[..at] && was[at + n..] == now[at + n..]
  }

  lemma SpliceConfined(mem: bytes, at: nat, data: bytes)
    requires at + |data| <= |mem|
    ensures Confined(mem, Splice(mem, at, data), at, |data|)
  {
  }

  /** What was confined to a range and reads as the data there is the flat write. */
  lemma {:induction false} ReadBackIsSplice(was: bytes, now: bytes, at: nat, data: bytes)
    requires Confined(was, now, at, |data|) && Fetch(now, at, |data|) == data
    ensures now == Splice(was, at, data)
  {
    assert now == now[..at] + now[at..at + |data|] + now[at + |data|..];
  }

  /** Two changes in neighbouring ranges, or in one inside the other, are a change in the whole. */
  lemma {:induction false} ConfinedTwice(a: bytes, b: bytes, c: bytes, at: nat, n: nat, at1: nat, n1: nat, at2: nat, n2: nat)
    requires Confined(a, b, at1, n1) && Confined(b, c, at2, n2)
    requires at <= at1 && at1 + n1 <= at + n && at <= at2 && at2 + n2 <= at + n && at + n <= |a|
    ensures Confined(a, c, at, n)
  {
    assert a[..at] == a[..at1][..at] == b[..at1][..at] == b[..at] == b[..at2][..at] == c[..at2][..at] == c[..at];
    Suffix(a, b, at1 + n1, at + n);
    Suffix(b, c, at2 + n2, at + n);
  }

  lemma {:induction false} Suffix(a: bytes, b: bytes, i: nat, j: nat)
    requires i <= j <= |a| == |b| && a[i..] == b[i..]
    ensures a[j..] == b[j..]
  {
    assert a[j..] == a[i..][j - i..];
    assert b[j..] == b[i..][j - i..];
  }

  // ----- page writes -----

  /** The cell after `at`, around the end of its page. */
  function PageNext(page: Page, at: nat): nat
  {
    at - at % page + (at % page + 1) % page
  }

  /** Bytes stored one after another inside a page. */
  function PageWrite(mem: bytes, page: Page, at: nat, data: bytes): (r: bytes)
    ensures |r| == |mem|
    decreases |data|
  {
    if data == [] then mem
    else PageWrite(if at < |mem| then mem[at := data[0]] else mem, page, PageNext(page, at), data[1..])
  }

  /** Where the address counter stands after n stored bytes. */
  function PageAdvance(page: Page, at: nat, n: nat): nat
    decreases n
  {
    if n == 0 then at else PageAdvance(page, PageNext(page, at), n - 1)
  }

  predicate InPage(page: Page, at: nat, n: nat)
  {
    at % page + n <= page
  }

  lemma Next64(at: nat)
    requires at % 64 + 1 < 64
    ensures (at + 1) % 64 == at % 64 + 1
  {
  }

  lemma Next256(at: nat)
    requires at % 256 + 1 < 256
    ensures (at + 1) % 256 == at % 256 + 1
  {
  }

  lemma {:induction false} PageNextInside(page: Page, at: nat)
    requires at % page + 1 < page
    ensures PageNext(page, at) == at + 1 && (at + 1) % page == at % page + 1
  {
    if page == 64 {
      Next64(at);
    } else {
      Next256(at);
    }
  }

  lemma SpliceCons(mem: bytes, at: nat, data: bytes)
    requires data != [] && at + |data| <= |mem|
    ensures Splice(mem[at := data[0]], at + 1, data[1..]) == Splice(mem, at, data)
  {
  }

  /** Inside one page and the memory, a page write is a flat write. */
  lemma {:induction false} PageWriteIsFlat(mem: bytes, page: Page, at: nat, data: bytes)
    requires InPage(page, at, |data|) && at + |data| <= |mem|
    ensures PageWrite(mem, page, at, data) == Splice(mem, at, data)
    decreases |data|
  {
    if data == [] {
      assert Splice(mem, at, data) == mem;
    } else {
      SpliceCons(mem, at, data);
      var one := mem[at := data[0]];
      if |data| == 1 {
        assert Splice(one, at + 1, []) == one;
      } else {
        PageNextInside(page, at);
        PageWriteIsFlat(one, page, at + 1, data[1..]);
      }
    }
  }

  lemma {:induction false} PageAdvanceInside(page: Page, at: nat, n: nat)
    requires at % page + n < page
    ensures PageAdvance(page, at, n) == at + n && (at + n) % page == at % page + n
    decreases n
  {
    if n > 0 {
      PageNextInside(page, at);
      PageAdvanceInside(page, at + 1, n - 1);
    }
  }

  // ----- the card in the reader -----

  /** What a card stores at its i-th write. */
  function StoredAs(flaws: seq<bytes>, i: nat, data: bytes): bytes {
    if i < |flaws| && |flaws[i]| == |data| then flaws[i] else data
  }

  /** None of n writes is stored as it is told. */
  predicate Spoiled(flaws: seq<bytes>, from: nat, data: bytes, n: nat) {
    forall i | from <= i < from + n :: StoredAs(flaws, i, data) != data
  }

  class Device {
    const kind: Kind
    /** The memory cells. */
    var mem: bytes
    var readAt: nat
    var writeAt: nat
    var powered: bool
    /** The PIN, the trials left, and whether the PIN has been presented since power-up. */
    var secret: bytes
    var trials: nat
    var verified: bool
    /** For each coming reader operation, whether it fails; none fails after the last entry. */
    var faults: seq<bool>
    /** For each write, what the card stores instead; it stores what it is told after the last entry. */
    const flaws: seq<bytes>
    var writes: nat
    /** Writes that reached a card locked by its PIN. */
    ghost var lockedWrites: nat

    constructor (kind: Kind, mem: bytes, secret: bytes, faults: seq<bool>, flaws: seq<bytes>)
      ensures this.kind == kind && this.mem == mem && this.secret == secret && this.faults == faults && this.flaws == flaws
      ensures trials == MaxTrials(kind) && !verified && !powered && lockedWrites == 0 && writes == 0
    {
      this.kind, this.mem, this.secret, this.faults, this.flaws := kind, mem, secret, faults, flaws;
      this.writes := 0;
      this.readAt, this.writeAt, this.powered, this.trials, this.verified, this.lockedWrites := 0, 0, false, MaxTrials(kind), false, 0;
    }

    ghost predicate Healthy()
      reads this`faults
    {
      true !in faults
    }

    /** The card stores what it is told from now on. */
    predicate Obeys()
      reads this`writes
    {
      |flaws| <= writes
    }

    /** The PIN that the card expects. */
    predicate Knows(pin: bytes)
      reads this`secret
    {
      Shown(kind, pin) == Shown(kind, secret)
    }

    predicate Locked()
      reads this`verified
    {
      HasPin(kind) && !verified
    }

    /** One reader operation. */
    method Attempt() returns (ok: bool)
      modifies this`faults
      ensures old(Healthy()) ==> ok && Healthy()
      ensures ok == !(old(faults) != [] && old(faults)[0])
      ensures faults == if old(faults) == [] then [] else old(faults)[1..]
    {
      ok := true;
      if faults != [] {
        ok := !faults[0];
        faults := faults[1..];
      }
    }

    method Activate() returns (ok: bool)
      modifies this`faults, this`powered
      ensures old(Healthy()) ==> ok && Healthy()
      ensures ok == !(old(faults) != [] && old(faults)[0])
      ensures faults == if old(faults) == [] then [] else old(faults)[1..]
      ensures powered == (ok || old(powered))
    {
      ok := Attempt();
      powered := ok || powered;
    }

    /** A card without power forgets that its PIN was presented. */
    method Deactivate() returns (ok: bool)
      modifies this`faults, this`powered, this`verified
      ensures old(Healthy()) ==> ok && Healthy()
      ensures ok == !(old(faults) != [] && old(faults)[0])
      ensures if ok then !powered && !verified else powered == old(powered) && verified == old(verified)
    {
      ok := Attempt();
      if ok {
        powered, verified := false, false;
      }
    }

    method SetReadAddress(address: nat) returns (ok: bool)
      modifies this`faults, this`readAt
      ensures old(Healthy()) ==> ok && Healthy()
      ensures ok == !(old(faults) != [] && old(faults)[0])
      ensures faults == if old(faults) == [] then [] else old(faults)[1..]
      ensures ok ==> readAt == address % AddressSpace(kind)
    {
      ok := Attempt();
      if ok {
        readAt := address % AddressSpace(kind);
      }
    }

    method SetWriteAddress(address: nat) returns (ok: bool)
      modifies this`faults, this`writeAt
      ensures old(Healthy()) ==> ok && Healthy()
      ensures ok ==> writeAt == address % AddressSpace(kind)
    {
      ok := Attempt();
      if ok {
        writeAt := address % AddressSpace(kind);
      }
    }

    /** A read command for n bytes. */
    method ReadBlock(n: nat) returns (ok: bool, data: bytes)
      modifies this`faults, this`readAt
      ensures old(Healthy()) ==> ok && Healthy()
      ensures ok == !(old(faults) != [] && old(faults)[0])
      ensures faults == if old(faults) == [] then [] else old(faults)[1..]
      ensures if ok then data == Fetch(mem, old(readAt), n) && readAt == old(readAt) + n else data == []
    {
      ok := Attempt();
      data := [];
      if ok {
        data := Fetch(mem, readAt, n);
        readAt := readAt + n;
      }
    }

    /** A write command. An unlocked card stores bytes one after another inside a page, but not
        necessarily the given ones. */
    method WriteBlock(data: bytes) returns (ok: bool, ghost stored: bytes)
      modifies this`faults, this`writes, this`mem, this`writeAt, this`lockedWrites
      ensures old(Healthy()) ==> ok && Healthy()
      ensures stored == StoredAs(flaws, old(writes), data) && writes == old(writes) + 1
      ensures mem == if ok && !Locked() then PageWrite(old(mem), PageSize(kind), old(writeAt), stored) else old(mem)
      ensures ok ==> writeAt == PageAdvance(PageSize(kind), old(writeAt), |data|)
      ensures lockedWrites == old(lockedWrites) + (if ok && Locked() then 1 else 0)
    {
      var stores := data;
      if writes < |flaws| && |flaws[writes]| == |data| {
        stores := flaws[writes];
      }
      writes := writes + 1;
      stored := stores;
      ok := Attempt();
      if ok {
        if Locked() {
          lockedWrites := lockedWrites + 1;
        } else {
          mem := PageWrite(mem, PageSize(kind), writeAt, stores);
        }
        writeAt := PageAdvance(PageSize(kind), writeAt, |data|);
      }
    }

    method ReadErrorCounter() returns (ok: bool, left: nat)
      modifies this`faults
      ensures old(Healthy()) ==> ok && Healthy()
      ensures ok == !(old(faults) != [] && old(faults)[0])
      ensures faults == if old(faults) == [] then [] else old(faults)[1..]
      ensures ok ==> left == trials
    {
      ok := Attempt();
      left := trials;
    }

    /** Presenting the PIN resets the error counter; presenting another one uses up a trial. */
    method EnterPin(pin: bytes) returns (ok: bool)
      modifies this`faults, this`trials, this`verified
      ensures old(Healthy()) ==> ok && Healthy()
      ensures ok == !(old(faults) != [] && old(faults)[0])
      ensures faults == if old(faults) == [] then [] else old(faults)[1..]
      ensures if !ok then trials == old(trials) && verified == old(verified)
              else if Knows(pin) then trials == MaxTrials(kind) && verified
              else !verified && trials == if old(trials) == 0 then 0 else old(trials) - 1
    {
      ok := Attempt();
      if ok {
        verified := Knows(pin);
        trials := if Knows(pin) then MaxTrials(kind) else if trials == 0 then 0 else trials - 1;
      }
    }

    method ChangePin(pin: bytes) returns (ok: bool)
      modifies this`faults, this`secret
      ensures old(Healthy()) ==> ok && Healthy()
      ensures secret == if ok && !Locked() then pin else old(secret)
    {
      ok := Attempt();
      if ok && !Locked() {
        secret := pin;
      }
    }
  }
}
