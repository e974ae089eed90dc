/** The synchronous card (src/driver/icc_sync.c) over the reader's block commands
    (IFD_Towitoko_ReadBuffer and IFD_Towitoko_WriteBuffer in src/driver/ifd_towitoko.c). */
module IccSync {
  import opened Bytes
  import opened MemoryCard

  datatype Code = Ok | IfdError | RoError | PinError | BlockedError

  const BLOCK := 15
  const MAX_TRANSMIT := 256
  const I2C_MAX_RETRIES := 2

  predicate Fails(faults: seq<bool>, i: nat) { i < |faults| && faults[i] }

  /** One of the coming operations i to j - 1 fails. */
  ghost predicate AnyFails(faults: seq<bool>, i: nat, j: nat) { exists k :: i <= k < j && Fails(faults, k) }

  /** The faults to come when n operations have passed. */
  ghost predicate Passed(faults: seq<bool>, now: seq<bool>, n: nat) {
    forall i: nat :: Fails(now, i) == Fails(faults, n + i)
  }

  function Rest(faults: seq<bool>): seq<bool> { if faults == [] then [] else faults[1..] }

  lemma {:induction false} PassedOne(faults: seq<bool>, now: seq<bool>, n: nat)
    requires Passed(faults, now, n)
    ensures Passed(faults, Rest(now), n + 1) && Fails(now, 0) == Fails(faults, n)
  {
    forall i: nat
      ensures Fails(Rest(now), i) == Fails(faults, n + 1 + i)
    {
      assert Fails(Rest(now), i) == Fails(now, i + 1);
    }
  }

  lemma AnyOneMore(faults: seq<bool>, n: nat)
    ensures AnyFails(faults, 0, n + 1) <==> AnyFails(faults, 0, n) || Fails(faults, n)
  {
  }

  lemma {:induction false} AnyAfterFirst(faults: seq<bool>, n: nat)
    ensures AnyFails(Rest(faults), 0, n) <==> AnyFails(faults, 1, n + 1)
  {
    PassedOne(faults, faults, 0);
    if k :| 1 <= k < n + 1 && Fails(faults, k) {
      assert Fails(Rest(faults), k - 1);
    }
  }

  /** How many read commands `length` bytes take. */
  function Blocks(length: nat): nat { length / BLOCK + if length % BLOCK == 0 then 0 else 1 }

  lemma BlocksOf15(length: nat)
    ensures Blocks(length) == (length + 14) / 15
  {
  }

  /** Reads `length` bytes in blocks of 15 and a remainder. */
  method ReadBuffer(ifd: Device, length: nat) returns (ok: bool, data: bytes)
    modifies ifd`faults, ifd`readAt
    ensures old(ifd.Healthy()) ==> ok && ifd.Healthy()
    ensures ok ==> data == Fetch(ifd.mem, old(ifd.readAt), length)
    ensures ok <==> !AnyFails(old(ifd.faults), 0, Blocks(length))
    ensures ok ==> Passed(old(ifd.faults), ifd.faults, Blocks(length))
  {
    var count: nat := length / BLOCK;
    ok, data := ReadBlocks(ifd, count);
    AnyOneMore(old(ifd.faults), count);
    if ok && length % BLOCK != 0 {
      PassedOne(old(ifd.faults), ifd.faults, count);
      FetchJoin(ifd.mem, old(ifd.readAt), count * BLOCK, length % BLOCK);
      var block;
      ok, block := ifd.ReadBlock(length % BLOCK);
      data := data + block;
    }
  }

  /** The blocks of 15. */
  method ReadBlocks(ifd: Device, count: nat) returns (ok: bool, data: bytes)
    modifies ifd`faults, ifd`readAt
    ensures old(ifd.Healthy()) ==> ok && ifd.Healthy()
    ensures ok ==> data == Fetch(ifd.mem, old(ifd.readAt), count * BLOCK) && ifd.readAt == old(ifd.readAt) + count * BLOCK
    ensures ok ==> Passed(old(ifd.faults), ifd.faults, count)
    ensures if ok then !AnyFails(old(ifd.faults), 0, count) else forall n: nat | n >= count :: AnyFails(old(ifd.faults), 0, n)
  {
    ok, data := true, [];
    var blocks, pointer := count * BLOCK, 0;
    var block;
    ghost var done: nat := 0;
    while pointer < blocks
      invariant pointer == done * BLOCK && done <= count
      invariant data == Fetch(ifd.mem, old(ifd.readAt), pointer) && ifd.readAt == old(ifd.readAt) + pointer
      invariant old(ifd.Healthy()) ==> ifd.Healthy()
      invariant Passed(old(ifd.faults), ifd.faults, done) && !AnyFails(old(ifd.faults), 0, done)
    {
      PassedOne(old(ifd.faults), ifd.faults, done);
      AnyOneMore(old(ifd.faults), done);
      ok, block := ifd.ReadBlock(BLOCK);
      if !ok {
        assert Fails(old(ifd.faults), done);
        return;
      }
      FetchJoin(ifd.mem, old(ifd.readAt), pointer, BLOCK);
      data := data + block;
      pointer := pointer + BLOCK;
      done := done + 1;
    }
  }

  /** Writes `data` in blocks of 15 and a remainder. Inside one page of the memory nothing else changes, and
      an unlocked card that stores what it is told holds the data. */
  method WriteBuffer(ifd: Device, data: bytes) returns (ok: bool)
    modifies ifd`faults, ifd`writes, ifd`mem, ifd`writeAt, ifd`lockedWrites
    ensures old(ifd.Healthy()) ==> ok && ifd.Healthy()
    ensures Spent(old(ifd.writes), ifd.writes, data != [])
    ensures !ifd.Locked() ==> ifd.lockedWrites == old(ifd.lockedWrites)
    ensures LockedWriteCounts(ok && data != [], ifd.Locked(), old(ifd.lockedWrites), ifd.lockedWrites)
    ensures InPage(PageSize(ifd.kind), old(ifd.writeAt), |data|) && old(ifd.writeAt) + |data| <= |old(ifd.mem)| ==>
              Stored(ifd, old(ifd.mem), old(ifd.Obeys()), old(ifd.writeAt), data, ok)
    // data of one block is stored as the card has it
    ensures 1 <= |data| < BLOCK ==> StoredOnce(ifd, old(ifd.mem), old(ifd.writes), old(ifd.writeAt), data, ok)
  {
    ghost var at, mem0, obeys := ifd.writeAt, ifd.mem, ifd.Obeys();
    var length := |data|;
    StoredNothing(ifd, at, data);
    SmallRest(length);
    ok := true;
    if length >= BLOCK {
      ok := WriteBlocks(ifd, mem0, obeys, at, data, length / BLOCK * BLOCK);
    }
    if ok && length % BLOCK != 0 {
      ok := WriteOne(ifd, mem0, obeys, at, data, length / BLOCK * BLOCK, length % BLOCK);
    }
    assert data[..length] == data;
  }

  lemma SmallRest(length: nat)
    ensures length < BLOCK ==> length / BLOCK * BLOCK == 0 && length % BLOCK == length
    ensures length / BLOCK * BLOCK + length % BLOCK == length && length / BLOCK * BLOCK % BLOCK == 0
    ensures length >= BLOCK ==> length / BLOCK * BLOCK > 0
  {
  }

  /** The card stored one block, in its way. */
  ghost predicate StoredOnce(ifd: Device, mem0: bytes, before: nat, at: nat, data: bytes, ok: bool)
    reads ifd`mem, ifd`verified, ifd`writes
  {
    ifd.writes == before + 1 && (ok && !ifd.Locked() ==> ifd.mem == PageWrite(mem0, PageSize(ifd.kind), at, StoredAs(ifd.flaws, before, data)))
  }

  /** The blocks of 15. */
  method WriteBlocks(ifd: Device, ghost mem0: bytes, ghost obeys: bool, ghost at: nat, data: bytes, blocks: nat) returns (ok: bool)
    requires blocks <= |data| && blocks % BLOCK == 0
    modifies ifd`faults, ifd`writes, ifd`mem, ifd`writeAt, ifd`lockedWrites
    ensures old(ifd.Healthy()) ==> ok && ifd.Healthy()
    ensures Spent(old(ifd.writes), ifd.writes, blocks > 0)
    ensures LockedWriteCounts(ok && blocks > 0, ifd.Locked(), old(ifd.lockedWrites), ifd.lockedWrites)
    ensures !ifd.Locked() ==> ifd.lockedWrites == old(ifd.lockedWrites)
    ensures old(Partly(ifd, mem0, obeys, at, data, 0)) ==>
              if ok then Partly(ifd, mem0, obeys, at, data, blocks) else Stored(ifd, mem0, obeys, at, data, false)
  {
    ok := true;
    var pointer := 0;
    ghost var partly := Partly(ifd, mem0, obeys, at, data, 0);
    while pointer < blocks
      invariant pointer <= blocks && pointer % BLOCK == 0
      invariant partly ==> Partly(ifd, mem0, obeys, at, data, pointer)
      invariant (old(ifd.Healthy()) ==> ifd.Healthy()) && Spent(old(ifd.writes), ifd.writes, pointer > 0)
      invariant LockedWriteCounts(pointer > 0, ifd.Locked(), old(ifd.lockedWrites), ifd.lockedWrites)
      invariant !ifd.Locked() ==> ifd.lockedWrites == old(ifd.lockedWrites)
    {
      NextBlock(pointer, blocks);
      ok := WriteOne(ifd, mem0, obeys, at, data, pointer, BLOCK);
      if !ok {
        return;
      }
      pointer := pointer + BLOCK;
    }
  }

  lemma NextBlock(pointer: nat, blocks: nat)
    requires pointer < blocks && pointer % BLOCK == 0 && blocks % BLOCK == 0
    ensures pointer + BLOCK <= blocks && (pointer + BLOCK) % BLOCK == 0
  {
  }

  /** How often a chunk is tried: twice on an I2C card, if more than one byte is to be written. */
  function Attempts(kind: Kind, length: nat): nat { if (kind == I2cShort || kind == I2cLong) && length > 1 then 2 else 1 }

  /** Writes are counted, at least one if anything was written. */
  predicate Spent(before: nat, after: nat, some: bool) { before <= after && (some ==> before < after) }

  /** The data has been written up to `pointer`, where the address counter stands if more is to come. */
  ghost predicate Partly(ifd: Device, mem0: bytes, obeys: bool, at: nat, data: bytes, pointer: nat)
    reads ifd`mem, ifd`verified, ifd`writeAt, ifd`writes
  {
    && InPage(PageSize(ifd.kind), at, |data|) && at + |data| <= |mem0| && (obeys ==> ifd.Obeys())
    && pointer <= |data| && (pointer < |data| ==> ifd.writeAt == at + pointer)
    && Stored(ifd, mem0, obeys, at, data[..pointer], true)
  }

  /** One write command carrying n bytes of the data from `pointer` on. */
  method WriteOne(ifd: Device, ghost mem0: bytes, ghost obeys: bool, ghost at: nat, data: bytes, pointer: nat, n: nat)
    returns (ok: bool)
    requires 1 <= n && pointer + n <= |data|
    modifies ifd`faults, ifd`writes, ifd`mem, ifd`writeAt, ifd`lockedWrites
    ensures old(ifd.Healthy()) ==> ok && ifd.Healthy()
    ensures ifd.writes == old(ifd.writes) + 1
    ensures pointer == 0 && n == |data| < BLOCK ==> StoredOnce(ifd, old(ifd.mem), old(ifd.writes), old(ifd.writeAt), data, ok)
    ensures ifd.lockedWrites == old(ifd.lockedWrites) + if ok && ifd.Locked() then 1 else 0
    ensures old(Partly(ifd, mem0, obeys, at, data, pointer)) ==>
              if ok then Partly(ifd, mem0, obeys, at, data, pointer + n) else Stored(ifd, mem0, obeys, at, data, false)
  {
    ghost var mem1, partly := ifd.mem, Partly(ifd, mem0, obeys, at, data, pointer);
    ghost var stored;
    ok, stored := ifd.WriteBlock(data[pointer..pointer + n]);
    if partly {
      WriteOneStored(mem0, mem1, PageSize(ifd.kind), at, data, pointer, n, stored);
    }
    assert n == |data| ==> data[0..n] == data;
  }

  /** A range of the memory after a write: nothing else changed; if the write went through, the card is
      unlocked and does as it is told, the range holds the data; a locked card is unchanged. */
  ghost predicate Stored(ifd: Device, mem0: bytes, obeys: bool, at: nat, data: bytes, ok: bool)
    reads ifd`mem, ifd`verified
  {
    && Confined(mem0, ifd.mem, at, |data|)
    && (ok && !ifd.Locked() && obeys ==> ifd.mem == Splice(mem0, at, data))
    && (ifd.Locked() ==> ifd.mem == mem0)
  }

  lemma StoredNothing(ifd: Device, at: nat, data: bytes)
    ensures at + |data| <= |ifd.mem| ==> Stored(ifd, ifd.mem, ifd.Obeys(), at, data[..0], true)
  {
  }

  lemma {:induction false} WriteOneStored(mem0: bytes, mem1: bytes, page: Page, at: nat, data: bytes, pointer: nat, n: nat, stored: bytes)
    requires 1 <= n && pointer + n <= |data| && InPage(page, at, |data|) && at + |data| <= |mem0|
    requires |stored| == n && Confined(mem0, mem1, at, pointer)
    ensures PageWrite(mem1, page, at + pointer, stored) == Splice(mem1, at + pointer, stored)
    ensures Confined(mem0, Splice(mem1, at + pointer, stored), at, pointer + n)
    ensures Confined(mem0, Splice(mem1, at + pointer, stored), at, |data|)
    ensures Confined(mem0, mem1, at, pointer + n) && Confined(mem0, mem1, at, |data|)
    ensures mem1 == Splice(mem0, at, data[..pointer]) && stored == data[pointer..pointer + n] ==>
              Splice(mem1, at + pointer, stored) == Splice(mem0, at, data[..pointer + n])
    ensures pointer + n < |data| ==> PageAdvance(page, at + pointer, n) == at + pointer + n
  {
    BlockInPage(page, at, |data|, pointer, n);
    PageWriteIsFlat(mem1, page, at + pointer, stored);
    WriteOneRange(mem0, mem1, at, |data|, pointer, stored);
    WriteOneData(mem0, mem1, at, data, pointer, n);
  }

  lemma {:induction false} WriteOneRange(mem0: bytes, mem1: bytes, at: nat, length: nat, pointer: nat, stored: bytes)
    requires pointer + |stored| <= length && at + length <= |mem0| && Confined(mem0, mem1, at, pointer)
    ensures var mem2 := Splice(mem1, at + pointer, stored);
            Confined(mem0, mem2, at, pointer + |stored|) && Confined(mem0, mem2, at, length)
    ensures Confined(mem0, mem1, at, pointer + |stored|) && Confined(mem0, mem1, at, length)
  {
    var mem2, n := Splice(mem1, at + pointer, stored), |stored|;
    SpliceConfined(mem1, at + pointer, stored);
    ConfinedTwice(mem0, mem1, mem2, at, pointer + n, at, pointer, at + pointer, n);
    Widen(mem0, mem2, at, pointer + n, length);
    Widen(mem0, mem1, at, pointer, pointer + n);
    Widen(mem0, mem1, at, pointer, length);
  }

  lemma {:induction false} WriteOneData(mem0: bytes, mem1: bytes, at: nat, data: bytes, pointer: nat, n: nat)
    requires pointer + n <= |data| && at + |data| <= |mem0| == |mem1|
    ensures mem1 == Splice(mem0, at, data[..pointer]) ==>
              Splice(mem1, at + pointer, data[pointer..pointer + n]) == Splice(mem0, at, data[..pointer + n])
  {
    SpliceJoin(mem0, at, data[..pointer], data[pointer..pointer + n]);
    assert data[..pointer] + data[pointer..pointer + n] == data[..pointer + n];
  }

  lemma {:induction false} Widen(a: bytes, b: bytes, at: nat, m: nat, n: nat)
    requires Confined(a, b, at, m) && m <= n && at + n <= |a|
    ensures Confined(a, b, at, n)
  {
    Suffix(a, b, at + m, at + n);
  }

  lemma {:induction false} BlockInPage(page: Page, at: nat, length: nat, pointer: nat, n: nat)
    requires 1 <= n && pointer + n <= length && InPage(page, at, length)
    ensures InPage(page, at + pointer, n)
    ensures pointer + n < length ==> PageAdvance(page, at + pointer, n) == at + pointer + n
  {
    PageAdvanceInside(page, at, pointer);
    if pointer + n < length {
      PageAdvanceInside(page, at + pointer, n);
    }
  }

  // ----- the card object -----

  class Card {
    const ifd: Device
    var active: bool
    var pinOk: bool
    var pinNeeded: bool
    var pin: bytes

    /** The card fits the driver's addresses and its power state is known. */
    ghost predicate Valid()
      reads this, ifd`powered, ifd`mem, ifd`trials
    {
      ifd.powered == active && ifd.trials <= MaxTrials(ifd.kind) && |ifd.mem| <= AddressSpace(ifd.kind) && |ifd.mem| <= 65535
    }

    /** What the driver believes about the PIN is true of the card: a cached PIN is the card's, and on an
        active card with a cached PIN nothing has to be presented again. */
    ghost predicate PinInv()
      reads this, ifd
    {
      HasPin(ifd.kind) ==>
        && (pinOk ==> ifd.Knows(pin) && ifd.trials == MaxTrials(ifd.kind))
        && (active && pinOk ==> !pinNeeded && ifd.verified)
        && (ifd.verified ==> active && pinOk)
        && (if ifd.kind == TwoWire then !active ==> pinNeeded else active)
    }

    /** The state ICC_Sync_Init leaves: only a 3-wire card stays active. */
    constructor (ifd: Device)
      requires !ifd.verified && ifd.powered == (ifd.kind == ThreeWire) && ifd.trials <= MaxTrials(ifd.kind)
      requires |ifd.mem| <= AddressSpace(ifd.kind) && |ifd.mem| <= 65535
      ensures Valid() && PinInv() && this.ifd == ifd && !pinOk
    {
      this.ifd := ifd;
      this.active := ifd.kind == ThreeWire;
      this.pinOk, this.pinNeeded, this.pin := false, true, [0, 0, 0];
    }

    /** ICC_Sync_ProbePagemode with the mask that ICC_Sync_Write derives from it. */
    function PageMask(): nat {
      MaskFor(ifd.kind)
    }

    /** Powers the card down after an access, except a 3-wire card. */
    method Release() returns (ret: Code)
      requires Valid()
      modifies this`active, this`pinNeeded, ifd`faults, ifd`powered, ifd`verified
      ensures Valid() && (ret == IfdError <==> ifd.kind != ThreeWire && old(active) && Fails(old(ifd.faults), 0))
      ensures ret == Ok || ret == IfdError
      ensures old(ifd.Healthy()) ==> ifd.Healthy() && ret == Ok
      ensures if ret == Ok && ifd.kind != ThreeWire && old(active) then !active && pinNeeded && !ifd.verified
              else active == old(active) && pinNeeded == old(pinNeeded) && ifd.verified == old(ifd.verified)
    {
      if ifd.kind != ThreeWire && active {
        var ok := ifd.Deactivate();
        if !ok {
          return IfdError;
        }
        pinNeeded, active := true, false;
      }
      ret := Ok;
    }

    method Read(address: nat, length: nat) returns (ret: Code, data: bytes)
      requires Valid()
      modifies this`active, this`pinNeeded, ifd`faults, ifd`powered, ifd`verified, ifd`readAt
      ensures Valid() && (ret == Ok || ret == IfdError)
      ensures old(ifd.Healthy()) ==> ifd.Healthy() && ret == Ok
      ensures ret == Ok ==> (old(PinInv()) ==> PinInv()) && (ifd.kind != ThreeWire ==> !active)
      ensures ret == Ok ==> |data| == length && (length == 0 || address < |ifd.mem| ==> data == Fetch(ifd.mem, address, length))
      // a reader error after the card was powered up, and only that, leaves a cached PIN unpresented
      ensures ifd.kind == TwoWire && old(PinInv()) ==>
                (NoStalePin() <==> !(old(!active && pinOk) && !Fails(old(ifd.faults), 0) && AnyFails(old(ifd.faults), 1, Blocks(length) + 3)))
    {
      if !active {
        var ok := ifd.Activate();
        if !ok {
          return IfdError, [];
        }
        active := true;
        AnyAfterFirst(old(ifd.faults), Blocks(length) + 2);
      }
      ret, data := ReadActive(address, length);
    }

    /** Reads from an active card and powers it down. */
    method ReadActive(address: nat, length: nat) returns (ret: Code, data: bytes)
      requires Valid() && active
      modifies this`active, this`pinNeeded, ifd`faults, ifd`powered, ifd`verified, ifd`readAt
      ensures Valid() && (ret == Ok || ret == IfdError)
      ensures old(ifd.Healthy()) ==> ifd.Healthy() && ret == Ok
      ensures ret == Ok ==> |data| == length && (length == 0 || address < |ifd.mem| ==> data == Fetch(ifd.mem, address, length))
      ensures if ret == Ok && ifd.kind != ThreeWire then !active && pinNeeded && !ifd.verified
              else active && pinNeeded == old(pinNeeded) && ifd.verified == old(ifd.verified)
      ensures ifd.kind == TwoWire ==> (ret == IfdError <==> AnyFails(old(ifd.faults), 0, Blocks(length) + 2))
    {
      data := [];
      ReadFaults(ifd.faults, Blocks(length));
      var ok := ifd.SetReadAddress(address);
      if !ok {
        return IfdError, [];
      }
      if address < |ifd.mem| {
        AddressKept(ifd.kind, address);
      }
      ok, data := ReadBuffer(ifd, length);
      if !ok {
        return IfdError, data;
      }
      if length == 0 {
        assert data == [] == Fetch(ifd.mem, address, 0);
      }
      ret := Release();
    }

    /** The field half of PinInv for a 2-wire card: a cached PIN need not be presented while the card is
        active. */
    ghost predicate NoStalePin()
      reads this
    {
      active && pinOk ==> !pinNeeded
    }

    /** The dialogue with a powered card: error counter, PIN, error counter again. */
    method Present(newPin: bytes) returns (ret: Code, trials: nat, newTrials: nat)
      requires ifd.trials <= MaxTrials(ifd.kind)
      modifies ifd`faults, ifd`trials, ifd`verified
      ensures old(ifd.Healthy()) ==> ifd.Healthy()
      ensures ifd.trials <= MaxTrials(ifd.kind)
      ensures ret == Ok || ret == IfdError || ret == BlockedError
      ensures ret == IfdError <==>
                Fails(old(ifd.faults), 0) || (old(ifd.trials) > 0 && (Fails(old(ifd.faults), 1) || Fails(old(ifd.faults), 2)))
      ensures ret == BlockedError ==> old(ifd.trials) == trials == 0 && ifd.trials == 0 && ifd.verified == old(ifd.verified)
      ensures ret == Ok ==> trials == old(ifd.trials) > 0 && newTrials == ifd.trials && ifd.verified == ifd.Knows(newPin)
                            && newTrials == if ifd.Knows(newPin) then MaxTrials(ifd.kind) else trials - 1
    {
      var ok;
      newTrials := 0;
      ok, trials := ifd.ReadErrorCounter();
      if !ok {
        return IfdError, trials, 0;
      }
      if trials == 0 {
        return BlockedError, trials, 0;
      }
      ok := ifd.EnterPin(newPin);
      if !ok {
        return IfdError, trials, 0;
      }
      ok, newTrials := ifd.ReadErrorCounter();
      ret := if ok then Ok else IfdError;
    }

    method EnterPin(newPin: bytes) returns (ret: Code, trials: nat)
      requires Valid()
      modifies this, ifd`faults, ifd`powered, ifd`trials, ifd`verified
      ensures Valid() && (old(ifd.Healthy()) ==> ifd.Healthy())
      ensures !HasPin(ifd.kind) ==> ret == Ok
      // without reader errors the answer is the card's, and the belief about the PIN stays true
      ensures old(ifd.Healthy()) && HasPin(ifd.kind) ==>
                && ret == (if old(ifd.trials) == 0 then BlockedError else if ifd.Knows(newPin) then Ok else PinError)
                && trials == ifd.trials && (ret == PinError ==> trials == old(ifd.trials) - 1)
      ensures old(PinInv()) && ret != IfdError ==> PinInv()
      ensures ret == Ok && HasPin(ifd.kind) ==>
                active && pinOk && !pinNeeded && pin == newPin && ifd.Knows(pin) && ifd.verified && ifd.trials == MaxTrials(ifd.kind)
      ensures old(active) ==> active
      ensures ret != RoError && (ret == BlockedError ==> old(ifd.trials) == 0)
      ensures ret == IfdError || ret == BlockedError ==> pinOk == old(pinOk) && pinNeeded == old(pinNeeded)
      ensures old(active) && HasPin(ifd.kind) && old(ifd.trials) > 0 ==>
                (ret == IfdError <==> Fails(old(ifd.faults), 0) || Fails(old(ifd.faults), 1) || Fails(old(ifd.faults), 2))
      ensures HasPin(ifd.kind) && (ret == Ok || ret == PinError) ==> (ret == Ok <==> ifd.Knows(newPin))
      // a reader error after the card was powered up, and only that, leaves a cached PIN unpresented
      ensures ifd.kind == TwoWire && old(PinInv()) ==>
                (NoStalePin() <==> !(old(!active && pinOk) && TripsAfterActivation(old(ifd.faults))))
    {
      trials := 0;
      if !HasPin(ifd.kind) {
        return Ok, 0;
      }
      if !active {
        var ok := ifd.Activate();
        if !ok {
          return IfdError, 0;
        }
        active := true;
        FailsTail(old(ifd.faults));
      }
      var newTrials;
      ret, trials, newTrials := Present(newPin);
      if ret == Ok {
        if newTrials < trials {
          ret, pinOk := PinError, false;
        } else {
          pin, pinOk, pinNeeded := newPin, true, false;
        }
        trials := newTrials;
      }
    }

    /** Powers the card up before an access that needs the PIN, and presents the cached one again. */
    method Prepare() returns (ret: Code)
      requires Valid()
      modifies this, ifd`faults, ifd`powered, ifd`trials, ifd`verified
      ensures Valid() && (ret == Ok ==> active) && (old(ifd.Healthy()) ==> ifd.Healthy())
      ensures (old(PinInv()) ==> ret == Ok || ret == IfdError) && (old(ifd.Healthy() && PinInv()) ==> ret == Ok)
      ensures old(PinInv()) && ret == Ok ==> PinInv() && pinOk == old(pinOk)
      ensures ret != RoError && (old(active) ==> ret == Ok && active && ifd.verified == old(ifd.verified))
      ensures ret == Ok && old(pinOk) && HasPin(ifd.kind) && old(!active && pinNeeded) ==> !pinNeeded
      ensures ifd.kind == TwoWire && old(PinInv()) ==>
                (NoStalePin() <==> !(old(!active && pinOk) && TripsAfterActivation(old(ifd.faults))))
    {
      ret := Ok;
      if !active {
        var ok := ifd.Activate();
        if !ok {
          return IfdError;
        }
        active := true;
        FailsTail(old(ifd.faults));
        if pinOk && HasPin(ifd.kind) && pinNeeded {
          var trials;
          ret, trials := EnterPin(pin);
        }
      }
    }

    /** The PIN of a card is changed only after it has been verified; otherwise the driver would believe in
        a PIN that the card does not have. */
    method ChangePin(newPin: bytes) returns (ret: Code)
      requires Valid()
      modifies this, ifd`faults, ifd`powered, ifd`trials, ifd`verified, ifd`secret
      ensures Valid() && (old(ifd.Healthy()) ==> ifd.Healthy())
      ensures !HasPin(ifd.kind) ==> ret == Ok && ifd.secret == old(ifd.secret)
      ensures old(ifd.Healthy() && PinInv()) ==> ret == Ok
      ensures old(ifd.Healthy() && PinInv()) && HasPin(ifd.kind) ==> (PinInv() <==> old(pinOk))
      ensures old(ifd.Healthy() && PinInv() && pinOk) && HasPin(ifd.kind) ==> ifd.secret == newPin && pin == newPin
      ensures ret == Ok && HasPin(ifd.kind) ==> pinOk
      ensures ifd.kind == TwoWire && old(PinInv()) ==>
                (NoStalePin() <==> !(old(!active && pinOk) && TripsAfterActivation(old(ifd.faults))))
    {
      ret := Ok;
      if !HasPin(ifd.kind) {
        return;
      }
      ret := Prepare();
      if ret != Ok {
        return;
      }
      var ok := ifd.ChangePin(newPin);
      if !ok {
        return IfdError;
      }
      pin, pinOk, pinNeeded := newPin, true, false;
    }

    /** Able to write: the card has no PIN, or the right one is cached. */
    ghost predicate Unlockable()
      reads this, ifd
    {
      HasPin(ifd.kind) ==> pinOk
    }

    /** Writes a chunk without looking back. */
    method Put(address: nat, chunk: bytes) returns (ret: Code)
      requires Valid() && address + |chunk| <= |ifd.mem| && chunk != [] && InPage(PageSize(ifd.kind), address, |chunk|)
      modifies this, ifd`faults, ifd`writes, ifd`mem, ifd`powered, ifd`trials, ifd`verified, ifd`writeAt, ifd`lockedWrites
      ensures Valid() && Confined(old(ifd.mem), ifd.mem, address, |chunk|)
      ensures (old(ifd.Healthy()) ==> ifd.Healthy()) && Spent(old(ifd.writes), ifd.writes, ret == Ok)
      ensures (old(PinInv()) ==> ret == Ok || ret == IfdError) && (old(ifd.Healthy() && PinInv()) ==> ret == Ok)
      ensures old(PinInv()) && ret == Ok ==> PinInv() && pinOk == old(pinOk)
      ensures old(ifd.Healthy() && PinInv() && Unlockable()) ==>
                && ifd.lockedWrites == old(ifd.lockedWrites)
                && (old(ifd.Obeys()) ==> ifd.mem == Splice(old(ifd.mem), address, chunk))
                && (|chunk| < BLOCK ==> ifd.writes == old(ifd.writes) + 1
                                        && ifd.mem == Splice(old(ifd.mem), address, StoredAs(ifd.flaws, old(ifd.writes), chunk)))
      // an active card is not presented the PIN, so one whose PIN is unpresented is written to while locked
      ensures ret != RoError && LockedWriteCounts(ret == Ok, old(active && ifd.Locked()), old(ifd.lockedWrites), ifd.lockedWrites)
    {
      Widen(ifd.mem, ifd.mem, address, 0, |chunk|);
      ret := Prepare();
      if ret == Ok {
        ret := WriteActive(address, chunk);
      }
    }

    /** Writes to an active card and powers it down. */
    method WriteActive(address: nat, chunk: bytes) returns (ret: Code)
      requires Valid() && active && address + |chunk| <= |ifd.mem| && chunk != [] && InPage(PageSize(ifd.kind), address, |chunk|)
      modifies this`active, this`pinNeeded, ifd`faults, ifd`writes, ifd`mem, ifd`powered, ifd`verified, ifd`writeAt, ifd`lockedWrites
      ensures Valid() && Confined(old(ifd.mem), ifd.mem, address, |chunk|) && (ret == Ok || ret == IfdError)
      ensures (old(ifd.Healthy()) ==> ifd.Healthy() && ret == Ok) && Spent(old(ifd.writes), ifd.writes, ret == Ok)
      ensures ret == Ok ==> if ifd.kind != ThreeWire then !active && pinNeeded && !ifd.verified
                            else active && pinNeeded == old(pinNeeded) && ifd.verified == old(ifd.verified)
      ensures !old(ifd.Locked()) ==> ifd.lockedWrites == old(ifd.lockedWrites)
      ensures !old(ifd.Locked()) && ret == Ok && old(ifd.Obeys()) ==> ifd.mem == Splice(old(ifd.mem), address, chunk)
      ensures !old(ifd.Locked()) && ret == Ok && |chunk| < BLOCK ==>
                ifd.writes == old(ifd.writes) + 1 && ifd.mem == Splice(old(ifd.mem), address, StoredAs(ifd.flaws, old(ifd.writes), chunk))
      ensures LockedWriteCounts(ret == Ok, old(ifd.Locked()), old(ifd.lockedWrites), ifd.lockedWrites)
    {
      Widen(ifd.mem, ifd.mem, address, 0, |chunk|);
      var ok := ifd.SetWriteAddress(address);
      if !ok {
        return IfdError;
      }
      AddressKept(ifd.kind, address);
      PageWriteIsFlat(ifd.mem, PageSize(ifd.kind), address, StoredAs(ifd.flaws, ifd.writes, chunk));
      ok := WriteBuffer(ifd, chunk);
      if !ok {
        return IfdError;
      }
      ret := Release();
    }

    /** One attempt at a chunk: write it and read it back. */
    method TryChunk(address: nat, chunk: bytes) returns (ret: Code, same: bool)
      requires Valid() && address + |chunk| <= |ifd.mem| && chunk != [] && InPage(PageSize(ifd.kind), address, |chunk|)
      modifies this, ifd`faults, ifd`writes, ifd`mem, ifd`powered, ifd`trials, ifd`verified, ifd`readAt, ifd`writeAt, ifd`lockedWrites
      ensures Valid() && Confined(old(ifd.mem), ifd.mem, address, |chunk|)
      ensures (old(ifd.Healthy()) ==> ifd.Healthy()) && Spent(old(ifd.writes), ifd.writes, ret == Ok)
      ensures ret == Ok && same ==> ifd.mem == Splice(old(ifd.mem), address, chunk)
      ensures (old(PinInv()) ==> ret == Ok || ret == IfdError) && (old(ifd.Healthy() && PinInv()) ==> ret == Ok)
      ensures old(PinInv()) && ret == Ok ==> PinInv() && pinOk == old(pinOk)
      ensures old(ifd.Healthy() && PinInv() && Unlockable()) ==>
                && ifd.lockedWrites == old(ifd.lockedWrites) && (old(ifd.Obeys()) ==> same)
                && (|chunk| < BLOCK ==> ifd.writes == old(ifd.writes) + 1 && (same <==> StoredAs(ifd.flaws, old(ifd.writes), chunk) == chunk))
      ensures ret != RoError && LockedWriteCounts(ret == Ok, old(active && ifd.Locked()), old(ifd.lockedWrites), ifd.lockedWrites)
    {
      same := false;
      ret := Put(address, chunk);
      if ret != Ok {
        return;
      }
      var back;
      ghost var stored := StoredAs(ifd.flaws, old(ifd.writes), chunk);
      SpliceFetch(old(ifd.mem), address, stored);
      ret, back := Read(address, |chunk|);
      same := back == chunk;
      if ret == Ok && same {
        ReadBackIsSplice(old(ifd.mem), ifd.mem, address, chunk);
      }
    }

    /** A chunk with its retries: the attempts stop at the first one that reads back right. */
    method WriteChunk(address: nat, chunk: bytes, maxRetries: nat) returns (ret: Code)
      requires Valid() && address + |chunk| <= |ifd.mem| && chunk != [] && InPage(PageSize(ifd.kind), address, |chunk|)
      requires maxRetries >= 1
      modifies this, ifd`faults, ifd`writes, ifd`mem, ifd`powered, ifd`trials, ifd`verified, ifd`readAt, ifd`writeAt, ifd`lockedWrites
      ensures Valid() && Confined(old(ifd.mem), ifd.mem, address, |chunk|)
      ensures (old(ifd.Healthy()) ==> ifd.Healthy()) && old(ifd.writes) <= ifd.writes
      ensures ret == Ok ==> ifd.mem == Splice(old(ifd.mem), address, chunk)
      ensures (old(PinInv()) ==> ret == Ok || ret == RoError || ret == IfdError) && (old(ifd.Healthy() && PinInv()) ==> ret != IfdError)
      ensures old(PinInv()) && ret != IfdError ==> PinInv() && pinOk == old(pinOk)
      ensures old(ifd.Healthy() && PinInv() && Unlockable()) ==>
                && ifd.lockedWrites == old(ifd.lockedWrites) && (|ifd.flaws| < old(ifd.writes) + maxRetries ==> ret == Ok)
                && (|chunk| < BLOCK ==> (ret == RoError <==> Spoiled(ifd.flaws, old(ifd.writes), chunk, maxRetries)))
      ensures LockedWriteCounts(ret == Ok || ret == RoError, old(active && ifd.Locked()), old(ifd.lockedWrites), ifd.lockedWrites)
    {
      var retries, same := 0, false;
      ghost var mem0, n := ifd.mem, |chunk|;
      Widen(mem0, mem0, address, 0, n);
      ret := Ok;
      while !same && retries < maxRetries
        invariant Valid() && ret == Ok && retries <= maxRetries && Confined(mem0, ifd.mem, address, n)
        invariant (old(ifd.Healthy()) ==> ifd.Healthy()) && old(ifd.writes) <= ifd.writes
        invariant same ==> retries < maxRetries && ifd.mem == Splice(mem0, address, chunk)
        invariant old(PinInv()) ==> PinInv() && pinOk == old(pinOk)
        invariant old(ifd.Healthy() && PinInv() && Unlockable()) ==>
                    ifd.lockedWrites == old(ifd.lockedWrites) && (same || retries + old(ifd.writes) <= ifd.writes)
                    && (retries > 0 ==> old(ifd.writes) + retries <= |ifd.flaws|)
        invariant old(ifd.Healthy() && PinInv() && Unlockable()) && n < BLOCK ==>
                    && Spoiled(ifd.flaws, old(ifd.writes), chunk, retries) && (same ==> StoredAs(ifd.flaws, old(ifd.writes) + retries, chunk) == chunk)
                    && (!same ==> ifd.writes == old(ifd.writes) + retries)
        invariant LockedWriteCounts(same || retries > 0, old(active && ifd.Locked()), old(ifd.lockedWrites), ifd.lockedWrites)
        invariant !same && retries == 0 ==> active == old(active) && ifd.Locked() == old(ifd.Locked())
        decreases !same, maxRetries - retries
      {
        ghost var mem1 := ifd.mem;
        ret, same := TryChunk(address, chunk);
        ConfinedTwice(mem0, mem1, ifd.mem, address, n, address, n, address, n);
        if ret != Ok {
          return;
        }
        if same {
          SpliceOver(mem0, mem1, address, chunk);
        } else {
          retries := retries + 1;
        }
      }
      if retries == maxRetries {
        return RoError;
      }
    }

    /** Writes the next chunk of the data: as much as fits into the page that the address lies in. */
    method WriteNext(ghost mem0: bytes, address: nat, data: bytes, written: nat, maxRetries: nat) returns (ret: Code, n: nat)
      requires Valid() && written < |data| && address + |data| <= |mem0| && maxRetries >= 1
      requires ifd.mem == Splice(mem0, address, data[..written])
      modifies this, ifd`faults, ifd`writes, ifd`mem, ifd`powered, ifd`trials, ifd`verified, ifd`readAt, ifd`writeAt, ifd`lockedWrites
      ensures Valid() && 1 <= n <= |data| - written && Confined(mem0, ifd.mem, address, |data|)
      ensures n == Min(Min(256, |data| - written), PageSize(ifd.kind) - (address + written) % PageSize(ifd.kind))
      ensures (old(ifd.Healthy()) ==> ifd.Healthy()) && old(ifd.writes) <= ifd.writes
      ensures ret == Ok ==> ifd.mem == Splice(mem0, address, data[..written + n])
      ensures (old(PinInv()) ==> ret == Ok || ret == RoError || ret == IfdError) && (old(ifd.Healthy() && PinInv()) ==> ret != IfdError)
      ensures old(PinInv()) && ret != IfdError ==> PinInv() && pinOk == old(pinOk)
      ensures old(ifd.Healthy() && PinInv() && Unlockable()) ==>
                && ifd.lockedWrites == old(ifd.lockedWrites) && (|ifd.flaws| < old(ifd.writes) + maxRetries ==> ret == Ok)
                && (written == 0 && n == |data| < BLOCK ==> (ret == RoError <==> Spoiled(ifd.flaws, old(ifd.writes), data, maxRetries)))
      ensures LockedWriteCounts(ret == Ok || ret == RoError, old(active && ifd.Locked()), old(ifd.lockedWrites), ifd.lockedWrites)
    {
      var at := address + written;
      n := Min(Min(MAX_TRANSMIT, |data| - written), OrMask(at, PageMask()) + 1 - at);
      ChunkInPage(ifd.kind, at, |data| - written);
      ghost var mem1 := ifd.mem;
      assert data[0..|data|] == data;
      ret := WriteChunk(at, data[written..written + n], maxRetries);
      ChunkConfined(mem0, mem1, ifd.mem, address, data, written, n);
    }

    /** ICC_Sync_Write: the data is split so that no chunk leaves its page. */
    method Write(address: nat, data: bytes) returns (ret: Code)
      requires Valid() && (data == [] || address + |data| <= |ifd.mem|)
      modifies this, ifd`faults, ifd`writes, ifd`mem, ifd`powered, ifd`trials, ifd`verified, ifd`readAt, ifd`writeAt, ifd`lockedWrites
      ensures Valid() && (old(ifd.Healthy()) ==> ifd.Healthy())
      // nothing outside the range changes, whatever happens
      ensures if data == [] then ifd.mem == old(ifd.mem) && ret == Ok else Confined(old(ifd.mem), ifd.mem, address, |data|)
      // an OK return means that the range holds the data, even if the card does not do as it is told
      ensures ret == Ok && data != [] ==> ifd.mem == Splice(old(ifd.mem), address, data)
      // without reader errors the retries end in OK or read-only, and only a reader error can make the belief
      // about the PIN wrong
      ensures (old(PinInv()) ==> ret == Ok || ret == RoError || ret == IfdError) && (old(ifd.Healthy() && PinInv()) ==> ret != IfdError)
      ensures old(PinInv()) && ret != IfdError ==> PinInv() && pinOk == old(pinOk)
      // with the PIN cached no write reaches a locked card, and a card that spoils fewer writes than there are attempts
      // is written
      ensures old(ifd.Healthy() && PinInv() && Unlockable()) ==>
                && ifd.lockedWrites == old(ifd.lockedWrites) && (|ifd.flaws| < old(ifd.writes) + Attempts(ifd.kind, |data|) ==> ret == Ok)
                // and what fits one block of a page is answered read-only exactly if every attempt is spoiled
                && (1 <= |data| < BLOCK && InPage(PageSize(ifd.kind), address, |data|) ==>
                      (ret == RoError <==> Spoiled(ifd.flaws, old(ifd.writes), data, Attempts(ifd.kind, |data|))))
      // a cached PIN left unpresented on an active card lets the write reach the card while it is locked
      ensures LockedWriteCounts(data != [] && (ret == Ok || ret == RoError), old(active && ifd.Locked()), old(ifd.lockedWrites), ifd.lockedWrites)
    {
      ret := Ok;
      if data != [] {
        var maxRetries := if |data| > 1 && (ifd.kind == I2cShort || ifd.kind == I2cLong) then I2C_MAX_RETRIES else 1;
        ret := WriteAll(address, data, maxRetries);
      }
    }

    /** The loop over the chunks. */
    method WriteAll(address: nat, data: bytes, maxRetries: nat) returns (ret: Code)
      requires Valid() && data != [] && address + |data| <= |ifd.mem| && maxRetries >= 1
      modifies this, ifd`faults, ifd`writes, ifd`mem, ifd`powered, ifd`trials, ifd`verified, ifd`readAt, ifd`writeAt, ifd`lockedWrites
      ensures Valid() && (old(ifd.Healthy()) ==> ifd.Healthy()) && Confined(old(ifd.mem), ifd.mem, address, |data|)
      ensures ret == Ok ==> ifd.mem == Splice(old(ifd.mem), address, data)
      ensures (old(PinInv()) ==> ret == Ok || ret == RoError || ret == IfdError) && (old(ifd.Healthy() && PinInv()) ==> ret != IfdError)
      ensures old(PinInv()) && ret != IfdError ==> PinInv() && pinOk == old(pinOk)
      ensures old(ifd.Healthy() && PinInv() && Unlockable()) ==>
                && ifd.lockedWrites == old(ifd.lockedWrites) && (|ifd.flaws| < old(ifd.writes) + maxRetries ==> ret == Ok)
                && (|data| < BLOCK && InPage(PageSize(ifd.kind), address, |data|) ==>
                      (ret == RoError <==> Spoiled(ifd.flaws, old(ifd.writes), data, maxRetries)))
      ensures LockedWriteCounts(ret == Ok || ret == RoError, old(active && ifd.Locked()), old(ifd.lockedWrites), ifd.lockedWrites)
    {
      ret := Ok;
      var written := 0;
      ghost var mem0, open := ifd.mem, ifd.Healthy() && PinInv() && Unlockable();
      ghost var single := open && |data| < BLOCK && InPage(PageSize(ifd.kind), address, |data|);
      ghost var spoiled := Spoiled(ifd.flaws, ifd.writes, data, maxRetries);
      SpliceEnds(mem0, address, data);
      WholeChunk(ifd.kind, address, data);
      while written < |data|
        invariant Valid() && written <= |data| && ret == Ok
        invariant (old(ifd.Healthy()) ==> ifd.Healthy()) && old(ifd.writes) <= ifd.writes
        invariant ifd.mem == Splice(mem0, address, data[..written])
        invariant old(PinInv()) ==> PinInv() && pinOk == old(pinOk)
        invariant open ==> Unlockable() && ifd.lockedWrites == old(ifd.lockedWrites)
        invariant LockedWriteCounts(written > 0, old(active && ifd.Locked()), old(ifd.lockedWrites), ifd.lockedWrites)
        invariant written == 0 ==> active == old(active) && ifd.Locked() == old(ifd.Locked()) && ifd.writes == old(ifd.writes)
        invariant single && written > 0 ==> written == |data| && !spoiled
      {
        var n;
        ret, n := WriteNext(mem0, address, data, written, maxRetries);
        if ret != Ok {
          return;
        }
        written := written + n;
      }
    }
  }

  /** On a 2-wire card whose PIN was verified, a read and then one reader error leave the card active, with the PIN
      cached and unpresented. */
  method LeaveStalePin(mem: bytes, secret: bytes) returns (card: Card)
    requires |mem| <= AddressSpace(TwoWire)
    ensures fresh(card) && card.Valid() && !card.NoStalePin() && card.active && card.pinOk && card.pinNeeded
  {
    var ifd := new Device(TwoWire, mem, secret, [], []);
    card := new Card(ifd);
    var ret, trials := card.EnterPin(secret);
    var read, data := card.Read(0, 0);
    ifd.faults := [false, true];
    ret, trials := card.EnterPin(secret);
  }

  /** Changing the PIN of a card to which none was presented: the card keeps its PIN, and the driver believes in
      another one. */
  method ChangeUnverified(mem: bytes, secret: bytes, newPin: bytes) returns (card: Card, ret: Code)
    requires |mem| <= AddressSpace(TwoWire)
    ensures fresh(card) && ret == Ok && card.Valid() && card.pinOk && !card.PinInv()
  {
    var ifd := new Device(TwoWire, mem, secret, [], []);
    card := new Card(ifd);
    ret := card.ChangePin(newPin);
  }

  /** Locked writes never become fewer, and more if a write went through to an active card that was locked. */
  predicate LockedWriteCounts(through: bool, locked: bool, before: nat, after: nat) {
    before <= after && (through && locked ==> before < after)
  }

  /** The operations of a read from an active card: the address, the blocks, powering down. */
  lemma {:induction false} ReadFaults(faults: seq<bool>, n: nat)
    ensures AnyFails(faults, 0, n + 2) <==> Fails(faults, 0) || AnyFails(Rest(faults), 0, n) || Fails(Rest(faults), n)
  {
    AnyAfterFirst(faults, n + 1);
    AnyOneMore(Rest(faults), n);
  }

  lemma FailsTail(faults: seq<bool>)
    ensures var rest := if faults == [] then [] else faults[1..];
            forall i: nat :: Fails(rest, i) == Fails(faults, i + 1)
  {
  }

  /** The first coming operation succeeds and one of the three after it fails. */
  predicate TripsAfterActivation(faults: seq<bool>) {
    !Fails(faults, 0) && (Fails(faults, 1) || Fails(faults, 2) || Fails(faults, 3))
  }

  function MaskFor(kind: Kind): nat {
    var pagemode := if kind == I2cLong then 0x40 else 0x00;
    (pagemode - 1) % 256
  }

  /** a | mask for a mask of the form 2^k - 1. */
  function OrMask(a: nat, mask: nat): nat { a - a % (mask + 1) + mask }

  /** The chunk length is positive and the chunk stays in its page. */
  lemma {:induction false} ChunkInPage(kind: Kind, at: nat, left: nat)
    requires left > 0
    ensures var n := Min(Min(MAX_TRANSMIT, left), OrMask(at, MaskFor(kind)) + 1 - at);
            1 <= n <= left && InPage(PageSize(kind), at, n) && n == Min(Min(256, left), PageSize(kind) - at % PageSize(kind))
  {
    if kind == I2cLong {
      assert MaskFor(kind) == 63 && OrMask(at, 63) + 1 - at == 64 - at % 64;
    } else {
      assert MaskFor(kind) == 255 && OrMask(at, 255) + 1 - at == 256 - at % 256;
    }
  }

  /** What fits a page is one chunk. */
  lemma {:induction false} WholeChunk(kind: Kind, at: nat, data: bytes)
    ensures InPage(PageSize(kind), at, |data|) ==> Min(Min(256, |data|), PageSize(kind) - at % PageSize(kind)) == |data|
    ensures data[0..|data|] == data
  {
  }

  lemma SpliceFetch(mem: bytes, at: nat, data: bytes)
    requires at + |data| <= |mem|
    ensures Fetch(Splice(mem, at, data), at, |data|) == data
  {
  }

  /** Nothing written yet, and all written. */
  lemma {:induction false} SpliceEnds(mem: bytes, at: nat, data: bytes)
    requires at + |data| <= |mem|
    ensures Splice(mem, at, data[..0]) == mem && Splice(mem, at, data[..|data|]) == Splice(mem, at, data)
    ensures Confined(mem, Splice(mem, at, data), at, |data|)
  {
    assert data[..|data|] == data;
    SpliceConfined(mem, at, data);
  }

  lemma SpliceOver(mem0: bytes, mem1: bytes, at: nat, data: bytes)
    requires Confined(mem0, mem1, at, |data|)
    ensures Splice(mem1, at, data) == Splice(mem0, at, data)
  {
  }

  lemma {:induction false} ChunkConfined(mem0: bytes, mem1: bytes, mem2: bytes, address: nat, data: bytes, written: nat, n: nat)
    requires written + n <= |data| && address + |data| <= |mem0|
    requires mem1 == Splice(mem0, address, data[..written]) && Confined(mem1, mem2, address + written, n)
    ensures Confined(mem0, mem2, address, |data|)
    ensures mem2 == Splice(mem1, address + written, data[written..written + n]) ==>
              mem2 == Splice(mem0, address, data[..written + n])
  {
    SpliceConfined(mem0, address, data[..written]);
    ConfinedTwice(mem0, mem1, mem2, address, |data|, address, written, address + written, n);
    WriteOneData(mem0, mem1, address, data, written, n);
  }
}
