/** Reader frames (src/driver/ifd_towitoko.c): the rotating checksum that closes every command, and the
    splitting of card data into transmit frames. */
module IfdFrame {
  import opened Bytes

  const SLOT_A: byte := 0x00
  const SLOT_B: byte := 0x01
  const MAX_TRANSMIT := 255

  /** A left rotation that inverts the bit carried round. */
  function Rotate(x: byte): byte { 2 * (x % 128) + (1 - x / 128) }

  /** One byte enters the checksum. */
  function Mix(checksum: byte, b: byte): byte { Rotate(Xor(checksum, b)) }

  function Checksum(s: bytes, initial: byte): byte {
    if s == [] then initial else Mix(Checksum(s[..|s| - 1], initial), s[|s| - 1])
  }

  /** IFD_Towitoko_Checksum. */
  method ComputeChecksum(command: array<byte>, size: nat, initial: byte) returns (checksum: byte)
    requires size <= command.Length
    ensures checksum == Checksum(command[..size], initial)
  {
    checksum := initial;
    var i := 0;
    while i < size
      invariant i <= size && checksum == Checksum(command[..i], initial)
    {
      assert command[..i + 1][..i] == command[..i];
      checksum := RotateBits(Xor(checksum, command[i]));
      i := i + 1;
    }
  }

  /** The rotation as it is coded: shift, then set or clear the low bit. */
  method RotateBits(x: byte) returns (r: byte)
    ensures r == Rotate(x)
  {
    var v: int := x;
    var x7 := v / 128;
    r := 2 * v % 256;
    r := if x7 == 0 then r + 1 else r;
  }

  // ----- laws of the checksum -----

  /** The checksum of a concatenation goes on from the checksum of the first part. */
  lemma {:induction false} ChecksumComposes(a: bytes, b: bytes, initial: byte)
    ensures Checksum(a + b, initial) == Checksum(b, Checksum(a, initial))
  {
    if b == [] {
      assert a + b == a;
    } else {
      var n := |b| - 1;
      assert (a + b)[..|a + b| - 1] == a + b[..n];
      ChecksumComposes(a, b[..n], initial);
    }
  }

  lemma RotateInjective(x: byte, y: byte)
    ensures Rotate(x) == Rotate(y) ==> x == y
  {
  }

  lemma {:induction false} MixInjective(c: byte, d: byte, b: byte)
    ensures Mix(c, b) == Mix(d, b) ==> c == d
    ensures Mix(b, c) == Mix(b, d) ==> c == d
  {
    XorInjective(c, d, b);
    RotateInjective(Xor(c, b), Xor(d, b));
    RotateInjective(Xor(b, c), Xor(b, d));
  }

  /** Different initial values give different checksums, whatever the command. */
  lemma {:induction false} InitialInjective(s: bytes, i: byte, j: byte)
    requires Checksum(s, i) == Checksum(s, j)
    ensures i == j
  {
    if s != [] {
      var t := s[..|s| - 1];
      MixInjective(Checksum(t, i), Checksum(t, j), s[|s| - 1]);
      InitialInjective(t, i, j);
    }
  }

  /** Changing any one byte, at any place of a command of any length, changes the checksum. */
  lemma {:induction false} OneByteDetected(a: bytes, x: byte, y: byte, b: bytes, initial: byte)
    requires x != y
    ensures Checksum(a + [x] + b, initial) != Checksum(a + [y] + b, initial)
  {
    var c := Checksum(a, initial);
    ChecksumComposes(a + [x], b, initial);
    ChecksumComposes(a + [y], b, initial);
    assert (a + [x])[..|a|] == a && (a + [y])[..|a|] == a;
    MixInjective(x, y, c);
    if Checksum(b, Mix(c, x)) == Checksum(b, Mix(c, y)) {
      InitialInjective(b, Mix(c, x), Mix(c, y));
    }
  }

  // ----- frames -----

  /** What a reader in the given slot accepts: the last byte is the checksum of the ones before it. */
  predicate Accepted(slot: byte, wire: bytes) {
    wire != [] && wire[|wire| - 1] == Checksum(wire[..|wire| - 1], slot)
  }

  /** IFD_Towitoko_PrepareCommand: puts the checksum at the end of the command. At 115200 bps a length byte is
      written first; `prefix` is what has gone out before the command. */
  method PrepareCommand(slot: byte, fast: bool, command: array<byte>, size: nat) returns (prefix: bytes)
    requires 1 <= size <= command.Length && size <= 256
    modifies command
    ensures prefix == if fast then [size - 1] else []
    ensures command[..size - 1] == old(command[..size - 1]) && command[size..] == old(command[size..])
    ensures Accepted(slot, prefix + command[..size])
  {
    var initial := slot;
    prefix := [];
    if fast {
      var buffer := new byte[1];
      buffer[0] := size - 1;
      prefix := [size - 1];
      initial := ComputeChecksum(buffer, 1, slot);
      assert buffer[..1] == prefix;
    }
    ghost var body := command[..size - 1];
    var checksum := ComputeChecksum(command, size - 1, initial);
    command[size - 1] := checksum;
    assert command[..size] == body + [checksum];
    ClosedFrame(slot, prefix, body);
  }

  lemma {:induction false} ClosedFrame(slot: byte, prefix: bytes, body: bytes)
    ensures Accepted(slot, prefix + (body + [Checksum(body, Checksum(prefix, slot))]))
  {
    var wire := prefix + (body + [Checksum(body, Checksum(prefix, slot))]);
    ChecksumComposes(prefix, body, slot);
    assert wire[..|wire| - 1] == prefix + body;
  }

  /** A prepared frame with any one byte changed is refused. */
  lemma {:induction false} CorruptionRefused(slot: byte, wire: bytes, k: nat, y: byte)
    requires Accepted(slot, wire) && k < |wire| && y != wire[k]
    ensures !Accepted(slot, wire[k := y])
  {
    var n := |wire| - 1;
    var bad := wire[k := y];
    if k < n {
      var a, b := wire[..k], wire[k + 1..n];
      assert wire[..n] == a + [wire[k]] + b && bad[..n] == a + [y] + b;
      OneByteDetected(a, wire[k], y, b, slot);
    } else {
      assert bad[..n] == wire[..n];
    }
  }

  /** A frame for one slot is refused by the other. */
  lemma {:induction false} SlotsDistinct(wire: bytes)
    requires Accepted(SLOT_A, wire)
    ensures !Accepted(SLOT_B, wire)
  {
    if Accepted(SLOT_B, wire) {
      InitialInjective(wire[..|wire| - 1], SLOT_A, SLOT_B);
    }
  }

  // ----- transmitting card data -----

  /** How much of the memory behind `buffer` a transmission of `size` bytes reads. Every frame is as long as
      the first one. */
  function Reach(size: nat): nat {
    if size <= MAX_TRANSMIT then size else (size + MAX_TRANSMIT - 1) / MAX_TRANSMIT * MAX_TRANSMIT
  }

  /** The transmission sends exactly the buffer if and only if it fits one frame or fills all of them. */
  lemma ReachExact(size: nat)
    ensures Reach(size) >= size
    ensures Reach(size) == size <==> size <= 255 || size % 255 == 0
  {
  }

  /** IFD_Towitoko_Transmit without its delays: `frames` holds the data of each frame and `headers` the
      command before it. The memory is as long as the accesses need. */
  method Transmit(slot: byte, fast: bool, memory: bytes, size: nat) returns (headers: seq<bytes>, frames: seq<bytes>)
    requires Reach(size) <= |memory|
    ensures Flatten(frames) == memory[..Reach(size)]
    ensures size <= 255 ==> frames == if size == 0 then [] else [memory[..size]]
    ensures AllAnnounced(slot, headers, frames)
    ensures forall i | 0 <= i < |frames| :: |headers[i]| >= 4 && headers[i][|headers[i]| - 4..|headers[i]| - 1] == [0x6F, |frames[i]|, 0x05]
  {
    headers, frames := [], [];
    var sent := 0;
    while sent < size
      invariant OnGrid(size, sent) && Flatten(frames) == memory[..sent] && AllAnnounced(slot, headers, frames)
      invariant size <= MAX_TRANSMIT ==> frames == if sent == 0 then [] else [memory[..size]]
      decreases size - sent
    {
      var n := Min(size, MAX_TRANSMIT);
      GridNext(size, sent);
      var header := TransmitHeader(slot, fast, n);
      var data := memory[sent..sent + n];
      FlattenSnoc(frames, data);
      SliceJoin(memory, sent, sent + n);
      AnnouncedSnoc(slot, headers, frames, header, data);
      headers, frames := headers + [header], frames + [data];
      sent := sent + n;
    }
    GridEnd(size, sent);
  }

  /** The checked part of the transmit command; above 9600 bps two fixed bytes follow it. */
  method TransmitHeader(slot: byte, fast: bool, n: byte) returns (header: bytes)
    ensures Announces(slot, header, n)
  {
    var command := new byte[4];
    command[0], command[1], command[2] := 0x6F, n, 0x05;
    assert command[..3] == [0x6F, n, 0x05];
    var prefix := PrepareCommand(slot, fast, command, 4);
    assert command[..4][..3] == command[..3];
    header := prefix + command[..4];
  }

  /** A transmit header that the reader accepts and that announces n data bytes. */
  predicate Announces(slot: byte, header: bytes, n: nat) {
    && |header| >= 4 && Accepted(slot, header)
    && header[|header| - 4] == 0x6F && header[|header| - 3] == n && header[|header| - 2] == 0x05
  }

  predicate AllAnnounced(slot: byte, headers: seq<bytes>, frames: seq<bytes>) {
    |headers| == |frames| && forall i | 0 <= i < |frames| :: Announces(slot, headers[i], |frames[i]|)
  }

  lemma AnnouncedSnoc(slot: byte, headers: seq<bytes>, frames: seq<bytes>, header: bytes, data: bytes)
    requires AllAnnounced(slot, headers, frames) && Announces(slot, header, |data|)
    ensures AllAnnounced(slot, headers + [header], frames + [data])
  {
  }

  /** Where a transmission can stand between two frames. */
  predicate OnGrid(size: nat, sent: nat) {
    sent <= Reach(size) && if size > MAX_TRANSMIT then sent % MAX_TRANSMIT == 0 else sent == 0 || sent == size
  }

  lemma GridNext(size: nat, sent: nat)
    requires OnGrid(size, sent) && sent < size
    ensures OnGrid(size, sent + Min(size, MAX_TRANSMIT))
  {
  }

  lemma GridEnd(size: nat, sent: nat)
    requires OnGrid(size, sent) && sent >= size
    ensures sent == Reach(size)
  {
  }
}
