/** The link to a processor card (src/driver/icc_async.c): the card is a script of the bytes it
    will send, the reader may fail at any operation. */
module IccAsync {
  import opened Bytes

  datatype Timings = Timings(blockDelay: nat, charDelay: nat, blockTimeout: nat, charTimeout: nat)

  class Icc {
    /** Bytes the card has still to send; when they run out a read times out. */
    var incoming: bytes
    /** Bytes sent to the card so far, and the same by transmissions. */
    var outgoing: bytes
    ghost var frames: seq<bytes>
    /** For each coming reader operation, whether it fails; none fails after the last entry. */
    var faults: seq<bool>
    var timings: Timings
    /** The block timeout that was set at each read. */
    ghost var waited: seq<nat>

    constructor (script: bytes, faults: seq<bool>, timings: Timings)
      ensures incoming == script && outgoing == [] && frames == [] && waited == [] && this.faults == faults && this.timings == timings
    {
      this.incoming, this.outgoing, this.frames, this.waited, this.faults, this.timings := script, [], [], [], faults, timings;
    }

    /** No reader operation will fail. */
    ghost predicate Healthy()
      reads this`faults
    {
      true !in faults
    }

    /** One reader operation: begin or end a transmission, or switch direction. */
    method Attempt() returns (ok: bool)
      modifies this`faults
      ensures old(Healthy()) ==> ok && Healthy()
    {
      ok := true;
      if faults != [] {
        ok := !faults[0];
        faults := faults[1..];
      }
    }

    method Transmit(data: bytes) returns (ok: bool)
      modifies this`faults, this`outgoing, this`frames
      ensures old(Healthy()) ==> ok && Healthy()
      ensures outgoing == if ok then old(outgoing) + data else old(outgoing)
      ensures frames == if ok then old(frames) + [data] else old(frames)
    {
      ok := Attempt();
      if ok {
        outgoing, frames := outgoing + data, frames + [data];
      }
    }

    method Receive(n: nat) returns (ok: bool, data: bytes)
      modifies this`faults, this`incoming, this`waited
      ensures waited == old(waited) + [timings.blockTimeout]
      ensures old(Healthy()) ==> Healthy() && ok == (n <= |old(incoming)|)
      ensures ok ==> n <= |old(incoming)| && data == old(incoming)[..n] && incoming == old(incoming)[n..]
      ensures !ok ==> data == [] && incoming == old(incoming)
    {
      waited := waited + [timings.blockTimeout];
      ok := Attempt();
      ok := ok && n <= |incoming|;
      data := [];
      if ok {
        data, incoming := incoming[..n], incoming[n..];
      }
    }

    method SetTimings(t: Timings)
      modifies this`timings
      ensures timings == t
    {
      timings := t;
    }
  }
}
