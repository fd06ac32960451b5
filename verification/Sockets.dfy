// The socket calls a channel depends on. How many bytes one call moves, and whether it
// refuses or fails, is up to the operating system: every choice below is arbitrary.
module Sockets {
  import opened Bytes

  datatype IOResult = Success | WouldBlock | PeerShutdown | Failed

  class Socket {
    var incoming: seq<Byte>  // sent by the peer, not read yet
    var peerClosed: bool     // the peer will send nothing after `incoming`
    var outgoing: seq<Byte>  // accepted for sending so far
    var patience: nat        // how often sending is still refused before bytes move again

    constructor ()
      ensures incoming == [] && outgoing == [] && !peerClosed
    {
      incoming, outgoing, peerClosed := [], [], false;
      patience := *;
    }

    // Sends some bytes of mem[at..at + n]. `Failed` stands for the exception.
    method Send(mem: array<Byte>, at: nat, n: nat) returns (r: IOResult, sent: nat)
      requires at + n <= mem.Length
      modifies this`outgoing, this`patience
      ensures r != PeerShutdown && sent <= n
      ensures outgoing == old(outgoing) + mem[at..at + sent]
      ensures r == WouldBlock || r == Failed ==> sent == 0
      ensures r != Failed && n > 0 && sent == 0 ==> patience < old(patience)
    {
      sent := 0;
      if * {
        r := Failed;
      } else if patience > 0 && n > 0 {
        patience := patience - 1;
        if * { r := WouldBlock; } else { r := Success; }
      } else {
        r := Success;
        sent :| 0 <= sent <= n && (n > 0 ==> sent > 0);
        patience := *;
      }
      outgoing := outgoing + mem[at..at + sent];
    }

    // Reads some bytes into mem[at..at + n]. Zero bytes read mean that the peer has shut
    // down, or that there was no room to read into.
    method Recv(mem: array<Byte>, at: nat, n: nat) returns (r: IOResult, got: nat)
      requires at + n <= mem.Length
      modifies this`incoming, mem
      ensures got <= n && got <= |old(incoming)|
      ensures incoming == old(incoming)[got..]
      ensures mem[at..at + got] == old(incoming)[..got]
      ensures mem[..at] == old(mem[..at]) && mem[at + got..] == old(mem[at + got..])
      ensures r != Success ==> got == 0
      ensures r == PeerShutdown ==> n == 0 || (old(incoming) == [] && peerClosed)
      ensures r == Success ==> got > 0
    {
      got := 0;
      if * {
        r := Failed;
      } else if n == 0 || (incoming == [] && peerClosed) {
        r := PeerShutdown;
      } else {
        var refuse: bool := *;
        if incoming == [] || refuse {
          r := WouldBlock;
          return;
        }
        r := Success;
        got :| 0 < got <= n && got <= |incoming|;
        forall i | 0 <= i < got {
          mem[at + i] := incoming[i];
        }
      }
      incoming := incoming[got..];
    }
  }
}
