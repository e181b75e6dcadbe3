/** Writing to the controller: a UART that takes as much as it likes, and the loop that copes with it. */
module HciProtocol {
  import opened Bytes

  datatype WriteResult = Again | Failed | Wrote(n: nat)

  /** A descriptor to write to: it may ask for a retry a finite number of times, fail, or take any part
      of the data. */
  class Uart {
    var wire: bytes
    var patience: nat
    /** A write has failed, or has taken nothing of some data. */
    ghost var gaveUp: bool

    constructor (patience: nat)
      ensures wire == [] && !gaveUp && this.patience == patience
    {
      wire, gaveUp, this.patience := [], false, patience;
    }

    method Write(data: bytes) returns (r: WriteResult)
      modifies this
      ensures r.Again? ==> wire == old(wire) && patience < old(patience) && gaveUp == old(gaveUp)
      ensures r.Failed? ==> wire == old(wire) && patience == old(patience) && gaveUp
      ensures r.Wrote? ==> r.n <= |data| && wire == old(wire) + data[..r.n]
      ensures r.Wrote? ==> patience == old(patience) && gaveUp == (old(gaveUp) || (r.n == 0 && data != []))
    {
      var retry: bool, fail: bool := *, *;
      if patience > 0 && retry {
        patience := patience - 1;
        return Again;
      }
      if fail {
        gaveUp := true;
        return Failed;
      }
      var n: nat :| n <= |data|;
      if n == 0 && data != [] {
        gaveUp := true;
      }
      wire := wire + data[..n];
      r := Wrote(n);
    }
  }

  /** HciProtocol::WriteSafely: what was transmitted is a prefix of the data, and all of it unless the
      descriptor gave up. */
  method WriteSafely(uart: Uart, data: bytes) returns (transmitted: nat)
    modifies uart
    ensures transmitted <= |data| && uart.wire == old(uart.wire) + data[..transmitted]
    ensures transmitted < |data| ==> uart.gaveUp
    ensures !uart.gaveUp ==> !old(uart.gaveUp)
  {
    transmitted := 0;
    var length: nat := |data|;
    while length > 0
      invariant transmitted + length == |data|
      invariant uart.wire == old(uart.wire) + data[..transmitted]
      invariant uart.gaveUp == old(uart.gaveUp)
      decreases length, uart.patience
    {
      var r := uart.Write(data[transmitted..transmitted + length]);
      if r == Again {
        continue;
      }
      if r == Failed || r == Wrote(0) {
        break;
      }
      assert data[..transmitted] + data[transmitted..][..r.n] == data[..transmitted + r.n];
      transmitted := transmitted + r.n;
      length := length - r.n;
    }
  }
}
