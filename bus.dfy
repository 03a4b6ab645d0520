/** The I2C bus as the driver sees it: a recorder of what is written and
    how long the driver pauses, answering reads from a scripted reply. */
module I2c {

  /** One call the driver makes on the bus. */
  datatype Event =
    | Write(address: int, data: seq<bv8>)
    | Delay(ms: nat)
    | Read(address: int, length: nat)

  /** The `length` bytes a read delivers: the scripted reply, cut to size or
      padded with 0xFF, the value an idle, pulled-up bus line reads as. */
  function Fit(reply: seq<bv8>, length: nat): (r: seq<bv8>)
    ensures |r| == length
    ensures forall i :: 0 <= i < length ==> r[i] == if i < |reply| then reply[i] else 0xFF
  {
    if length <= |reply| then reply[..length] else reply + seq(length - |reply|, _ => 0xFF)
  }

  class Bus {
    /** Every call made on the bus so far, oldest first. */
    var log: seq<Event>
    /** The bytes the device answers every read with. */
    const reply: seq<bv8>

    constructor (reply: seq<bv8>)
      ensures log == [] && this.reply == reply
    {
      log := [];
      this.reply := reply;
    }

    /** pins.i2cWriteBuffer */
    method WriteBuffer(address: int, buf: array<bv8>)
      modifies this
      ensures log == old(log) + [Write(address, buf[..])]
    {
      log := log + [Write(address, buf[..])];
    }

    /** basic.pause */
    method Pause(ms: nat)
      modifies this
      ensures log == old(log) + [Delay(ms)]
    {
      log := log + [Delay(ms)];
    }

    /** pins.i2cReadBuffer: a fresh buffer of exactly `length` bytes. */
    method ReadBuffer(address: int, length: nat) returns (buf: array<bv8>)
      modifies this
      ensures fresh(buf) && buf[..] == Fit(reply, length)
      ensures log == old(log) + [Read(address, length)]
    {
      var bytes := Fit(reply, length);
      buf := new bv8[length](i requires 0 <= i < length => bytes[i]);
      log := log + [Read(address, length)];
    }
  }
}
