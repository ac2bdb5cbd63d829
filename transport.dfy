/**
  * An abstract stand-in for the `net.Conn` the client talks through: a log of
  * the bytes written to it, the bytes the peer has sent that are not yet read,
  * and whether it is still open. Dialing and timing are outside this model.
  */
module Transport {
  import opened LittleEndian
  import opened Errors

  class Conn {
    /** Every byte written so far, in order. */
    var sent: seq<byte>
    /** The bytes the peer sends from now on until it stops sending. */
    var inbound: seq<byte>
    /** False once Close has been called. */
    var open: bool
    /** False for a peer that has gone away: every write fails. */
    const writable: bool

    constructor (inbound: seq<byte>, writable: bool)
      ensures this.sent == [] && this.inbound == inbound && this.open && this.writable == writable
    {
      this.sent := [];
      this.inbound := inbound;
      this.open := true;
      this.writable := writable;
    }

    /** Writes all of `data`, or fails without writing any of it. */
    method Write(data: seq<byte>) returns (err: Outcome)
      modifies this
      ensures err == (if !old(open) then Fail(ConnClosed) else if !writable then Fail(WriteFailed) else Pass)
      ensures sent == (if err.Pass? then old(sent) + data else old(sent))
      ensures inbound == old(inbound) && open == old(open)
    {
      if !open {
        err := Fail(ConnClosed);
      } else if !writable {
        err := Fail(WriteFailed);
      } else {
        sent := sent + data;
        err := Pass;
      }
    }

    /**
      * `io.ReadFull` as `binary.Read` uses it: exactly n bytes, or an error once the
      * stream ends early (after consuming what was there). Asking for no bytes
      * succeeds without touching the connection.
      */
    method ReadFull(n: nat) returns (r: Result<seq<byte>>)
      modifies this
      ensures n == 0 ==> r == Success([]) && inbound == old(inbound)
      ensures n > 0 && !old(open) ==> r == Failure(ConnClosed) && inbound == old(inbound)
      ensures n > 0 && old(open) && |old(inbound)| < n ==> r == Failure(ShortRead) && inbound == []
      ensures n > 0 && old(open) && n <= |old(inbound)| ==>
        r == Success(old(inbound)[..n]) && inbound == old(inbound)[n..]
      ensures sent == old(sent) && open == old(open)
    {
      if n == 0 {
        r := Success([]);
      } else if !open {
        r := Failure(ConnClosed);
      } else if |inbound| < n {
        inbound := [];
        r := Failure(ShortRead);
      } else {
        r := Success(inbound[..n]);
        inbound := inbound[n..];
      }
    }

    /** Closes the connection; closing it a second time is an error. */
    method Close() returns (err: Outcome)
      modifies this
      ensures err == (if old(open) then Pass else Fail(ConnClosed))
      ensures !open && sent == old(sent) && inbound == old(inbound)
    {
      err := if open then Pass else Fail(ConnClosed);
      open := false;
    }
  }
}
