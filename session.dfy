/**
  * The RCON client: its request-id counter, the connection it owns, and the
  * send, authenticate, command, connect and close steps built on the codec.
  */
module Session {
  import opened LittleEndian
  import opened Errors
  import Codec
  import opened Transport

  /** The largest request id before the counter starts again at ResetID. */
  const IDCap: int32 := 100

  /**
    * The request id after `incrementRequestID`: one more (with int32 wrap-around),
    * or ResetID once that exceeds the cap.
    */
  function NextID(id: int32): (r: int32)
    ensures id < IDCap ==> r == id + 1
    ensures IDCap <= id < MaxInt32 ==> r == Codec.ResetID
    ensures id == MaxInt32 ==> r == MinInt32
    ensures Codec.ResetID <= id <= IDCap ==> Codec.ResetID <= r <= IDCap
  {
    var n := Wrap32(id + 1);
    if n > IDCap then Codec.ResetID else n
  }

  /** The request id after k increments. */
  function Advance(id: int32, k: nat): int32
    decreases k
  {
    if k == 0 then id else Advance(NextID(id), k - 1)
  }

  /** Within [ResetID, IDCap] the counter runs round a cycle of length IDCap. */
  lemma {:induction false} AdvanceCycles(id: int32, k: nat)
    requires Codec.ResetID <= id <= IDCap
    ensures Advance(id, k) == (id - 1 + k) % 100 + 1
    decreases k
  {
    if k > 0 {
      var next := NextID(id);
      AdvanceCycles(next, k - 1);
      if id == IDCap {
        assert (id - 1 + k) % 100 == (k - 1) % 100;
      }
    }
  }

  /** From any id in range, IDCap - id + 1 increments bring the counter back to ResetID. */
  lemma WrapsToResetID(id: int32)
    requires Codec.ResetID <= id <= IDCap
    ensures Advance(id, IDCap - id + 1) == Codec.ResetID
  {
    AdvanceCycles(id, IDCap - id + 1);
  }

  /** IDCap increments from ResetID: the last one takes the counter from IDCap back to ResetID. */
  lemma FullCycleFromResetID()
    ensures Advance(Codec.ResetID, IDCap - 1) == IDCap
    ensures Advance(Codec.ResetID, IDCap) == Codec.ResetID
  {
    AdvanceCycles(Codec.ResetID, IDCap - 1);
    AdvanceCycles(Codec.ResetID, IDCap);
  }

  /** What `send` returns when it runs on a connection in the given state. */
  function SendResult(open: bool, writable: bool, inbound: seq<byte>): (r: Result<Codec.Response>)
    ensures r.Success? <==> open && writable && Codec.ReadResponse(inbound).outcome.Success?
    ensures !open ==> r == Failure(ConnClosed)
    ensures open && !writable ==> r == Failure(WriteFailed)
    ensures open && writable ==> r == Codec.ReadResponse(inbound).outcome
  {
    if !open then Failure(ConnClosed)
    else if !writable then Failure(WriteFailed)
    else Codec.ReadResponse(inbound).outcome
  }

  /**
    * The connection after `send` wrote `packet` on it: the packet is logged and
    * the response consumed when the write went through, and nothing changed otherwise.
    */
  ghost predicate SentOn(c: Conn, packet: seq<byte>, oldSent: seq<byte>, oldInbound: seq<byte>, oldOpen: bool)
    reads c
  {
    c.open == oldOpen &&
    if oldOpen && c.writable then
      c.sent == oldSent + packet && c.inbound == Codec.ReadResponse(oldInbound).rest
    else
      c.sent == oldSent && c.inbound == oldInbound
  }

  /** The error `authenticate` reports for the result of its `send`. */
  function AuthOutcome(r: Result<Codec.Response>): (o: Outcome)
    ensures o.Pass? <==> r.Success? && r.value.requestID != Codec.FailureType
    ensures r.Failure? ==> o == Fail(r.error)
    ensures r.Success? && r.value.requestID == Codec.FailureType ==> o == Fail(AuthenticationFailed)
  {
    match r
    case Failure(e) => Fail(e)
    case Success(res) => if res.requestID == Codec.FailureType then Fail(AuthenticationFailed) else Pass
  }

  /**
    * A server that answers with a well-formed packet is accepted exactly when the
    * packet's request id is not FailureType.
    */
  lemma AuthAcceptsUnlessFailureID(requestID: int32, packetType: int32, body: seq<byte>, more: seq<byte>)
    requires |body| + 10 <= MaxInt32
    ensures var o := AuthOutcome(SendResult(true, true, Codec.CreatePacket(requestID, packetType, body) + more));
      (o == Pass <==> requestID != Codec.FailureType) &&
      (o != Pass ==> o == Fail(AuthenticationFailed))
  {
    Codec.ReadWellFormedReply(requestID, packetType, body, more);
  }

  /** A minecraft remote console client. */
  class Client {
    /** The connection, or null before Connect. */
    var server: Conn?
    /** The id the next packet carries. */
    var requestID: int32
    /** The server address given to NewClient. */
    const address: string

    /** The counter stays between ResetID and IDCap. */
    ghost predicate Valid()
      reads this
    {
      Codec.ResetID <= requestID <= IDCap
    }

    /**
      * What the invariant buys: an outgoing id is never the rejection marker
      * FailureType, and the counter never reaches MaxInt32, so `requestID++` cannot overflow.
      */
    lemma ValidIDsNeverOverflow()
      requires Valid()
      ensures requestID != Codec.FailureType && requestID + 1 <= MaxInt32
      ensures NextID(requestID) == (if requestID < IDCap then requestID + 1 else Codec.ResetID)
    {
    }

    /** A client with no connection yet, whose first packet carries ResetID. */
    constructor NewClient(addr: string)
      ensures server == null && requestID == Codec.ResetID && address == addr
      ensures Valid()
    {
      server := null;
      requestID := Codec.ResetID;
      address := addr;
    }

    /** The packet for `body`, stamped with the current request id; changes nothing. */
    method CreatePacket(body: seq<byte>, packetType: int32) returns (packet: seq<byte>)
      ensures packet == Codec.CreatePacket(requestID, packetType, body)
    {
      packet := Codec.CreatePacket(requestID, packetType, body);
    }

    /** Moves the counter on after a completed exchange, starting again at ResetID past the cap. */
    method IncrementRequestID()
      modifies this`requestID
      ensures requestID == NextID(old(requestID))
    {
      requestID := Wrap32(requestID + 1);
      if requestID > IDCap {
        requestID := Codec.ResetID;
      }
    }

    /**
      * Writes the packet, reads the 8-byte header and the payload it announces,
      * and only then increments the request id.
      */
    method Send(packet: seq<byte>) returns (res: Result<Codec.Response>)
      requires server != null
      modifies this`requestID, server
      ensures res == SendResult(old(server.open), server.writable, old(server.inbound))
      ensures SentOn(server, packet, old(server.sent), old(server.inbound), old(server.open))
      ensures requestID == if res.Success? then NextID(old(requestID)) else old(requestID)
      ensures old(Valid()) ==> Valid()
    {
      ghost var inbound := server.inbound;
      var w := server.Write(packet);
      if w.Fail? {
        return Failure(w.error);
      }
      var h := server.ReadFull(8);
      if h.Failure? {
        return Failure(h.error);
      }
      assert h.value == inbound[..8];
      var hd := Codec.ReadHeaders(h.value);
      var n := Codec.PayloadLength(hd.size);
      if n < 0 {
        return Failure(NegativePayload);
      }
      var payload := server.ReadFull(n);
      if payload.Failure? {
        return Failure(payload.error);
      }
      assert payload.value == inbound[8..8 + n];
      IncrementRequestID();
      res := Success(Codec.Response(hd.requestID, payload.value));
    }

    /** Sends the password as an authentication packet; fails when the server echoes FailureType. */
    method Authenticate(password: seq<byte>) returns (err: Outcome)
      requires server != null
      modifies this`requestID, server
      ensures SentOn(server, Codec.CreatePacket(old(requestID), Codec.AuthenticationType, password),
                     old(server.sent), old(server.inbound), old(server.open))
      ensures var r := SendResult(old(server.open), server.writable, old(server.inbound));
        err == AuthOutcome(r) &&
        requestID == if r.Success? then NextID(old(requestID)) else old(requestID)
      ensures old(Valid()) ==> Valid()
    {
      var packet := CreatePacket(password, Codec.AuthenticationType);
      var res := Send(packet);
      if res.Failure? {
        return Fail(res.error);
      }
      if res.value.requestID == Codec.FailureType {
        return Fail(AuthenticationFailed);
      }
      err := Pass;
    }

    /** Sends a command packet and hands back the body of the response, or "" with the error. */
    method Command(cmd: seq<byte>) returns (out: seq<byte>, err: Outcome)
      requires server != null
      modifies this`requestID, server
      ensures SentOn(server, Codec.CreatePacket(old(requestID), Codec.CommandType, cmd),
                     old(server.sent), old(server.inbound), old(server.open))
      ensures var r := SendResult(old(server.open), server.writable, old(server.inbound));
        (if r.Success? then err == Pass && out == r.value.body else err == Fail(r.error) && out == []) &&
        requestID == if r.Success? then NextID(old(requestID)) else old(requestID)
      ensures old(Valid()) ==> Valid()
    {
      var packet := CreatePacket(cmd, Codec.CommandType);
      var res := Send(packet);
      if res.Failure? {
        return [], Fail(res.error);
      }
      out, err := res.value.body, Pass;
    }

    /**
      * Attaches the connection the dial produced and authenticates on it. `dialed`
      * stands for the result of dialing `address`.
      */
    method Connect(dialed: Result<Conn>, password: seq<byte>) returns (err: Outcome)
      modifies this, if dialed.Success? then {dialed.value} else {}
      ensures dialed.Failure? ==>
        err == Fail(dialed.error) && server == old(server) && requestID == old(requestID)
      ensures dialed.Success? ==>
        var c := dialed.value;
        var r := SendResult(old(c.open), c.writable, old(c.inbound));
        server == c &&
        SentOn(c, Codec.CreatePacket(old(requestID), Codec.AuthenticationType, password),
               old(c.sent), old(c.inbound), old(c.open)) &&
        err == AuthOutcome(r) &&
        requestID == if r.Success? then NextID(old(requestID)) else old(requestID)
      ensures old(Valid()) ==> Valid()
    {
      if dialed.Failure? {
        return Fail(dialed.error);
      }
      server := dialed.value;
      err := Authenticate(password);
    }

    /** Resets the request id, then closes the connection. */
    method Close() returns (err: Outcome)
      requires server != null
      modifies this`requestID, server
      ensures requestID == Codec.ResetID && Valid()
      ensures err == (if old(server.open) then Pass else Fail(ConnClosed))
      ensures !server.open && server.sent == old(server.sent) && server.inbound == old(server.inbound)
    {
      requestID := Codec.ResetID;
      err := server.Close();
    }
  }

  /**
    * A server that rejects the password: Connect reports AuthenticationFailed, the
    * connection stays open, and the request id has still moved on.
    */
  method RejectedLogin(password: seq<byte>) returns (err: Outcome, open: bool, id: int32)
    ensures err == Fail(AuthenticationFailed) && open && id == 2
  {
    var reply := Codec.CreatePacket(Codec.FailureType, Codec.CommandType, []);
    var conn := new Conn(reply, true);
    var client := new Client.NewClient("localhost:25575");
    AuthAcceptsUnlessFailureID(Codec.FailureType, Codec.CommandType, [], []);
    assert reply + [] == reply;
    err := client.Connect(Success(conn), password);
    open := conn.open;
    id := client.requestID;
  }
}
