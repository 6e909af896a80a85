/** The `Connection` class of apns.py over an abstract byte-stream socket:
    sending push frames, reading feedback records, polling for an error
    reply and closing. */
module Transport {
  import opened Bytes
  import opened Wrappers
  import opened PushFrame
  import opened Hex
  import opened ErrorReply
  import opened Feedback

  /** The TLS socket seen as a byte stream: the bytes the peer sends before
      it closes its side, how many of them have been read, everything
      written, and whether the socket was closed. */
  class Socket {
    var incoming: seq<byte>
    var pos: nat
    var outgoing: seq<byte>
    var closed: bool

    ghost predicate Valid()
      reads this
    {
      pos <= |incoming|
    }

    constructor (incoming: seq<byte>)
      ensures Valid() && this.incoming == incoming && pos == 0
      ensures outgoing == [] && !closed
    {
      this.incoming := incoming;
      pos := 0;
      outgoing := [];
      closed := false;
    }

    /** The bytes not read yet. */
    function Remaining(): seq<byte>
      reads this
      requires Valid()
    {
      incoming[pos..]
    }

    /** `select` with timeout 0 reports the socket readable: a byte can be
      read without blocking. */
    function Pending(): (ready: bool)
      reads this
      requires Valid()
      ensures ready <==> Remaining() != []
    {
      pos < |incoming|
    }

    /** `read(n)`: blocks until n bytes arrive or the peer closes, and
        returns what arrived. */
    method Read(n: nat) returns (got: seq<byte>)
      requires Valid()
      modifies this`pos
      ensures Valid()
      ensures got == ReadUpTo(old(Remaining()), n)
      ensures Remaining() == old(Remaining())[|got|..]
    {
      got := ReadUpTo(incoming[pos..], n);
      pos := pos + |got|;
    }

    method Write(bytes: seq<byte>)
      modifies this`outgoing
      ensures outgoing == old(outgoing) + bytes
    {
      outgoing := outgoing + bytes;
    }

    method Close()
      modifies this`closed
      ensures closed
    {
      closed := true;
    }
  }

  /** The result of a Connection method, or the exception Python raises on
      `self.socket` once close_connection has set it to None. */
  datatype Call<+T> = Returned(value: T) | SocketIsNone

  /** What check_for_error does. */
  datatype CheckResult =
    | NoErrorPending           // returns normally
    | ErrorRaised(error: ApnsError)  // raises Error built from the reply
    | MalformedReply(got: nat) // the reply was shorter than 6 bytes: struct.error
    | NameErrorRaised          // the name `error` is undefined: NameError

  /** check_for_error as intended, as a function of the bytes the gateway
      has sent and not yet read: the result and the count consumed. */
  function CheckForErrorSpec(avail: seq<byte>): (r: (CheckResult, nat))
    ensures r.0 == NoErrorPending <==> avail == []
    ensures avail == [] ==> r.1 == 0
    ensures avail != [] ==> r.1 == |ReadUpTo(avail, REPLY_LENGTH)|
    ensures r.0.ErrorRaised? <==> |avail| >= REPLY_LENGTH
    ensures r.0.ErrorRaised? ==> Ok(r.0.error) == DecodeError(Some(avail[..REPLY_LENGTH]))
    ensures r.0.MalformedReply? <==> 0 < |avail| < REPLY_LENGTH
    ensures r.0 != NameErrorRaised
  {
    if avail == [] then (NoErrorPending, 0)
    else
      var reply := ReadUpTo(avail, REPLY_LENGTH);
      match DecodeError(Some(reply))
      case Ok(e) => (ErrorRaised(e), |reply|)
      case Err(_) => (MalformedReply(|reply|), |reply|)
  }

  /** check_for_error as written: with a reply pending, `raise error(...)`
      looks up the undefined name `error` before it reads anything. */
  function CheckForErrorAsWritten(avail: seq<byte>): (r: (CheckResult, nat))
    ensures r.0 == NoErrorPending <==> avail == []
    ensures r.1 == 0
  {
    if avail == [] then (NoErrorPending, 0) else (NameErrorRaised, 0)
  }

  /** With a reply pending, the code as written raises NameError, leaves the
      reply unread and never reports the error, where the intended code
      reads the reply and raises an Error or a struct.error. */
  lemma CheckForErrorAsWrittenLosesReply(avail: seq<byte>)
    requires avail != []
    ensures CheckForErrorAsWritten(avail) == (NameErrorRaised, 0)
    ensures CheckForErrorSpec(avail).0 != NameErrorRaised && CheckForErrorSpec(avail).1 > 0
  {
  }

  /** The reply for status 1 of message 42: as written a NameError, as
      intended an Error whose text is "processing error". */
  lemma CheckForErrorAsWrittenExample()
    ensures CheckForErrorAsWritten([0x08, 0x01, 0x00, 0x00, 0x00, 0x2A]).0 == NameErrorRaised
    ensures CheckForErrorSpec([0x08, 0x01, 0x00, 0x00, 0x00, 0x2A]) == (ErrorRaised(ApnsError(42, Some(1))), 6)
    ensures Describe(CheckForErrorSpec([0x08, 0x01, 0x00, 0x00, 0x00, 0x2A]).0.error) == "processing error"
  {
    DecodeErrorExample();
    var reply: seq<byte> := [0x08, 0x01, 0x00, 0x00, 0x00, 0x2A];
    assert reply[..REPLY_LENGTH] == reply;
    DescribeExamples();
  }

  class Connection {
    var socket: Socket?

    ghost predicate Valid()
      reads this, socket
    {
      socket != null ==> socket.Valid() && !socket.closed
    }

    /** A connection over an established socket; the TLS handshake is not
        part of this model. */
    constructor (s: Socket)
      requires s.Valid() && !s.closed
      ensures Valid() && socket == s
    {
      socket := s;
    }

    /** write_push_msg: build the frame and write it; nothing is written
        when build_msg raises. */
    method WritePushMsg(deviceToken: string, msgId: int, payload: seq<byte>)
      returns (r: Call<Result<(), BuildError>>)
      requires Valid()
      modifies socket
      ensures Valid() && socket == old(socket)
      ensures old(socket) == null ==> r == SocketIsNone
      ensures old(socket) != null ==>
        var built := BuildMsg(deviceToken, msgId, payload);
        && socket.incoming == old(socket.incoming) && socket.pos == old(socket.pos)
        && socket.closed == old(socket.closed)
        && (built.Ok? ==> r == Returned(Ok(())) && socket.outgoing == old(socket.outgoing) + built.value)
        && (built.Err? ==> r == Returned(Err(built.error)) && socket.outgoing == old(socket.outgoing))
    {
      if socket == null {
        r := SocketIsNone;
        return;
      }
      var built := BuildMsg(deviceToken, msgId, payload);
      match built
      case Ok(frame) =>
        socket.Write(frame);
        r := Returned(Ok(()));
      case Err(e) =>
        r := Returned(Err(e));
    }

    /** read_feedback_msg: read a 6-byte header, then as many bytes as it
        declares; a short read is reported, not raised. */
    method ReadFeedbackMsg() returns (r: Call<FeedbackResult>)
      requires Valid()
      modifies socket
      ensures Valid() && socket == old(socket)
      ensures old(socket) == null ==> r == SocketIsNone
      ensures old(socket) != null ==>
        var (result, used) := ReadRecord(old(socket.Remaining()));
        && r == Returned(result)
        && socket.Remaining() == old(socket.Remaining())[used..]
        && socket.incoming == old(socket.incoming)
        && socket.outgoing == old(socket.outgoing) && socket.closed == old(socket.closed)
    {
      if socket == null {
        r := SocketIsNone;
        return;
      }
      ghost var avail := socket.Remaining();
      var part1 := socket.Read(HEADER_LENGTH);
      if |part1| == HEADER_LENGTH {
        var deadAt := SignedBigEndian32(part1[..4]);
        var tokenLen := TokenLength(part1);
        var part2 := socket.Read(tokenLen);
        if |part2| == tokenLen {
          r := Returned(Record(UnpaddedHex(part2), deadAt));
        } else {
          r := Returned(IncompleteDeviceId);
        }
        assert avail[HEADER_LENGTH..] == avail[|part1|..];
      } else {
        r := Returned(if |part1| != 0 then UnexpectedHeaderLength(|part1|) else EndOfFeedback);
      }
    }

    /** check_for_error with the evident intent of its last line: if a reply
        is pending, read up to 6 bytes and raise the Error they decode to. */
    method CheckForError() returns (r: Call<CheckResult>)
      requires Valid()
      modifies socket
      ensures Valid() && socket == old(socket)
      ensures old(socket) == null ==> r == SocketIsNone
      ensures old(socket) != null ==>
        var (result, used) := CheckForErrorSpec(old(socket.Remaining()));
        && r == Returned(result)
        && socket.Remaining() == old(socket.Remaining())[used..]
        && socket.incoming == old(socket.incoming)
        && socket.outgoing == old(socket.outgoing) && socket.closed == old(socket.closed)
    {
      if socket == null {
        r := SocketIsNone;
        return;
      }
      var ready := socket.Pending();
      if ready {
        var reply := socket.Read(REPLY_LENGTH);
        match DecodeError(Some(reply))
        case Ok(e) =>
          r := Returned(ErrorRaised(e));
        case Err(_) =>
          r := Returned(MalformedReply(|reply|));
      } else {
        r := Returned(NoErrorPending);
      }
    }

    /** close_connection: close the socket once and forget it; a second
        call finds None and changes nothing. */
    method CloseConnection()
      modifies this, socket
      ensures socket == null && Valid()
      ensures old(socket) != null ==>
        old(socket).closed && old(socket).pos == old(socket.pos)
        && old(socket).incoming == old(socket.incoming)
        && old(socket).outgoing == old(socket.outgoing)
      ensures old(socket) == null ==> unchanged(this)
    {
      if socket != null {
        socket.Close();
        socket := null;
      }
    }
  }

  /** A feedback session over a stream holding one record, and a push
      session with nothing pending, as a client sees them through the
      contracts above. */
  method SessionScenario()
  {
    var entry := Entry(1000000000, [0xDE, 0xAD, 0xBE, 0xEF]);
    var feedbackSocket := new Socket(EncodeEntry(entry));
    var feedback := new Connection(feedbackSocket);
    ReadRecordExample();
    var r := feedback.ReadFeedbackMsg();
    assert r == Returned(Record("deadbeef", 1000000000));
    r := feedback.ReadFeedbackMsg();
    assert r == Returned(EndOfFeedback);
    r := feedback.ReadFeedbackMsg();
    assert r == Returned(EndOfFeedback);
    feedback.CloseConnection();
    feedback.CloseConnection();
    r := feedback.ReadFeedbackMsg();
    assert r == SocketIsNone;

    var pushSocket := new Socket([]);
    var push := new Connection(pushSocket);
    var c := push.CheckForError();
    assert c == Returned(NoErrorPending);
    var w := push.WritePushMsg("zz", 1, []);
    BuildMsgExamples([]);
    assert w == Returned(Err(TokenNotHex)) && push.socket.outgoing == [];
  }
}
