/** The feedback service's records, as Connection.read_feedback_msg
    (apns.py) reads them: a 6-byte header (`!iH`: signed 32-bit dead_at,
    unsigned 16-bit token length) and then the token itself. */
module Feedback {
  import opened Bytes
  import opened Hex

  const HEADER_LENGTH: nat := 6

  /** What one call of read_feedback_msg gives: a record, or None for one
      of three reasons, told apart by the diagnostic printed. */
  datatype FeedbackResult =
    | Record(token: string, deadAt: int)  // {'token': ..., 'dead_at': ...}
    | EndOfFeedback                       // None: no bytes left, nothing printed
    | UnexpectedHeaderLength(got: nat)    // None: "unexpected header length (got bytes)"
    | IncompleteDeviceId                  // None: "incomplete device id "

  /** The declared token length of a full header. */
  function TokenLength(header: seq<byte>): (n: nat)
    requires |header| >= HEADER_LENGTH
    ensures n < UINT16_LIMIT
  {
    Pow256Widths();
    BigEndian(header[4..6])
  }

  /** read_feedback_msg as a function of the bytes the service has still to
      send before it closes the connection: the result and how many of
      those bytes its two reads consume. */
  function ReadRecord(avail: seq<byte>): (r: (FeedbackResult, nat))
    ensures r.1 <= |avail|
    ensures r.0.Record? ==> r.1 >= HEADER_LENGTH
  {
    var header := ReadUpTo(avail, HEADER_LENGTH);
    if |header| == HEADER_LENGTH then
      var tokenLen := TokenLength(header);
      var body := ReadUpTo(avail[HEADER_LENGTH..], tokenLen);
      if |body| == tokenLen then
        (Record(UnpaddedHex(body), SignedBigEndian32(header[..4])), HEADER_LENGTH + tokenLen)
      else
        (IncompleteDeviceId, HEADER_LENGTH + |body|)
    else
      (if |header| != 0 then UnexpectedHeaderLength(|header|) else EndOfFeedback, |header|)
  }

  /** The four outcomes of read_feedback_msg, told apart by how many bytes
      remain: none (clean end), fewer than a header, fewer than the token
      the header declares, or a whole record. Only a whole record is
      returned; each other outcome consumes everything that was left. */
  lemma ReadRecordCases(avail: seq<byte>)
    ensures var r := ReadRecord(avail);
      && (r.0 == EndOfFeedback <==> avail == [])
      && (r.0.UnexpectedHeaderLength? <==> 0 < |avail| < HEADER_LENGTH)
      && (r.0.UnexpectedHeaderLength? ==> r.0.got == |avail|)
      && (r.0 == IncompleteDeviceId <==>
            HEADER_LENGTH <= |avail| < HEADER_LENGTH + TokenLength(avail))
      && (r.0.Record? <==>
            |avail| >= HEADER_LENGTH && |avail| >= HEADER_LENGTH + TokenLength(avail))
      && (r.0.Record? ==>
            r.1 == HEADER_LENGTH + TokenLength(avail)
            && r.0.deadAt == SignedBigEndian32(avail[..4])
            && r.0.token == UnpaddedHex(avail[HEADER_LENGTH..r.1]))
      && (!r.0.Record? ==> r.1 == |avail|)
  {
    if |avail| >= HEADER_LENGTH {
      assert ReadUpTo(avail, HEADER_LENGTH)[4..6] == avail[4..6];
      assert ReadUpTo(avail, HEADER_LENGTH)[..4] == avail[..4];
      var tokenLen := TokenLength(avail);
      if |avail| >= HEADER_LENGTH + tokenLen {
        assert ReadUpTo(avail[HEADER_LENGTH..], tokenLen) == avail[HEADER_LENGTH..HEADER_LENGTH + tokenLen];
      }
    }
  }

  /** A record as the feedback service sends it. */
  datatype Entry = Entry(deadAt: int, token: seq<byte>)

  predicate Encodable(e: Entry) {
    INT32_MIN <= e.deadAt < INT32_LIMIT && |e.token| < UINT16_LIMIT
  }

  function EncodeEntry(e: Entry): (r: seq<byte>)
    requires Encodable(e)
    ensures |r| == HEADER_LENGTH + |e.token|
  {
    Pow256Widths();
    ToSignedBigEndian32(e.deadAt) + ToBigEndian(|e.token|, 2) + e.token
  }

  /** Reading an encoded record, whatever follows it, gives the record with
      its token as unpadded hex, and consumes exactly the record. */
  lemma ReadRecordOfEntry(e: Entry, rest: seq<byte>)
    requires Encodable(e)
    ensures ReadRecord(EncodeEntry(e) + rest)
         == (Record(UnpaddedHex(e.token), e.deadAt), HEADER_LENGTH + |e.token|)
  {
    Pow256Widths();
    var s := EncodeEntry(e) + rest;
    var n := |e.token|;
    ReadRecordCases(s);
    assert s[..4] == ToSignedBigEndian32(e.deadAt);
    assert s[4..6] == ToBigEndian(n, 2);
    assert s[HEADER_LENGTH..HEADER_LENGTH + n] == e.token;
    assert TokenLength(s) == n;
    SignedBigEndian32RoundTrip(e.deadAt);
    var r := ReadRecord(s);
    assert r.0.Record? && r.1 == HEADER_LENGTH + n;
    assert r.0.token == UnpaddedHex(e.token);
  }

  /** A record with dead_at 1000000000 and token DE AD BE EF reads as
      "deadbeef". */
  lemma ReadRecordExample()
    ensures ReadRecord(EncodeEntry(Entry(1000000000, [0xDE, 0xAD, 0xBE, 0xEF])))
         == (Record("deadbeef", 1000000000), 10)
  {
    var e := Entry(1000000000, [0xDE, 0xAD, 0xBE, 0xEF]);
    ReadRecordOfEntry(e, []);
    assert EncodeEntry(e) + [] == EncodeEntry(e);
    assert UnpaddedHex(e.token) == "deadbeef";
  }

  /** The bytes of several records back to back. */
  function EncodeEntries(es: seq<Entry>): (r: seq<byte>)
    requires forall i :: 0 <= i < |es| ==> Encodable(es[i])
  {
    if es == [] then [] else EncodeEntry(es[0]) + EncodeEntries(es[1..])
  }

  /** Calling read_feedback_msg again and again until it returns None: the
      results of all the calls, the last one being the one that is not a
      record. */
  function ReadAll(avail: seq<byte>): (rs: seq<FeedbackResult>)
    ensures |rs| >= 1 && !rs[|rs| - 1].Record?
    ensures forall i :: 0 <= i < |rs| - 1 ==> rs[i].Record?
    decreases |avail|
  {
    var (r, used) := ReadRecord(avail);
    if r.Record? then [r] + ReadAll(avail[used..]) else [r]
  }

  /** The records a reader should return for the given entries. */
  function RecordsOf(es: seq<Entry>): (rs: seq<FeedbackResult>)
    ensures |rs| == |es|
  {
    if es == [] then [] else [Record(UnpaddedHex(es[0].token), es[0].deadAt)] + RecordsOf(es[1..])
  }

  /** Draining a stream of whole records yields every record, in order, and
      then the clean end. */
  lemma {:induction false} ReadAllEntries(es: seq<Entry>)
    requires forall i :: 0 <= i < |es| ==> Encodable(es[i])
    ensures ReadAll(EncodeEntries(es)) == RecordsOf(es) + [EndOfFeedback]
  {
    if es == [] {
      assert ReadRecord([]).0 == EndOfFeedback;
    } else {
      var tail := EncodeEntries(es[1..]);
      ReadAllOfEntry(es[0], tail);
      ReadAllEntries(es[1..]);
    }
  }

  /** One call consumes the first record and leaves the rest to the next. */
  lemma ReadAllOfEntry(e: Entry, rest: seq<byte>)
    requires Encodable(e)
    ensures ReadAll(EncodeEntry(e) + rest) == [Record(UnpaddedHex(e.token), e.deadAt)] + ReadAll(rest)
  {
    var s := EncodeEntry(e) + rest;
    ReadRecordOfEntry(e, rest);
    ReadRecordCases(s);
    assert s[HEADER_LENGTH + |e.token|..] == rest;
  }
}
