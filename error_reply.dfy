/** The error reply of the push gateway: the `Error` exception class and the
    ERROR_MSGS table (apns.py). */
module ErrorReply {
  import opened Bytes
  import opened Wrappers
  import opened Decimal

  /** Status code to description (ERROR_MSGS). */
  const ErrorMessages: map<int, string> := map[
    0 := "no error",
    1 := "processing error",
    2 := "missing device token",
    3 := "missing topic",
    4 := "missing payload",
    5 := "invalid token size",
    6 := "invalid topic size",
    7 := "invalid payload size",
    8 := "invalid token",
    255 := "none (unknown)"]

  /** The length of an error reply: `!BBI`. */
  const REPLY_LENGTH: nat := 6

  /** What the description of a code outside the table starts with. */
  const UNKNOWN_PREFIX: string := "unknown code: "

  /** An `Error` object: the message id and the status code of a rejected
      push, or message id 0 and no code when built from no reply. */
  datatype ApnsError = ApnsError(msgId: nat, errorCode: Option<byte>)

  /** The struct.error of `struct.unpack('!BBI', ...)` on a reply of the
      wrong length. */
  datatype UnpackError = ReplyLength(got: nat)

  /** `Error.__init__`: None gives the "no reply" error; six bytes give the
      status code (byte 1) and the big-endian message id (bytes 2-5); byte 0,
      the reply's command, is not kept. */
  function DecodeError(reply: Option<seq<byte>>): (r: Result<ApnsError, UnpackError>)
    ensures reply.None? ==> r == Ok(ApnsError(0, None))
    ensures reply.Some? ==> (r.Ok? <==> |reply.value| == REPLY_LENGTH)
    ensures reply.Some? && r.Ok? ==>
      r.value.errorCode == Some(reply.value[1])
      && r.value.msgId < UINT32_LIMIT && ToBigEndian(r.value.msgId, 4) == reply.value[2..]
    ensures reply.Some? && r.Err? ==> r.error == ReplyLength(|reply.value|)
  {
    match reply
    case None => Ok(ApnsError(0, None))
    case Some(bytes) =>
      if |bytes| != REPLY_LENGTH then Err(ReplyLength(|bytes|))
      else
        Pow256Widths();
        ToBigEndianOfBigEndian(bytes[2..6]);
        Ok(ApnsError(BigEndian(bytes[2..6]), Some(bytes[1])))
  }

  predicate IsKnownCode(code: Option<byte>) {
    code.Some? && code.value in ErrorMessages
  }

  predicate HasUnknownPrefix(s: string) {
    |s| >= |UNKNOWN_PREFIX| && s[..|UNKNOWN_PREFIX|] == UNKNOWN_PREFIX
  }

  /** Python's `'{}'.format(code)` of an optional code. */
  function CodeText(code: Option<byte>): (r: string)
    ensures code.None? ==> r == "None"
    ensures code.Some? ==>
      (forall i :: 0 <= i < |r| ==> IsDigit(r[i])) && ParseDecimal(r) == code.value
    ensures code.Some? ==> |r| >= 1 && (r[0] == '0' ==> r == "0")
  {
    match code
    case None => "None"
    case Some(c) => NatToDecimal(c)
  }

  /** `Error.__str__`: never fails. A code in the table gives its text;
      any other code, and the missing code of the "no reply" error, gives
      "unknown code: " followed by the code as Python prints it. The
      descriptions of the two kinds cannot be confused. */
  function Describe(e: ApnsError): (r: string)
    ensures IsKnownCode(e.errorCode) ==> r == ErrorMessages[e.errorCode.value]
    ensures !IsKnownCode(e.errorCode) <==> HasUnknownPrefix(r)
    ensures e.errorCode.None? ==> r == "unknown code: None"
  {
    if IsKnownCode(e.errorCode) then
      var r := ErrorMessages[e.errorCode.value];
      assert |r| > 0 && r[0] != UNKNOWN_PREFIX[0];
      r
    else
      UNKNOWN_PREFIX + CodeText(e.errorCode)
  }

  /** Only codes 0-8 and 255 have a description of their own. */
  lemma KnownCodes(c: byte)
    ensures IsKnownCode(Some(c)) <==> c <= 8 || c == 255
  {
  }

  /** From the description of a code outside the table the code can be
      read back. */
  lemma UnknownCodeReadsBack(e: ApnsError)
    requires e.errorCode.Some? && !IsKnownCode(e.errorCode)
    ensures Describe(e) == UNKNOWN_PREFIX + NatToDecimal(e.errorCode.value)
    ensures
      var digits := Describe(e)[|UNKNOWN_PREFIX|..];
      (forall i :: 0 <= i < |digits| ==> IsDigit(digits[i]))
      && ParseDecimal(digits) == e.errorCode.value
  {
    assert Describe(e)[|UNKNOWN_PREFIX|..] == NatToDecimal(e.errorCode.value);
  }

  /** A reply with status 1 for message 42. */
  lemma DecodeErrorExample()
    ensures DecodeError(Some([0x08, 0x01, 0x00, 0x00, 0x00, 0x2A])) == Ok(ApnsError(42, Some(1)))
  {
    var reply: seq<byte> := [0x08, 0x01, 0x00, 0x00, 0x00, 0x2A];
    BigEndian4(reply[2..6]);
  }

  /** Descriptions of a known code, an unknown code and code 255. */
  lemma DescribeExamples()
    ensures Describe(ApnsError(42, Some(1))) == "processing error"
    ensures Describe(ApnsError(0, Some(9))) == "unknown code: 9"
    ensures Describe(ApnsError(0, Some(255))) == "none (unknown)"
  {
    assert 9 !in ErrorMessages;
    assert NatToDecimal(9) == "9";
  }
}
