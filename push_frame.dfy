/** The push frame of the "enhanced" binary format: build_msg (apns.py). */
module PushFrame {
  import opened Bytes
  import opened Hex
  import opened Wrappers

  /** Command byte of the enhanced push format. */
  const COMMAND: byte := 1
  /** The expiry field; build_msg always sends 0. */
  const EXPIRY: nat := 0

  /** Why build_msg produces no frame, by the exception it raises. */
  datatype BuildError =
    | TokenNotHex      // ValueError: the token does not match ^[0-9a-fA-F]+$
    | TokenOddLength   // ValueError: the token has an odd number of characters
    | HexDecodeFailed  // TypeError from str.decode("hex")
    | FieldOutOfRange  // struct.error: a value does not fit its field

  predicate IsValueError(e: BuildError) {
    e == TokenNotHex || e == TokenOddLength
  }

  /** `re.search('^[0-9a-fA-F]+$', s) != None`. In Python, `$` matches at
      the end of the string and also just before a final newline. */
  predicate MatchesHexPattern(s: string): (r: bool)
    ensures WellFormedToken(s) ==> r
    ensures r ==> |s| > 0 && IsHexDigit(s[0])
  {
    (|s| >= 1 && AllHexDigits(s))
    || (|s| >= 2 && s[|s| - 1] == '\n' && AllHexDigits(s[..|s| - 1]))
  }

  /** A token build_msg can encode: a non-empty, even-length hex string. */
  predicate WellFormedToken(s: string) {
    |s| > 0 && |s| % 2 == 0 && AllHexDigits(s)
  }

  /** The fields a push frame carries besides its two constants. */
  datatype Frame = Frame(msgId: nat, token: seq<byte>, payload: seq<byte>)

  /** The values `struct.pack("!bIIH{}sH{}s", ...)` accepts. */
  predicate Packable(f: Frame) {
    f.msgId < UINT32_LIMIT && |f.token| < UINT16_LIMIT && |f.payload| < UINT16_LIMIT
  }

  /** The frame bytes: command, message id, expiry, token length, token,
      payload length, payload; all integers big-endian. */
  function Pack(f: Frame): (r: seq<byte>)
    requires Packable(f)
    ensures |r| == 13 + |f.token| + |f.payload|
  {
    Pow256Widths();
    [COMMAND] + ToBigEndian(f.msgId, 4) + ToBigEndian(EXPIRY, 4)
    + ToBigEndian(|f.token|, 2) + f.token
    + ToBigEndian(|f.payload|, 2) + f.payload
  }

  /** Reads a push frame back: None unless the bytes are exactly one frame
      with command 1 and expiry 0. */
  function Unpack(s: seq<byte>): (r: Option<Frame>)
  {
    if |s| < 11 || s[0] != COMMAND || BigEndian(s[5..9]) != EXPIRY then None
    else
      var t := BigEndian(s[9..11]);
      if |s| < 13 + t then None
      else
        var p := BigEndian(s[11 + t..13 + t]);
        if |s| != 13 + t + p then None
        else Some(Frame(BigEndian(s[1..5]), s[11..11 + t], s[13 + t..]))
  }

  /** Reading a packed frame gives back exactly the packed fields. */
  lemma UnpackPack(f: Frame)
    requires Packable(f)
    ensures Unpack(Pack(f)) == Some(f)
  {
    PackSlices(f);
  }

  /** Where each field of a packed frame lies. */
  lemma PackSlices(f: Frame)
    requires Packable(f)
    ensures
      var s, t, p := Pack(f), |f.token|, |f.payload|;
      Pow256(4) == UINT32_LIMIT && Pow256(2) == UINT16_LIMIT
      && s[0] == COMMAND && s[1..5] == ToBigEndian(f.msgId, 4) && s[5..9] == ToBigEndian(EXPIRY, 4)
      && s[9..11] == ToBigEndian(t, 2) && s[11..11 + t] == f.token
      && s[11 + t..13 + t] == ToBigEndian(p, 2) && s[13 + t..] == f.payload
  {
    Pow256Widths();
    FieldSlices([COMMAND], ToBigEndian(f.msgId, 4), ToBigEndian(EXPIRY, 4), ToBigEndian(|f.token|, 2),
                f.token, ToBigEndian(|f.payload|, 2), f.payload);
  }

  /** Where the fields of a concatenation of seven fields lie. */
  lemma FieldSlices(c: seq<byte>, id: seq<byte>, exp: seq<byte>, tl: seq<byte>,
                    tok: seq<byte>, pl: seq<byte>, pay: seq<byte>)
    requires |c| == 1 && |id| == 4 && |exp| == 4 && |tl| == 2 && |pl| == 2
    ensures
      var s, t := c + id + exp + tl + tok + pl + pay, |tok|;
      s[0] == c[0] && s[1..5] == id && s[5..9] == exp && s[9..11] == tl
      && s[11..11 + t] == tok && s[11 + t..13 + t] == pl && s[13 + t..] == pay
  {
    var t := |tok|;
    var p1 := c + id;
    var p2 := p1 + exp;
    var p3 := p2 + tl;
    var p4 := p3 + tok;
    var p5 := p4 + pl;
    var s := p5 + pay;
    assert s[13 + t..] == pay;
    assert s[..13 + t] == p5;
    assert p5[11 + t..] == pl && p5[..11 + t] == p4;
    assert p4[11..] == tok && p4[..11] == p3;
    assert p3[9..] == tl && p3[..9] == p2;
    assert p2[5..] == exp && p2[..5] == p1;
    assert p1[1..] == id;
    assert s[11 + t..13 + t] == p5[11 + t..];
    assert s[11..11 + t] == p4[11..];
    assert s[9..11] == p3[9..];
    assert s[5..9] == p2[5..];
    assert s[1..5] == p1[1..];
  }

  /** Every byte string that reads as a frame is the packing of what it
      reads as: Pack and Unpack are inverse. */
  lemma PackUnpack(s: seq<byte>)
    requires Unpack(s).Some?
    ensures Packable(Unpack(s).value) && Pack(Unpack(s).value) == s
  {
    Pow256Widths();
    var f := Unpack(s).value;
    var t, p := |f.token|, |f.payload|;
    ToBigEndianOfBigEndian(s[1..5]);
    ToBigEndianOfBigEndian(s[5..9]);
    ToBigEndianOfBigEndian(s[9..11]);
    ToBigEndianOfBigEndian(s[11 + t..13 + t]);
    assert s[..1] == [COMMAND];
    assert [0, 0, 0, 0] == ToBigEndian(EXPIRY, 4) by { ToBigEndianZero(4); }
    SplitSeven(s, t);
  }

  /** A byte string long enough for a frame is the concatenation of the
      slices where the frame's fields lie. */
  lemma SplitSeven(s: seq<byte>, t: nat)
    requires |s| >= 13 + t
    ensures s == s[..1] + s[1..5] + s[5..9] + s[9..11] + s[11..11 + t] + s[11 + t..13 + t] + s[13 + t..]
  {
  }

  /** build_msg: validate the hex token, decode it, and pack the frame
      around the JSON payload, which is given here as its bytes. */
  function BuildMsg(deviceToken: string, msgId: int, payload: seq<byte>): (r: Result<seq<byte>, BuildError>)
    ensures r.Ok? <==>
      WellFormedToken(deviceToken) && 0 <= msgId < UINT32_LIMIT
      && |deviceToken| / 2 < UINT16_LIMIT && |payload| < UINT16_LIMIT
    ensures r.Ok? ==> |r.value| == 13 + |deviceToken| / 2 + |payload|
    ensures r.Ok? ==>
      var f := Unpack(r.value);
      f.Some? && f.value.msgId == msgId && f.value.payload == payload
      && PaddedHex(f.value.token) == ToLowerHex(deviceToken)
  {
    if !MatchesHexPattern(deviceToken) then Err(TokenNotHex)
    else if |deviceToken| % 2 != 0 then Err(TokenOddLength)
    else
      match HexDecode(deviceToken)
      case None => Err(HexDecodeFailed)
      case Some(tokenBytes) =>
        if !(0 <= msgId < UINT32_LIMIT && |tokenBytes| < UINT16_LIMIT && |payload| < UINT16_LIMIT) then
          Err(FieldOutOfRange)
        else
          var f := Frame(msgId, tokenBytes, payload);
          UnpackPack(f);
          PaddedHexOfHexDecode(deviceToken);
          Ok(Pack(f))
  }

  /** The byte layout of a packed frame, field by field. */
  lemma PackLayout(f: Frame)
    requires Packable(f)
    ensures
      var s, t, p := Pack(f), |f.token|, |f.payload|;
      s[0] == 1 && BigEndian(s[1..5]) == f.msgId && s[5..9] == [0, 0, 0, 0]
      && BigEndian(s[9..11]) == t && s[11..11 + t] == f.token
      && BigEndian(s[11 + t..13 + t]) == p && s[13 + t..] == f.payload
  {
    PackSlices(f);
    ToBigEndianZero(4);
  }

  /** The byte layout of a successful build_msg frame, with the token field
      holding the decoded hex token. */
  lemma BuildMsgLayout(deviceToken: string, msgId: int, payload: seq<byte>)
    requires BuildMsg(deviceToken, msgId, payload).Ok?
    ensures
      var s, t, p := BuildMsg(deviceToken, msgId, payload).value, |deviceToken| / 2, |payload|;
      |s| == 13 + t + p && s[0] == 1
      && BigEndian(s[1..5]) == msgId && s[5..9] == [0, 0, 0, 0]
      && BigEndian(s[9..11]) == t && Some(s[11..11 + t]) == HexDecode(deviceToken)
      && BigEndian(s[11 + t..13 + t]) == p && s[13 + t..] == payload
  {
    assert MatchesHexPattern(deviceToken) && |deviceToken| % 2 == 0;
    var tokenBytes := HexDecode(deviceToken).value;
    var f := Frame(msgId, tokenBytes, payload);
    assert BuildMsg(deviceToken, msgId, payload) == Ok(Pack(f));
    PackLayout(f);
  }

  /** The bad tokens: an empty token or one of odd length raises ValueError;
      one with a character that is not a hex digit raises ValueError or,
      when that character is a single final newline that the pattern lets
      through, the TypeError of the hex decoder. None gives a frame. */
  lemma BuildMsgRejectsBadTokens(deviceToken: string, msgId: int, payload: seq<byte>)
    ensures deviceToken == "" ==> BuildMsg(deviceToken, msgId, payload) == Err(TokenNotHex)
    ensures |deviceToken| % 2 == 1 ==>
      BuildMsg(deviceToken, msgId, payload).Err? && IsValueError(BuildMsg(deviceToken, msgId, payload).error)
    ensures !AllHexDigits(deviceToken) ==>
      BuildMsg(deviceToken, msgId, payload).Err?
      && BuildMsg(deviceToken, msgId, payload).error != FieldOutOfRange
    ensures BuildMsg(deviceToken, msgId, payload) == Err(HexDecodeFailed) <==>
      |deviceToken| % 2 == 0 && |deviceToken| >= 2 && deviceToken[|deviceToken| - 1] == '\n'
      && AllHexDigits(deviceToken[..|deviceToken| - 1])
  {
    var n := |deviceToken|;
    if n >= 1 && deviceToken[n - 1] == '\n' {
      assert !IsHexDigit(deviceToken[n - 1]);
    }
  }

  /** An odd-length token, a token with a non-hex character, and a hex
      token ending in a newline. */
  lemma BuildMsgExamples(payload: seq<byte>)
    ensures BuildMsg("abc", 1, payload) == Err(TokenOddLength)
    ensures BuildMsg("zz", 1, payload) == Err(TokenNotHex)
    ensures BuildMsg("abc\n", 1, payload) == Err(HexDecodeFailed)
  {
    assert !IsHexDigit('z');
    assert !IsHexDigit('\n');
  }
}
