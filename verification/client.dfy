/** The gateway's example client: assembling the two requests and decoding
    the reply to each. Every assertion the client makes, and every
    `struct.error` its decoding raises, is a `Rejection`. */
module Client {
  import opened Results
  import opened Bytes
  import opened Proto
  import Struct

  /** The reply handler a request is sent with. */
  datatype Handler = ByLength | ById

  /** What an accepted reply yields: the key id and the key for a key-by-length
      request, the key alone for a key-by-id request. */
  datatype Key = KeyWithId(keyId: Bytes, key: Bytes) | KeyOnly(key: Bytes)

  /** Why the client refuses a reply. */
  datatype Rejection =
    | TooShort(length: nat)                                      // shorter than a reply header
    | WrongSystemMagic(systemMagic: u32)                         // the header's system magic is foreign
    | WrongCommandMagic(commandMagic: u16)                       // the reply answers another request
    | Malformed(error: Struct.StructError)                       // a record after the header is cut short
    | Reported(resultCode: i16, retryAfter: u64, message: Bytes) // the gateway reported an error

  // Requests.

  /** The key-by-length request: the request header with the key-by-length
      command code, then the requested key length. Encoding fails when the
      command magic or the key length does not fit its field, the header
      first. */
  function KeyByLengthRequestBytes(commandMagic: int, keyLength: int): (r: Result<Bytes, Struct.StructError>)
    ensures r.Success? <==> 0 <= commandMagic < 0x1_0000 && 0 <= keyLength < 0x1_0000_0000
    ensures r.Success? ==> |r.value| == RecordSize(Request) + RecordSize(KeyByLengthRequest)
  {
    match RequestData(SystemMagic, commandMagic, CmdGetKeyByLength)
    case Failure(e) => Failure(e)
    case Success(header) =>
      match KeyByLengthRequestData(keyLength)
      case Failure(e) => Failure(e)
      case Success(body) => Success(header + body)
  }

  /** The key-by-id request: the request header with the key-by-id command
      code, then the key id zero-padded or cut to 16 octets. */
  function KeyByIdRequestBytes(commandMagic: int, keyId: Bytes): (r: Result<Bytes, Struct.StructError>)
    ensures r.Success? <==> 0 <= commandMagic < 0x1_0000
    ensures r.Success? ==> |r.value| == RecordSize(Request) + RecordSize(KeyByIdRequest)
  {
    match RequestData(SystemMagic, commandMagic, CmdGetKeyById)
    case Failure(e) => Failure(e)
    case Success(header) => Success(header + KeyByIdRequestData(keyId))
  }

  /** The octets of a key-by-length request. */
  lemma KeyByLengthRequestLayout(commandMagic: u16, keyLength: u32)
    ensures KeyByLengthRequestBytes(commandMagic, keyLength)
      == Success(SystemMagicOctets + ToBigEndian(commandMagic, 2) + [0, 2] + Zeros(8) + ToBigEndian(keyLength, 4))
  {
    RequestDataLayout(SystemMagic, commandMagic, CmdGetKeyByLength);
    KeyByLengthRequestDataLayout(keyLength);
    SystemMagicEncoding();
    CommandCodeOctets();
  }

  /** The octets of a key-by-id request. */
  lemma KeyByIdRequestLayout(commandMagic: u16, keyId: Bytes)
    ensures KeyByIdRequestBytes(commandMagic, keyId)
      == Success(SystemMagicOctets + ToBigEndian(commandMagic, 2) + [0, 1] + Zeros(8) + Fit(keyId, 16))
  {
    RequestDataLayout(SystemMagic, commandMagic, CmdGetKeyById);
    KeyByIdRequestDataLayout(keyId);
    SystemMagicEncoding();
    CommandCodeOctets();
  }

  /** The command codes on the wire. */
  lemma CommandCodeOctets()
    ensures ToBigEndian(CmdGetKeyById, 2) == [0, 1]
    ensures ToBigEndian(CmdGetKeyByLength, 2) == [0, 2]
  {
    Pow256Widths();
  }

  // Replies.

  /** The payload of a successful key-by-length reply: the key id and
      expiration record, then the key. A payload shorter than the record is a
      `struct.error`. */
  function HandleKeyByLengthReply(payload: Bytes): (r: Result<Key, Rejection>)
    ensures r.Success? <==> |payload| >= RecordSize(KeyByLengthReply)
    ensures r.Failure? ==> r.error == Malformed(Struct.WrongSize(RecordSize(KeyByLengthReply), |payload|))
    ensures r.Success? ==> r.value == KeyWithId(payload[..16], payload[RecordSize(KeyByLengthReply)..])
  {
    var head := Truncate(payload, RecordSize(KeyByLengthReply));
    match Unpack(KeyByLengthReply, head)
    case Failure(e) => Failure(Malformed(e))
    case Success(record) =>
      KeyByLengthReplyFields(head);
      assert head[..16] == payload[..16];
      Success(KeyWithId(KeyIdField(record), payload[RecordSize(KeyByLengthReply)..]))
  }

  /** The payload of an error reply: the retry hint record, then the message.
      A payload shorter than the record is a `struct.error`; otherwise the
      client fails reporting the code, the retry hint and the message. */
  function HandleError(resultCode: i16, payload: Bytes): (r: Rejection)
    ensures r.Malformed? <==> |payload| < RecordSize(ErrorDescription)
    ensures r.Malformed? ==> r.error == Struct.WrongSize(RecordSize(ErrorDescription), |payload|)
    ensures |payload| >= RecordSize(ErrorDescription) ==>
      r == Reported(resultCode, FromBigEndian(payload[..8]), payload[RecordSize(ErrorDescription)..])
  {
    var head := Truncate(payload, RecordSize(ErrorDescription));
    match Unpack(ErrorDescription, head)
    case Failure(e) => Malformed(e)
    case Success(record) =>
      ErrorDescriptionFields(head);
      assert head[..8] == payload[..8];
      Reported(resultCode, RetryAfterField(record), payload[RecordSize(ErrorDescription)..])
  }

  /** `handle_reply`: checks the reply header against the request, then hands
      the payload to the request's handler when the result code is not
      negative and to the error handler when it is. */
  function HandleReply(handler: Handler, commandMagic: int, data: Bytes): (r: Result<Key, Rejection>)
    ensures r == Failure(TooShort(|data|)) <==> |data| < RecordSize(Reply)
  {
    if |data| < RecordSize(Reply) then Failure(TooShort(|data|))
    else
      var reply := Unpack(Reply, data[..RecordSize(Reply)]).value;
      var payload := data[RecordSize(Reply)..];
      if SystemMagicField(reply) != SystemMagic then Failure(WrongSystemMagic(SystemMagicField(reply)))
      else if CommandMagicField(reply) != commandMagic then Failure(WrongCommandMagic(CommandMagicField(reply)))
      else if ResultCodeField(reply) >= 0 then
        match handler
        case ByLength => HandleKeyByLengthReply(payload)
        case ById => Success(KeyOnly(payload))
      else Failure(HandleError(ResultCodeField(reply), payload))
  }

  /** The header fields `handle_reply` reads, in terms of the reply's octets. */
  lemma ReplyHeaderFields(data: Bytes)
    requires |data| >= RecordSize(Reply)
    ensures var reply := Unpack(Reply, data[..RecordSize(Reply)]).value;
      && (SystemMagicField(reply) == SystemMagic <==> data[..4] == SystemMagicOctets)
      && CommandMagicField(reply) == FromBigEndian(data[4..6])
      && ResultCodeField(reply) == I16FromBigEndian(data[6..8])
  {
    var h := data[..16];
    ReplyFields(h);
    assert h[..4] == data[..4] && h[4..6] == data[4..6] && h[6..8] == data[6..8];
    SystemMagicDecoding(data[..4]);
  }

  /** `handle_reply` in terms of the reply's octets: the system magic is
      checked, then the command magic, then the sign of the result code picks
      the handler. */
  lemma HandleReplyOctets(handler: Handler, commandMagic: int, data: Bytes)
    requires |data| >= RecordSize(Reply)
    ensures var r, payload, code := HandleReply(handler, commandMagic, data), data[16..], I16FromBigEndian(data[6..8]);
      && (data[..4] != SystemMagicOctets ==> r.Failure? && r.error.WrongSystemMagic?)
      && (data[..4] == SystemMagicOctets && FromBigEndian(data[4..6]) != commandMagic ==>
            r.Failure? && r.error.WrongCommandMagic? && r.error.commandMagic == FromBigEndian(data[4..6]))
      && (data[..4] == SystemMagicOctets && FromBigEndian(data[4..6]) == commandMagic ==>
            r == if code < 0 then Failure(HandleError(code, payload))
                 else if handler == ByLength then HandleKeyByLengthReply(payload)
                 else Success(KeyOnly(payload)))
  {
    ReplyHeaderFields(data);
  }

  /** A reply is accepted exactly when it is at least a header long, carries
      the system magic and the request's command magic, has a non-negative
      result code and, for a key-by-length request, holds the key id record. */
  lemma ReplyAccepted(handler: Handler, commandMagic: int, data: Bytes)
    ensures HandleReply(handler, commandMagic, data).Success? <==>
      && |data| >= RecordSize(Reply)
      && data[..4] == SystemMagicOctets
      && FromBigEndian(data[4..6]) == commandMagic
      && I16FromBigEndian(data[6..8]) >= 0
      && (handler == ByLength ==> |data| >= RecordSize(Reply) + RecordSize(KeyByLengthReply))
  {
    if |data| >= RecordSize(Reply) {
      HandleReplyOctets(handler, commandMagic, data);
    }
  }

  /** An accepted reply yields the key id octets and the key after the
      records for a key-by-length request, and the whole payload as the key
      for a key-by-id request. */
  lemma AcceptedKey(handler: Handler, commandMagic: int, data: Bytes)
    requires HandleReply(handler, commandMagic, data).Success?
    ensures |data| >= RecordSize(Reply)
    ensures handler == ById ==> HandleReply(handler, commandMagic, data).value == KeyOnly(data[16..])
    ensures handler == ByLength ==>
      |data| >= RecordSize(Reply) + RecordSize(KeyByLengthReply)
      && HandleReply(handler, commandMagic, data).value == KeyWithId(data[16..32], data[48..])
  {
    ReplyAccepted(handler, commandMagic, data);
    HandleReplyOctets(handler, commandMagic, data);
    if handler == ByLength {
      SuffixSlices(data, 16, 16);
      SuffixSlices(data, 16, 32);
    }
  }

  /** A reply with the right magics, a negative result code and a cut-short
      retry hint record makes the client fail decoding it. */
  lemma ErrorMalformed(handler: Handler, commandMagic: int, data: Bytes)
    requires RecordSize(Reply) <= |data| < RecordSize(Reply) + RecordSize(ErrorDescription)
    requires data[..4] == SystemMagicOctets && FromBigEndian(data[4..6]) == commandMagic
    requires I16FromBigEndian(data[6..8]) < 0
    ensures HandleReply(handler, commandMagic, data)
      == Failure(Malformed(Struct.WrongSize(RecordSize(ErrorDescription), |data| - 16)))
  {
    HandleReplyOctets(handler, commandMagic, data);
  }

  /** A reply with the right magics and a negative result code makes the
      client fail reporting the code, the retry hint and the message. */
  lemma ErrorReported(handler: Handler, commandMagic: int, data: Bytes)
    requires |data| >= RecordSize(Reply) + RecordSize(ErrorDescription)
    requires data[..4] == SystemMagicOctets && FromBigEndian(data[4..6]) == commandMagic
    requires I16FromBigEndian(data[6..8]) < 0
    ensures HandleReply(handler, commandMagic, data)
      == Failure(Reported(I16FromBigEndian(data[6..8]), FromBigEndian(data[16..24]), data[32..]))
  {
    HandleReplyOctets(handler, commandMagic, data);
    SuffixSlices(data, 16, 8);
    SuffixSlices(data, 16, 16);
  }

  /** Decoding inverts the gateway's reply header: a header built for this
      request's command magic passes the checks, and the payload behind it
      goes to the handler or to the error handler by the sign of the code. */
  lemma ReplyHeaderDecodes(handler: Handler, commandMagic: u16, code: i16, payload: Bytes)
    ensures HandleReply(handler, commandMagic, ReplyData(SystemMagic, commandMagic, code) + payload)
      == if code < 0 then Failure(HandleError(code, payload))
         else if handler == ByLength then HandleKeyByLengthReply(payload)
         else Success(KeyOnly(payload))
  {
    var h := ReplyData(SystemMagic, commandMagic, code);
    var data := h + payload;
    PrefixOfConcat(h, payload);
    ReplyHeaderRanges(commandMagic, code);
    assert data[..4] == SystemMagicOctets && data[4..6] == ToBigEndian(commandMagic, 2) && data[6..8] == I16ToBigEndian(code) by {
      assert data[..16] == h;
    }
    ReplyHeaderFields(data);
    Pow256Widths();
    FromToBigEndian(commandMagic, 2);
    I16RoundTrip(code);
    var reply := Unpack(Reply, data[..RecordSize(Reply)]).value;
    assert SystemMagicField(reply) == SystemMagic;
    assert CommandMagicField(reply) == commandMagic;
    assert ResultCodeField(reply) == code;
  }
}
