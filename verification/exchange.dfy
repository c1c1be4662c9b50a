/** The client and the gateway together: the requests the client assembles
    reach the backend as the calls the client meant, and the replies the
    gateway sends back decode on the client to the backend's key or error. */
module Exchange {
  import opened Results
  import opened Bytes
  import opened Proto
  import opened Server
  import opened Client

  /** The octet ranges of a request header followed by a body. */
  lemma RequestSplit(magic: Bytes, commandMagic: Bytes, commandCode: Bytes, body: Bytes)
    requires |magic| == 4 && |commandMagic| == 2 && |commandCode| == 2
    ensures var d := magic + commandMagic + commandCode + Zeros(8) + body;
      && |d| == 16 + |body|
      && d[..4] == magic && d[4..6] == commandMagic && d[6..8] == commandCode
      && d[16..] == body
  {
    var d := magic + commandMagic + commandCode + Zeros(8) + body;
    assert d[..4] == magic;
    assert d[4..6] == commandMagic;
    assert d[6..8] == commandCode;
    assert d[16..] == body;
  }

  /** Two-octet fields are equal exactly when their values are. */
  lemma CommandMagicRoundTrip(m: u16, n: u16)
    requires ToBigEndian(m, 2) == ToBigEndian(n, 2)
    ensures m == n
  {
    Pow256Widths();
    FromToBigEndian(m, 2);
    FromToBigEndian(n, 2);
  }

  /** A request as the client lays it out: the header fields the gateway
      dispatches on sit where it reads them. */
  lemma ClientRequestFields(commandMagic: u16, commandCode: Bytes, body: Bytes)
    requires |commandCode| == 2
    ensures var d := SystemMagicOctets + ToBigEndian(commandMagic, 2) + commandCode + Zeros(8) + body;
      && |d| == RecordSize(Request) + |body|
      && d[..4] == SystemMagicOctets && d[6..8] == commandCode && d[16..] == body
      && CommandMagicOf(d) == commandMagic
  {
    var d := SystemMagicOctets + ToBigEndian(commandMagic, 2) + commandCode + Zeros(8) + body;
    RequestSplit(SystemMagicOctets, ToBigEndian(commandMagic, 2), commandCode, body);
    CommandMagicRoundTrip(CommandMagicOf(d), commandMagic);
  }

  /** A key-by-length request from the client reaches the backend as a
      request for that key length, under the client's command magic. */
  lemma KeyByLengthRequestReachesBackend(commandMagic: u16, keyLength: u32)
    ensures var data := KeyByLengthRequestBytes(commandMagic, keyLength).value;
      && BackendCall(data) == Some(GetByLength(keyLength))
      && CommandMagicOf(data) == commandMagic
  {
    KeyByLengthRequestLayout(commandMagic, keyLength);
    var body := ToBigEndian(keyLength, 4);
    ClientRequestFields(commandMagic, [0, 2], body);
    var data := KeyByLengthRequestBytes(commandMagic, keyLength).value;
    DispatchByLength(data);
    Pow256Widths();
    FromToBigEndian(keyLength, 4);
  }

  /** A key-by-id request from the client reaches the backend as a request
      for the key id zero-padded or cut to 16 octets. */
  lemma KeyByIdRequestReachesBackend(commandMagic: u16, keyId: Bytes)
    ensures var data := KeyByIdRequestBytes(commandMagic, keyId).value;
      && BackendCall(data) == Some(GetById(Fit(keyId, 16)))
      && CommandMagicOf(data) == commandMagic
  {
    KeyByIdRequestLayout(commandMagic, keyId);
    ClientRequestFields(commandMagic, [0, 1], Fit(keyId, 16));
    DispatchById(KeyByIdRequestBytes(commandMagic, keyId).value);
  }

  lemma DispatchByLength(data: Bytes)
    requires |data| == RecordSize(Request) + RecordSize(KeyByLengthRequest)
    requires data[..4] == SystemMagicOctets && data[6..8] == [0, 2]
    ensures BackendCall(data) == Some(GetByLength(FromBigEndian(data[16..])))
  {
    BackendCallLayout(data);
    assert data[16..20] == data[16..];
  }

  lemma DispatchById(data: Bytes)
    requires |data| == RecordSize(Request) + RecordSize(KeyByIdRequest)
    requires data[..4] == SystemMagicOctets && data[6..8] == [0, 1]
    ensures BackendCall(data) == Some(GetById(data[16..]))
  {
    BackendCallLayout(data);
    assert data[16..32] == data[16..];
  }

  /** The octet ranges of a key-by-length reply payload. */
  lemma KeyRecordSplit(keyId: Bytes, expiration: Bytes, reserved: Bytes, key: Bytes)
    requires |keyId| == 16 && |expiration| == 8 && |reserved| == 8
    ensures var p := keyId + expiration + reserved + key;
      p[..16] == keyId && p[32..] == key
  {
    var p := keyId + expiration + reserved + key;
    assert p[..16] == keyId;
    assert p[32..] == key;
  }

  /** A key-by-length exchange the backend serves: the client gets the
      backend's key id, zero-padded or cut to 16 octets, and at most
      `KeyLengthMax` octets of its key. */
  lemma KeyByLengthExchange(cfg: Config, sender: Ip, commandMagic: u16, keyLength: u32,
                            keyId: Bytes, expirationTime: u64, keyBody: Bytes)
    ensures var a := Step(cfg, KeyByLengthRequestBytes(commandMagic, keyLength).value, sender, Ok(keyId, expirationTime, keyBody));
      && a.Send?
      && HandleReply(ByLength, commandMagic, a.payload) == Success(KeyWithId(Fit(keyId, 16), Truncate(keyBody, KeyLengthMax)))
  {
    var data := KeyByLengthRequestBytes(commandMagic, keyLength).value;
    KeyByLengthRequestReachesBackend(commandMagic, keyLength);
    KeyByLengthSuccess(cfg, data, sender, keyId, expirationTime, keyBody);
    var h := ReplyData(SystemMagic, commandMagic, 0);
    var a, b, c, key := Fit(keyId, 16), ToBigEndian(expirationTime, 8), Zeros(8), Truncate(keyBody, KeyLengthMax);
    var rest := a + b + c + key;
    ConcatAssocFive(h, a, b, c, key);
    ReplyHeaderDecodes(ByLength, commandMagic, 0, rest);
    KeyRecordSplit(a, b, c, key);
  }

  /** A key-by-id exchange the backend serves: the client gets at most
      `KeyLengthMax` octets of the backend's key. */
  lemma KeyByIdExchange(cfg: Config, sender: Ip, commandMagic: u16, keyId: Bytes,
                        backendKeyId: Bytes, expirationTime: int, keyBody: Bytes)
    ensures var a := Step(cfg, KeyByIdRequestBytes(commandMagic, keyId).value, sender, Ok(backendKeyId, expirationTime, keyBody));
      && a.Send?
      && HandleReply(ById, commandMagic, a.payload) == Success(KeyOnly(Truncate(keyBody, KeyLengthMax)))
  {
    var data := KeyByIdRequestBytes(commandMagic, keyId).value;
    KeyByIdRequestReachesBackend(commandMagic, keyId);
    KeyByIdSuccess(cfg, data, sender, backendKeyId, expirationTime, keyBody);
    ReplyHeaderDecodes(ById, commandMagic, 0, Truncate(keyBody, KeyLengthMax));
  }

  /** An error reply with a negative code decodes on the client to that
      code, the retry hint and at most `ErrorMessageLengthMax` octets of the
      message (none when absent). */
  lemma ErrorReplyDecodes(handler: Handler, commandMagic: u16, code: i16, retryAfter: u64, message: Option<Bytes>)
    requires code < 0
    ensures var text := if message.Some? then message.value else [];
      HandleReply(handler, commandMagic, ErrorReply(commandMagic, code, retryAfter, message))
        == Failure(Reported(code, retryAfter, Truncate(text, ErrorMessageLengthMax)))
  {
    var text := if message.Some? then message.value else [];
    var h, e, t := ReplyData(SystemMagic, commandMagic, code), ErrorDescriptionData(retryAfter), Truncate(text, ErrorMessageLengthMax);
    assert ErrorReply(commandMagic, code, retryAfter, message) == h + e + t;
    ConcatAssocThree(h, e, t);
    ReplyHeaderDecodes(handler, commandMagic, code, e + t);
    ErrorDescriptionDecodes(code, retryAfter, t);
  }

  /** The client's error handler inverts the gateway's retry hint record. */
  lemma ErrorDescriptionDecodes(code: i16, retryAfter: u64, message: Bytes)
    ensures HandleError(code, ErrorDescriptionData(retryAfter) + message) == Reported(code, retryAfter, message)
  {
    var e := ErrorDescriptionData(retryAfter);
    ErrorDescriptionDataLayout(retryAfter);
    PrefixOfConcat(e, message);
    var p := e + message;
    assert p[..8] == ToBigEndian(retryAfter, 8);
    Pow256Widths();
    FromToBigEndian(retryAfter, 8);
  }

  /** A backend failure on a request that reached it decodes on the client
      as the error it was: a client error with its code and message, a
      server error also with its retry hint, and anything else as
      `ResultCodeThriftApiConnection` with its text. */
  lemma BackendFailureReported(cfg: Config, data: Bytes, sender: Ip, outcome: Outcome, handler: Handler)
    requires BackendCall(data).Some? && CodesInRange(outcome) && !outcome.Ok?
    requires outcome.ClientErr? || outcome.ServerErr? ==> outcome.code < 0
    ensures var a := Step(cfg, data, sender, outcome);
      && a.Send?
      && HandleReply(handler, CommandMagicOf(data), a.payload) == Failure(
           match outcome
           case ClientErr(code, message) => Reported(code, 0, Truncate(if message.Some? then message.value else [], ErrorMessageLengthMax))
           case ServerErr(code, message, retryAfter) => Reported(code, retryAfter, Truncate(if message.Some? then message.value else [], ErrorMessageLengthMax))
           case Other(text) => Reported(ResultCodeThriftApiConnection, 0, Truncate(text, ErrorMessageLengthMax)))
  {
    BackendErrorReply(cfg, data, sender, outcome);
    var cm := CommandMagicOf(data);
    match outcome
    case ClientErr(code, message) => ErrorReplyDecodes(handler, cm, code, 0, message);
    case ServerErr(code, message, retryAfter) => ErrorReplyDecodes(handler, cm, code, retryAfter, message);
    case Other(text) => ErrorReplyDecodes(handler, cm, ResultCodeThriftApiConnection, 0, Some(text));
  }
}
