/** The gateway's handling of one received datagram: header validation,
    command dispatch, the backend call and the reply or error reply it leads to.
    The backend is not modelled: what it does with the call is an `Outcome`
    supplied with the datagram. */
module Server {
  import opened Results
  import opened Bytes
  import Struct
  import opened Proto

  /** The sender's IP address, as the socket layer reports it. */
  type Ip = string

  datatype Endpoint = Endpoint(ip: Ip, port: int)

  /** What the backend call returns or raises. */
  datatype Outcome =
    | Ok(keyId: Bytes, expirationTime: int, keyBody: Bytes)
    | ClientErr(code: int, message: Option<Bytes>)
    | ServerErr(code: int, message: Option<Bytes>, retryAfter: u64)
    | Other(text: Bytes)

  /** The backend error codes fit the signed 16-bit result code. */
  predicate CodesInRange(o: Outcome)
  {
    match o
    case ClientErr(code, _) => -0x8000 <= code < 0x8000
    case ServerErr(code, _, _) => -0x8000 <= code < 0x8000
    case _ => true
  }

  /** The backend call a request asks for. */
  datatype Call = GetByLength(keyLength: u32) | GetById(keyId: Bytes)

  /** The gateway's configuration: the port replies go to, and the text of
      a `struct.error` (the message the struct library gives its exception). */
  datatype Config = Config(replyPort: int, errorText: Struct.StructError -> Bytes)

  /** The exceptions that escape the handling of a request. */
  datatype Raised =
    | ClientError(code: int, message: Option<Bytes>)
    | ServerError(code: int, message: Option<Bytes>, retryAfter: u64)
    | Unexpected(text: Bytes)

  /** Where a decoded request header leads before the backend is involved. */
  datatype Route = Drop | BadBody(error: Struct.StructError) | Invoke(call: Call)

  /** The system magic is checked, then the command code selects the body
      record; an unknown command or a foreign magic is dropped. */
  function RouteOf(header: Record, body: Bytes): (r: Route)
    requires header.kind == Request && Valid(header)
    ensures r.Invoke? && r.call.GetByLength? ==> |body| == RecordSize(KeyByLengthRequest)
    ensures r.Invoke? && r.call.GetById? ==> |body| == RecordSize(KeyByIdRequest)
  {
    if SystemMagicField(header) != SystemMagic then Drop
    else if CommandCodeField(header) == CmdGetKeyByLength then
      match Unpack(KeyByLengthRequest, body)
      case Failure(e) => BadBody(e)
      case Success(request) => Invoke(GetByLength(KeyLengthField(request)))
    else if CommandCodeField(header) == CmdGetKeyById then
      match Unpack(KeyByIdRequest, body)
      case Failure(e) => BadBody(e)
      case Success(request) => Invoke(GetById(KeyIdField(request)))
    else Drop
  }

  /** The result of handling a request: a reply sent, nothing sent, or an exception. */
  datatype Handled = Sent(payload: Bytes) | Dropped | Threw(exc: Raised)

  /** `__handle_request`: route the request, call the backend, and build the
      success reply; backend errors and malformed bodies escape as exceptions. */
  function HandleRequest(cfg: Config, header: Record, body: Bytes, outcome: Outcome): (h: Handled)
    requires header.kind == Request && Valid(header)
    ensures h.Threw? && h.exc.ClientError? ==> outcome == ClientErr(h.exc.code, h.exc.message)
    ensures h.Threw? && h.exc.ServerError? ==> outcome == ServerErr(h.exc.code, h.exc.message, h.exc.retryAfter)
    ensures h.Sent? ==> RouteOf(header, body).Invoke? && outcome.Ok?
    ensures h.Dropped? <==> RouteOf(header, body).Drop?
    ensures RouteOf(header, body).BadBody? ==> h == Threw(Unexpected(cfg.errorText(RouteOf(header, body).error)))
    ensures RouteOf(header, body).Invoke? && outcome.ClientErr? ==> h == Threw(ClientError(outcome.code, outcome.message))
    ensures RouteOf(header, body).Invoke? && outcome.ServerErr? ==> h == Threw(ServerError(outcome.code, outcome.message, outcome.retryAfter))
    ensures RouteOf(header, body).Invoke? && outcome.Other? ==> h == Threw(Unexpected(outcome.text))
    ensures RouteOf(header, body).Invoke? && outcome.Ok? && (RouteOf(header, body).call.GetById? || 0 <= outcome.expirationTime < 0x1_0000_0000_0000_0000) ==> h.Sent?
    ensures RouteOf(header, body).Invoke? && RouteOf(header, body).call.GetByLength? && outcome.Ok? && !(0 <= outcome.expirationTime < 0x1_0000_0000_0000_0000) ==> h == Threw(Unexpected(cfg.errorText(Struct.OutOfRange(Struct.UInt64))))
  {
    match RouteOf(header, body)
    case Drop => Dropped
    case BadBody(e) => Threw(Unexpected(cfg.errorText(e)))
    case Invoke(call) =>
      match outcome
      case ClientErr(code, message) => Threw(ClientError(code, message))
      case ServerErr(code, message, retryAfter) => Threw(ServerError(code, message, retryAfter))
      case Other(message) => Threw(Unexpected(message))
      case Ok(keyId, expirationTime, keyBody) =>
        KeyByLengthReplyDataLayout(keyId, expirationTime);
        KeyReply(cfg, CommandMagicField(header), call, keyId, expirationTime, keyBody)
  }

  /** The reply to a backend success: the header, then (for a key by length)
      the key id and expiration time, then at most `KeyLengthMax` octets of key. */
  function KeyReply(cfg: Config, commandMagic: u16, call: Call, keyId: Bytes, expirationTime: int, keyBody: Bytes): (h: Handled)
    ensures h.Sent? || h.Threw?
    ensures h.Threw? ==> h.exc.Unexpected?
  {
    var reply := ReplyData(SystemMagic, commandMagic, ResultCodeSuccess);
    var key := Truncate(keyBody, KeyLengthMax);
    match call
    case GetById(_) => Sent(reply + key)
    case GetByLength(_) =>
      match KeyByLengthReplyData(keyId, expirationTime)
      case Failure(e) => Threw(Unexpected(cfg.errorText(e)))
      case Success(idAndExpiration) => Sent(reply + idAndExpiration + key)
  }

  /** A success reply fits one datagram and starts with the reply header
      carrying result code 0. */
  lemma KeyReplyShape(cfg: Config, commandMagic: u16, call: Call, keyId: Bytes, expirationTime: int, keyBody: Bytes)
    ensures var h := KeyReply(cfg, commandMagic, call, keyId, expirationTime, keyBody);
      h.Sent? ==> RecordSize(Reply) <= |h.payload| <= RecvPacketSize
                  && h.payload[..RecordSize(Reply)] == ReplyData(SystemMagic, commandMagic, ResultCodeSuccess)
  {
    var reply := ReplyData(SystemMagic, commandMagic, ResultCodeSuccess);
    var key := Truncate(keyBody, KeyLengthMax);
    var h := KeyReply(cfg, commandMagic, call, keyId, expirationTime, keyBody);
    if h.Sent? {
      if call.GetById? {
        assert h.payload == reply + key;
        HeaderThenTail(reply, key);
      } else {
        var d := KeyByLengthReplyData(keyId, expirationTime);
        assert d.Success? && |d.value| == 32;
        assert h.payload == reply + d.value + key;
        ConcatAssocThree(reply, d.value, key);
        HeaderThenTail(reply, d.value + key);
      }
    }
  }

  lemma HeaderThenTail(reply: Bytes, tail: Bytes)
    requires |reply| == 16 && |tail| <= RecvPacketSize - 16
    ensures 16 <= |reply + tail| <= RecvPacketSize && (reply + tail)[..16] == reply
  {
    PrefixOfConcat(reply, tail);
  }

  /** An error reply: the header carrying the error code, the retry hint, and
      at most `ErrorMessageLengthMax` octets of message (none when absent). */
  function ErrorReply(commandMagic: u16, code: i16, retryAfter: u64, message: Option<Bytes>): (r: Bytes)
    ensures |r| >= RecordSize(Reply) + RecordSize(ErrorDescription)
  {
    var text := match message case Some(m) => m case None => [];
    ReplyData(SystemMagic, commandMagic, code) + ErrorDescriptionData(retryAfter) + Truncate(text, ErrorMessageLengthMax)
  }

  /** An error reply fits one datagram and starts with the reply header
      carrying the error's result code. */
  lemma ErrorReplyShape(commandMagic: u16, code: i16, retryAfter: u64, message: Option<Bytes>)
    ensures var r := ErrorReply(commandMagic, code, retryAfter, message);
      && RecordSize(Reply) <= |r| <= RecordSize(Reply) + RecordSize(ErrorDescription) + ErrorMessageLengthMax
      && r[..RecordSize(Reply)] == ReplyData(SystemMagic, commandMagic, code)
  {
    var text := match message case Some(m) => m case None => [];
    var reply := ReplyData(SystemMagic, commandMagic, code);
    var rest := ErrorDescriptionData(retryAfter) + Truncate(text, ErrorMessageLengthMax);
    assert ErrorReply(commandMagic, code, retryAfter, message) == reply + rest;
    PrefixOfConcat(reply, rest);
  }

  /** The result code an exception is reported with. */
  function ResultCodeOf(exc: Raised): int
  {
    match exc
    case ClientError(code, _) => code
    case ServerError(code, _, _) => code
    case Unexpected(_) => ResultCodeThriftApiConnection as int
  }

  /** The error reply for an exception caught in the receive loop: backend
      client and server errors carry their own code, message and (server
      errors only) retry hint; anything else is reported as `ResultCodeThriftApiConnection`
      with the exception's text. */
  function ExceptionReply(commandMagic: u16, exc: Raised): (r: Bytes)
    requires -0x8000 <= ResultCodeOf(exc) < 0x8000
  {
    match exc
    case ClientError(code, message) => ErrorReply(commandMagic, code, 0, message)
    case ServerError(code, message, retryAfter) => ErrorReply(commandMagic, code, retryAfter, message)
    case Unexpected(text) => ErrorReply(commandMagic, ResultCodeThriftApiConnection, 0, Some(text))
  }

  /** What one pass of the receive loop does with a received datagram. */
  datatype Action = NoReply | Send(to: Endpoint, payload: Bytes) | Return

  /** The request header of a datagram long enough to hold one. */
  function HeaderOf(data: Bytes): (header: Record)
    requires |data| >= RecordSize(Request)
    ensures header.kind == Request && Valid(header)
  {
    Unpack(Request, data[..RecordSize(Request)]).value
  }

  function CommandMagicOf(data: Bytes): (m: u16)
    requires |data| >= RecordSize(Request)
    ensures ToBigEndian(m, 2) == data[4..6]
    ensures m == CommandMagicField(HeaderOf(data))
  {
    assert RecordSize(Request) == 16;
    RequestFields(data[..16]);
    assert data[..16][4..6] == data[4..6];
    Pow256Widths();
    ToFromBigEndian(data[4..6]);
    CommandMagicField(HeaderOf(data))
  }

  /** The backend call a datagram leads to, if any. */
  function BackendCall(data: Bytes): Option<Call>
  {
    if |data| < RecordSize(Request) then None
    else match RouteOf(HeaderOf(data), data[RecordSize(Request)..])
      case Invoke(call) => Some(call)
      case _ => None
  }

  /** One pass of the receive loop over a received datagram from `sender`:
      a datagram shorter than a request header ends the loop; otherwise the
      request is handled and any exception becomes an error reply. Every
      reply goes to the sender's address at the reply port and starts with a
      reply header carrying the system magic and the request's command magic. */
  function Step(cfg: Config, data: Bytes, sender: Ip, outcome: Outcome): (a: Action)
    requires CodesInRange(outcome)
    ensures a.Return? <==> |data| < RecordSize(Request)
    ensures a.Send? ==> a.to == Endpoint(sender, cfg.replyPort)
  {
    if |data| < RecordSize(Request) then Return
    else
      var commandMagic := CommandMagicOf(data);
      var to := Endpoint(sender, cfg.replyPort);
      match HandleRequest(cfg, HeaderOf(data), data[RecordSize(Request)..], outcome)
      case Dropped => NoReply
      case Sent(payload) => Send(to, payload)
      case Threw(exc) => Send(to, ExceptionReply(commandMagic, exc))
  }

  /** Every reply fits one datagram and starts with the system magic octets
      followed by the request's own command magic octets. */
  lemma StepReplyShape(cfg: Config, data: Bytes, sender: Ip, outcome: Outcome)
    requires CodesInRange(outcome)
    ensures var a := Step(cfg, data, sender, outcome);
      a.Send? ==> && RecordSize(Reply) <= |a.payload| <= RecvPacketSize
                  && a.payload[..4] == SystemMagicOctets && a.payload[4..6] == data[4..6]
  {
    if |data| >= 16 {
      var commandMagic := CommandMagicOf(data);
      var header, body := HeaderOf(data), data[16..];
      var h := HandleRequest(cfg, header, body, outcome);
      if h.Sent? {
        HandleRequestShape(cfg, header, body, outcome);
        ReplyPrefix(h.payload, commandMagic, ResultCodeSuccess);
      } else if h.Threw? {
        var exc := h.exc;
        var payload := ExceptionReply(commandMagic, exc);
        var code: i16 := ResultCodeOf(exc);
        var retryAfter: u64 := if exc.ServerError? then exc.retryAfter else 0;
        var message := if exc.Unexpected? then Some(exc.text) else exc.message;
        assert payload == ErrorReply(commandMagic, code, retryAfter, message);
        ErrorReplyShape(commandMagic, code, retryAfter, message);
        ReplyPrefix(payload, commandMagic, code);
      }
    }
  }

  /** A handled request's reply fits one datagram and starts with the reply
      header carrying result code 0. */
  lemma HandleRequestShape(cfg: Config, header: Record, body: Bytes, outcome: Outcome)
    requires header.kind == Request && Valid(header)
    ensures var h := HandleRequest(cfg, header, body, outcome);
      h.Sent? ==> RecordSize(Reply) <= |h.payload| <= RecvPacketSize
                  && h.payload[..RecordSize(Reply)] == ReplyData(SystemMagic, CommandMagicField(header), ResultCodeSuccess)
  {
    match RouteOf(header, body)
    case Invoke(call) =>
      if outcome.Ok? {
        KeyReplyShape(cfg, CommandMagicField(header), call, outcome.keyId, outcome.expirationTime, outcome.keyBody);
      }
    case _ =>
  }

  /** Every reply starts with the system magic octets, then the command magic. */
  lemma ReplyPrefix(payload: Bytes, commandMagic: u16, code: i16)
    requires |payload| >= 16 && payload[..16] == ReplyData(SystemMagic, commandMagic, code)
    ensures payload[..4] == SystemMagicOctets && payload[4..6] == ToBigEndian(commandMagic, 2)
  {
    var h := ReplyData(SystemMagic, commandMagic, code);
    ReplyHeaderRanges(commandMagic, code);
    HeaderSlices(payload, h);
  }

  lemma HeaderSlices(payload: Bytes, h: Bytes)
    requires |payload| >= 16 && |h| == 16 && payload[..16] == h
    ensures payload[..4] == h[..4] && payload[4..6] == h[4..6]
  {
    assert payload[..4] == payload[..16][..4];
    assert payload[4..6] == payload[..16][4..6];
  }

  /** A two-octet command code field decodes to 1 or 2 only when it holds `00 01` or `00 02`. */
  lemma CommandCodeLayout(field: Bytes)
    requires |field| == 2
    ensures FromBigEndian(field) == CmdGetKeyById as int <==> field == [0, CmdGetKeyById]
    ensures FromBigEndian(field) == CmdGetKeyByLength as int <==> field == [0, CmdGetKeyByLength]
  {
    Pow256Widths();
    ToFromBigEndian(field);
    FromToBigEndian(1, 2);
    FromToBigEndian(2, 2);
    assert ToBigEndian(1, 2) == [0, 1];
    assert ToBigEndian(2, 2) == [0, 2];
  }

  /** The header fields the dispatch reads, in terms of the datagram's octets. */
  lemma HeaderOfFields(data: Bytes)
    requires |data| >= RecordSize(Request)
    ensures SystemMagicField(HeaderOf(data)) == SystemMagic <==> data[..4] == SystemMagicOctets
    ensures CommandCodeField(HeaderOf(data)) == CmdGetKeyById <==> data[6..8] == [0, CmdGetKeyById]
    ensures CommandCodeField(HeaderOf(data)) == CmdGetKeyByLength <==> data[6..8] == [0, CmdGetKeyByLength]
  {
    var h := data[..16];
    RequestFields(h);
    assert h[..4] == data[..4] && h[6..8] == data[6..8];
    SystemMagicDecoding(data[..4]);
    CommandCodeLayout(data[6..8]);
  }

  /** Where a datagram's header sends it: a foreign magic or an unknown
      command is dropped, a known command whose body has the wrong size is a
      `struct.error`, and a well-sized body becomes the backend call. */
  lemma RouteLayout(data: Bytes)
    requires |data| >= RecordSize(Request)
    ensures var body, r := data[16..], RouteOf(HeaderOf(data), data[16..]);
      && (data[..4] != SystemMagicOctets ==> r == Drop)
      && (data[6..8] != [0, 1] && data[6..8] != [0, 2] ==> r == Drop)
      && (data[..4] == SystemMagicOctets && data[6..8] == [0, 2] ==>
            if |body| == 4 then r.Invoke? && r.call.GetByLength? && r.call.keyLength == FromBigEndian(body)
            else r == BadBody(Struct.WrongSize(4, |body|)))
      && (data[..4] == SystemMagicOctets && data[6..8] == [0, 1] ==>
            if |body| == 16 then r == Invoke(GetById(body))
            else r == BadBody(Struct.WrongSize(16, |body|)))
  {
    HeaderOfFields(data);
    var body := data[16..];
    if |body| == 4 {
      KeyByLengthRequestFields(body);
    }
    if |body| == 16 {
      KeyByIdRequestFields(body);
    }
  }

  /** A datagram at least a header long gets exactly one reply when it
      carries the system magic and a known command code, and none otherwise;
      the body and the backend's answer do not matter. */
  lemma RepliesIffKnownCommand(cfg: Config, data: Bytes, sender: Ip, outcome: Outcome)
    requires CodesInRange(outcome) && |data| >= RecordSize(Request)
    ensures Step(cfg, data, sender, outcome).Send?
      <==> data[..4] == SystemMagicOctets && (data[6..8] == [0, 1] || data[6..8] == [0, 2])
    ensures Step(cfg, data, sender, outcome).NoReply?
      <==> !(data[..4] == SystemMagicOctets && (data[6..8] == [0, 1] || data[6..8] == [0, 2]))
  {
    var h := HandleRequest(cfg, HeaderOf(data), data[16..], outcome);
    assert h.Dropped? <==> RouteOf(HeaderOf(data), data[16..]).Drop?;
    RouteLayout(data);
  }

  /** The backend is called exactly for a datagram carrying the system magic,
      a known command code and a body of that command's size; the call
      carries the body's key length or key id. */
  lemma BackendCallLayout(data: Bytes)
    ensures BackendCall(data).Some? <==>
      && |data| >= RecordSize(Request)
      && data[..4] == SystemMagicOctets
      && ((data[6..8] == [0, 2] && |data| == 20) || (data[6..8] == [0, 1] && |data| == 32))
    ensures BackendCall(data).Some? && BackendCall(data).value.GetByLength? ==>
      data[6..8] == [0, 2] && BackendCall(data).value.keyLength == FromBigEndian(data[16..20])
    ensures BackendCall(data).Some? && BackendCall(data).value.GetById? ==>
      data[6..8] == [0, 1] && BackendCall(data).value.keyId == data[16..32]
  {
    if |data| >= RecordSize(Request) {
      RouteLayout(data);
      var body := data[16..];
      var r := RouteOf(HeaderOf(data), body);
      assert BackendCall(data) == (if r.Invoke? then Some(r.call) else None);
      if |data| == 20 {
        assert body == data[16..20];
      } else if |data| == 32 {
        assert body == data[16..32];
      }
    }
  }

  /** When no backend call is made, the backend's answer cannot influence what
      the gateway does. */
  lemma OutcomeUnusedWithoutCall(cfg: Config, data: Bytes, sender: Ip, o1: Outcome, o2: Outcome)
    requires CodesInRange(o1) && CodesInRange(o2)
    requires BackendCall(data).None?
    ensures Step(cfg, data, sender, o1) == Step(cfg, data, sender, o2)
  {
  }

  /** The success reply to a key-by-id request: the reply header with result
      code 0 followed by at most `KeyLengthMax` octets of key. */
  lemma KeyByIdSuccess(cfg: Config, data: Bytes, sender: Ip, keyId: Bytes, expirationTime: int, keyBody: Bytes)
    requires BackendCall(data).Some? && BackendCall(data).value.GetById?
    ensures Step(cfg, data, sender, Ok(keyId, expirationTime, keyBody))
      == Send(Endpoint(sender, cfg.replyPort), ReplyData(SystemMagic, CommandMagicOf(data), 0) + Truncate(keyBody, KeyLengthMax))
  {
  }

  /** The success reply to a key-by-length request: the reply header with
      result code 0, the key id zero-padded or cut to 16 octets, the expiration
      time in eight octets, eight reserved zero octets, then at most
      `KeyLengthMax` octets of key. */
  lemma KeyByLengthSuccess(cfg: Config, data: Bytes, sender: Ip, keyId: Bytes, expirationTime: u64, keyBody: Bytes)
    requires BackendCall(data).Some? && BackendCall(data).value.GetByLength?
    ensures Step(cfg, data, sender, Ok(keyId, expirationTime, keyBody))
      == Send(Endpoint(sender, cfg.replyPort),
              ReplyData(SystemMagic, CommandMagicOf(data), 0) + Fit(keyId, 16) + ToBigEndian(expirationTime, 8) + Zeros(8)
              + Truncate(keyBody, KeyLengthMax))
  {
    var outcome := Ok(keyId, expirationTime, keyBody);
    var call, commandMagic := BackendCall(data).value, CommandMagicOf(data);
    var reply, key := ReplyData(SystemMagic, commandMagic, 0), Truncate(keyBody, KeyLengthMax);
    var a, b, c := Fit(keyId, 16), ToBigEndian(expirationTime, 8), Zeros(8);
    StepUnfold(cfg, data, sender, outcome);
    assert HandleRequest(cfg, HeaderOf(data), data[16..], outcome)
      == KeyReply(cfg, commandMagic, call, keyId, expirationTime, keyBody);
    KeyByLengthReplyDataLayout(keyId, expirationTime);
    assert KeyReply(cfg, commandMagic, call, keyId, expirationTime, keyBody) == Sent(reply + (a + b + c) + key);
    assert reply + (a + b + c) + key == reply + a + b + c + key by {
      ConcatAssocTail(reply, a, b, c, key);
    }
  }

  /** How a datagram at least a header long is answered, given how its
      request was handled. */
  lemma StepUnfold(cfg: Config, data: Bytes, sender: Ip, outcome: Outcome)
    requires CodesInRange(outcome) && |data| >= RecordSize(Request)
    ensures var h, to := HandleRequest(cfg, HeaderOf(data), data[16..], outcome), Endpoint(sender, cfg.replyPort);
      && (h.Dropped? ==> Step(cfg, data, sender, outcome) == NoReply)
      && (h.Sent? ==> Step(cfg, data, sender, outcome) == Send(to, h.payload))
      && (h.Threw? ==> Step(cfg, data, sender, outcome) == Send(to, ExceptionReply(CommandMagicOf(data), h.exc)))
  {
  }

  /** An expiration time that does not fit the unsigned 64-bit field makes
      the reply's packing fail inside the guarded block, so the requester gets
      a `ResultCodeThriftApiConnection` error carrying the `struct.error` text. */
  lemma ExpirationOutOfRange(cfg: Config, data: Bytes, sender: Ip, keyId: Bytes, expirationTime: int, keyBody: Bytes)
    requires BackendCall(data).Some? && BackendCall(data).value.GetByLength?
    requires !(0 <= expirationTime < 0x1_0000_0000_0000_0000)
    ensures Step(cfg, data, sender, Ok(keyId, expirationTime, keyBody))
      == Send(Endpoint(sender, cfg.replyPort),
              ErrorReply(CommandMagicOf(data), ResultCodeThriftApiConnection, 0, Some(cfg.errorText(Struct.OutOfRange(Struct.UInt64)))))
  {
    var call, commandMagic := BackendCall(data).value, CommandMagicOf(data);
    assert HandleRequest(cfg, HeaderOf(data), data[16..], Ok(keyId, expirationTime, keyBody))
      == KeyReply(cfg, commandMagic, call, keyId, expirationTime, keyBody);
    KeyByLengthReplyDataLayout(keyId, expirationTime);
  }

  /** Backend failures become error replies: client errors carry their code
      and message, server errors also their retry hint, and anything else is
      reported as `ResultCodeThriftApiConnection` with its text. */
  lemma BackendErrorReply(cfg: Config, data: Bytes, sender: Ip, outcome: Outcome)
    requires BackendCall(data).Some? && CodesInRange(outcome) && !outcome.Ok?
    ensures Step(cfg, data, sender, outcome) == Send(Endpoint(sender, cfg.replyPort),
      match outcome
      case ClientErr(code, message) => ErrorReply(CommandMagicOf(data), code, 0, message)
      case ServerErr(code, message, retryAfter) => ErrorReply(CommandMagicOf(data), code, retryAfter, message)
      case Other(text) => ErrorReply(CommandMagicOf(data), ResultCodeThriftApiConnection, 0, Some(text)))
  {
  }

  /** A known command whose body has the wrong size never reaches the backend:
      the failed body decode is reported as `ResultCodeThriftApiConnection`
      with the text `Config.errorText` gives for the size error. */
  lemma BadBodyReply(cfg: Config, data: Bytes, sender: Ip, outcome: Outcome)
    requires CodesInRange(outcome)
    requires |data| >= RecordSize(Request) && data[..4] == SystemMagicOctets
    requires (data[6..8] == [0, 2] && |data| != 20) || (data[6..8] == [0, 1] && |data| != 32)
    ensures var expected := if data[6..8] == [0, 2] then 4 else 16;
      Step(cfg, data, sender, outcome) == Send(Endpoint(sender, cfg.replyPort),
        ErrorReply(CommandMagicOf(data), ResultCodeThriftApiConnection, 0, Some(cfg.errorText(Struct.WrongSize(expected, |data| - 16)))))
  {
    RouteLayout(data);
    StepUnfold(cfg, data, sender, outcome);
    var expected := if data[6..8] == [0, 2] then 4 else 16;
    var e := Struct.WrongSize(expected, |data| - 16);
    assert RouteOf(HeaderOf(data), data[16..]) == BadBody(e);
    assert HandleRequest(cfg, HeaderOf(data), data[16..], outcome) == Threw(Unexpected(cfg.errorText(e)));
    var commandMagic, text := CommandMagicOf(data), cfg.errorText(e);
    assert ExceptionReply(commandMagic, Unexpected(text)) == ErrorReply(commandMagic, ResultCodeThriftApiConnection, 0, Some(text));
  }

  /** The octets of an error reply. */
  lemma ErrorReplyLayout(commandMagic: u16, code: i16, retryAfter: u64, message: Option<Bytes>)
    ensures var text := if message.Some? then message.value else [];
      ErrorReply(commandMagic, code, retryAfter, message)
        == SystemMagicOctets + ToBigEndian(commandMagic, 2) + I16ToBigEndian(code) + Zeros(8)
           + ToBigEndian(retryAfter, 8) + Zeros(8) + Truncate(text, ErrorMessageLengthMax)
  {
    var text := if message.Some? then message.value else [];
    ReplyDataLayout(SystemMagic, commandMagic, code);
    ErrorDescriptionDataLayout(retryAfter);
    SystemMagicEncoding();
    var a, b, c, d := SystemMagicOctets, ToBigEndian(commandMagic, 2), I16ToBigEndian(code), Zeros(8);
    var e, f, g := ToBigEndian(retryAfter, 8), Zeros(8), Truncate(text, ErrorMessageLengthMax);
    assert ErrorReply(commandMagic, code, retryAfter, message) == (a + b + c + d) + (e + f) + g;
    ConcatRegroup(a + b + c + d, e, f, g);
  }

  /** `ResultCodeThriftApiConnection` goes on the wire as `FF 37`. */
  lemma ThriftApiConnectionOctets()
    ensures I16ToBigEndian(ResultCodeThriftApiConnection) == [0xFF, 0x37]
  {
    Pow256Widths();
  }
}
