# QRate UDP gateway: a Dafny model

The QRate UDP proxy is a gateway. It receives fixed-format big-endian command
datagrams, turns each one into a call on a QKD key service, and sends the key,
or an error, back to the requester's reply port. This project models three
parts of it:

- the wire protocol in `qrate_udp_proxy/proto.py`: the constants, the generic
  record helper (`unpack`, `from_fields`, `as_data`) and the six record
  layouts;
- the gateway's per-datagram processing in `qrate_udp_proxy/server.py`:
  - the size check in the receive loop;
  - header validation and command dispatch (`__handle_request`);
  - the success replies;
  - the error replies built by `__send_error_reply` for backend client
    errors, backend server errors and any other exception;
  - the receive loop as a whole, as a fold over what it observes;
- the example client in `test/main.py`: assembling the two requests and
  decoding the replies (`handle_reply` and its handlers).

Modules, one file each:

| file | module | contents |
|---|---|---|
| `results.dfy` | `Results` | `Option` and `Result`. These stand in for `None` and for exceptions. |
| `bytes.dfy` | `Bytes` | Octets, bounded integers, big-endian conversion with its round trips, and zero padding and truncation. |
| `struct.dfy` | `Struct` | The part of Python's `struct` the formats use: the `>` byte order with codes `H h I Q Ns d Nx`. |
| `proto.dfy` | `Proto` | The constants, the six layouts and the generic record, plus octet-level and field-level lemmas for every record. |
| `server.dfy` | `Server` | One pass of the receive loop over one datagram: `Step`. |
| `serving.dfy` | `Serving` | The receive loop over a run of events. There are two versions: as written, and with an undersized datagram skipped (see Findings). |
| `client.dfy` | `Client` | The client's request assembly and reply handling. |
| `exchange.dfy` | `Exchange` | Client and gateway together: requests reach the backend as intended, and replies decode to the backend's key or error. |

Several inputs that are not visible to the model become parameters:

- **The backend.** `get_by_length`/`get_by_id` are modelled as an `Outcome`
  delivered with each datagram: a key, a client error, a server error or any
  other exception. The call the gateway would make is a separate function,
  `Server.BackendCall`.
- **Error text.** The text of a `struct.error` is a configuration function,
  `Config.errorText`.
- **The reply port.** It is `Config.replyPort`.
- **Floating-point fields.** A `d` field holds its IEEE 754 bit pattern as a
  `u64`. `0.0` is the all-zero pattern.

On a datagram shorter than a request header, `qrate_udp_proxy/server.py:143`
returns from the receive loop, which ends the worker; apart from `stop()`,
only an exception escaping the error handlers (see Left out) ends it. `Serving.Serve` follows the code, and
`Serving.ServeCorrected` is the loop with `continue` in place of that
`return` (see Findings).

The source is Python 2: backend messages, `str(exc)` and key material are
byte strings (`str`), and the model treats them all as octet sequences.

## Model

| member | source | states |
|---|---|---|
| Proto.RecordSizeOfLayout | qrate_udp_proxy/proto.py:49-115 | Every record's encoded size is that of its format: 16, 16, 4, 32, 16 and 16 octets. A key-by-length reply with the longest key exactly fills a datagram of 1432 octets. An error reply with the longest message fits in one. |
| Proto.Unpack | qrate_udp_proxy/proto.py:31-35 | Decoding succeeds exactly when the input is the record's size. Otherwise it fails with a size error naming both sizes. A decoded record has the requested kind and only in-range field values. |
| Proto.FromFields | qrate_udp_proxy/proto.py:37-43 | Building a record succeeds exactly when the argument names are the declared field set. The values are then taken in declaration order. |
| Proto.AsData | qrate_udp_proxy/proto.py:34 | Encoding succeeds exactly when every field value fits its code, and then yields the record's size in octets. |
| Struct.UnpackPack | qrate_udp_proxy/proto.py:32-43 | Decoding an encoded record returns the values that were packed. A `16s` field comes back zero-padded or cut to 16 octets. |
| Struct.PackUnpack | qrate_udp_proxy/proto.py:32-35 | Re-encoding a decoded record gives back the input octets with every reserved `8x` octet zeroed. |
| Proto.RequestDataLayout | qrate_udp_proxy/proto.py:49-54 | A request header is laid out as the magic (4 octets), the command magic (2), the command code (2) and 8 zero octets, all big-endian. |
| Proto.ReplyDataLayout | qrate_udp_proxy/proto.py:62-67 | A reply header is laid out as the magic, the command magic, the result code in 16-bit two's complement, and 8 zero octets. |
| Proto.ReplyHeaderRanges | qrate_udp_proxy/proto.py:62-67 | In a gateway reply header, octets 0-3 are `AC EA AC EB`, 4-5 the command magic, 6-7 the result code and 8-15 zero. |
| Proto.KeyByLengthRequestDataLayout | qrate_udp_proxy/proto.py:75-77 | The key-by-length body is the key length in four big-endian octets. |
| Proto.KeyByLengthReplyData | qrate_udp_proxy/proto.py:85-89 | Packing the key id and expiration record fails exactly when the expiration time is not an unsigned 64-bit value. Otherwise it yields 32 octets. |
| Proto.KeyByLengthReplyDataLayout | qrate_udp_proxy/proto.py:85-89 | The record is the key id zero-padded or cut to 16 octets, the expiration time in 8 octets, then 8 zero octets. An out-of-range time is a `struct.error`. |
| Proto.KeyByIdRequestDataLayout | qrate_udp_proxy/proto.py:97-99 | The key-by-id body is the key id zero-padded or cut to 16 octets. |
| Proto.ErrorDescriptionDataLayout | qrate_udp_proxy/proto.py:107-110 | The retry record is the retry hint in 8 octets, then 8 zero octets. |
| Proto.RequestFields | qrate_udp_proxy/proto.py:49-54 | A decoded request header's system magic, command magic and command code are the big-endian values of octets 0-3, 4-5 and 6-7. |
| Proto.ReplyFields | qrate_udp_proxy/proto.py:62-67 | A decoded reply header's result code is octets 6-7 read as a signed 16-bit value. The other fields are as for a request. |
| Proto.KeyByLengthRequestFields | qrate_udp_proxy/proto.py:75-77 | The decoded key length is the big-endian value of the four body octets. |
| Proto.KeyByIdRequestFields | qrate_udp_proxy/proto.py:97-99 | The decoded key id is the 16 body octets themselves. |
| Proto.KeyByLengthReplyFields | qrate_udp_proxy/proto.py:85-89 | The decoded key id is octets 0-15, and the expiration time is octets 16-23 read big-endian. |
| Proto.ErrorDescriptionFields | qrate_udp_proxy/proto.py:107-110 | The decoded retry hint is the bit pattern in octets 0-7. |
| Proto.SystemMagicDecoding | qrate_udp_proxy/proto.py:7 | A four-octet field decodes to `0xACEAACEB` exactly when it holds `AC EA AC EB`. |
| Server.ThriftApiConnectionOctets | qrate_udp_proxy/proto.py:22-23 | Result code -201 goes on the wire as `FF 37`. |
| Server.RouteOf | qrate_udp_proxy/server.py:86-125 | A request is routed to the backend only with a body of exactly the size its command's record needs. |
| Server.RouteLayout | qrate_udp_proxy/server.py:87-125 | A foreign magic or an unknown command is dropped. A known command with a wrongly sized body is a size error, reported with the text `Config.errorText` gives for it. A well-sized body becomes a call with the body's key length or key id. |
| Server.HandleRequest | qrate_udp_proxy/server.py:86-125 | A request is dropped exactly when its route drops it. A wrongly sized body escapes as a `struct.error`. A routed request's client and server errors escape unchanged, with the backend's own code, message and retry hint; any other backend failure escapes with its text. A reply is sent exactly for a routed request the backend served, unless a key-by-length expiration time does not fit 64 bits, which escapes as a `struct.error`. |
| Server.KeyReplyShape | qrate_udp_proxy/server.py:96-121 | A success reply fits one datagram and opens with the reply header carrying the system magic, the command magic and result code 0. |
| Server.ErrorReplyShape | qrate_udp_proxy/server.py:56-70 | An error reply is 16 to 1424 octets long and opens with the reply header carrying the error's result code. |
| Server.ErrorReplyLayout | qrate_udp_proxy/server.py:56-70 | An error reply's octets are the header, the retry hint, 8 zero octets, and at most 1392 octets of message. An absent message is empty. |
| Server.Step | qrate_udp_proxy/server.py:137-159 | One pass returns from the loop exactly when the datagram is shorter than a request header. Any reply goes to the sender's address at the reply port. |
| Server.StepReplyShape | qrate_udp_proxy/server.py:145-159 | Every reply fits one datagram. It opens with `AC EA AC EB` followed by the request's own command magic octets. |
| Server.RepliesIffKnownCommand | qrate_udp_proxy/server.py:86-125 | A datagram at least a header long gets exactly one reply when it has the system magic and command code 1 or 2, and none otherwise. |
| Server.BackendCallLayout | qrate_udp_proxy/server.py:87-112 | The backend is called exactly for a datagram with the system magic and either command 2 in 20 octets or command 1 in 32 octets. The call carries the body's key length or key id. |
| Server.OutcomeUnusedWithoutCall | qrate_udp_proxy/server.py:87-125 | When no backend call is made, what the backend would answer has no influence on the gateway. |
| Server.KeyByLengthSuccess | qrate_udp_proxy/server.py:91-106 | A served key-by-length request is answered with the header (code 0), the normalised key id, the expiration time, 8 zero octets, and at most 1384 octets of key. |
| Server.KeyByIdSuccess | qrate_udp_proxy/server.py:108-121 | A served key-by-id request is answered with the header (code 0) and at most 1384 octets of key. There is no key id record. |
| Server.ExpirationOutOfRange | qrate_udp_proxy/server.py:154-159 | An expiration time outside 64 bits fails the reply's packing inside the guarded block. The requester then gets a -201 error with the `struct.error` text. |
| Server.BackendErrorReply | qrate_udp_proxy/server.py:72-84 | A client error is answered with its code, retry hint 0 and its message. A server error also carries its retry hint. Any other failure is answered with -201 and its text. |
| Server.BadBodyReply | qrate_udp_proxy/server.py:147-159 | A known command whose body has the wrong size never reaches the backend. It is answered with -201 and the text of the size error. |
| Serving.RunUntilEnd | qrate_udp_proxy/server.py:127-159 | The loop sends exactly the replies emitted before the first pass that ends it. It exits as that pass says, or is still waiting if there is none. |
| Serving.RunAppend | qrate_udp_proxy/server.py:127-159 | Two batches of passes run in turn. If the first batch ends the loop, the second is never processed. Otherwise the second batch's replies follow the first's. |
| Serving.EffectOf | qrate_udp_proxy/server.py:127-159 | A pass of the loop as written ends it exactly at the stop flag or at an undersized datagram: stopped in the first case, returned in the second. |
| Serving.CorrectedEffectOf | qrate_udp_proxy/server.py:139-143 | The corrected pass ends the loop only at the stop flag. It skips an undersized datagram and otherwise agrees with the pass as written. |
| Serving.ServeAnswersUntilHalt | qrate_udp_proxy/server.py:127-159 | The loop as written answers each event before the first stop or undersized datagram as `Step` does, in order, and nothing after. It returns, stops, or is still waiting accordingly. |
| Serving.ServeCorrectedAnswersUntilStop | qrate_udp_proxy/server.py:127-159 | The corrected loop answers every event before the first stop, and stops there. |
| Serving.ServeAppend | qrate_udp_proxy/server.py:127-135 | The loop keeps no state between datagrams. Two runs of events served in turn send the first run's replies followed by the second's. |
| Serving.ShortDatagramEndsServe | qrate_udp_proxy/server.py:139-143 | As written, an undersized datagram ends the loop and nothing after it is answered. |
| Serving.ShortDatagramSkipped | qrate_udp_proxy/server.py:139-143 | In the corrected loop, an undersized datagram leaves the result exactly as if it had not arrived. |
| Serving.ServeAgreesUntilShortDatagram | qrate_udp_proxy/server.py:139-143 | The two loops behave identically unless an undersized datagram arrives before the stop flag. |
| Serving.LostReplyExample | qrate_udp_proxy/server.py:139-143 | An empty datagram followed by a request: as written, nothing is sent and the loop returns. Corrected, the request is answered. |
| Serving.RepliesWellFormed | qrate_udp_proxy/server.py:61-70 | Every reply `Step` sends over a run of events goes to the reply port, fits one datagram and opens with the system magic. |
| Serving.ServeWellFormed | qrate_udp_proxy/server.py:127-159 | Every reply the loop as written sends is well formed. The loop returns only after an undersized datagram. |
| Serving.ServeCorrectedWellFormed | qrate_udp_proxy/server.py:127-159 | Every reply the corrected loop sends is well formed, and the corrected loop never returns. |
| Client.KeyByLengthRequestBytes | test/main.py:56-63 | Assembly succeeds exactly when the command magic is 16-bit and the key length 32-bit. The request is then 20 octets. |
| Client.KeyByIdRequestBytes | test/main.py:70-77 | Assembly succeeds exactly when the command magic is 16-bit. The request is then 32 octets. |
| Client.KeyByLengthRequestLayout | test/main.py:56-63 | A key-by-length request's octets are the magic, the command magic, `00 02`, 8 zero octets and the key length. |
| Client.KeyByIdRequestLayout | test/main.py:70-77 | A key-by-id request's octets are the magic, the command magic, `00 01`, 8 zero octets and the key id normalised to 16 octets. |
| Client.HandleKeyByLengthReply | test/main.py:26-31 | The payload is accepted exactly when it holds the 32-octet record. The key id is octets 0-15 and the key is everything after octet 32. A shorter payload is a size error. |
| Client.HandleError | test/main.py:17-23 | A payload shorter than 16 octets is a size error. A payload of 16 octets or more always makes the client fail reporting the code, the retry hint from octets 0-7, and the rest as message. |
| Client.HandleReply | test/main.py:38-41 | A reply is refused as too short exactly when it is shorter than a reply header. |
| Client.HandleReplyOctets | test/main.py:38-53 | The magic is checked first, then the command magic. The sign of the result code then sends octets 16 onward to the request's handler or to the error handler. |
| Client.ReplyAccepted | test/main.py:38-53 | A reply is accepted exactly when it is at least 16 octets, has the system magic and the request's command magic, has a non-negative result code, and for key-by-length holds the 32-octet record. |
| Client.AcceptedKey | test/main.py:26-35 | An accepted key-by-id reply yields the whole payload as the key. An accepted key-by-length reply yields octets 16-31 as the key id and octets 48 onward as the key. |
| Client.ErrorMalformed | test/main.py:17-20 | An error reply whose retry record is cut short makes the client fail decoding it. |
| Client.ErrorReported | test/main.py:17-23 | An error reply with a full retry record makes the client report the code, the retry hint and the octets after 32 as message. |
| Client.ReplyHeaderDecodes | test/main.py:43-53 | A reply header built by the gateway for the request's command magic passes the client's checks. The sign of its code picks the handler for what follows. |
| Exchange.KeyByLengthRequestReachesBackend | test/main.py:56-63 | The client's key-by-length request reaches the backend as a call for that key length, under the client's command magic. |
| Exchange.KeyByIdRequestReachesBackend | test/main.py:70-77 | The client's key-by-id request reaches the backend as a call for the key id normalised to 16 octets. |
| Exchange.KeyByLengthExchange | test/main.py:56-67 | When the backend serves a key-by-length request, the client gets the backend's key id normalised to 16 octets and at most 1384 octets of its key. |
| Exchange.KeyByIdExchange | test/main.py:70-81 | When the backend serves a key-by-id request, the client gets at most 1384 octets of the backend's key. |
| Exchange.ErrorReplyDecodes | test/main.py:17-23 | An error reply with a negative code decodes on the client to that code, the retry hint and at most 1392 octets of the message. |
| Exchange.ErrorDescriptionDecodes | test/main.py:17-20 | The client's error handler inverts the gateway's retry record. |
| Exchange.BackendFailureReported | qrate_udp_proxy/server.py:147-159 | A backend failure on a routed request decodes on the client as that failure: the client error's code and message, the server error's retry hint too, or -201 with the exception text. |

## Left out

- **Sockets.**
  - Socket creation, options and timeouts, and `sendto`/`recv` are not
    modelled. Received datagrams, and the replies sent, are the inputs and
    outputs of the model.
  - A failing `sendto` is not modelled; inside the error handlers it would
    escape the loop and end the worker.
  - `recvfrom` cutting an oversized datagram to 1432 octets is not modelled:
    the events carry the datagram as received.
- **Backend.**
  - The Thrift/TLS client and its transport are a foreign library. The backend
    is an `Outcome` parameter per datagram.
- **Loop control.**
  - The worker thread, `start`/`stop` and their timing are concurrency. Only
    "the loop checks the stop flag once per pass" is kept, as the `Stop`
    event.
- **Unmodelled values and output.**
  - The floating-point value of `retry_after` is kept only as its 8-octet bit
    pattern.
  - Logging and `binascii.hexlify` affect no output.
  - The exact wording of `str(exc)` for a `struct.error` comes from the
    library. It is a configuration parameter.
- **Size errors.**
  - The model's size error `WrongSize(expected, got)` also records the actual
    size, which the library's message does not show. The reply text comes only
    from `Config.errorText`, so no contract depends on what that text says.
- **Listening defaults.** The bind address and request and reply port
  defaults (`qrate_udp_proxy/proto.py:9-11`) are used only by the entry
  points. The reply port is a `Config` field.
- **Outside the core.**
  - `qrate_udp_proxy/main.py`, and the argument parsing and socket setup in
    `test/main.py`, are entry points, not protocol logic.
- **Contracts narrower than the source:**
  - Server.Step: requires backend error codes to fit 16 bits (`CodesInRange`).
    A code outside that range makes `pack` raise outside the `try` and kill
    the worker; that crash is not modelled.
  - Serving.Serve: takes only events satisfying the same range condition (the
    `Observed` type), for the same reason.
  - Exchange.BackendFailureReported: requires the backend's error code to be
    negative. The client reads a non-negative code as success, so an error
    carrying one would not decode as an error.
  - Client.HandleReply: the client's failed `assert`s become `Rejection`
    values. Running Python with assertions disabled is not modelled.

## Findings

| source | as written | input that shows it | evidently intended | confidence | as-written member | corrected member |
|---|---|---|---|---|---|---|
| qrate_udp_proxy/server.py:139-143 | a datagram shorter than 16 octets makes the loop `return`, ending the worker for good | an empty datagram, then a key-by-id request header from the same sender: the request gets no reply, while the corrected loop sends one (a -201 error, the body being missing) | log the datagram and `continue` with the next one | not executed | Serving.Serve (shown by Serving.LostReplyExample and Serving.ShortDatagramEndsServe) | Serving.ServeCorrected (Serving.ShortDatagramSkipped, Serving.ServeCorrectedWellFormed) |
