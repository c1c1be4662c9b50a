/** The wire protocol of the gateway: its constants, the six fixed-size
    big-endian records, and the generic record helper every record is
    built from (decode from exact-size bytes, build from named fields,
    encode). */
module Proto {
  import opened Results
  import opened Bytes
  import opened Struct

  /** Identifies gateway traffic; first four octets of every request and reply. */
  const SystemMagic: u32 := 0xACEA_ACEB

  /** The four octets `SystemMagic` occupies at the head of every record that carries it. */
  const SystemMagicOctets: Bytes := [0xAC, 0xEA, 0xAC, 0xEB]

  const CmdGetKeyById: u16 := 1
  const CmdGetKeyByLength: u16 := 2

  /** Largest datagram the gateway receives. */
  const RecvPacketSize: nat := 1432

  /** Caps on the key material and error text appended to a reply. */
  const KeyLengthMax: nat := 1384
  const ErrorMessageLengthMax: nat := 1392

  const ResultCodeSuccess: i16 := 0
  /** Result code for any failure other than a backend client or server error. */
  const ResultCodeThriftApiConnection: i16 := -201

  datatype Kind =
    | Request
    | Reply
    | KeyByLengthRequest
    | KeyByLengthReply
    | KeyByIdRequest
    | ErrorDescription

  /** The `struct` format of each record. */
  function Layout(k: Kind): Format
  {
    match k
    case Request => [UInt32, UInt16, UInt16, Pad(8)]
    case Reply => [UInt32, UInt16, Int16, Pad(8)]
    case KeyByLengthRequest => [UInt32]
    case KeyByLengthReply => [FixedBytes(16), UInt64, Pad(8)]
    case KeyByIdRequest => [FixedBytes(16)]
    case ErrorDescription => [Float64, Pad(8)]
  }

  /** The declared field names of each record, one per value-taking code of its layout. */
  function FieldNames(k: Kind): (names: seq<string>)
    ensures |names| == |Fields(Layout(k))|
  {
    LayoutFields(k);
    match k
    case Request => ["system_magic", "command_magic", "command_code"]
    case Reply => ["system_magic", "command_magic", "result_code"]
    case KeyByLengthRequest => ["key_length"]
    case KeyByLengthReply => ["key_id", "expiration_time"]
    case KeyByIdRequest => ["key_id"]
    case ErrorDescription => ["retry_after"]
  }

  /** The value-taking codes of each layout. */
  lemma LayoutFields(k: Kind)
    ensures Fields(Layout(k)) == match k
      case Request => [UInt32, UInt16, UInt16]
      case Reply => [UInt32, UInt16, Int16]
      case KeyByLengthRequest => [UInt32]
      case KeyByLengthReply => [FixedBytes(16), UInt64]
      case KeyByIdRequest => [FixedBytes(16)]
      case ErrorDescription => [Float64]
  {
    FieldsCons(Pad(8), []);
    match k
    case Request =>
      FieldsCons(UInt16, [Pad(8)]);
      FieldsCons(UInt16, [UInt16, Pad(8)]);
      FieldsCons(UInt32, [UInt16, UInt16, Pad(8)]);
    case Reply =>
      FieldsCons(Int16, [Pad(8)]);
      FieldsCons(UInt16, [Int16, Pad(8)]);
      FieldsCons(UInt32, [UInt16, Int16, Pad(8)]);
    case KeyByLengthRequest =>
      FieldsCons(UInt32, []);
    case KeyByLengthReply =>
      FieldsCons(UInt64, [Pad(8)]);
      FieldsCons(FixedBytes(16), [UInt64, Pad(8)]);
    case KeyByIdRequest =>
      FieldsCons(FixedBytes(16), []);
    case ErrorDescription =>
      FieldsCons(Float64, [Pad(8)]);
  }

  function FieldSet(k: Kind): set<string>
  {
    set n | n in FieldNames(k)
  }

  /** The encoded size of a record (`struct.size`), which the packet sizes
      of the protocol are budgeted around. */
  function RecordSize(k: Kind): nat
  {
    match k
    case Request => 16
    case Reply => 16
    case KeyByLengthRequest => 4
    case KeyByLengthReply => 32
    case KeyByIdRequest => 16
    case ErrorDescription => 16
  }

  /** Each record's size is the size of its format, and the sizes share the
      datagram budget: a key-by-length reply carrying the longest key, and an
      error reply with the longest message, fit a datagram of `RecvPacketSize`
      octets. */
  lemma {:induction false} RecordSizeOfLayout(k: Kind)
    ensures RecordSize(k) == Size(Layout(k))
    ensures RecordSize(Reply) + RecordSize(KeyByLengthReply) + KeyLengthMax == RecvPacketSize
    ensures RecordSize(Reply) + RecordSize(ErrorDescription) + ErrorMessageLengthMax <= RecvPacketSize
  {
    match k
    case Request => Size4(UInt32, UInt16, UInt16, Pad(8));
    case Reply => Size4(UInt32, UInt16, Int16, Pad(8));
    case KeyByLengthRequest => Size2(UInt32, Pad(0));
    case KeyByLengthReply => Size2(UInt64, Pad(8));
    case KeyByIdRequest => Size2(FixedBytes(16), Pad(0));
    case ErrorDescription => Size2(Float64, Pad(8));
  }

  lemma Size2(a: Code, b: Code)
    ensures Size([a]) == CodeSize(a)
    ensures Size([a, b]) == CodeSize(a) + CodeSize(b)
    ensures Size([Pad(0), a, b]) == CodeSize(a) + CodeSize(b)
  {
    Size1(a);
    Size1(b);
    assert [a, b][1..] == [b];
    assert Size([a, b]) == CodeSize(a) + Size([b]);
    assert [Pad(0), a, b][1..] == [a, b];
    assert Size([Pad(0), a, b]) == Size([a, b]);
  }

  lemma Size1(a: Code)
    ensures Size([a]) == CodeSize(a)
  {
    assert [a][1..] == [];
  }

  lemma Size4(a: Code, b: Code, c: Code, d: Code)
    ensures Size([a, b, c, d]) == CodeSize(a) + CodeSize(b) + CodeSize(c) + CodeSize(d)
  {
    Size2(c, d);
    assert [b, c, d][1..] == [c, d];
    assert Size([b, c, d]) == CodeSize(b) + CodeSize(c) + CodeSize(d);
    assert [a, b, c, d][1..] == [b, c, d];
  }

  /** A record instance: its kind and one value per declared field, in declaration order. */
  datatype Record = Record(kind: Kind, values: seq<Value>)

  /** Whether every field value of `r` can be encoded. */
  predicate Valid(r: Record)
  {
    Fits(Layout(r.kind), r.values)
  }

  /** The failure of `from_fields`: the argument names are not exactly the declared fields. */
  datatype TypeError = WrongArgumentDict

  /** `unpack`: decodes a record from exactly `RecordSize(k)` octets. */
  function Unpack(k: Kind, data: Bytes): (r: Result<Record, StructError>)
    ensures r.Success? <==> |data| == RecordSize(k)
    ensures r.Success? ==> r.value.kind == k && Valid(r.value)
    ensures r.Failure? ==> r.error == WrongSize(RecordSize(k), |data|)
  {
    RecordSizeOfLayout(k);
    match Struct.Unpack(Layout(k), data)
    case Success(vs) => Success(Record(k, vs))
    case Failure(e) => Failure(e)
  }

  /** `from_fields`: builds a record from keyword arguments; values are not checked. */
  function FromFields(k: Kind, args: map<string, Value>): (r: Result<Record, TypeError>)
    ensures r.Success? <==> args.Keys == FieldSet(k)
    ensures r.Success? ==> r.value.kind == k && |r.value.values| == |FieldNames(k)|
    ensures r.Success? ==> forall i :: 0 <= i < |FieldNames(k)| ==> r.value.values[i] == args[FieldNames(k)[i]]
  {
    if args.Keys != FieldSet(k) then Failure(WrongArgumentDict)
    else
      var names := FieldNames(k);
      Success(Record(k, seq(|names|, i requires 0 <= i < |names| => args[names[i]])))
  }

  /** `as_data`: encodes a record. */
  function AsData(r: Record): (b: Result<Bytes, StructError>)
    ensures b.Success? <==> Valid(r)
    ensures b.Success? ==> |b.value| == RecordSize(r.kind)
  {
    RecordSizeOfLayout(r.kind);
    Pack(Layout(r.kind), r.values)
  }

  function IndexOf(names: seq<string>, name: string): (i: nat)
    requires name in names
    ensures i < |names| && names[i] == name
  {
    if names[0] == name then 0 else 1 + IndexOf(names[1..], name)
  }

  /** Attribute access on a record: `r.<name>`. */
  function Get(r: Record, name: string): (v: Value)
    requires name in FieldNames(r.kind) && |r.values| == |FieldNames(r.kind)|
    ensures exists i :: 0 <= i < |r.values| && FieldNames(r.kind)[i] == name && r.values[i] == v
  {
    r.values[IndexOf(FieldNames(r.kind), name)]
  }

  // Attribute access on decoded records, typed by the field's code.

  function SystemMagicField(r: Record): (v: u32)
    requires (r.kind == Request || r.kind == Reply) && Valid(r)
    ensures Get(r, "system_magic") == IntValue(v)
  {
    LayoutFields(r.kind);
    assert Accepts(Fields(Layout(r.kind))[0], r.values[0]);
    r.values[0].n
  }

  function CommandMagicField(r: Record): (v: u16)
    requires (r.kind == Request || r.kind == Reply) && Valid(r)
    ensures Get(r, "command_magic") == IntValue(v)
  {
    LayoutFields(r.kind);
    assert Accepts(Fields(Layout(r.kind))[1], r.values[1]);
    r.values[1].n
  }

  function CommandCodeField(r: Record): (v: u16)
    requires r.kind == Request && Valid(r)
    ensures Get(r, "command_code") == IntValue(v)
  {
    LayoutFields(r.kind);
    assert Accepts(Fields(Layout(r.kind))[2], r.values[2]);
    r.values[2].n
  }

  function ResultCodeField(r: Record): (v: i16)
    requires r.kind == Reply && Valid(r)
    ensures Get(r, "result_code") == IntValue(v)
  {
    LayoutFields(r.kind);
    assert Accepts(Fields(Layout(r.kind))[2], r.values[2]);
    r.values[2].n
  }

  function KeyLengthField(r: Record): (v: u32)
    requires r.kind == KeyByLengthRequest && Valid(r)
    ensures Get(r, "key_length") == IntValue(v)
  {
    LayoutFields(r.kind);
    assert Accepts(Fields(Layout(r.kind))[0], r.values[0]);
    r.values[0].n
  }

  function KeyIdField(r: Record): (v: Bytes)
    requires (r.kind == KeyByIdRequest || r.kind == KeyByLengthReply) && Valid(r)
    ensures Get(r, "key_id") == BytesValue(v)
  {
    LayoutFields(r.kind);
    assert Accepts(Fields(Layout(r.kind))[0], r.values[0]);
    r.values[0].b
  }

  function RetryAfterField(r: Record): (v: u64)
    requires r.kind == ErrorDescription && Valid(r)
    ensures Get(r, "retry_after") == FloatValue(v)
  {
    LayoutFields(r.kind);
    assert Accepts(Fields(Layout(r.kind))[0], r.values[0]);
    r.values[0].bits
  }

  // The octets of each layout, field by field.

  lemma RequestOctets(systemMagic: u32, commandMagic: u16, commandCode: u16)
    ensures Pack(Layout(Request), [IntValue(systemMagic), IntValue(commandMagic), IntValue(commandCode)])
      == Success(ToBigEndian(systemMagic, 4) + ToBigEndian(commandMagic, 2) + ToBigEndian(commandCode, 2) + Zeros(8))
  {
    Pow256Widths();
    LayoutFields(Request);
    HeaderOctets(UInt16, systemMagic, commandMagic, IntValue(commandCode));
  }

  lemma ReplyOctets(systemMagic: u32, commandMagic: u16, resultCode: i16)
    ensures Pack(Layout(Reply), [IntValue(systemMagic), IntValue(commandMagic), IntValue(resultCode)])
      == Success(ToBigEndian(systemMagic, 4) + ToBigEndian(commandMagic, 2) + I16ToBigEndian(resultCode) + Zeros(8))
  {
    LayoutFields(Reply);
    HeaderOctets(Int16, systemMagic, commandMagic, IntValue(resultCode));
  }

  /** Request and Reply share the layout `I H <code> 8x`. */
  lemma HeaderOctets(c: Code, systemMagic: u32, commandMagic: u16, last: Value)
    requires c == UInt16 || c == Int16
    requires Accepts(c, last)
    ensures Fits([UInt32, UInt16, c, Pad(8)], [IntValue(systemMagic), IntValue(commandMagic), last])
    ensures PackFields([UInt32, UInt16, c, Pad(8)], [IntValue(systemMagic), IntValue(commandMagic), last])
      == Success(ToBigEndian(systemMagic, 4) + ToBigEndian(commandMagic, 2) + PackValue(c, last).value + Zeros(8))
  {
    var f1, v1 := [UInt16, c, Pad(8)], [IntValue(commandMagic), last];
    var b1 := HeaderTailOctets(c, commandMagic, last);
    Pow256Widths();
    PackFieldsValue(UInt32, f1, IntValue(systemMagic), v1);
    assert PackValue(UInt32, IntValue(systemMagic)).value == ToBigEndian(systemMagic, 4);
    assert [UInt32] + f1 == [UInt32, UInt16, c, Pad(8)];
    assert [IntValue(systemMagic)] + v1 == [IntValue(systemMagic), IntValue(commandMagic), last];
    ConcatAssoc(ToBigEndian(systemMagic, 4), ToBigEndian(commandMagic, 2), PackValue(c, last).value, Zeros(8));
  }

  lemma HeaderTailOctets(c: Code, commandMagic: u16, last: Value) returns (b: Bytes)
    requires c == UInt16 || c == Int16
    requires Accepts(c, last)
    ensures b == ToBigEndian(commandMagic, 2) + PackValue(c, last).value + Zeros(8)
    ensures Fits([UInt16, c, Pad(8)], [IntValue(commandMagic), last])
    ensures PackFields([UInt16, c, Pad(8)], [IntValue(commandMagic), last]) == Success(b)
  {
    var pad := PadOctets();
    var f2, v2 := [c] + [Pad(8)], [last] + [];
    var b2 := PackValue(c, last).value + pad;
    assert Fits(f2, v2) && PackFields(f2, v2) == Success(b2) by {
      PackFieldsValue(c, [Pad(8)], last, []);
    }
    Pow256Widths();
    PackFieldsValue(UInt16, f2, IntValue(commandMagic), v2);
    assert PackValue(UInt16, IntValue(commandMagic)).value == ToBigEndian(commandMagic, 2);
    assert [UInt16] + f2 == [UInt16, c, Pad(8)];
    assert [IntValue(commandMagic)] + v2 == [IntValue(commandMagic), last];
    b := ToBigEndian(commandMagic, 2) + b2;
  }

  lemma KeyByLengthReplyOctets(keyId: Bytes, expirationTime: u64)
    ensures Pack(Layout(KeyByLengthReply), [BytesValue(keyId), IntValue(expirationTime)])
      == Success(Fit(keyId, 16) + ToBigEndian(expirationTime, 8) + Zeros(8))
  {
    Pow256Widths();
    LayoutFields(KeyByLengthReply);
    var pad := PadOctets();
    var f1, v1 := [UInt64] + [Pad(8)], [IntValue(expirationTime)] + [];
    PackFieldsValue(UInt64, [Pad(8)], IntValue(expirationTime), []);
    assert PackValue(UInt64, IntValue(expirationTime)).value == ToBigEndian(expirationTime, 8);
    var b1 := ToBigEndian(expirationTime, 8) + pad;
    assert PackFields(f1, v1) == Success(b1);
    var f0, v0 := [FixedBytes(16)] + f1, [BytesValue(keyId)] + v1;
    PackFieldsValue(FixedBytes(16), f1, BytesValue(keyId), v1);
    assert PackValue(FixedBytes(16), BytesValue(keyId)).value == Fit(keyId, 16);
    assert PackFields(f0, v0) == Success(Fit(keyId, 16) + b1);
    assert f0 == Layout(KeyByLengthReply);
    assert v0 == [BytesValue(keyId), IntValue(expirationTime)];
    assert Pack(f0, v0) == PackFields(f0, v0);
    assert Fit(keyId, 16) + b1 == Fit(keyId, 16) + ToBigEndian(expirationTime, 8) + Zeros(8);
  }

  lemma ErrorDescriptionOctets(retryAfter: u64)
    ensures Pack(Layout(ErrorDescription), [FloatValue(retryAfter)])
      == Success(ToBigEndian(retryAfter, 8) + Zeros(8))
  {
    LayoutFields(ErrorDescription);
    var pad := PadOctets();
    var f0, v0 := [Float64] + [Pad(8)], [FloatValue(retryAfter)] + [];
    PackFieldsValue(Float64, [Pad(8)], FloatValue(retryAfter), []);
    assert PackFields(f0, v0) == Success(ToBigEndian(retryAfter, 8) + pad);
    assert f0 == Layout(ErrorDescription);
    assert v0 == [FloatValue(retryAfter)];
  }

  /** The trailing `8x` of a layout packs to eight zero octets. */
  lemma PadOctets() returns (pad: Bytes)
    ensures pad == Zeros(8)
    ensures Fits([Pad(8)], [])
    ensures PackFields([Pad(8)], []) == Success(pad)
  {
    assert Fields([]) == [];
    PackFieldsPad(8, [], []);
    assert [Pad(8)] + [] == [Pad(8)];
    assert Zeros(8) + [] == Zeros(8);
    pad := Zeros(8);
  }

  // The records the gateway and its client assemble, each built as
  // `<Record>.from_fields(...)` and encoded with `.as_data()`.

  function RequestRecord(systemMagic: int, commandMagic: int, commandCode: int): (r: Record)
    ensures r == Record(Request, [IntValue(systemMagic), IntValue(commandMagic), IntValue(commandCode)])
  {
    FromFields(Request, map["system_magic" := IntValue(systemMagic), "command_magic" := IntValue(commandMagic), "command_code" := IntValue(commandCode)]).value
  }

  function ReplyRecord(systemMagic: int, commandMagic: int, resultCode: int): (r: Record)
    ensures r == Record(Reply, [IntValue(systemMagic), IntValue(commandMagic), IntValue(resultCode)])
  {
    FromFields(Reply, map["system_magic" := IntValue(systemMagic), "command_magic" := IntValue(commandMagic), "result_code" := IntValue(resultCode)]).value
  }

  function KeyByLengthRequestRecord(keyLength: int): (r: Record)
    ensures r == Record(KeyByLengthRequest, [IntValue(keyLength)])
  {
    FromFields(KeyByLengthRequest, map["key_length" := IntValue(keyLength)]).value
  }

  function KeyByLengthReplyRecord(keyId: Bytes, expirationTime: int): (r: Record)
    ensures r == Record(KeyByLengthReply, [BytesValue(keyId), IntValue(expirationTime)])
  {
    FromFields(KeyByLengthReply, map["key_id" := BytesValue(keyId), "expiration_time" := IntValue(expirationTime)]).value
  }

  function KeyByIdRequestRecord(keyId: Bytes): (r: Record)
    ensures r == Record(KeyByIdRequest, [BytesValue(keyId)])
  {
    FromFields(KeyByIdRequest, map["key_id" := BytesValue(keyId)]).value
  }

  function ErrorDescriptionRecord(retryAfter: u64): (r: Record)
    ensures r == Record(ErrorDescription, [FloatValue(retryAfter)])
  {
    FromFields(ErrorDescription, map["retry_after" := FloatValue(retryAfter)]).value
  }

  function RequestData(systemMagic: int, commandMagic: int, commandCode: int): (r: Result<Bytes, StructError>)
    ensures r.Success? <==> 0 <= systemMagic < 0x1_0000_0000 && 0 <= commandMagic < 0x1_0000 && 0 <= commandCode < 0x1_0000
    ensures r.Success? ==> |r.value| == RecordSize(Request)
  {
    LayoutFields(Request);
    AsData(RequestRecord(systemMagic, commandMagic, commandCode))
  }

  function ReplyData(systemMagic: u32, commandMagic: u16, resultCode: i16): (r: Bytes)
    ensures |r| == RecordSize(Reply) == 16
  {
    LayoutFields(Reply);
    AsData(ReplyRecord(systemMagic, commandMagic, resultCode)).value
  }

  function KeyByLengthRequestData(keyLength: int): (r: Result<Bytes, StructError>)
    ensures r.Success? <==> 0 <= keyLength < 0x1_0000_0000
    ensures r.Success? ==> |r.value| == RecordSize(KeyByLengthRequest)
  {
    LayoutFields(KeyByLengthRequest);
    AsData(KeyByLengthRequestRecord(keyLength))
  }

  /** Fails (`struct.error`) exactly when the expiration time is not an unsigned 64-bit value. */
  function KeyByLengthReplyData(keyId: Bytes, expirationTime: int): (r: Result<Bytes, StructError>)
    ensures r.Success? <==> 0 <= expirationTime < 0x1_0000_0000_0000_0000
    ensures r.Success? ==> |r.value| == RecordSize(KeyByLengthReply) == 32
  {
    LayoutFields(KeyByLengthReply);
    AsData(KeyByLengthReplyRecord(keyId, expirationTime))
  }

  function KeyByIdRequestData(keyId: Bytes): (r: Bytes)
    ensures |r| == RecordSize(KeyByIdRequest) == 16
  {
    LayoutFields(KeyByIdRequest);
    AsData(KeyByIdRequestRecord(keyId)).value
  }

  function ErrorDescriptionData(retryAfter: u64): (r: Bytes)
    ensures |r| == RecordSize(ErrorDescription) == 16
  {
    LayoutFields(ErrorDescription);
    AsData(ErrorDescriptionRecord(retryAfter)).value
  }

  // The octets each encoder produces, field by field, big-endian.

  lemma RequestDataLayout(systemMagic: u32, commandMagic: u16, commandCode: u16)
    ensures RequestData(systemMagic, commandMagic, commandCode)
      == Success(ToBigEndian(systemMagic, 4) + ToBigEndian(commandMagic, 2) + ToBigEndian(commandCode, 2) + Zeros(8))
  {
    RequestOctets(systemMagic, commandMagic, commandCode);
  }

  lemma ReplyDataLayout(systemMagic: u32, commandMagic: u16, resultCode: i16)
    ensures ReplyData(systemMagic, commandMagic, resultCode)
      == ToBigEndian(systemMagic, 4) + ToBigEndian(commandMagic, 2) + I16ToBigEndian(resultCode) + Zeros(8)
  {
    ReplyOctets(systemMagic, commandMagic, resultCode);
  }

  /** The octet ranges of a reply header built by the gateway. */
  lemma ReplyHeaderRanges(commandMagic: u16, resultCode: i16)
    ensures var h := ReplyData(SystemMagic, commandMagic, resultCode);
      && h[..4] == SystemMagicOctets
      && h[4..6] == ToBigEndian(commandMagic, 2)
      && h[6..8] == I16ToBigEndian(resultCode)
      && h[8..] == Zeros(8)
  {
    var a, b, c, d := ToBigEndian(SystemMagic, 4), ToBigEndian(commandMagic, 2), I16ToBigEndian(resultCode), Zeros(8);
    ReplyDataLayout(SystemMagic, commandMagic, resultCode);
    SystemMagicEncoding();
    HeaderSplit(a, b, c, d);
  }

  /** Slicing a concatenation of a 4-, a 2- and a 2-octet part and a tail. */
  lemma HeaderSplit(a: Bytes, b: Bytes, c: Bytes, d: Bytes)
    requires |a| == 4 && |b| == 2 && |c| == 2
    ensures var h := a + b + c + d;
      h[..4] == a && h[4..6] == b && h[6..8] == c && h[8..] == d
  {
    var h := a + b + c + d;
    assert h[..4] == a;
    assert h[4..6] == b;
    assert h[6..8] == c;
    assert h[8..] == d;
  }

  lemma KeyByLengthRequestDataLayout(keyLength: u32)
    ensures KeyByLengthRequestData(keyLength) == Success(ToBigEndian(keyLength, 4))
  {
    Pow256Widths();
    assert Fields([]) == [];
    PackFieldsValue(UInt32, [], IntValue(keyLength), []);
    assert [UInt32] + [] == Layout(KeyByLengthRequest);
    assert ToBigEndian(keyLength, 4) + [] == ToBigEndian(keyLength, 4);
  }

  lemma KeyByLengthReplyDataLayout(keyId: Bytes, expirationTime: int)
    ensures 0 <= expirationTime < 0x1_0000_0000_0000_0000 ==>
      KeyByLengthReplyData(keyId, expirationTime) == Success(Fit(keyId, 16) + ToBigEndian(expirationTime, 8) + Zeros(8))
    ensures !(0 <= expirationTime < 0x1_0000_0000_0000_0000) ==>
      KeyByLengthReplyData(keyId, expirationTime) == Failure(OutOfRange(UInt64))
  {
    if 0 <= expirationTime < 0x1_0000_0000_0000_0000 {
      KeyByLengthReplyOctets(keyId, expirationTime);
    } else {
      LayoutFields(KeyByLengthReply);
      assert [UInt64, Pad(8)][1..] == [Pad(8)];
      assert PackFields([UInt64, Pad(8)], [IntValue(expirationTime)]) == Failure(OutOfRange(UInt64));
      assert ([BytesValue(keyId)] + [IntValue(expirationTime)])[1..] == [IntValue(expirationTime)];
    }
  }

  lemma KeyByIdRequestDataLayout(keyId: Bytes)
    ensures KeyByIdRequestData(keyId) == Fit(keyId, 16)
  {
    assert Fields([]) == [];
    PackFieldsValue(FixedBytes(16), [], BytesValue(keyId), []);
    assert [FixedBytes(16)] + [] == Layout(KeyByIdRequest);
    assert Fit(keyId, 16) + [] == Fit(keyId, 16);
  }

  lemma ErrorDescriptionDataLayout(retryAfter: u64)
    ensures ErrorDescriptionData(retryAfter) == ToBigEndian(retryAfter, 8) + Zeros(8)
  {
    ErrorDescriptionOctets(retryAfter);
  }

  // What `unpack` reads from each octet range of a record.

  lemma PadFields(data: Bytes)
    requires |data| == 8
    ensures Size([Pad(8)]) == 8
    ensures UnpackFields([Pad(8)], data) == []
  {
    UnpackFieldsCons(Pad(8), [], data);
  }

  /** Request and Reply: `I H <code> 8x`. */
  lemma HeaderFields(c: Code, data: Bytes)
    requires c == UInt16 || c == Int16
    requires |data| == 16
    ensures Size([UInt32, UInt16, c, Pad(8)]) == 16
    ensures UnpackFields([UInt32, UInt16, c, Pad(8)], data)
      == [UnpackValue(UInt32, data[..4]), UnpackValue(UInt16, data[4..6]), UnpackValue(c, data[6..8])]
  {
    PadFields(data[8..]);
    var f2 := [c] + [Pad(8)];
    assert UnpackFields(f2, data[6..]) == [UnpackValue(c, data[6..8])] by {
      UnpackFieldsCons(c, [Pad(8)], data[6..]);
      assert data[6..][2..] == data[8..] && data[6..][..2] == data[6..8];
    }
    var f1 := [UInt16] + f2;
    assert UnpackFields(f1, data[4..]) == [UnpackValue(UInt16, data[4..6]), UnpackValue(c, data[6..8])] by {
      UnpackFieldsCons(UInt16, f2, data[4..]);
      assert data[4..][2..] == data[6..] && data[4..][..2] == data[4..6];
    }
    assert UnpackFields([UInt32] + f1, data) == [UnpackValue(UInt32, data[..4]), UnpackValue(UInt16, data[4..6]), UnpackValue(c, data[6..8])] by {
      UnpackFieldsCons(UInt32, f1, data);
    }
    assert [UInt32] + f1 == [UInt32, UInt16, c, Pad(8)];
  }

  /** Every field of a decoded request header, read from its big-endian octets. */
  lemma RequestFields(data: Bytes)
    requires |data| == RecordSize(Request)
    ensures var r := Unpack(Request, data).value;
      && r.values == [IntValue(FromBigEndian(data[..4])), IntValue(FromBigEndian(data[4..6])), IntValue(FromBigEndian(data[6..8]))]
      && Get(r, "system_magic") == IntValue(FromBigEndian(data[..4]))
      && Get(r, "command_magic") == IntValue(FromBigEndian(data[4..6]))
      && Get(r, "command_code") == IntValue(FromBigEndian(data[6..8]))
  {
    HeaderFields(UInt16, data);
  }

  lemma ReplyFields(data: Bytes)
    requires |data| == RecordSize(Reply)
    ensures var r := Unpack(Reply, data).value;
      && r.values == [IntValue(FromBigEndian(data[..4])), IntValue(FromBigEndian(data[4..6])), IntValue(I16FromBigEndian(data[6..8]))]
      && Get(r, "system_magic") == IntValue(FromBigEndian(data[..4]))
      && Get(r, "command_magic") == IntValue(FromBigEndian(data[4..6]))
      && Get(r, "result_code") == IntValue(I16FromBigEndian(data[6..8]))
  {
    HeaderFields(Int16, data);
  }

  lemma KeyByLengthRequestFields(data: Bytes)
    requires |data| == RecordSize(KeyByLengthRequest)
    ensures Get(Unpack(KeyByLengthRequest, data).value, "key_length") == IntValue(FromBigEndian(data))
  {
    UnpackFieldsCons(UInt32, [], data);
    assert [UInt32] + [] == Layout(KeyByLengthRequest);
    assert data[..4] == data;
    Pow256Widths();
  }

  lemma KeyByIdRequestFields(data: Bytes)
    requires |data| == RecordSize(KeyByIdRequest)
    ensures Get(Unpack(KeyByIdRequest, data).value, "key_id") == BytesValue(data)
  {
    UnpackFieldsCons(FixedBytes(16), [], data);
  }

  lemma KeyByLengthReplyFields(data: Bytes)
    requires |data| == RecordSize(KeyByLengthReply)
    ensures Get(Unpack(KeyByLengthReply, data).value, "key_id") == BytesValue(data[..16])
    ensures Get(Unpack(KeyByLengthReply, data).value, "expiration_time") == IntValue(FromBigEndian(data[16..24]))
  {
    PadFields(data[24..]);
    assert UnpackFields([UInt64] + [Pad(8)], data[16..]) == [UnpackValue(UInt64, data[16..24])] by {
      UnpackFieldsCons(UInt64, [Pad(8)], data[16..]);
      assert data[16..][8..] == data[24..] && data[16..][..8] == data[16..24];
    }
    UnpackFieldsCons(FixedBytes(16), [UInt64] + [Pad(8)], data);
    assert [FixedBytes(16)] + ([UInt64] + [Pad(8)]) == Layout(KeyByLengthReply);
  }

  lemma ErrorDescriptionFields(data: Bytes)
    requires |data| == RecordSize(ErrorDescription)
    ensures Get(Unpack(ErrorDescription, data).value, "retry_after") == FloatValue(FromBigEndian(data[..8]))
  {
    PadFields(data[8..]);
    UnpackFieldsCons(Float64, [Pad(8)], data);
    Pow256Widths();
  }

  /** The system magic is written most significant octet first. */
  lemma SystemMagicEncoding()
    ensures ToBigEndian(SystemMagic, 4) == SystemMagicOctets
  {
    Pow256Widths();
  }

  /** A four-octet field decodes to the system magic only when it holds exactly its octets. */
  lemma SystemMagicDecoding(field: Bytes)
    requires |field| == 4
    ensures FromBigEndian(field) == SystemMagic <==> field == SystemMagicOctets
  {
    Pow256Widths();
    SystemMagicEncoding();
    FromToBigEndian(SystemMagic, 4);
    ToFromBigEndian(field);
  }
}
