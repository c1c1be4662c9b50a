/** Python's `struct` module restricted to what the wire format uses: the
    big-endian, standard-size, unaligned byte order `>` with the codes
    `H`, `h`, `I`, `Q`, `Ns`, `d` and `Nx`. A format is a sequence of codes;
    `Pack` and `Unpack` interpret it. */
module Struct {
  import opened Results
  import opened Bytes

  /** One format code. `FixedBytes(n)` is `Ns`; `Pad(n)` is `Nx` (reserved
      octets that take no value). */
  datatype Code = UInt16 | Int16 | UInt32 | UInt64 | FixedBytes(len: nat) | Float64 | Pad(len: nat)

  type Format = seq<Code>

  /** A Python value handed to `pack` or returned by `unpack`. A `d` field is
      kept as its IEEE 754 bit pattern: no floating-point meaning is modelled. */
  datatype Value = IntValue(n: int) | BytesValue(b: Bytes) | FloatValue(bits: u64)

  /** `struct.error`, by cause. */
  datatype StructError =
    | WrongCount(expected: nat, got: nat)
    | WrongSize(expected: nat, got: nat)
    | OutOfRange(code: Code)
    | WrongType(code: Code)

  function CodeSize(c: Code): nat
  {
    match c
    case UInt16 => 2
    case Int16 => 2
    case UInt32 => 4
    case UInt64 => 8
    case FixedBytes(n) => n
    case Float64 => 8
    case Pad(n) => n
  }

  /** `struct.calcsize`: the number of octets a format occupies. */
  function Size(f: Format): nat
  {
    if |f| == 0 then 0 else CodeSize(f[0]) + Size(f[1..])
  }

  /** The codes of `f` that take a value, in order: all but the pad codes. */
  function Fields(f: Format): (r: Format)
    ensures forall i :: 0 <= i < |r| ==> !r[i].Pad?
  {
    if |f| == 0 then []
    else if f[0].Pad? then Fields(f[1..])
    else [f[0]] + Fields(f[1..])
  }

  /** Whether `pack` accepts `v` for the value-taking code `c`. */
  predicate Accepts(c: Code, v: Value)
  {
    match c
    case UInt16 => v.IntValue? && 0 <= v.n < 0x1_0000
    case Int16 => v.IntValue? && -0x8000 <= v.n < 0x8000
    case UInt32 => v.IntValue? && 0 <= v.n < 0x1_0000_0000
    case UInt64 => v.IntValue? && 0 <= v.n < 0x1_0000_0000_0000_0000
    case FixedBytes(_) => v.BytesValue?
    case Float64 => v.FloatValue?
    case Pad(_) => false
  }

  /** Whether `pack(f, *vs)` succeeds: one acceptable value per value-taking code. */
  predicate Fits(f: Format, vs: seq<Value>)
  {
    |vs| == |Fields(f)| && forall i :: 0 <= i < |vs| ==> Accepts(Fields(f)[i], vs[i])
  }

  function PackValue(c: Code, v: Value): (r: Result<Bytes, StructError>)
    requires !c.Pad?
    ensures r.Success? <==> Accepts(c, v)
    ensures r.Success? ==> |r.value| == CodeSize(c)
  {
    Pow256Widths();
    match c
    case FixedBytes(n) =>
      if v.BytesValue? then Success(Fit(v.b, n)) else Failure(WrongType(c))
    case Float64 =>
      if v.FloatValue? then Success(ToBigEndian(v.bits, 8)) else Failure(WrongType(c))
    case Int16 =>
      if !v.IntValue? then Failure(WrongType(c))
      else if !(-0x8000 <= v.n < 0x8000) then Failure(OutOfRange(c))
      else Success(I16ToBigEndian(v.n))
    case UInt16 => PackUnsigned(c, v, 2)
    case UInt32 => PackUnsigned(c, v, 4)
    case UInt64 => PackUnsigned(c, v, 8)
  }

  /** An unsigned code `c` of `width` octets: `H`, `I` or `Q`. */
  function PackUnsigned(c: Code, v: Value, width: nat): (r: Result<Bytes, StructError>)
    requires width in {2, 4, 8} && Pow256(width) == Pow256(CodeSize(c)) && CodeSize(c) == width
    ensures r.Success? <==> v.IntValue? && 0 <= v.n < Pow256(width)
    ensures r.Success? ==> r.value == ToBigEndian(v.n, width)
  {
    if !v.IntValue? then Failure(WrongType(c))
    else if !(0 <= v.n < Pow256(width)) then Failure(OutOfRange(c))
    else Success(ToBigEndian(v.n, width))
  }

  /** Packs the codes of `f` in order; the first value that does not fit its
      code is the error. */
  function PackFields(f: Format, vs: seq<Value>): (r: Result<Bytes, StructError>)
    requires |vs| == |Fields(f)|
    ensures r.Success? <==> Fits(f, vs)
    ensures r.Success? ==> |r.value| == Size(f)
  {
    if |f| == 0 then Success([])
    else if f[0].Pad? then
      match PackFields(f[1..], vs)
      case Success(rest) => Success(Zeros(f[0].len) + rest)
      case Failure(e) => Failure(e)
    else
      match PackValue(f[0], vs[0])
      case Failure(e) =>
        assert !Accepts(Fields(f)[0], vs[0]);
        Failure(e)
      case Success(head) =>
        match PackFields(f[1..], vs[1..])
        case Success(rest) =>
          assert forall i :: 1 <= i < |vs| ==> Fields(f)[i] == Fields(f[1..])[i - 1] && vs[i] == vs[1..][i - 1];
          Success(head + rest)
        case Failure(e) =>
          assert !Fits(f, vs) by {
            var j :| 0 <= j < |vs[1..]| && !Accepts(Fields(f[1..])[j], vs[1..][j]);
            assert Fields(f)[j + 1] == Fields(f[1..])[j] && vs[j + 1] == vs[1..][j];
          }
          Failure(e)
  }

  lemma FieldsCons(c: Code, f: Format)
    ensures Fields([c] + f) == (if c.Pad? then [] else [c]) + Fields(f)
  {
    assert ([c] + f)[1..] == f;
  }

  lemma PackFieldsValue(c: Code, f: Format, v: Value, vs: seq<Value>)
    requires !c.Pad? && Accepts(c, v) && Fits(f, vs)
    ensures Fits([c] + f, [v] + vs)
    ensures PackFields([c] + f, [v] + vs) == Success(PackValue(c, v).value + PackFields(f, vs).value)
  {
    FieldsCons(c, f);
    assert ([c] + f)[1..] == f;
    assert ([v] + vs)[1..] == vs;
  }

  lemma PackFieldsPad(n: nat, f: Format, vs: seq<Value>)
    requires Fits(f, vs)
    ensures Fits([Pad(n)] + f, vs)
    ensures PackFields([Pad(n)] + f, vs) == Success(Zeros(n) + PackFields(f, vs).value)
  {
    FieldsCons(Pad(n), f);
    assert ([Pad(n)] + f)[1..] == f;
  }

  /** `struct.pack`: the value count is checked first, then each field in order. */
  function Pack(f: Format, vs: seq<Value>): (r: Result<Bytes, StructError>)
    ensures r.Success? <==> Fits(f, vs)
    ensures r.Success? ==> |r.value| == Size(f)
    ensures |vs| != |Fields(f)| ==> r == Failure(WrongCount(|Fields(f)|, |vs|))
  {
    if |vs| != |Fields(f)| then Failure(WrongCount(|Fields(f)|, |vs|))
    else PackFields(f, vs)
  }

  function UnpackValue(c: Code, s: Bytes): (v: Value)
    requires !c.Pad? && |s| == CodeSize(c)
    ensures Accepts(c, v)
  {
    match c
    case FixedBytes(_) => BytesValue(s)
    case Float64 => Pow256Widths(); FloatValue(FromBigEndian(s))
    case Int16 => IntValue(I16FromBigEndian(s))
    case UInt16 => Pow256Widths(); IntValue(FromBigEndian(s))
    case UInt32 => Pow256Widths(); IntValue(FromBigEndian(s))
    case UInt64 => Pow256Widths(); IntValue(FromBigEndian(s))
  }

  function UnpackFields(f: Format, data: Bytes): (vs: seq<Value>)
    requires |data| == Size(f)
    ensures Fits(f, vs)
  {
    if |f| == 0 then []
    else if f[0].Pad? then UnpackFields(f[1..], data[f[0].len..])
    else
      var k := CodeSize(f[0]);
      var rest := UnpackFields(f[1..], data[k..]);
      assert forall i :: 1 <= i < |Fields(f)| ==> Fields(f)[i] == Fields(f[1..])[i - 1];
      [UnpackValue(f[0], data[..k])] + rest
  }

  lemma UnpackFieldsCons(c: Code, f: Format, data: Bytes)
    requires |data| == CodeSize(c) + Size(f)
    ensures Size([c] + f) == CodeSize(c) + Size(f)
    ensures UnpackFields([c] + f, data)
      == (if c.Pad? then [] else [UnpackValue(c, data[..CodeSize(c)])]) + UnpackFields(f, data[CodeSize(c)..])
  {
    assert ([c] + f)[1..] == f;
  }

  /** `struct.unpack`: demands exactly `Size(f)` octets; reserved octets are skipped. */
  function Unpack(f: Format, data: Bytes): (r: Result<seq<Value>, StructError>)
    ensures r.Success? <==> |data| == Size(f)
    ensures r.Success? ==> Fits(f, r.value)
    ensures r.Failure? ==> r.error == WrongSize(Size(f), |data|)
  {
    if |data| != Size(f) then Failure(WrongSize(Size(f), |data|))
    else Success(UnpackFields(f, data))
  }

  /** The value `unpack` returns for what `pack` was given: a `Ns` field comes
      back padded or truncated to `n` octets; every other value unchanged. */
  function Normalize(c: Code, v: Value): Value
  {
    if c.FixedBytes? && v.BytesValue? then BytesValue(Fit(v.b, c.len)) else v
  }

  function NormalizeAll(f: Format, vs: seq<Value>): (r: seq<Value>)
    requires |vs| == |Fields(f)|
    ensures |r| == |vs|
  {
    seq(|vs|, i requires 0 <= i < |vs| => Normalize(Fields(f)[i], vs[i]))
  }

  /** One flag per octet of the packed format: true for reserved (`x`) octets. */
  function ReservedMask(f: Format): (m: seq<bool>)
    ensures |m| == Size(f)
  {
    if |f| == 0 then [] else seq(CodeSize(f[0]), _ => f[0].Pad?) + ReservedMask(f[1..])
  }

  /** `data` with every reserved octet of `f` set to zero. */
  function ZeroReserved(f: Format, data: Bytes): (r: Bytes)
    requires |data| == Size(f)
    ensures |r| == |data|
  {
    var m := ReservedMask(f);
    seq(|data|, i requires 0 <= i < |data| => if m[i] then 0 else data[i])
  }

  lemma ValueRoundTrip(c: Code, v: Value)
    requires !c.Pad? && Accepts(c, v)
    ensures UnpackValue(c, PackValue(c, v).value) == Normalize(c, v)
  {
    Pow256Widths();
    match c
    case FixedBytes(_) =>
    case Float64 => FromToBigEndian(v.bits, 8);
    case Int16 => I16RoundTrip(v.n);
    case UInt16 => FromToBigEndian(v.n, 2);
    case UInt32 => FromToBigEndian(v.n, 4);
    case UInt64 => FromToBigEndian(v.n, 8);
  }

  lemma ValueBytesRoundTrip(c: Code, s: Bytes)
    requires !c.Pad? && |s| == CodeSize(c)
    ensures PackValue(c, UnpackValue(c, s)) == Success(s)
  {
    Pow256Widths();
    match c
    case FixedBytes(_) => FitExact(s);
    case Float64 => ToFromBigEndian(s);
    case Int16 =>
      ToFromBigEndian(s);
      var u := FromBigEndian(s);
      var v: int := I16FromBigEndian(s);
      assert (if v < 0 then v + 0x1_0000 else v) == u;
    case UInt16 => ToFromBigEndian(s);
    case UInt32 => ToFromBigEndian(s);
    case UInt64 => ToFromBigEndian(s);
  }

  /** Decoding an encoded record returns the values packed, `Ns` fields
      normalised to their width. */
  lemma {:induction false} UnpackPack(f: Format, vs: seq<Value>)
    requires Fits(f, vs)
    ensures Unpack(f, Pack(f, vs).value) == Success(NormalizeAll(f, vs))
  {
    UnpackFieldsPackFields(f, vs);
  }

  lemma {:induction false} UnpackFieldsPackFields(f: Format, vs: seq<Value>)
    requires Fits(f, vs)
    ensures PackFields(f, vs).Success?
    ensures UnpackFields(f, PackFields(f, vs).value) == NormalizeAll(f, vs)
  {
    if |f| == 0 {
    } else if f[0].Pad? {
      var n := f[0].len;
      UnpackFieldsPackFields(f[1..], vs);
      var rest := PackFields(f[1..], vs).value;
      assert (Zeros(n) + rest)[n..] == rest;
    } else {
      var k := CodeSize(f[0]);
      FitsTail(f, vs);
      UnpackFieldsPackFields(f[1..], vs[1..]);
      ValueRoundTrip(f[0], vs[0]);
      var head := PackValue(f[0], vs[0]).value;
      var rest := PackFields(f[1..], vs[1..]).value;
      assert (head + rest)[..k] == head;
      assert (head + rest)[k..] == rest;
      NormalizeAllTail(f, vs);
    }
  }

  /** The values after the first fit the codes after the first. */
  lemma FitsTail(f: Format, vs: seq<Value>)
    requires Fits(f, vs) && |f| > 0 && !f[0].Pad?
    ensures Fields(f) == [f[0]] + Fields(f[1..])
    ensures Fits(f[1..], vs[1..])
  {
    var g, ws := Fields(f[1..]), vs[1..];
    assert Fields(f) == [f[0]] + g;
    forall i | 0 <= i < |ws|
      ensures Accepts(g[i], ws[i])
    {
      assert g[i] == Fields(f)[i + 1] && ws[i] == vs[i + 1];
    }
  }

  lemma NormalizeAllTail(f: Format, vs: seq<Value>)
    requires |f| > 0 && !f[0].Pad? && |vs| == |Fields(f)|
    ensures Fields(f) == [f[0]] + Fields(f[1..])
    ensures NormalizeAll(f, vs) == [Normalize(f[0], vs[0])] + NormalizeAll(f[1..], vs[1..])
  {
    assert Fields(f) == [f[0]] + Fields(f[1..]);
    var lhs := [Normalize(f[0], vs[0])] + NormalizeAll(f[1..], vs[1..]);
    forall i | 0 <= i < |vs|
      ensures lhs[i] == NormalizeAll(f, vs)[i]
    {
      if i > 0 {
        assert lhs[i] == NormalizeAll(f[1..], vs[1..])[i - 1];
      }
    }
  }

  /** Re-encoding a decoded record reproduces the input with its reserved
      octets zeroed. */
  lemma {:induction false} PackUnpack(f: Format, data: Bytes)
    requires |data| == Size(f)
    ensures Pack(f, Unpack(f, data).value) == Success(ZeroReserved(f, data))
  {
    PackFieldsUnpackFields(f, data);
  }

  lemma {:induction false} PackFieldsUnpackFields(f: Format, data: Bytes)
    requires |data| == Size(f)
    ensures PackFields(f, UnpackFields(f, data)) == Success(ZeroReserved(f, data))
  {
    if |f| > 0 {
      var k := CodeSize(f[0]);
      PackFieldsUnpackFields(f[1..], data[k..]);
      ZeroReservedSplit(f, data);
      if !f[0].Pad? {
        ValueBytesRoundTrip(f[0], data[..k]);
        var vs := UnpackFields(f, data);
        assert vs[0] == UnpackValue(f[0], data[..k]);
        assert vs[1..] == UnpackFields(f[1..], data[k..]);
      }
    }
  }

  /** The reserved-zeroed octets of a format are those of its first code
      followed by those of the rest. */
  lemma ZeroReservedSplit(f: Format, data: Bytes)
    requires |f| > 0 && |data| == Size(f)
    ensures ZeroReserved(f, data)
      == (if f[0].Pad? then Zeros(CodeSize(f[0])) else data[..CodeSize(f[0])])
         + ZeroReserved(f[1..], data[CodeSize(f[0])..])
  {
    var k := CodeSize(f[0]);
    var m := ReservedMask(f);
    var tail := ReservedMask(f[1..]);
    assert m == seq(k, _ => f[0].Pad?) + tail;
    var lhs := ZeroReserved(f, data);
    var rhs := (if f[0].Pad? then Zeros(k) else data[..k]) + ZeroReserved(f[1..], data[k..]);
    forall i | 0 <= i < |data|
      ensures lhs[i] == rhs[i]
    {
      if i >= k {
        assert m[i] == tail[i - k];
      }
    }
  }
}
