/// Typed attributes and their canonical binary form (src/attribute.rs).
module AttributeCodec {
  import opened Bytes
  import opened Common

  datatype AttrType =
    | BoolType | NumType | StringType | BytesType | UlongArrayType
    | DateType | DenyType | IgnoreType | TemplateType

  /// Which attribute identifiers are known, and the type of each.
  type AttrMap = map<u64, AttrType>

  datatype Attribute = Attribute(ckType: u64, attrType: AttrType, value: seq<u8>)

  ghost predicate WellTyped(m: AttrMap, attrs: seq<Attribute>) {
    forall a :: a in attrs ==> a.ckType in m && m[a.ckType] == a.attrType
  }

  /// One record: 8 bytes of type, 4 bytes of length, the value.
  function EncodeOne(a: Attribute): (s: seq<u8>)
    ensures |s| == 12 + |a.value|
  {
    ToLittleEndian(a.ckType, 8) + ToLittleEndian(|a.value|, 4) + a.value
  }

  function EncodeBody(attrs: seq<Attribute>): (s: seq<u8>)
  {
    if attrs == [] then [] else EncodeOne(attrs[0]) + EncodeBody(attrs[1..])
  }

  /// A 4-byte count followed by the records, little-endian throughout.
  function Encode(attrs: seq<Attribute>): (s: seq<u8>)
  {
    ToLittleEndian(|attrs|, 4) + EncodeBody(attrs)
  }

  predicate ValuesFit(attrs: seq<Attribute>) {
    forall a :: a in attrs ==> |a.value| <= U32_MAX
  }

  /// The lists that have an encoding: every length fits its field and the
  /// total fits the address space.
  ghost predicate Encodable(attrs: seq<Attribute>) {
    |attrs| <= U32_MAX && ValuesFit(attrs) && |Encode(attrs)| < U64_LIMIT
  }

  lemma {:induction false} EncodeBodyAppend(a: seq<Attribute>, b: seq<Attribute>)
    ensures EncodeBody(a + b) == EncodeBody(a) + EncodeBody(b)
  {
    if a == [] {
      assert a + b == b;
    } else {
      assert (a + b)[1..] == a[1..] + b;
      EncodeBodyAppend(a[1..], b);
    }
  }

  lemma EncodeBodyOne(attrs: seq<Attribute>, i: nat)
    requires i < |attrs|
    ensures EncodeBody(attrs[..i + 1]) == EncodeBody(attrs[..i]) + EncodeOne(attrs[i])
  {
    assert attrs[..i + 1] == attrs[..i] + [attrs[i]];
    EncodeBodyAppend(attrs[..i], [attrs[i]]);
    assert [attrs[i]][1..] == [];
    assert EncodeBody([]) == [];
  }

  lemma EncodeBodyGrows(attrs: seq<Attribute>, i: nat)
    requires i <= |attrs|
    ensures |EncodeBody(attrs[..i])| <= |EncodeBody(attrs)|
  {
    assert attrs == attrs[..i] + attrs[i..];
    EncodeBodyAppend(attrs[..i], attrs[i..]);
  }

  /// The first pass of serialization: the total size, if it fits a usize.
  method TotalLength(attrs: seq<Attribute>) returns (r: Option<nat>)
    ensures r == if |Encode(attrs)| < U64_LIMIT then Some(|Encode(attrs)|) else None
  {
    var totalLen := 4;
    for i := 0 to |attrs|
      invariant totalLen == 4 + |EncodeBody(attrs[..i])| < U64_LIMIT
    {
      EncodeBodyOne(attrs, i);
      EncodeBodyGrows(attrs, i + 1);
      totalLen := totalLen + 12 + |attrs[i].value|;
      if totalLen >= U64_LIMIT {
        return None;
      }
    }
    assert attrs[..|attrs|] == attrs;
    return Some(totalLen);
  }

  /// Serializes a template; the only failures are sizes that do not fit.
  method SerializeTemplate(attrs: seq<Attribute>) returns (r: Result<seq<u8>, Rv>)
    ensures r.Ok? <==> Encodable(attrs)
    ensures r.Ok? ==> r.value == Encode(attrs)
    ensures |attrs| <= U32_MAX && |Encode(attrs)| >= U64_LIMIT ==> r == Err(CKR_TEMPLATE_INCONSISTENT)
  {
    if |attrs| > U32_MAX {
      return Err(CKR_GENERAL_ERROR);
    }
    var totalLen := TotalLength(attrs);
    if totalLen.None? {
      return Err(CKR_TEMPLATE_INCONSISTENT);
    }
    var body: seq<u8> := [];
    for i := 0 to |attrs|
      invariant body == EncodeBody(attrs[..i])
      invariant forall j :: 0 <= j < i ==> |attrs[j].value| <= U32_MAX
    {
      if |attrs[i].value| > U32_MAX {
        assert attrs[i] in attrs;
        return Err(CKR_GENERAL_ERROR);
      }
      EncodeBodyOne(attrs, i);
      body := body + (ToLittleEndian(attrs[i].ckType, 8) + ToLittleEndian(|attrs[i].value|, 4) + attrs[i].value);
    }
    assert attrs[..|attrs|] == attrs;
    return Ok(ToLittleEndian(|attrs|, 4) + body);
  }

  /// Decodes the record at the front of data, with the bytes it takes up.
  function DecodeOne(m: AttrMap, data: seq<u8>): (r: Result<(Attribute, nat), Rv>)
    ensures r.Ok? ==> 12 <= r.value.1 <= |data|
  {
    if |data| < 12 then Err(CKR_DEVICE_ERROR)
    else
      var ty := TypeField(data[..8]);
      if ty !in m then Err(CKR_ATTRIBUTE_TYPE_INVALID)
      else
        var end := 12 + FromLittleEndian(data[8..12]);
        if end > |data| then Err(CKR_DEVICE_ERROR)
        else Ok((Attribute(ty, m[ty], data[12..end]), end))
  }

  function TypeField(data: seq<u8>): (ty: u64)
    requires |data| == 8
  {
    LittleEndianBytes(data);
    Pow256Values();
    FromLittleEndian(data)
  }

  /// Decodes count records that must fill data exactly.
  function DecodeBody(m: AttrMap, data: seq<u8>, count: nat): (r: Result<seq<Attribute>, Rv>)
    decreases count
  {
    if count == 0 then
      if data == [] then Ok([]) else Err(CKR_DEVICE_ERROR)
    else match DecodeOne(m, data)
      case Err(e) => Err(e)
      case Ok((a, n)) => Prepend([a], DecodeBody(m, data[n..], count - 1))
  }

  function Prepend(a: seq<Attribute>, r: Result<seq<Attribute>, Rv>): Result<seq<Attribute>, Rv> {
    if r.Ok? then Ok(a + r.value) else r
  }

  lemma PrependNothing(r: Result<seq<Attribute>, Rv>)
    ensures Prepend([], r) == r
  {
    if r.Ok? {
      assert [] + r.value == r.value;
    }
  }

  lemma PrependAssoc(a: seq<Attribute>, b: seq<Attribute>, r: Result<seq<Attribute>, Rv>)
    ensures Prepend(a, Prepend(b, r)) == Prepend(a + b, r)
  {
    if r.Ok? {
      assert a + (b + r.value) == (a + b) + r.value;
    }
  }

  /// The empty byte string stands for the empty template, although encoding
  /// the empty template gives four zero bytes.
  function Decode(m: AttrMap, data: seq<u8>): (r: Result<seq<Attribute>, Rv>)
  {
    if data == [] then Ok([])
    else if |data| < 4 then Err(CKR_DEVICE_ERROR)
    else DecodeBody(m, data[4..], FromLittleEndian(data[..4]))
  }

  /// Reads one record at an offset, advancing past it.
  method ReadRecord(m: AttrMap, data: seq<u8>, start: nat) returns (r: Result<Attribute, Rv>, offset: nat)
    requires start <= |data|
    ensures start <= offset <= |data|
    ensures match DecodeOne(m, data[start..])
      case Err(e) => r == Err(e)
      case Ok((a, n)) => r == Ok(a) && offset == start + n
  {
    ghost var rest := data[start..];
    offset := start;
    if offset + 8 + 4 > |data| {
      return Err(CKR_DEVICE_ERROR), offset;
    }
    assert data[offset..offset + 8] == rest[..8];
    var ckType := TypeField(data[offset..offset + 8]);
    offset := offset + 8;
    if ckType !in m {
      return Err(CKR_ATTRIBUTE_TYPE_INVALID), offset;
    }
    assert data[offset..offset + 4] == rest[8..12];
    var valLen := FromLittleEndian(data[offset..offset + 4]);
    offset := offset + 4;
    if offset + valLen > |data| {
      return Err(CKR_DEVICE_ERROR), offset;
    }
    var value := data[offset..offset + valLen];
    assert value == rest[12..12 + valLen];
    offset := offset + valLen;
    r := Ok(Attribute(ckType, m[ckType], value));
  }

  /// Deserializes a template, reading fields at a moving offset.
  method DeserializeTemplate(m: AttrMap, data: seq<u8>) returns (r: Result<seq<Attribute>, Rv>)
    ensures r == Decode(m, data)
  {
    if data == [] {
      return Ok([]);
    }
    if |data| < 4 {
      return Err(CKR_DEVICE_ERROR);
    }
    var count := FromLittleEndian(data[..4]);
    var offset := 4;
    var attrs: seq<Attribute> := [];
    PrependNothing(DecodeBody(m, data[4..], count));
    for i := 0 to count
      invariant 4 <= offset <= |data|
      invariant Decode(m, data) == Prepend(attrs, DecodeBody(m, data[offset..], count - i))
    {
      ghost var start := offset;
      var a;
      a, offset := ReadRecord(m, data, offset);
      if a.Err? {
        return Err(a.error);
      }
      assert data[offset..] == data[start..][offset - start..];
      PrependAssoc(attrs, [a.value], DecodeBody(m, data[offset..], count - i - 1));
      attrs := attrs + [a.value];
    }
    if offset != |data| {
      return Err(CKR_DEVICE_ERROR);
    }
    assert attrs + [] == attrs;
    return Ok(attrs);
  }

  // ----- decoding and encoding undo each other

  lemma DecodeEncodeOne(m: AttrMap, a: Attribute, rest: seq<u8>)
    requires a.ckType in m && m[a.ckType] == a.attrType && |a.value| <= U32_MAX
    ensures DecodeOne(m, EncodeOne(a) + rest) == Ok((a, |EncodeOne(a)|))
  {
    var data := EncodeOne(a) + rest;
    Pow256Values();
    LittleEndianRoundTrip(a.ckType, 8);
    LittleEndianRoundTrip(|a.value|, 4);
    assert data[..8] == ToLittleEndian(a.ckType, 8);
    assert data[8..12] == ToLittleEndian(|a.value|, 4);
    assert data[12..12 + |a.value|] == a.value;
  }

  lemma {:induction false} DecodeEncodeBody(m: AttrMap, attrs: seq<Attribute>)
    requires WellTyped(m, attrs) && ValuesFit(attrs)
    ensures DecodeBody(m, EncodeBody(attrs), |attrs|) == Ok(attrs)
  {
    if attrs != [] {
      var a, rest := attrs[0], attrs[1..];
      var tail := EncodeBody(rest);
      var data := EncodeOne(a) + tail;
      assert EncodeBody(attrs) == data;
      DecodeEncodeOne(m, a, tail);
      assert data[|EncodeOne(a)|..] == tail;
      DecodeEncodeBody(m, rest);
      DecodeBodyStep(m, data, |attrs|, a, |EncodeOne(a)|);
      assert [a] + rest == attrs;
    }
  }

  lemma DecodeBodyStep(m: AttrMap, data: seq<u8>, count: nat, a: Attribute, n: nat)
    requires count > 0 && n <= |data| && DecodeOne(m, data) == Ok((a, n))
    ensures DecodeBody(m, data, count) == Prepend([a], DecodeBody(m, data[n..], count - 1))
  {
  }

  /// Every encodable list over known types survives the round trip.
  lemma DecodeEncode(m: AttrMap, attrs: seq<Attribute>)
    requires WellTyped(m, attrs) && Encodable(attrs)
    ensures Decode(m, Encode(attrs)) == Ok(attrs)
  {
    var data := Encode(attrs);
    Pow256Values();
    LittleEndianRoundTrip(|attrs|, 4);
    assert data[..4] == ToLittleEndian(|attrs|, 4) && data[4..] == EncodeBody(attrs);
    DecodeEncodeBody(m, attrs);
  }

  lemma EncodeDecodeOne(m: AttrMap, data: seq<u8>)
    requires DecodeOne(m, data).Ok?
    ensures var (a, n) := DecodeOne(m, data).value;
      EncodeOne(a) == data[..n] && a.ckType in m && m[a.ckType] == a.attrType && |a.value| <= U32_MAX
  {
    var (a, n) := DecodeOne(m, data).value;
    Pow256Values();
    LittleEndianBytes(data[..8]);
    LittleEndianBytes(data[8..12]);
    assert data[..n] == data[..8] + data[8..12] + data[12..n];
  }

  lemma {:induction false} EncodeDecodeBody(m: AttrMap, data: seq<u8>, count: nat)
    requires DecodeBody(m, data, count).Ok?
    ensures
      var attrs := DecodeBody(m, data, count).value;
      |attrs| == count && EncodeBody(attrs) == data && WellTyped(m, attrs) && ValuesFit(attrs)
    decreases count
  {
    if count > 0 {
      EncodeDecodeOne(m, data);
      var (a, n) := DecodeOne(m, data).value;
      EncodeDecodeBody(m, data[n..], count - 1);
      var rest := DecodeBody(m, data[n..], count - 1).value;
      assert ([a] + rest)[1..] == rest;
      assert data == data[..n] + data[n..];
    }
  }

  /// Every non-empty accepted byte string is exactly the encoding of what it
  /// decodes to: no byte is skipped and no second spelling is accepted.
  lemma EncodeDecode(m: AttrMap, data: seq<u8>)
    requires data != [] && Decode(m, data).Ok?
    ensures Encode(Decode(m, data).value) == data
    ensures WellTyped(m, Decode(m, data).value)
    ensures |data| < U64_LIMIT ==> Encodable(Decode(m, data).value)
  {
    var count := FromLittleEndian(data[..4]);
    LittleEndianBytes(data[..4]);
    Pow256Values();
    EncodeDecodeBody(m, data[4..], count);
    assert data == data[..4] + data[4..];
  }

  /// What the decoder accepts, without reference to how it works.
  lemma AcceptsExactlyEncodings(m: AttrMap, data: seq<u8>)
    requires |data| < U64_LIMIT
    ensures Decode(m, data).Ok? <==>
      data == [] || exists attrs :: WellTyped(m, attrs) && Encodable(attrs) && Encode(attrs) == data
  {
    if data != [] && Decode(m, data).Ok? {
      EncodeDecode(m, data);
    }
    if attrs :| WellTyped(m, attrs) && Encodable(attrs) && Encode(attrs) == data {
      DecodeEncode(m, attrs);
    }
  }

  // ----- which byte is where

  /// The count: four bytes, least significant first.
  lemma CountBytes(attrs: seq<Attribute>, i: nat)
    requires i < 4
    ensures |Encode(attrs)| >= 4 && Encode(attrs)[i] == |attrs| / Pow256(i) % 256
    ensures |Encode([])| == 4
  {
    LittleEndianByte(|attrs|, 4, i);
  }

  lemma FieldByte(a: Attribute, i: nat)
    ensures i < 8 ==> EncodeOne(a)[i] == a.ckType / Pow256(i) % 256
    ensures i < 4 ==> EncodeOne(a)[8 + i] == |a.value| / Pow256(i) % 256
    ensures EncodeOne(a)[12..] == a.value
  {
    if i < 8 {
      LittleEndianByte(a.ckType, 8, i);
    }
    if i < 4 {
      LittleEndianByte(|a.value|, 4, i);
    }
  }

  lemma RecordPlace(attrs: seq<Attribute>, n: nat)
    requires n < |attrs|
    ensures
      var data, at, record := Encode(attrs), |Encode(attrs[..n])|, EncodeOne(attrs[n]);
      |Encode(attrs[..n + 1])| == at + |record| <= |data| && data[at..at + |record|] == record
  {
    assert attrs == attrs[..n + 1] + attrs[n + 1..];
    EncodeBodyAppend(attrs[..n + 1], attrs[n + 1..]);
    EncodeBodyOne(attrs, n);
    hide EncodeBody, EncodeOne, ToLittleEndian, Pow256;
    var count, before, record, after :=
      ToLittleEndian(|attrs|, 4), EncodeBody(attrs[..n]), EncodeOne(attrs[n]), EncodeBody(attrs[n + 1..]);
    assert Encode(attrs) == (count + before) + record + after;
    Middle(count + before, record, after);
  }

  lemma Middle(a: seq<u8>, b: seq<u8>, c: seq<u8>)
    ensures (a + b + c)[|a|..|a| + |b|] == b
  {
  }

  /// Record n follows the records before it: eight bytes of type and four of
  /// length, least significant first, then the value and nothing else.
  lemma RecordBytes(attrs: seq<Attribute>, n: nat, i: nat)
    requires n < |attrs|
    ensures
      var data, at, value := Encode(attrs), |Encode(attrs[..n])|, attrs[n].value;
      && |Encode(attrs[..n + 1])| == at + 12 + |value| <= |data|
      && (i < 8 ==> data[at + i] == attrs[n].ckType / Pow256(i) % 256)
      && (i < 4 ==> data[at + 8 + i] == |value| / Pow256(i) % 256)
      && data[at + 12..at + 12 + |value|] == value
    ensures attrs[..|attrs|] == attrs
  {
    RecordPlace(attrs, n);
    FieldByte(attrs[n], i);
    hide Encode, EncodeOne, Pow256;
    var data, at, record := Encode(attrs), |Encode(attrs[..n])|, EncodeOne(attrs[n]);
    assert data[at..at + |record|] == record;
    assert forall j :: 0 <= j < |record| ==> data[at + j] == record[j];
    assert data[at + 12..at + 12 + |attrs[n].value|] == record[12..];
  }

  /// What an accepted string says: each of its bytes is that of what it is read
  /// as.
  lemma DecodedBytes(m: AttrMap, data: seq<u8>, n: nat, i: nat)
    requires data != [] && Decode(m, data).Ok?
    ensures i < 4 ==> i < |data| && data[i] == |Decode(m, data).value| / Pow256(i) % 256
    ensures n < |Decode(m, data).value| ==>
      var attrs := Decode(m, data).value;
      var at, a := |Encode(attrs[..n])|, attrs[n];
      && at + 12 + |a.value| <= |data| && a.ckType in m && a.attrType == m[a.ckType]
      && (i < 8 ==> data[at + i] == a.ckType / Pow256(i) % 256)
      && (i < 4 ==> data[at + 8 + i] == |a.value| / Pow256(i) % 256)
      && data[at + 12..at + 12 + |a.value|] == a.value
  {
    hide Decode, Encode, Pow256, Encodable, ValuesFit;
    EncodeDecode(m, data);
    var attrs := Decode(m, data).value;
    if i < 4 {
      CountBytes(attrs, i);
    }
    if n < |attrs| {
      RecordBytes(attrs, n, i);
      assert attrs[n] in attrs;
    }
  }

  /// No bytes are the empty list; too few for a count are an error.
  lemma DecodeShort(m: AttrMap, data: seq<u8>)
    requires |data| < 4
    ensures Decode(m, data) == if data == [] then Ok([]) else Err(CKR_DEVICE_ERROR)
  {
  }

  /// Where and how decoding stops: after some good records there is a byte too
  /// many, too little is left for a record, its type is unknown, or its value
  /// is cut off.
  lemma DecodeStops(m: AttrMap, attrs: seq<Attribute>, count: u32, rest: seq<u8>)
    requires WellTyped(m, attrs) && ValuesFit(attrs) && |attrs| <= count
    ensures
      var r := Decode(m, ToLittleEndian(count, 4) + EncodeBody(attrs) + rest);
      if |attrs| == count then r == if rest == [] then Ok(attrs) else Err(CKR_DEVICE_ERROR)
      else if |rest| < 12 then r == Err(CKR_DEVICE_ERROR)
      else
        && (TypeField(rest[..8]) !in m ==> r == Err(CKR_ATTRIBUTE_TYPE_INVALID))
        && (TypeField(rest[..8]) in m && 12 + FromLittleEndian(rest[8..12]) > |rest| ==> r == Err(CKR_DEVICE_ERROR))
  {
    hide Decode, DecodeBody, DecodeOne, EncodeBody, ToLittleEndian, FromLittleEndian, TypeField;
    var head, body := ToLittleEndian(count, 4), EncodeBody(attrs);
    assert head + body + rest == head + (body + rest);
    DecodeAfterCount(m, count, body + rest);
    BodyStops(m, attrs, count, rest);
    RestStops(m, rest, count - |attrs|);
    assert attrs + [] == attrs;
  }

  lemma DecodeAfterCount(m: AttrMap, count: u32, body: seq<u8>)
    ensures Decode(m, ToLittleEndian(count, 4) + body) == DecodeBody(m, body, count)
  {
    var data := ToLittleEndian(count, 4) + body;
    Pow256Values();
    LittleEndianRoundTrip(count, 4);
    assert data[..4] == ToLittleEndian(count, 4) && data[4..] == body;
  }

  lemma RestStops(m: AttrMap, rest: seq<u8>, count: nat)
    ensures
      var r := DecodeBody(m, rest, count);
      if count == 0 then r == if rest == [] then Ok([]) else Err(CKR_DEVICE_ERROR)
      else if |rest| < 12 then r == Err(CKR_DEVICE_ERROR)
      else
        && (TypeField(rest[..8]) !in m ==> r == Err(CKR_ATTRIBUTE_TYPE_INVALID))
        && (TypeField(rest[..8]) in m && 12 + FromLittleEndian(rest[8..12]) > |rest| ==> r == Err(CKR_DEVICE_ERROR))
  {
  }

  lemma {:induction false} BodyStops(m: AttrMap, attrs: seq<Attribute>, count: nat, rest: seq<u8>)
    requires WellTyped(m, attrs) && ValuesFit(attrs) && |attrs| <= count
    ensures DecodeBody(m, EncodeBody(attrs) + rest, count) == Prepend(attrs, DecodeBody(m, rest, count - |attrs|))
    decreases |attrs|
  {
    if attrs == [] {
      assert EncodeBody(attrs) + rest == rest;
      PrependNothing(DecodeBody(m, rest, count));
    } else {
      var a, more := attrs[0], attrs[1..];
      assert forall d :: d in more ==> d in attrs;
      assert attrs == [a] + more;
      BodyStep(m, a, more, rest, count);
      assert WellTyped(m, more) && ValuesFit(more);
      hide *;
      BodyStops(m, more, count - 1, rest);
      PrependAssoc([a], more, DecodeBody(m, rest, count - |attrs|));
    }
  }

  lemma BodyStep(m: AttrMap, a: Attribute, more: seq<Attribute>, rest: seq<u8>, count: nat)
    requires a.ckType in m && m[a.ckType] == a.attrType && |a.value| <= U32_MAX && count > 0
    ensures DecodeBody(m, EncodeBody([a] + more) + rest, count) ==
            Prepend([a], DecodeBody(m, EncodeBody(more) + rest, count - 1))
  {
    var tail := EncodeBody(more) + rest;
    var data := EncodeOne(a) + tail;
    assert ([a] + more)[1..] == more;
    assert EncodeBody([a] + more) + rest == data;
    DecodeEncodeOne(m, a, tail);
    hide DecodeBody, DecodeOne, EncodeBody, EncodeOne, Prepend;
    assert data[|EncodeOne(a)|..] == tail;
    DecodeBodyStep(m, data, count, a, |EncodeOne(a)|);
  }

  /// The type is read least significant byte first.
  lemma TypeFieldBytes(s: seq<u8>, i: nat)
    requires |s| == 8 && i < 8
    ensures TypeField(s) / Pow256(i) % 256 == s[i]
  {
    LittleEndianWeights(s, i);
  }
}
