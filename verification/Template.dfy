/// Comparing attributes with caller attributes and merging a stored template
/// into a caller's template (src/attribute.rs).
module Template {
  import opened Bytes
  import opened Common
  import opened AttributeCodec

  /// What a CK_ATTRIBUTE points at: nothing, or bytes, which for a template
  /// attribute may also be readable as an array of attributes (its size and
  /// alignment allow it).
  datatype Pointee = Null(len: nat) | Mem(raw: seq<u8>, inner: Option<seq<CkAttr>>)

  datatype CkAttr = CkAttr(ty: u64, val: Pointee)

  /// The attribute table and the UTF-8 test the conversions rely on.
  datatype Tables = Tables(types: AttrMap, utf8: seq<u8> -> bool)

  function ValueLen(a: CkAttr): nat {
    match a.val
    case Null(n) => n
    case Mem(raw, _) => |raw|
  }

  /// A copy of the value bytes, empty for a null pointer.
  function ToBuf(a: CkAttr): seq<u8> {
    if a.val.Mem? then a.val.raw else []
  }

  predicate IsDate(s: seq<u8>) {
    |s| == 8 && forall b :: b in s ==> 0x30 <= b <= 0x39
  }

  /// Converts a caller's attribute of any type but a template to an owned one.
  function FromScalar(t: Tables, a: CkAttr): (r: Result<Attribute, Rv>)
  {
    if a.ty !in t.types then Err(CKR_ATTRIBUTE_TYPE_INVALID)
    else match t.types[a.ty]
      case BoolType =>
        if ValueLen(a) != 1 || a.val.Null? then Err(CKR_ATTRIBUTE_VALUE_INVALID)
        else Ok(Attribute(a.ty, BoolType, [if a.val.raw[0] == 0 then 0 else 1]))
      case NumType =>
        if ValueLen(a) != 8 || a.val.Null? then Err(CKR_ATTRIBUTE_VALUE_INVALID)
        else Ok(Attribute(a.ty, NumType, a.val.raw))
      case StringType =>
        if ValueLen(a) == 0 then Ok(Attribute(a.ty, StringType, []))
        else if a.val.Null? || !t.utf8(a.val.raw) then Err(CKR_ATTRIBUTE_VALUE_INVALID)
        else Ok(Attribute(a.ty, StringType, a.val.raw))
      case BytesType => Ok(Attribute(a.ty, BytesType, ToBuf(a)))
      case UlongArrayType => Ok(Attribute(a.ty, UlongArrayType, ToBuf(a)))
      case DateType =>
        if ValueLen(a) == 0 then Ok(Attribute(a.ty, DateType, seq(8, i => 0x30)))
        else if a.val.Null? || !IsDate(a.val.raw) then Err(CKR_ATTRIBUTE_VALUE_INVALID)
        else Ok(Attribute(a.ty, DateType, a.val.raw))
      case IgnoreType => Ok(Attribute(a.ty, IgnoreType, []))
      case DenyType => Err(CKR_ATTRIBUTE_TYPE_INVALID)
      case TemplateType => Err(CKR_TEMPLATE_INCONSISTENT)
  }

  function Types(attrs: seq<Attribute>): (s: set<u64>) {
    set a | a in attrs :: a.ckType
  }

  /// Converts the members of a caller's template after those already in acc,
  /// refusing unknown types, nested templates and repeated types.
  function FromInner(t: Tables, inner: seq<CkAttr>, acc: seq<Attribute>): (r: Result<seq<Attribute>, Rv>)
    decreases |inner|
  {
    if inner == [] then Ok(acc)
    else if inner[0].ty !in t.types then Err(CKR_ATTRIBUTE_TYPE_INVALID)
    else if t.types[inner[0].ty] == TemplateType then Err(CKR_TEMPLATE_INCONSISTENT)
    else if inner[0].ty in Types(acc) then Err(CKR_TEMPLATE_INCONSISTENT)
    else match FromScalar(t, inner[0])
      case Err(e) => Err(e)
      case Ok(a) => FromInner(t, inner[1..], acc + [a])
  }

  /// The attribute a caller's template turns into.
  ghost function FromCkTemplate(t: Tables, a: CkAttr): (r: Result<Attribute, Rv>)
  {
    if ValueLen(a) == 0 then Ok(Attribute(a.ty, TemplateType, []))
    else if a.val.Null? || a.val.inner.None? then Err(CKR_ATTRIBUTE_VALUE_INVALID)
    else match FromInner(t, a.val.inner.value, [])
      case Err(e) => Err(e)
      case Ok(attrs) =>
        if Encodable(attrs) then Ok(Attribute(a.ty, TemplateType, Encode(attrs)))
        else Err(SerializeError(attrs))
  }

  ghost function SerializeError(attrs: seq<Attribute>): Rv {
    if |attrs| <= U32_MAX && |Encode(attrs)| >= U64_LIMIT then CKR_TEMPLATE_INCONSISTENT else CKR_GENERAL_ERROR
  }

  /// Builds a template attribute from a caller's nested template, member by
  /// member.
  method BuildTemplate(t: Tables, a: CkAttr) returns (r: Result<Attribute, Rv>)
    ensures FromCkTemplate(t, a).Ok? ==> r == FromCkTemplate(t, a)
    ensures FromCkTemplate(t, a).Err? ==> r.Err?
  {
    if ValueLen(a) == 0 {
      return Ok(Attribute(a.ty, TemplateType, []));
    }
    if a.val.Null? || a.val.inner.None? {
      return Err(CKR_ATTRIBUTE_VALUE_INVALID);
    }
    var inner := a.val.inner.value;
    var attrs: seq<Attribute> := [];
    for i := 0 to |inner|
      invariant FromInner(t, inner, []) == FromInner(t, inner[i..], attrs)
    {
      assert inner[i..][1..] == inner[i + 1..];
      if inner[i].ty !in t.types {
        return Err(CKR_ATTRIBUTE_TYPE_INVALID);
      }
      if t.types[inner[i].ty] == TemplateType {
        return Err(CKR_TEMPLATE_INCONSISTENT);
      }
      if inner[i].ty in Types(attrs) {
        return Err(CKR_TEMPLATE_INCONSISTENT);
      }
      var c := FromScalar(t, inner[i]);
      if c.Err? {
        return Err(c.error);
      }
      attrs := attrs + [c.value];
    }
    var s := SerializeTemplate(attrs);
    if s.Err? {
      return Err(s.error);
    }
    return Ok(Attribute(a.ty, TemplateType, s.value));
  }

  function ToTemplate(m: AttrMap, a: Attribute): Result<seq<Attribute>, Rv> {
    if a.attrType != TemplateType then Err(CKR_ATTRIBUTE_TYPE_INVALID) else Decode(m, a.value)
  }

  /// The first attribute of a list with a given type.
  function Find(attrs: seq<Attribute>, ty: u64): (r: Option<Attribute>)
    ensures r.None? <==> ty !in Types(attrs)
    ensures r.Some? ==> r.value in attrs && r.value.ckType == ty
  {
    if attrs == [] then None
    else if attrs[0].ckType == ty then Some(attrs[0])
    else
      assert attrs == [attrs[0]] + attrs[1..];
      Find(attrs[1..], ty)
  }

  /// The one-way scan: same length, and every member of other is found with
  /// the same value.
  predicate MatchLists(self: seq<Attribute>, other: seq<Attribute>) {
    && |self| == |other|
    && forall o :: o in other ==>
        Find(self, o.ckType).Some? && Find(self, o.ckType).value.value == o.value
  }

  /// Whether an owned attribute has the type and the value of a caller's.
  ghost predicate MatchCkAttr(t: Tables, self: Attribute, a: CkAttr) {
    && self.ckType == a.ty
    && if self.attrType == TemplateType then
        && ToTemplate(t.types, self).Ok?
        && FromCkAttr(t, a).Ok?
        && ToTemplate(t.types, FromCkAttr(t, a).value).Ok?
        && MatchLists(ToTemplate(t.types, self).value, ToTemplate(t.types, FromCkAttr(t, a).value).value)
      else ToBuf(a) == self.value
  }

  ghost function FromCkAttr(t: Tables, a: CkAttr): (r: Result<Attribute, Rv>)
  {
    if a.ty in t.types && t.types[a.ty] == TemplateType then FromCkTemplate(t, a) else FromScalar(t, a)
  }

  // ----- what conversion accepts

  /// Which values an attribute of each type can have.
  lemma ScalarAccepts(t: Tables, a: CkAttr)
    ensures FromScalar(t, a).Ok? <==>
      && a.ty in t.types
      && match t.types[a.ty]
         case BoolType => a.val.Mem? && |a.val.raw| == 1
         case NumType => a.val.Mem? && |a.val.raw| == 8
         case StringType => IsEmpty(a.val) || (a.val.Mem? && t.utf8(a.val.raw))
         case DateType =>
           IsEmpty(a.val) || (a.val.Mem? && |a.val.raw| == 8 && forall b :: b in a.val.raw ==> 0x30 <= b <= 0x39)
         case BytesType => true
         case UlongArrayType => true
         case IgnoreType => true
         case DenyType => false
         case TemplateType => false
    ensures FromScalar(t, a).Err? ==>
      (FromScalar(t, a).error ==
        if a.ty !in t.types || t.types[a.ty] == DenyType then CKR_ATTRIBUTE_TYPE_INVALID
        else if t.types[a.ty] == TemplateType then CKR_TEMPLATE_INCONSISTENT
        else CKR_ATTRIBUTE_VALUE_INVALID)
  {
  }

  /// No bytes, whether the pointer is null or not.
  predicate IsEmpty(p: Pointee) { p == Null(0) || (p.Mem? && p.raw == []) }

  /// What is kept of an accepted value: a truth value as 0 or 1, no date as
  /// eight zeros, nothing of what is ignored, and the bytes otherwise.
  lemma ScalarValue(t: Tables, a: CkAttr)
    requires FromScalar(t, a).Ok?
    ensures
      var r := FromScalar(t, a).value;
      && a.ty in t.types && r.ckType == a.ty && r.attrType == t.types[a.ty]
      && match r.attrType
         case BoolType => r.value == if a.val.raw == [0] then [0] else [1]
         case DateType =>
           r.value == if IsEmpty(a.val) then [0x30, 0x30, 0x30, 0x30, 0x30, 0x30, 0x30, 0x30] else a.val.raw
         case IgnoreType => r.value == []
         case _ => r.value == if a.val.Mem? then a.val.raw else []
  {
  }

  /// A nested template is converted member by member: a member of unknown
  /// type, one that is a template itself and one whose type was there before
  /// are refused, and so is one whose value is; the first error stands.
  lemma {:induction false} InnerOneMore(t: Tables, inner: seq<CkAttr>, acc: seq<Attribute>, c: CkAttr)
    ensures FromInner(t, inner + [c], acc) ==
      match FromInner(t, inner, acc)
      case Err(e) => Err(e)
      case Ok(attrs) =>
        if c.ty !in t.types then Err(CKR_ATTRIBUTE_TYPE_INVALID)
        else if t.types[c.ty] == TemplateType || exists a :: a in attrs && a.ckType == c.ty
        then Err(CKR_TEMPLATE_INCONSISTENT)
        else match FromScalar(t, c)
          case Err(e) => Err(e)
          case Ok(a) => Ok(attrs + [a])
    decreases |inner|
  {
    hide FromScalar;
    var all := inner + [c];
    if inner == [] {
      assert all[1..] == [] && all[0] == c;
      assert c.ty in Types(acc) <==> exists a :: a in acc && a.ckType == c.ty;
    } else {
      assert all[1..] == inner[1..] + [c] && all[0] == inner[0];
      if FromScalar(t, inner[0]).Ok? {
        InnerOneMore(t, inner[1..], acc + [FromScalar(t, inner[0]).value], c);
      }
    }
  }

  /// The attribute a nested template becomes, and why it does not.
  lemma CkTemplateExactly(t: Tables, a: CkAttr)
    ensures FromInner(t, [], []) == Ok([])
    ensures FromCkTemplate(t, a) ==
      if IsEmpty(a.val) then Ok(Attribute(a.ty, TemplateType, []))
      else if a.val.Null? || (a.val.raw != [] && a.val.inner.None?) then Err(CKR_ATTRIBUTE_VALUE_INVALID)
      else match FromInner(t, a.val.inner.value, [])
        case Err(e) => Err(e)
        case Ok(attrs) =>
          if Encodable(attrs) then Ok(Attribute(a.ty, TemplateType, Encode(attrs)))
          else Err(if |attrs| <= 0xFFFF_FFFF && |Encode(attrs)| >= 0x1_0000_0000_0000_0000
                   then CKR_TEMPLATE_INCONSISTENT else CKR_GENERAL_ERROR)
    ensures FromCkAttr(t, a) ==
      if a.ty in t.types && t.types[a.ty] == TemplateType then FromCkTemplate(t, a) else FromScalar(t, a)
  {
    hide FromScalar, Encode;
  }

  // ----- comparison is equality of finite maps

  ghost predicate Distinct(attrs: seq<Attribute>) {
    forall i, j :: 0 <= i < j < |attrs| ==> attrs[i].ckType != attrs[j].ckType
  }

  /// The finite map a template denotes, from type to value.
  ghost function ToMap(attrs: seq<Attribute>): (m: map<u64, seq<u8>>)
    ensures m.Keys == Types(attrs)
  {
    map ty | ty in Types(attrs) :: Find(attrs, ty).value.value
  }

  lemma {:induction false} FindUnique(attrs: seq<Attribute>, i: nat)
    requires i < |attrs| && Distinct(attrs)
    ensures Find(attrs, attrs[i].ckType) == Some(attrs[i])
  {
    if i > 0 {
      assert attrs[0].ckType != attrs[i].ckType;
      assert attrs[1..][i - 1] == attrs[i];
      FindUnique(attrs[1..], i - 1);
    }
  }

  lemma TypesFront(attrs: seq<Attribute>)
    requires attrs != []
    ensures Types(attrs) == {attrs[0].ckType} + Types(attrs[1..])
  {
    assert attrs == [attrs[0]] + attrs[1..];
  }

  /// Counting: a list has at most as many types as members, and exactly as
  /// many when, and only when, no type repeats.
  lemma {:induction false} TypesCount(attrs: seq<Attribute>)
    ensures |Types(attrs)| <= |attrs|
    ensures |Types(attrs)| == |attrs| <==> Distinct(attrs)
  {
    if attrs != [] {
      TypesCount(attrs[1..]);
      TypesFront(attrs);
      var rest := attrs[1..];
      if attrs[0].ckType in Types(rest) {
        assert Types(attrs) == Types(rest);
        var j :| 0 <= j < |rest| && rest[j].ckType == attrs[0].ckType;
        assert attrs[j + 1].ckType == attrs[0].ckType;
      } else {
        assert |Types(attrs)| == 1 + |Types(rest)|;
        if Distinct(rest) {
          forall i, j | 0 <= i < j < |attrs| ensures attrs[i].ckType != attrs[j].ckType {
            assert attrs[j] == rest[j - 1];
            if i > 0 { assert attrs[i] == rest[i - 1]; }
          }
        } else {
          var i, j :| 0 <= i < j < |rest| && rest[i].ckType == rest[j].ckType;
          assert attrs[i + 1].ckType == attrs[j + 1].ckType;
        }
      }
    }
  }

  lemma SubsetOfSameSize<X>(a: set<X>, b: set<X>)
    requires a <= b && |a| >= |b|
    ensures a == b
  {
    assert b == a + (b - a);
    assert |b| == |a| + |b - a|;
  }

  /// Scanning one way and comparing lengths is enough: against a list without
  /// repeated types, a match means the two lists denote the same finite map
  /// and that the scanned list has no repeated types either.
  lemma MatchIsMapEquality(self: seq<Attribute>, other: seq<Attribute>)
    requires Distinct(other)
    ensures MatchLists(self, other) <==> Distinct(self) && ToMap(self) == ToMap(other)
  {
    if MatchLists(self, other) {
      MatchGivesMapEquality(self, other);
    }
    if Distinct(self) && ToMap(self) == ToMap(other) {
      MapEqualityGivesMatch(self, other);
    }
  }

  lemma MatchGivesMapEquality(self: seq<Attribute>, other: seq<Attribute>)
    requires Distinct(other) && MatchLists(self, other)
    ensures Distinct(self) && ToMap(self) == ToMap(other)
  {
    forall ty | ty in Types(other) ensures ty in Types(self) {
      var o :| o in other && o.ckType == ty;
    }
    TypesCount(self);
    TypesCount(other);
    SubsetOfSameSize(Types(other), Types(self));
    forall ty | ty in Types(self) ensures ToMap(self)[ty] == ToMap(other)[ty] {
      assert Find(other, ty).value in other;
    }
  }

  lemma MapEqualityGivesMatch(self: seq<Attribute>, other: seq<Attribute>)
    requires Distinct(self) && Distinct(other) && ToMap(self) == ToMap(other)
    ensures MatchLists(self, other)
  {
    TypesCount(self);
    TypesCount(other);
    assert Types(self) == ToMap(self).Keys;
    forall o | o in other
      ensures Find(self, o.ckType).Some? && Find(self, o.ckType).value.value == o.value
    {
      var i :| 0 <= i < |other| && other[i] == o;
      FindUnique(other, i);
      assert ToMap(self)[o.ckType] == ToMap(other)[o.ckType];
    }
  }

  /// In other words: each side has every type and value of the other.
  lemma MatchExactly(self: seq<Attribute>, other: seq<Attribute>)
    requires Distinct(self) && Distinct(other)
    ensures MatchLists(self, other) <==> Within(self, other) && Within(other, self)
  {
    MatchIsMapEquality(self, other);
    WithinIsInclusion(self, other);
    WithinIsInclusion(other, self);
    hide MatchLists, Within, Distinct;
  }

  ghost predicate Within(a: seq<Attribute>, b: seq<Attribute>) {
    forall x :: x in a ==> exists y :: y in b && y.ckType == x.ckType && y.value == x.value
  }

  lemma WithinIsInclusion(a: seq<Attribute>, b: seq<Attribute>)
    requires Distinct(a) && Distinct(b)
    ensures Within(a, b) <==> forall ty :: ty in ToMap(a) ==> ty in ToMap(b) && ToMap(b)[ty] == ToMap(a)[ty]
  {
    MapGives(a);
    MapGives(b);
    hide ToMap, Distinct;
    if forall ty :: ty in ToMap(a) ==> ty in ToMap(b) && ToMap(b)[ty] == ToMap(a)[ty] {
      forall x | x in a
        ensures exists y :: y in b && y.ckType == x.ckType && y.value == x.value
      {
        assert x.ckType in ToMap(a);
        var y :| y in b && y.ckType == x.ckType;
        assert ToMap(b)[y.ckType] == y.value;
      }
    } else {
      var ty :| ty in ToMap(a) && !(ty in ToMap(b) && ToMap(b)[ty] == ToMap(a)[ty]);
      var x :| x in a && x.ckType == ty;
    }
  }

  lemma MapGives(attrs: seq<Attribute>)
    requires Distinct(attrs)
    ensures forall a :: a in attrs ==> a.ckType in ToMap(attrs) && ToMap(attrs)[a.ckType] == a.value
  {
    forall a | a in attrs
      ensures Find(attrs, a.ckType) == Some(a)
    {
      var i :| 0 <= i < |attrs| && attrs[i] == a;
      FindUnique(attrs, i);
    }
  }

  /// An attribute that is no template matches when its type and bytes are the
  /// caller's; a null pointer has no bytes.
  lemma MatchBytesExactly(t: Tables, self: Attribute, a: CkAttr)
    requires self.attrType != TemplateType
    ensures MatchCkAttr(t, self, a) <==>
      self.ckType == a.ty && match a.val case Null(_) => self.value == [] case Mem(raw, _) => self.value == raw
  {
  }

  /// On templates without repeated types the comparison is an equivalence
  /// that ignores the order of either side.
  lemma MatchIsEquivalence(a: seq<Attribute>, b: seq<Attribute>, c: seq<Attribute>)
    requires Distinct(a) && Distinct(b) && Distinct(c)
    ensures MatchLists(a, a)
    ensures MatchLists(a, b) <==> MatchLists(b, a)
    ensures MatchLists(a, b) && MatchLists(b, c) ==> MatchLists(a, c)
    ensures multiset(b) == multiset(c) ==>
      (MatchLists(a, b) <==> MatchLists(a, c)) && (MatchLists(b, a) <==> MatchLists(c, a))
  {
    MatchIsMapEquality(a, a);
    MatchIsMapEquality(a, b);
    MatchIsMapEquality(b, a);
    MatchIsMapEquality(b, c);
    MatchIsMapEquality(a, c);
    MatchIsMapEquality(c, a);
    if multiset(b) == multiset(c) {
      ReorderedMap(b, c);
    }
  }

  lemma ReorderedMap(b: seq<Attribute>, c: seq<Attribute>)
    requires Distinct(b) && Distinct(c) && multiset(b) == multiset(c)
    ensures ToMap(b) == ToMap(c)
  {
    forall a ensures a in b <==> a in c {
      assert a in multiset(b) <==> a in multiset(c);
    }
    assert Types(b) == Types(c);
    forall ty | ty in Types(b) ensures ToMap(b)[ty] == ToMap(c)[ty] {
      var x := Find(b, ty).value;
      var i :| 0 <= i < |c| && c[i] == x;
      FindUnique(c, i);
    }
  }

  /// A match of a list against one without repeated types can be turned round
  /// exactly when the list has none either.
  lemma MatchTurnsRoundExactly(a: seq<Attribute>, b: seq<Attribute>)
    requires Distinct(b) && MatchLists(b, a)
    ensures MatchLists(a, b) <==> Distinct(a)
  {
    MatchIsMapEquality(a, b);
    if Distinct(a) {
      MatchIsMapEquality(b, a);
    }
  }

  lemma {:induction false} FromInnerDistinct(t: Tables, inner: seq<CkAttr>, acc: seq<Attribute>)
    requires Distinct(acc) && WellTyped(t.types, acc) && FromInner(t, inner, acc).Ok?
    ensures Distinct(FromInner(t, inner, acc).value) && WellTyped(t.types, FromInner(t, inner, acc).value)
    decreases |inner|
  {
    if inner != [] {
      var a := FromScalar(t, inner[0]).value;
      assert a.ckType == inner[0].ty && a.ckType !in Types(acc);
      FromInnerDistinct(t, inner[1..], acc + [a]);
    }
  }

  /// A converted caller template never repeats a type, so comparing a stored
  /// template attribute with a caller's is always equality of finite maps.
  lemma TemplateMatch(t: Tables, self: Attribute, a: CkAttr)
    requires self.attrType == TemplateType && self.ckType == a.ty
    requires a.ty in t.types && t.types[a.ty] == TemplateType
    requires ToTemplate(t.types, self).Ok? && FromCkAttr(t, a).Ok?
    ensures ToTemplate(t.types, FromCkAttr(t, a).value).Ok?
    ensures MatchCkAttr(t, self, a) <==>
      var mine, theirs := ToTemplate(t.types, self).value, ToTemplate(t.types, FromCkAttr(t, a).value).value;
      Distinct(mine) && Distinct(theirs) && ToMap(mine) == ToMap(theirs)
  {
    if ValueLen(a) > 0 {
      var attrs := FromInner(t, a.val.inner.value, []).value;
      FromInnerDistinct(t, a.val.inner.value, []);
      DecodeEncode(t.types, attrs);
    }
    MatchIsMapEquality(ToTemplate(t.types, self).value, ToTemplate(t.types, FromCkAttr(t, a).value).value);
  }

  // ----- merging

  /// The attribute array that merging builds: the entries, and the buffers
  /// that back those it owns.
  class CkAttrs {
    var v: seq<seq<u8>>
    var p: seq<CkAttr>

    constructor From(a: seq<CkAttr>)
      ensures v == [] && p == a
    {
      v, p := [], a;
    }

    method AddOwnedSlice(ty: u64, val: seq<u8>)
      modifies this
      ensures v == old(v) + [val] && p == old(p) + [Owned(ty, val)]
    {
      v := v + [val];
      p := p + [Owned(ty, v[|v| - 1])];
    }
  }

  function Owned(ty: u64, val: seq<u8>): CkAttr {
    CkAttr(ty, Mem(val, None))
  }

  function FindCk(raw: seq<CkAttr>, ty: u64): (r: Option<CkAttr>)
    ensures r.Some? ==> r.value in raw && r.value.ty == ty
    ensures r.None? <==> forall a :: a in raw ==> a.ty != ty
  {
    if raw == [] then None
    else if raw[0].ty == ty then Some(raw[0])
    else
      assert raw == [raw[0]] + raw[1..];
      FindCk(raw[1..], ty)
  }

  /// A stored attribute clashes with the request when the first entry of its
  /// type there has another value.
  ghost predicate Clashes(t: Tables, stored: Attribute, raw: seq<CkAttr>) {
    FindCk(raw, stored.ckType).Some? && !MatchCkAttr(t, stored, FindCk(raw, stored.ckType).value)
  }

  /// The stored attributes whose types the request does not mention, in order.
  function Missing(stored: seq<Attribute>, raw: seq<CkAttr>): (m: seq<CkAttr>)
  {
    if stored == [] then []
    else
      var front := Missing(stored[..|stored| - 1], raw);
      var last := stored[|stored| - 1];
      if FindCk(raw, last.ckType).Some? then front else front + [Owned(last.ckType, last.value)]
  }

  /// The comparison as the code calls it, conversions included.
  method Matches(t: Tables, self: Attribute, a: CkAttr) returns (b: bool)
    ensures b == MatchCkAttr(t, self, a)
  {
    if self.ckType != a.ty {
      return false;
    }
    if self.attrType == TemplateType {
      var mine := DeserializeTemplate(t.types, self.value);
      if mine.Err? {
        return false;
      }
      var other: Result<Attribute, Rv>;
      if a.ty in t.types && t.types[a.ty] == TemplateType {
        other := BuildTemplate(t, a);
      } else {
        other := FromScalar(t, a);
      }
      if other.Err? || other.value.attrType != TemplateType {
        return false;
      }
      var theirs := DeserializeTemplate(t.types, other.value.value);
      if theirs.Err? {
        return false;
      }
      return MatchLists(mine.value, theirs.value);
    }
    return ToBuf(a) == self.value;
  }

  /// Merges a stored template into a request. It fails exactly when a stored
  /// attribute clashes; otherwise the request is extended by what it lacks.
  method MergeTemplateAttribute(t: Tables, templateAttr: Attribute, raw: seq<CkAttr>) returns (r: Result<CkAttrs, Rv>)
    ensures ToTemplate(t.types, templateAttr).Err? ==> r == Err(ToTemplate(t.types, templateAttr).error)
    ensures ToTemplate(t.types, templateAttr).Ok? ==>
      var stored := ToTemplate(t.types, templateAttr).value;
      && (r.Ok? <==> forall s :: s in stored ==> !Clashes(t, s, raw))
      && (r.Err? ==> r.error == CKR_TEMPLATE_INCONSISTENT)
      && (r.Ok? ==> fresh(r.value) && r.value.p == raw + Missing(stored, raw))
  {
    if templateAttr.attrType != TemplateType {
      return Err(CKR_ATTRIBUTE_TYPE_INVALID);
    }
    var decoded := DeserializeTemplate(t.types, templateAttr.value);
    if decoded.Err? {
      return Err(decoded.error);
    }
    r := MergeStored(t, decoded.value, raw);
  }

  method MergeStored(t: Tables, stored: seq<Attribute>, raw: seq<CkAttr>) returns (r: Result<CkAttrs, Rv>)
    ensures r.Ok? <==> forall s :: s in stored ==> !Clashes(t, s, raw)
    ensures r.Err? ==> r.error == CKR_TEMPLATE_INCONSISTENT
    ensures r.Ok? ==> fresh(r.value) && r.value.p == raw + Missing(stored, raw)
  {
    var merged := new CkAttrs.From(raw);
    assert raw + [] == raw;
    for i := 0 to |stored|
      invariant fresh(merged) && merged.p == raw + Missing(stored[..i], raw)
      invariant forall j :: 0 <= j < i ==> !Clashes(t, stored[j], raw)
    {
      assert stored[..i + 1][..i] == stored[..i];
      match FindCk(raw, stored[i].ckType) {
        case Some(req) =>
          var same := Matches(t, stored[i], req);
          if !same {
            assert stored[i] in stored;
            return Err(CKR_TEMPLATE_INCONSISTENT);
          }
        case None =>
          merged.AddOwnedSlice(stored[i].ckType, stored[i].value);
      }
    }
    assert stored[..|stored|] == stored;
    return Ok(merged);
  }

  ghost predicate DistinctCk(raw: seq<CkAttr>) {
    forall i, j :: 0 <= i < j < |raw| ==> raw[i].ty != raw[j].ty
  }

  ghost predicate NoNesting(attrs: seq<Attribute>) {
    forall a :: a in attrs ==> a.attrType != TemplateType
  }

  /// The merge of a stored list into a request, when nothing clashes.
  ghost function Merge(stored: seq<Attribute>, raw: seq<CkAttr>): seq<CkAttr> {
    raw + Missing(stored, raw)
  }

  lemma FindCkAppend(a: seq<CkAttr>, b: seq<CkAttr>, ty: u64)
    ensures FindCk(a + b, ty) == if FindCk(a, ty).Some? then FindCk(a, ty) else FindCk(b, ty)
  {
    if a == [] {
      assert a + b == b;
    } else {
      assert (a + b)[1..] == a[1..] + b;
    }
  }

  /// What Missing contributes for one type: nothing if the request has it,
  /// otherwise the first stored attribute of that type.
  lemma {:induction false} FindMissing(stored: seq<Attribute>, raw: seq<CkAttr>, ty: u64)
    ensures FindCk(Missing(stored, raw), ty) ==
      if FindCk(raw, ty).Some? || Find(stored, ty).None? then None
      else Some(Owned(ty, Find(stored, ty).value.value))
  {
    if stored != [] {
      var n := |stored| - 1;
      var last := stored[n];
      FindMissing(stored[..n], raw, ty);
      FindAppend(stored[..n], last, ty);
      assert stored == stored[..n] + [last];
      FindCkPush(Missing(stored[..n], raw), Owned(last.ckType, last.value), ty);
    }
  }

  lemma FindCkPush(raw: seq<CkAttr>, a: CkAttr, ty: u64)
    ensures FindCk(raw + [a], ty) ==
      if FindCk(raw, ty).Some? then FindCk(raw, ty) else if a.ty == ty then Some(a) else None
  {
    FindCkAppend(raw, [a], ty);
    assert [a][1..] == [];
  }

  lemma {:induction false} FindAppend(attrs: seq<Attribute>, a: Attribute, ty: u64)
    ensures Find(attrs + [a], ty) ==
      if Find(attrs, ty).Some? then Find(attrs, ty) else if a.ckType == ty then Some(a) else None
  {
    if attrs == [] {
      assert attrs + [a] == [a] && [a][1..] == [];
    } else {
      assert (attrs + [a])[1..] == attrs[1..] + [a];
      FindAppend(attrs[1..], a, ty);
    }
  }

  /// In the merged template the first entry of any type is the request's, or
  /// failing that the stored one.
  lemma FindMerged(stored: seq<Attribute>, raw: seq<CkAttr>, ty: u64)
    ensures FindCk(Merge(stored, raw), ty) ==
      if FindCk(raw, ty).Some? then FindCk(raw, ty)
      else if Find(stored, ty).None? then None
      else Some(Owned(ty, Find(stored, ty).value.value))
  {
    FindCkAppend(raw, Missing(stored, raw), ty);
    FindMissing(stored, raw, ty);
  }

  /// A successful merge keeps the request as a prefix, and afterwards every
  /// stored attribute is present with a matching value.
  lemma MergeCoversStored(t: Tables, stored: seq<Attribute>, raw: seq<CkAttr>)
    requires Distinct(stored) && NoNesting(stored)
    requires forall s :: s in stored ==> !Clashes(t, s, raw)
    ensures raw <= Merge(stored, raw)
    ensures forall s :: s in stored ==>
      FindCk(Merge(stored, raw), s.ckType).Some? && MatchCkAttr(t, s, FindCk(Merge(stored, raw), s.ckType).value)
  {
    forall s | s in stored
      ensures FindCk(Merge(stored, raw), s.ckType).Some?
      ensures MatchCkAttr(t, s, FindCk(Merge(stored, raw), s.ckType).value)
    {
      var i :| 0 <= i < |stored| && stored[i] == s;
      FindUnique(stored, i);
      FindMerged(stored, raw, s.ckType);
    }
  }

  /// The entry a stored attribute is compared with is the first of its type.
  lemma {:induction false} FindCkFirst(raw: seq<CkAttr>, ty: u64, i: nat)
    requires i < |raw| && raw[i].ty == ty && forall j :: 0 <= j < i ==> raw[j].ty != ty
    ensures FindCk(raw, ty) == Some(raw[i])
  {
    if i > 0 {
      FindCkFirst(raw[1..], ty, i - 1);
    }
  }

  /// What one more stored attribute adds: its bytes under its type, unless the
  /// request has an entry of that type.
  lemma MissingOneMore(stored: seq<Attribute>, raw: seq<CkAttr>, s: Attribute)
    ensures Missing([], raw) == []
    ensures Missing(stored + [s], raw) ==
      if exists a :: a in raw && a.ty == s.ckType then Missing(stored, raw)
      else Missing(stored, raw) + [CkAttr(s.ckType, Mem(s.value, None))]
  {
    assert (stored + [s])[..|stored|] == stored;
  }

  lemma {:induction false} MissingTypes(stored: seq<Attribute>, raw: seq<CkAttr>)
    ensures forall a :: a in Missing(stored, raw) ==> a.ty in Types(stored) && FindCk(raw, a.ty).None?
    ensures Distinct(stored) ==> DistinctCk(Missing(stored, raw))
  {
    if stored != [] {
      var n := |stored| - 1;
      MissingTypes(stored[..n], raw);
      assert stored == stored[..n] + [stored[n]];
      if Distinct(stored) {
        assert stored[n].ckType !in Types(stored[..n]);
      }
    }
  }

  /// Merging templates without repeated types gives one without repeated types.
  lemma MergeKeepsDistinct(stored: seq<Attribute>, raw: seq<CkAttr>)
    requires Distinct(stored) && DistinctCk(raw)
    ensures DistinctCk(Merge(stored, raw))
  {
    MissingTypes(stored, raw);
    var m, merged := Missing(stored, raw), Merge(stored, raw);
    forall i, j | 0 <= i < j < |merged| ensures merged[i].ty != merged[j].ty {
      if i < |raw| <= j {
        assert merged[i] in raw && merged[j] in m;
      }
    }
  }

  /// Merging the same stored template again: it succeeds exactly when every
  /// attribute that had to be added agrees with the first of its type, and
  /// then changes nothing. Stored templates without repeated types always do.
  lemma MergeTwice(t: Tables, stored: seq<Attribute>, raw: seq<CkAttr>)
    requires NoNesting(stored)
    requires forall s :: s in stored ==> !Clashes(t, s, raw)
    ensures (forall s :: s in stored ==> !Clashes(t, s, Merge(stored, raw))) <==>
      forall s :: s in stored && FindCk(raw, s.ckType).None? ==> Find(stored, s.ckType).value.value == s.value
    ensures Merge(stored, Merge(stored, raw)) == Merge(stored, raw)
    ensures Distinct(stored) ==> forall s :: s in stored ==> !Clashes(t, s, Merge(stored, raw))
  {
    var merged := Merge(stored, raw);
    forall s | s in stored
      ensures FindCk(merged, s.ckType).Some?
      ensures Clashes(t, s, merged) <==> FindCk(raw, s.ckType).None? && Find(stored, s.ckType).value.value != s.value
    {
      FindMerged(stored, raw, s.ckType);
      assert s.ckType in Types(stored);
    }
    NothingMissing(stored, merged);
    if Distinct(stored) {
      MergeCoversStored(t, stored, raw);
    }
  }

  /// A stored template with two values of one type merges into an empty request
  /// once, but not into the result.
  lemma MergeTwiceFails(t: Tables, ty: u64)
    ensures
      var stored := [Attribute(ty, BytesType, [1]), Attribute(ty, BytesType, [2])];
      var merged := Merge(stored, []);
      && (forall s :: s in stored ==> !Clashes(t, s, []))
      && exists s :: s in stored && Clashes(t, s, merged)
  {
    var first, second := Attribute(ty, BytesType, [1]), Attribute(ty, BytesType, [2]);
    var stored := [first, second];
    assert stored[..1] == [first] && [first][..0] == [];
    assert Missing([first], []) == [Owned(ty, [1])];
    assert Merge(stored, []) == [Owned(ty, [1]), Owned(ty, [2])];
    assert second in stored && Clashes(t, second, Merge(stored, []));
  }

  lemma {:induction false} NothingMissing(stored: seq<Attribute>, raw: seq<CkAttr>)
    requires forall s :: s in stored ==> FindCk(raw, s.ckType).Some?
    ensures Missing(stored, raw) == []
  {
    if stored != [] {
      assert stored[|stored| - 1] in stored;
      NothingMissing(stored[..|stored| - 1], raw);
    }
  }
}
