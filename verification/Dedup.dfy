/// Deduplicated creation of token objects (src/token.rs): what one creation
/// does to the storage, and what every run of creations keeps.
module Dedup {
  import opened Common
  import opened Objects
  import opened Sessions
  import opened Tokens

  datatype ObjectsDedup = TrustOnly | TrustAndCertificates | All

  predicate IsKey(c: ObjectClass) { c in {CKO_PUBLIC_KEY, CKO_PRIVATE_KEY, CKO_SECRET_KEY} }

  predicate IsCertificateOrTrust(c: ObjectClass) { c in {CKO_CERTIFICATE, CKO_TRUST} }

  /// The classes a setting looks at; without one only trust objects are.
  predicate Covered(dedup: Option<ObjectsDedup>, c: ObjectClass) {
    match dedup
    case None => c == CKO_TRUST
    case Some(TrustOnly) => c == CKO_TRUST
    case Some(TrustAndCertificates) => IsCertificateOrTrust(c)
    case Some(All) => IsCertificateOrTrust(c) || IsKey(c)
  }

  /// What makes two objects duplicates: class, issuer and serial number for
  /// certificates and trusts; class, id and key type for keys. Objects that
  /// lack one of the attributes have no identity.
  function Identity(o: Object): Option<Attributes> {
    if IsCertificateOrTrust(o.class_) then IdentityBy(o, CKA_ISSUER, CKA_SERIAL_NUMBER)
    else if IsKey(o.class_) then IdentityBy(o, CKA_ID, CKA_KEY_TYPE)
    else None
  }

  function IdentityBy(o: Object, first: AttributeType, second: AttributeType): Option<Attributes> {
    if first in o.attributes && second in o.attributes then
      Some(map[CKA_CLASS := ClassValue(o.class_), first := o.attributes[first], second := o.attributes[second]])
    else None
  }

  /// A search for an identity finds exactly the objects that have it.
  lemma SearchFindsIdentity(o: Object, p: Object)
    requires p.WellFormed() && Identity(o).Some?
    ensures p.MatchTemplate(Identity(o).value) <==> Identity(p) == Identity(o)
  {
    var template := Identity(o).value;
    if p.MatchTemplate(template) {
      assert CKA_CLASS in template;
      assert p.class_ == o.class_;
      var first, second :=
        if IsKey(o.class_) then CKA_ID else CKA_ISSUER, if IsKey(o.class_) then CKA_KEY_TYPE else CKA_SERIAL_NUMBER;
      assert first in template && second in template;
      assert Identity(p).value == template;
    }
  }

  /// Unique ids that are small numbers belong to the storage itself.
  predicate Internal(uid: string) {
    var digits := if uid != "" && uid[0] == '+' then uid[1..] else uid;
    && digits != ""
    && '0' <= digits[|digits| - 1] <= '9'
    && forall i :: 0 <= i < |digits| - 1 ==> digits[i] == '0'
  }

  function Matching(storage: map<string, Object>, template: Attributes): set<string> {
    set u | u in storage && storage[u].MatchTemplate(template) && !Internal(u)
  }

  /// A search gives handles to the objects it finds, in any order, and changes
  /// no more.
  ghost predicate Searched(t: TokenState, found: set<string>, t1: TokenState) {
    exists order: seq<string> :: (forall u :: u in order <==> u in found) && t1 == AllNamed(t, order)
  }

  lemma SearchFacts(t: TokenState, found: set<string>, t1: TokenState)
    requires TokenInv(t) && Searched(t, found, t1)
    ensures t1 == t.(uids := t1.uids, next := t1.next) && TokenInv(t1)
    ensures forall h :: h in t.uids ==> h in t1.uids && t1.uids[h] == t.uids[h]
  {
    var order: seq<string> :| (forall u :: u in order <==> u in found) && t1 == AllNamed(t, order);
    AllNamedFacts(t, order);
  }

  /// The stored object with the new object's attributes over its own, all but
  /// the unique id.
  function Overwritten(p: Object, o: Object): Object {
    p.(class_ := o.class_, attributes := p.attributes + (o.attributes - {CKA_UNIQUE_ID}))
  }

  /// What creating an object may do, by way of the state after the search.
  ghost predicate Created(t: TokenState, dedup: Option<ObjectsDedup>, session: nat, o: Object,
                          t1: TokenState, t2: TokenState, r: Result<nat, Rv>)
    requires o.WellFormed()
  {
    if !o.IsToken() || !LoggedIn(t) || !Covered(dedup, o.class_) || Identity(o).None? then
      t1 == t && (t2, r) == Inserted(t, session, o)
    else
      var found := Matching(t.storage, Identity(o).value);
      && Searched(t, found, t1)
      && if |found| == 0 then (t2, r) == Inserted(t1, session, o)
         else if |found| > 1 then t2 == t1 && r == Err(CKR_GENERAL_ERROR)
         else if dedup.None? then t2 == t1 && r == Err(CKR_ATTRIBUTE_VALUE_INVALID)
         else Merged(t1, found, o, t2, r)
  }

  /// The one duplicate is overwritten in place and its handle returned.
  ghost predicate Merged(t1: TokenState, found: set<string>, o: Object, t2: TokenState, r: Result<nat, Rv>) {
    && r.Ok? && r.value in t1.uids
    && var u := t1.uids[r.value];
       u in found && u in t1.storage && t2 == t1.(storage := t1.storage[u := Overwritten(t1.storage[u], o)])
  }

  /// The classes each setting looks at.
  lemma CoveredExactly(c: ObjectClass)
    ensures Covered(None, c) <==> c == CKO_TRUST
    ensures Covered(Some(TrustOnly), c) <==> c == CKO_TRUST
    ensures Covered(Some(TrustAndCertificates), c) <==> c in {CKO_TRUST, CKO_CERTIFICATE}
    ensures Covered(Some(All), c) <==>
      c in {CKO_TRUST, CKO_CERTIFICATE, CKO_PUBLIC_KEY, CKO_PRIVATE_KEY, CKO_SECRET_KEY}
  {
  }

  /// Which objects have an identity, and what it is.
  lemma IdentityExactly(o: Object)
    ensures o.class_ in {CKO_CERTIFICATE, CKO_TRUST} ==>
      Identity(o) == if CKA_ISSUER in o.attributes && CKA_SERIAL_NUMBER in o.attributes
                     then Some(map[CKA_CLASS := ClassValue(o.class_), CKA_ISSUER := o.attributes[CKA_ISSUER],
                                   CKA_SERIAL_NUMBER := o.attributes[CKA_SERIAL_NUMBER]])
                     else None
    ensures o.class_ in {CKO_PUBLIC_KEY, CKO_PRIVATE_KEY, CKO_SECRET_KEY} ==>
      Identity(o) == if CKA_ID in o.attributes && CKA_KEY_TYPE in o.attributes
                     then Some(map[CKA_CLASS := ClassValue(o.class_), CKA_ID := o.attributes[CKA_ID],
                                   CKA_KEY_TYPE := o.attributes[CKA_KEY_TYPE]])
                     else None
    ensures o.class_.CKO_OTHER? ==> Identity(o) == None
  {
  }

  /// Two objects are duplicates when they are of one class, and agree on issuer
  /// and serial number, or for keys on id and key type.
  lemma SameExactly(o: Object, p: Object, dedup: Option<ObjectsDedup>)
    ensures Same(o, p, dedup) <==>
      && Covered(dedup, o.class_) && o.class_ == p.class_ && !o.class_.CKO_OTHER?
      && (if o.class_ in {CKO_CERTIFICATE, CKO_TRUST}
          then Agree(o, p, CKA_ISSUER) && Agree(o, p, CKA_SERIAL_NUMBER)
          else Agree(o, p, CKA_ID) && Agree(o, p, CKA_KEY_TYPE))
  {
    IdentityExactly(o);
    IdentityExactly(p);
    if Same(o, p, dedup) {
      SameClass(o, p);
      var first, second :=
        if IsKey(o.class_) then CKA_ID else CKA_ISSUER, if IsKey(o.class_) then CKA_KEY_TYPE else CKA_SERIAL_NUMBER;
      assert Identity(o).value[first] == Identity(p).value[first];
      assert Identity(o).value[second] == Identity(p).value[second];
    }
  }

  predicate Agree(o: Object, p: Object, a: AttributeType) {
    a in o.attributes && a in p.attributes && o.attributes[a] == p.attributes[a]
  }

  /// The storage's own unique ids: zeros and one digit, perhaps after a plus
  /// sign.
  lemma InternalNumber(zeros: string, d: char)
    requires forall i :: 0 <= i < |zeros| ==> zeros[i] == '0'
    ensures Internal(zeros + [d]) <==> '0' <= d <= '9'
  {
    var s := zeros + [d];
    assert s[|s| - 1] == d;
    assert |zeros| > 0 ==> s[0] == zeros[0];
  }

  lemma InternalSigned(zeros: string, d: char)
    requires forall i :: 0 <= i < |zeros| ==> zeros[i] == '0'
    ensures Internal(['+'] + (zeros + [d])) <==> '0' <= d <= '9'
  {
    var s := zeros + [d];
    var t := ['+'] + s;
    assert t[0] == '+' && t[1..] == s && s[|s| - 1] == d;
  }

  lemma InternalOnly(uid: string)
    requires Internal(uid)
    ensures |uid| > 0 && '0' <= uid[|uid| - 1] <= '9'
    ensures forall i :: 1 <= i < |uid| - 1 ==> uid[i] == '0'
    ensures |uid| > 1 ==> uid[0] == '0' || uid[0] == '+'
  {
    if uid[0] == '+' {
      var digits := uid[1..];
      forall i | 1 <= i < |uid| - 1
        ensures uid[i] == '0'
      {
        assert digits[i - 1] == uid[i];
      }
    }
  }

  /// What a creation looks at: the stored objects that agree with the new one,
  /// but for those of the storage itself.
  lemma MatchingExactly(t: TokenState, dedup: Option<ObjectsDedup>, o: Object, u: string)
    requires TokenInv(t) && Covered(dedup, o.class_) && Identity(o).Some?
    ensures u in Matching(t.storage, Identity(o).value) <==>
      u in t.storage && Same(o, t.storage[u], dedup) && !Internal(u)
  {
    if u in t.storage {
      SearchFindsIdentity(o, t.storage[u]);
    }
  }

  /// What overwriting leaves: the place and the unique id of the old object, the
  /// new object's other attributes, and the old ones it does not have.
  lemma OverwrittenExactly(p: Object, o: Object, a: AttributeType)
    ensures var q := Overwritten(p, o);
      && q.handle == p.handle && q.session == p.session && q.class_ == o.class_
      && (a in o.attributes && a != CKA_UNIQUE_ID ==> a in q.attributes && q.attributes[a] == o.attributes[a])
      && (a in p.attributes && (a !in o.attributes || a == CKA_UNIQUE_ID) ==>
            a in q.attributes && q.attributes[a] == p.attributes[a])
      && (a !in p.attributes && (a !in o.attributes || a == CKA_UNIQUE_ID) ==> a !in q.attributes)
  {
  }

  /// An object that is no duplicate, for one of the reasons there are, is
  /// inserted as it is.
  lemma NewIsInserted(t: TokenState, dedup: Option<ObjectsDedup>, session: nat, o: Object,
                      t1: TokenState, t2: TokenState, r: Result<nat, Rv>)
    requires TokenInv(t) && NoneInternal(t.storage)
    requires o.WellFormed() && Created(t, dedup, session, o, t1, t2, r)
    requires o.IsToken() && t.logged in {CKU_SO, CKU_USER} ==>
               forall u :: u in t.storage ==> !Same(o, t.storage[u], dedup)
    ensures (t2, r) == Inserted(t, session, o)
  {
    hide Inserted, Matching, Searched;
    if o.IsToken() && LoggedIn(t) && Covered(dedup, o.class_) && Identity(o).Some? {
      NothingFound(t, dedup, o);
      if Searched(t, {}, t1) {
        NothingNamed(t, t1);
      }
    }
  }

  lemma NothingFound(t: TokenState, dedup: Option<ObjectsDedup>, o: Object)
    requires TokenInv(t) && Covered(dedup, o.class_) && Identity(o).Some?
    requires forall u :: u in t.storage ==> !Same(o, t.storage[u], dedup)
    ensures Matching(t.storage, Identity(o).value) == {}
  {
    var found := Matching(t.storage, Identity(o).value);
    forall u | u in found
      ensures false
    {
      SearchFindsIdentity(o, t.storage[u]);
    }
  }

  lemma NothingNamed(t: TokenState, t1: TokenState)
    requires Searched(t, {}, t1)
    ensures t1 == t
  {
    var order: seq<string> :| (forall u :: u in order <==> u in {}) && t1 == AllNamed(t, order);
    HasElement(order);
  }

  lemma HasElement<T>(s: seq<T>)
    ensures s == [] || exists x :: x in s
  {
    if s != [] {
      assert s[0] in s;
    }
  }

  // ----- what is kept

  /// No two stored objects of a covered class have the same identity.
  ghost predicate Unique(storage: map<string, Object>, dedup: Option<ObjectsDedup>) {
    forall u, v :: u in storage && v in storage && Same(storage[u], storage[v], dedup) ==> u == v
  }

  predicate Same(o: Object, p: Object, dedup: Option<ObjectsDedup>) {
    Covered(dedup, o.class_) && Identity(o).Some? && Identity(o) == Identity(p)
  }

  ghost predicate NoneInternal(storage: map<string, Object>) {
    forall u :: u in storage ==> !Internal(u)
  }

  /// Finding more than one duplicate is impossible, so its error is never given.
  lemma AtMostOneMatch(t: TokenState, dedup: Option<ObjectsDedup>, o: Object)
    requires TokenInv(t) && Unique(t.storage, dedup)
    requires Covered(dedup, o.class_) && Identity(o).Some?
    ensures |Matching(t.storage, Identity(o).value)| <= 1
  {
    var found := Matching(t.storage, Identity(o).value);
    if found != {} {
      var u :| u in found;
      forall v | v in found
        ensures v == u
      {
        SearchFindsIdentity(o, t.storage[u]);
        SearchFindsIdentity(o, t.storage[v]);
        SameClass(o, t.storage[u]);
        assert Same(t.storage[u], t.storage[v], dedup);
      }
      assert found == {u};
    }
  }

  lemma SameClass(o: Object, p: Object)
    requires Identity(o).Some? && Identity(p) == Identity(o)
    ensures p.class_ == o.class_
  {
    assert Identity(o).value[CKA_CLASS] == ClassValue(o.class_);
    assert Identity(p).value[CKA_CLASS] == ClassValue(p.class_);
  }

  /// Storing an object that has no duplicate keeps identities unique.
  lemma StoreKeepsUnique(storage: map<string, Object>, dedup: Option<ObjectsDedup>, o: Object)
    requires o.WellFormed() && Unique(storage, dedup)
    requires forall u :: u in storage ==> !Same(storage[u], o, dedup) && !Same(o, storage[u], dedup)
    ensures Unique(storage[o.UniqueId() := o], dedup)
  {
  }

  /// Overwriting a duplicate keeps its unique id and its identity.
  lemma OverwriteKeepsIdentity(p: Object, o: Object)
    requires p.WellFormed() && o.WellFormed() && Identity(o).Some? && Identity(p) == Identity(o)
    ensures Overwritten(p, o).WellFormed() && Overwritten(p, o).UniqueId() == p.UniqueId()
    ensures Identity(Overwritten(p, o)) == Identity(o)
  {
    SameClass(o, p);
    var q := Overwritten(p, o);
    var first, second :=
      if IsKey(o.class_) then CKA_ID else CKA_ISSUER, if IsKey(o.class_) then CKA_KEY_TYPE else CKA_SERIAL_NUMBER;
    assert q.attributes[first] == o.attributes[first] && q.attributes[second] == o.attributes[second];
    assert Identity(q).value == Identity(o).value;
  }

  /// The old data is wiped, in that only the new object's attributes remain
  /// beside the unique id, exactly when the old object has no attribute that
  /// the new one lacks.
  lemma OverwriteWipesExactly(p: Object, o: Object)
    requires p.WellFormed() && o.WellFormed()
    ensures
      Overwritten(p, o).attributes - {CKA_UNIQUE_ID} == o.attributes - {CKA_UNIQUE_ID} <==>
      p.attributes.Keys <= o.attributes.Keys
  {
    var after := Overwritten(p, o).attributes - {CKA_UNIQUE_ID};
    var new_ := o.attributes - {CKA_UNIQUE_ID};
    assert forall a :: a in after <==> (a in p.attributes || a in o.attributes) && a != CKA_UNIQUE_ID;
    if after == new_ {
      forall a | a in p.attributes
        ensures a in o.attributes
      {
        assert a != CKA_UNIQUE_ID ==> a in after;
      }
    }
  }

  /// A stored certificate with an attribute the new one lacks, here its id,
  /// keeps it.
  lemma OldAttributeSurvives()
    ensures
      var p := Object(CKO_CERTIFICATE,
                      map[CKA_CLASS := ClassValue(CKO_CERTIFICATE), CKA_UNIQUE_ID := StringValue("p"),
                          CKA_ISSUER := BytesValue([1]), CKA_SERIAL_NUMBER := BytesValue([2]),
                           CKA_ID := BytesValue([3])],
                      INVALID_HANDLE, INVALID_HANDLE);
      var o := p.(attributes := p.attributes[CKA_UNIQUE_ID := StringValue("o")] - {CKA_ID});
      && p.WellFormed() && o.WellFormed() && Same(o, p, Some(All))
      && CKA_ID !in o.attributes && CKA_ID in Overwritten(p, o).attributes
  {
  }

  lemma OverwriteKeepsUnique(storage: map<string, Object>, dedup: Option<ObjectsDedup>, u: string, q: Object)
    requires u in storage && Unique(storage, dedup)
    requires Identity(q).Some? && Identity(q) == Identity(storage[u])
    ensures Unique(storage[u := q], dedup)
  {
    SameClass(q, storage[u]);
    var after := storage[u := q];
    forall v, w | v in after && w in after && Same(after[v], after[w], dedup)
      ensures v == w
    {
      SameClass(after[v], after[w]);
      assert Same(storage[v], storage[w], dedup);
    }
  }

  /// Whatever a creation does, identities stay unique, under every setting.
  lemma CreateKeepsUnique(t: TokenState, dedup: Option<ObjectsDedup>, session: nat, o: Object,
                          t1: TokenState, t2: TokenState, r: Result<nat, Rv>)
    requires TokenInv(t) && Unique(t.storage, dedup) && NoneInternal(t.storage)
    requires o.WellFormed() && !Internal(o.UniqueId()) && Created(t, dedup, session, o, t1, t2, r)
    ensures TokenInv(t2) && Unique(t2.storage, dedup) && NoneInternal(t2.storage)
  {
    if !o.IsToken() || !LoggedIn(t) || !Covered(dedup, o.class_) || Identity(o).None? {
      if o.IsToken() && LoggedIn(t) {
        NoIdentityIsNoDuplicate(t.storage, dedup, o);
      }
      InsertKeepsUnique(t, dedup, session, o);
    } else {
      AtMostOneMatch(t, dedup, o);
      var found := Matching(t.storage, Identity(o).value);
      SearchFacts(t, found, t1);
      if |found| == 0 {
        NoMatchIsNoDuplicate(t, dedup, o);
        InsertKeepsUnique(t1, dedup, session, o);
      } else if dedup.Some? {
        MergeKeepsUnique(t1, dedup, found, o, t2, r);
      }
    }
  }

  lemma InsertKeepsUnique(t: TokenState, dedup: Option<ObjectsDedup>, session: nat, o: Object)
    requires TokenInv(t) && Unique(t.storage, dedup) && NoneInternal(t.storage)
    requires o.WellFormed() && !Internal(o.UniqueId())
    requires o.IsToken() && LoggedIn(t) ==>
               forall u :: u in t.storage ==> !Same(t.storage[u], o, dedup) && !Same(o, t.storage[u], dedup)
    ensures
      var after := Inserted(t, session, o).0;
      TokenInv(after) && Unique(after.storage, dedup) && NoneInternal(after.storage)
  {
    InsertKeepsInv(t, session, o);
    InsertStores(t, session, o);
    if o.IsToken() && LoggedIn(t) {
      StoreKeepsUnique(t.storage, dedup, o);
    }
  }

  lemma InsertStores(t: TokenState, session: nat, o: Object)
    requires o.WellFormed()
    ensures
      var after := Inserted(t, session, o).0;
      after.storage == t.storage || (o.IsToken() && LoggedIn(t) && after.storage == t.storage[o.UniqueId() := o])
  {
  }

  lemma MergeKeepsUnique(t: TokenState, dedup: Option<ObjectsDedup>, found: set<string>, o: Object,
                         t2: TokenState, r: Result<nat, Rv>)
    requires TokenInv(t) && Unique(t.storage, dedup) && NoneInternal(t.storage)
    requires o.WellFormed() && Identity(o).Some? && found == Matching(t.storage, Identity(o).value)
    requires Merged(t, found, o, t2, r)
    ensures TokenInv(t2) && Unique(t2.storage, dedup) && NoneInternal(t2.storage)
  {
    var u := t.uids[r.value];
    SearchFindsIdentity(o, t.storage[u]);
    OverwriteKeepsIdentity(t.storage[u], o);
    OverwriteKeepsUnique(t.storage, dedup, u, Overwritten(t.storage[u], o));
  }

  lemma NoIdentityIsNoDuplicate(storage: map<string, Object>, dedup: Option<ObjectsDedup>, o: Object)
    requires !Covered(dedup, o.class_) || Identity(o).None?
    ensures forall u :: u in storage ==> !Same(storage[u], o, dedup) && !Same(o, storage[u], dedup)
  {
    forall u | u in storage && Identity(o).Some? && Identity(storage[u]) == Identity(o)
      ensures storage[u].class_ == o.class_
    {
      SameClass(o, storage[u]);
    }
  }

  lemma NoMatchIsNoDuplicate(t: TokenState, dedup: Option<ObjectsDedup>, o: Object)
    requires TokenInv(t) && NoneInternal(t.storage)
    requires Identity(o).Some? && Matching(t.storage, Identity(o).value) == {}
    ensures forall u :: u in t.storage ==> !Same(t.storage[u], o, dedup) && !Same(o, t.storage[u], dedup)
  {
    forall u | u in t.storage
      ensures Identity(t.storage[u]) != Identity(o)
    {
      SearchFindsIdentity(o, t.storage[u]);
      assert u !in Matching(t.storage, Identity(o).value);
    }
  }

  /// A second object with the identity of a stored one is merged into it: the
  /// original keeps its handle and unique id, and nothing is added.
  lemma DuplicateIsMerged(t: TokenState, dedup: ObjectsDedup, session: nat, o: Object, u: string,
                          t1: TokenState, t2: TokenState, r: Result<nat, Rv>)
    requires TokenInv(t) && Unique(t.storage, Some(dedup)) && NoneInternal(t.storage)
    requires o.WellFormed() && o.IsToken() && LoggedIn(t)
    requires u in t.storage && Same(o, t.storage[u], Some(dedup))
    requires Created(t, Some(dedup), session, o, t1, t2, r)
    ensures r.Ok? && r.value in t2.uids && t2.uids[r.value] == u
    ensures forall h :: h in t.uids && t.uids[h] == u ==> r.value == h
    ensures t2.storage.Keys == t.storage.Keys && |t2.storage| == |t.storage|
    ensures Identity(t2.storage[u]) == Identity(o)
    ensures t2.storage[u] == Overwritten(t.storage[u], o)
    ensures forall a :: a in o.attributes && a != CKA_UNIQUE_ID ==>
      a in t2.storage[u].attributes && t2.storage[u].attributes[a] == o.attributes[a]
    ensures forall v :: v in t.storage && v != u ==> t2.storage[v] == t.storage[v]
  {
    DuplicateCase(t, dedup, session, o, u, t1, t2, r);
    MergeResult(t1, o, u, t2, r);
    HandleIsUnique(t1, u);
    OverwrittenHas(t.storage[u], o);
  }

  lemma DuplicateCase(t: TokenState, dedup: ObjectsDedup, session: nat, o: Object, u: string,
                      t1: TokenState, t2: TokenState, r: Result<nat, Rv>)
    requires TokenInv(t) && Unique(t.storage, Some(dedup)) && NoneInternal(t.storage)
    requires o.WellFormed() && o.IsToken() && LoggedIn(t)
    requires u in t.storage && Same(o, t.storage[u], Some(dedup))
    requires Created(t, Some(dedup), session, o, t1, t2, r)
    ensures Merged(t1, {u}, o, t2, r) && TokenInv(t1) && t1.storage == t.storage
    ensures forall h :: h in t.uids ==> h in t1.uids && t1.uids[h] == t.uids[h]
  {
    OnlyDuplicate(t, Some(dedup), o, u);
    SearchFacts(t, {u}, t1);
  }

  lemma OverwrittenHas(p: Object, o: Object)
    ensures forall a :: a in o.attributes && a != CKA_UNIQUE_ID ==>
      a in Overwritten(p, o).attributes && Overwritten(p, o).attributes[a] == o.attributes[a]
  {
  }

  lemma OnlyDuplicate(t: TokenState, dedup: Option<ObjectsDedup>, o: Object, u: string)
    requires TokenInv(t) && Unique(t.storage, dedup) && NoneInternal(t.storage)
    requires u in t.storage && Same(o, t.storage[u], dedup)
    ensures Matching(t.storage, Identity(o).value) == {u}
  {
    SearchFindsIdentity(o, t.storage[u]);
    AtMostOneMatch(t, dedup, o);
    OnlyElement(Matching(t.storage, Identity(o).value), u);
  }

  lemma MergeResult(t1: TokenState, o: Object, u: string, t2: TokenState, r: Result<nat, Rv>)
    requires u in t1.storage && t1.storage[u].WellFormed() && o.WellFormed()
    requires Identity(o).Some? && Identity(t1.storage[u]) == Identity(o)
    requires Merged(t1, {u}, o, t2, r)
    ensures r.value in t2.uids && t2.uids[r.value] == u && t2.uids == t1.uids
    ensures t2.storage.Keys == t1.storage.Keys && |t2.storage| == |t1.storage|
    ensures Identity(t2.storage[u]) == Identity(o) && t2.storage[u] == Overwritten(t1.storage[u], o)
    ensures forall v :: v in t1.storage && v != u ==> t2.storage[v] == t1.storage[v]
  {
    OverwriteKeepsIdentity(t1.storage[u], o);
    assert t2.storage.Keys == t1.storage.Keys;
    assert |t2.storage| == |t2.storage.Keys| && |t1.storage| == |t1.storage.Keys|;
  }

  lemma HandleIsUnique(t: TokenState, u: string)
    requires TokenInv(t)
    ensures forall h, k :: h in t.uids && k in t.uids && t.uids[h] == u && t.uids[k] == u ==> h == k
  {
  }

  lemma OnlyElement<T>(s: set<T>, x: T)
    requires x in s && |s| <= 1
    ensures s == {x}
  {
    if y :| y in s && y != x {
      assert {x, y} <= s;
      SubsetSize({x, y}, s);
    }
  }

  lemma {:induction false} SubsetSize<T>(a: set<T>, b: set<T>)
    requires a <= b
    ensures |a| <= |b|
  {
    if x :| x in a {
      SubsetSize(a - {x}, b - {x});
    }
  }

  /// With no setting a second trust object is refused.
  lemma SecondTrustRefused(t: TokenState, session: nat, o: Object, u: string,
                           t1: TokenState, t2: TokenState, r: Result<nat, Rv>)
    requires TokenInv(t) && Unique(t.storage, None) && NoneInternal(t.storage)
    requires o.WellFormed() && o.IsToken() && LoggedIn(t)
    requires u in t.storage && Same(o, t.storage[u], None)
    requires Created(t, None, session, o, t1, t2, r)
    ensures r == Err(CKR_ATTRIBUTE_VALUE_INVALID) && t2.storage == t.storage
  {
    SearchFindsIdentity(o, t.storage[u]);
    AtMostOneMatch(t, None, o);
    SearchFacts(t, Matching(t.storage, Identity(o).value), t1);
    assert u in Matching(t.storage, Identity(o).value);
  }

  // ----- removing

  lemma DestroyKeepsInv(t: TokenState, handle: nat, removeOk: bool)
    requires TokenInv(t)
    ensures TokenInv(Destroyed(t, handle, removeOk).0)
  {
    if handle in t.sessionObjects {
      WithoutKeepsInv(t, {handle});
    }
  }

  lemma DestroyKeepsUnique(t: TokenState, dedup: Option<ObjectsDedup>, handle: nat, removeOk: bool)
    requires TokenInv(t) && Unique(t.storage, dedup) && NoneInternal(t.storage)
    ensures
      var after := Destroyed(t, handle, removeOk).0;
      TokenInv(after) && Unique(after.storage, dedup) && NoneInternal(after.storage)
  {
    DestroyKeepsInv(t, handle, removeOk);
  }

  // ----- the way around it

  /// Putting an object into the storage without looking for duplicates first
  /// keeps identities unique exactly when no other stored object has the same.
  lemma PutUniqueExactly(storage: map<string, Object>, dedup: Option<ObjectsDedup>, u: string, o: Object)
    requires Unique(storage, dedup)
    ensures Unique(storage[u := o], dedup) <==> forall v :: v in storage && v != u ==> !Same(storage[v], o, dedup)
  {
    SameIsSymmetric(storage, o, dedup);
    var after := storage[u := o];
    if v :| v in storage && v != u && Same(storage[v], o, dedup) {
      assert Same(after[v], after[u], dedup);
    }
  }

  /// So it is for copying, key generation, unwrapping and derivation, which
  /// insert a token object under a new unique id.
  lemma InsertUniqueExactly(t: TokenState, dedup: Option<ObjectsDedup>, session: nat, o: Object)
    requires TokenInv(t) && Unique(t.storage, dedup) && LoggedIn(t)
    requires o.WellFormed() && o.IsToken() && o.handle == INVALID_HANDLE
    requires o.UniqueId() !in t.storage && o.UniqueId() !in t.uids.Values
    ensures Unique(Inserted(t, session, o).0.storage, dedup) <==>
              forall u :: u in t.storage ==> !Same(t.storage[u], o, dedup)
  {
    NextIsFree(t);
    assert Inserted(t, session, o).0.storage == t.storage[o.UniqueId() := o];
    PutUniqueExactly(t.storage, dedup, o.UniqueId(), o);
  }

  lemma SameIsSymmetric(storage: map<string, Object>, o: Object, dedup: Option<ObjectsDedup>)
    ensures forall u :: u in storage && Same(o, storage[u], dedup) ==> Same(storage[u], o, dedup)
  {
    forall u | u in storage && Same(o, storage[u], dedup)
      ensures Same(storage[u], o, dedup)
    {
      SameClass(o, storage[u]);
    }
  }

  /// Once an insertion has broken uniqueness, creating that object again fails.
  lemma CopyBreaksUnique(t: TokenState, dedup: Option<ObjectsDedup>, session: nat, u: string, copy: Object)
    requires TokenInv(t) && NoneInternal(t.storage) && LoggedIn(t)
    requires u in t.storage && Same(t.storage[u], copy, dedup)
    requires copy.WellFormed() && copy.IsToken() && copy.handle == INVALID_HANDLE
    requires copy.UniqueId() !in t.storage && copy.UniqueId() !in t.uids.Values && !Internal(copy.UniqueId())
    ensures
      var after := Inserted(t, session, copy).0;
      && !Unique(after.storage, dedup)
      && forall t1, t2, r :: Created(after, dedup, session, copy, t1, t2, r) ==> r == Err(CKR_GENERAL_ERROR)
  {
    NextIsFree(t);
    var after := Inserted(t, session, copy).0;
    var v := copy.UniqueId();
    assert after.storage == t.storage[v := copy] && LoggedIn(after);
    TwoMatches(after.storage, dedup, u, v, copy);
  }

  lemma TwoMatches(storage: map<string, Object>, dedup: Option<ObjectsDedup>, u: string, v: string, copy: Object)
    requires u in storage && v in storage && u != v && !Internal(u) && !Internal(v)
    requires storage[u].WellFormed() && copy.WellFormed() && storage[v] == copy && Same(storage[u], copy, dedup)
    ensures !Unique(storage, dedup) && |Matching(storage, Identity(copy).value)| > 1 && Covered(dedup, copy.class_)
  {
    SameClass(storage[u], copy);
    SearchFindsIdentity(copy, storage[u]);
    SearchFindsIdentity(copy, copy);
    var found := Matching(storage, Identity(copy).value);
    assert {u, v} <= found;
    SubsetSize({u, v}, found);
  }
}
