/// The calls that work on a token's objects through a session (src/token.rs),
/// and what each of them keeps.
module TokenCalls {
  import opened Common
  import opened Dedup
  import opened Objects
  import opened Sessions
  import opened Tokens

  datatype Call =
    | Insert(object: Object)
    | Create(dedup: Option<ObjectsDedup>, object: Object)
    | Copy(source: nat, made: Result<Object, Rv>)
    | Destroy(handle: nat, removeOk: bool)
    | Search(found: set<string>)
    | SetAttributes(handle: nat, answer: Rv, attributes: Attributes)

  /// Objects that a factory has just made, and attributes that can be set: the
  /// unique id cannot, and a class is a class.
  predicate Proper(c: Call) {
    match c
    case Insert(o) => IsNew(o)
    case Create(_, o) => IsNew(o)
    case Copy(_, made) => made.Ok? ==> IsNew(made.value)
    case SetAttributes(_, _, attributes) => Settable(attributes)
    case _ => true
  }

  predicate IsNew(o: Object) { o.WellFormed() && o.handle == INVALID_HANDLE && !Internal(o.UniqueId()) }

  predicate Settable(attributes: Attributes) {
    CKA_UNIQUE_ID !in attributes && (CKA_CLASS in attributes ==> attributes[CKA_CLASS].ClassValue?)
  }

  function WithAttributes(o: Object, attributes: Attributes): Object
    requires Settable(attributes)
  {
    o.(class_ := if CKA_CLASS in attributes then attributes[CKA_CLASS].class_ else o.class_,
       attributes := o.attributes + attributes)
  }

  lemma AttributesWellFormed(o: Object, attributes: Attributes)
    requires o.WellFormed() && Settable(attributes)
    ensures WithAttributes(o, attributes).WellFormed() && WithAttributes(o, attributes).UniqueId() == o.UniqueId()
  {
  }

  /// Setting attributes in place; answer is what the factory says to them.
  function AttributesSet(t: TokenState, handle: nat, answer: Rv, attributes: Attributes): (TokenState, Rv)
    requires Settable(attributes)
  {
    if handle in t.sessionObjects then
      if answer != CKR_OK then (t, answer)
      else
        var changed := WithAttributes(t.sessionObjects[handle], attributes);
        (t.(sessionObjects := t.sessionObjects[handle := changed]), CKR_OK)
    else if !LoggedIn(t) then (t, CKR_USER_NOT_LOGGED_IN)
    else if handle !in t.uids then (t, CKR_OBJECT_HANDLE_INVALID)
    else
      var u := t.uids[handle];
      if u !in t.storage then (t, CKR_GENERAL_ERROR)
      else if answer != CKR_OK then (t, answer)
      else (t.(storage := t.storage[u := WithAttributes(t.storage[u], attributes)]), CKR_OK)
  }

  lemma WithAttributesExactly(o: Object, attributes: Attributes)
    requires Settable(attributes)
    ensures var q := WithAttributes(o, attributes);
      && q.attributes == o.attributes + attributes && q.handle == o.handle && q.session == o.session
      && (o.WellFormed() ==> q.WellFormed())
  {
  }

  /// When attributes can be set and why not: a session object needs no login, a
  /// stored one does, and the factory has the last word on both.
  lemma AttributesAnswer(t: TokenState, handle: nat, answer: Rv, attributes: Attributes)
    requires Settable(attributes)
    ensures
      var rv := AttributesSet(t, handle, answer, attributes).1;
      if handle in t.sessionObjects then rv == answer
      else if t.logged !in {CKU_SO, CKU_USER} then rv == CKR_USER_NOT_LOGGED_IN
      else if handle !in t.uids then rv == CKR_OBJECT_HANDLE_INVALID
      else if t.uids[handle] !in t.storage then rv == CKR_GENERAL_ERROR
      else rv == answer
  {
    hide WithAttributes;
  }

  /// What setting them changes: that object alone, and nothing on a refusal.
  lemma AttributesEffect(t: TokenState, handle: nat, answer: Rv, attributes: Attributes)
    requires Settable(attributes)
    ensures
      var (after, rv) := AttributesSet(t, handle, answer, attributes);
      if rv != CKR_OK then after == t
      else if handle in t.sessionObjects then
        after == t.(sessionObjects := t.sessionObjects[handle := WithAttributes(t.sessionObjects[handle], attributes)])
      else
        && handle in t.uids && t.uids[handle] in t.storage
        && var u := t.uids[handle];
           after == t.(storage := t.storage[u := WithAttributes(t.storage[u], attributes)])
  {
    hide WithAttributes;
  }

  /// Copying inserts what the factory makes of the source.
  function Copied(t: TokenState, session: nat, source: nat, made: Result<Object, Rv>): (TokenState, Result<nat, Rv>)
    requires made.Ok? ==> made.value.WellFormed()
  {
    if source !in t.sessionObjects && source !in t.uids then (t, Err(CKR_OBJECT_HANDLE_INVALID))
    else if source !in t.sessionObjects && t.uids[source] !in t.storage then (t, Err(CKR_GENERAL_ERROR))
    else if source !in t.sessionObjects && !LoggedIn(t) && t.storage[t.uids[source]].IsPrivate() then
      (t, Err(CKR_USER_NOT_LOGGED_IN))
    else if made.Err? then (t, Err(made.error))
    else Inserted(t, session, made.value)
  }

  /// What can be copied: an object whose handle is known, with a login if it is
  /// stored and private. The copy is inserted as if it had just been made.
  lemma CopiedExactly(t: TokenState, session: nat, source: nat, made: Result<Object, Rv>)
    requires made.Ok? ==> made.value.WellFormed()
    ensures
      var (after, r) := Copied(t, session, source, made);
      var filed := source in t.sessionObjects;
      var stored := !filed && source in t.uids && t.uids[source] in t.storage;
      var open := stored && (t.logged in {CKU_SO, CKU_USER} || !t.storage[t.uids[source]].IsPrivate());
      && (made.Ok? && (filed || open) ==> (after, r) == Inserted(t, session, made.value))
      && (made.Err? && (filed || open) ==> after == t && r == Err(made.error))
      && (stored && !open ==> after == t && r == Err(CKR_USER_NOT_LOGGED_IN))
      && (!filed && source in t.uids && !stored ==> after == t && r == Err(CKR_GENERAL_ERROR))
      && (!filed && source !in t.uids ==> after == t && r == Err(CKR_OBJECT_HANDLE_INVALID))
  {
  }

  /// What one call through a session may do.
  ghost predicate Called(t: TokenState, session: nat, c: Call, t2: TokenState)
    requires Proper(c)
  {
    match c
    case Insert(o) => t2 == Inserted(t, session, o).0
    case Create(dedup, o) => exists t1, r :: Created(t, dedup, session, o, t1, t2, r)
    case Copy(source, made) => t2 == Copied(t, session, source, made).0
    case Destroy(handle, removeOk) => t2 == Destroyed(t, handle, removeOk).0
    case Search(found) => found <= t.storage.Keys && Searched(t, found, t2)
    case SetAttributes(handle, answer, attributes) => t2 == AttributesSet(t, handle, answer, attributes).0
  }

  // ----- what every call keeps

  /// The token stays in order and the login as it was; a session object that
  /// was not there before belongs to the session.
  ghost predicate Kept(t: TokenState, session: nat, t2: TokenState) {
    TokenInv(t2) && t2.logged == t.logged && t2.initialized == t.initialized && ObjectsKept(t, session, t2)
  }

  ghost predicate ObjectsKept(t: TokenState, session: nat, t2: TokenState) {
    forall k :: k in t2.sessionObjects ==>
      t2.sessionObjects[k].session == session ||
      (k in t.sessionObjects && t2.sessionObjects[k].session == t.sessionObjects[k].session)
  }

  lemma InsertKeeps(t: TokenState, session: nat, o: Object)
    requires TokenInv(t) && o.WellFormed()
    ensures Kept(t, session, Inserted(t, session, o).0)
  {
    InsertKeepsInv(t, session, o);
    InsertAdds(t, session, o);
  }

  lemma DestroyKeeps(t: TokenState, session: nat, handle: nat, removeOk: bool)
    requires TokenInv(t)
    ensures Kept(t, session, Destroyed(t, handle, removeOk).0)
  {
    DestroyKeepsInv(t, handle, removeOk);
    DestroyOnlyRemoves(t, handle, removeOk);
  }

  lemma DestroyOnlyRemoves(t: TokenState, handle: nat, removeOk: bool)
    ensures
      var t2 := Destroyed(t, handle, removeOk).0;
      && t2.logged == t.logged && t2.initialized == t.initialized
      && forall k :: k in t2.sessionObjects ==> k in t.sessionObjects && t2.sessionObjects[k] == t.sessionObjects[k]
  {
  }

  lemma MergeKeeps(t: TokenState, found: set<string>, o: Object, t2: TokenState, r: Result<nat, Rv>)
    requires TokenInv(t) && o.WellFormed() && Identity(o).Some? && found == Matching(t.storage, Identity(o).value)
    requires Merged(t, found, o, t2, r)
    ensures TokenInv(t2)
  {
    var u := t.uids[r.value];
    SearchFindsIdentity(o, t.storage[u]);
    OverwriteKeepsIdentity(t.storage[u], o);
  }

  lemma CreateKeeps(t: TokenState, dedup: Option<ObjectsDedup>, session: nat, o: Object,
                    t1: TokenState, t2: TokenState, r: Result<nat, Rv>)
    requires TokenInv(t) && o.WellFormed() && Created(t, dedup, session, o, t1, t2, r)
    ensures Kept(t, session, t2)
  {
    if !o.IsToken() || !LoggedIn(t) || !Covered(dedup, o.class_) || Identity(o).None? {
      InsertKeeps(t, session, o);
    } else {
      var found := Matching(t.storage, Identity(o).value);
      SearchFacts(t, found, t1);
      if |found| == 0 {
        InsertKeeps(t1, session, o);
      } else if |found| == 1 && dedup.Some? {
        MergeKeeps(t1, found, o, t2, r);
      }
    }
  }

  lemma AttributesKeepObject(t: TokenState, handle: nat, answer: Rv, attributes: Attributes)
    requires TokenInv(t) && Settable(attributes)
    ensures TokenInv(AttributesSet(t, handle, answer, attributes).0)
  {
    if handle in t.sessionObjects {
      AttributesWellFormed(t.sessionObjects[handle], attributes);
    } else if handle in t.uids && t.uids[handle] in t.storage {
      AttributesWellFormed(t.storage[t.uids[handle]], attributes);
    }
  }

  lemma AttributesKeep(t: TokenState, session: nat, handle: nat, answer: Rv, attributes: Attributes)
    requires TokenInv(t) && Settable(attributes)
    ensures Kept(t, session, AttributesSet(t, handle, answer, attributes).0)
  {
    AttributesKeepObject(t, handle, answer, attributes);
    AttributesKeepOwners(t, handle, answer, attributes);
  }

  lemma AttributesKeepOwners(t: TokenState, handle: nat, answer: Rv, attributes: Attributes)
    requires Settable(attributes)
    ensures
      var t2 := AttributesSet(t, handle, answer, attributes).0;
      && t2.logged == t.logged && t2.initialized == t.initialized
      && forall k :: k in t2.sessionObjects ==>
           k in t.sessionObjects && t2.sessionObjects[k].session == t.sessionObjects[k].session
  {
  }

  lemma SearchKeeps(t: TokenState, session: nat, found: set<string>, t2: TokenState)
    requires TokenInv(t) && Searched(t, found, t2)
    ensures Kept(t, session, t2)
  {
    SearchFacts(t, found, t2);
  }

  lemma CopyKeeps(t: TokenState, session: nat, source: nat, made: Result<Object, Rv>)
    requires TokenInv(t) && (made.Ok? ==> made.value.WellFormed())
    ensures Kept(t, session, Copied(t, session, source, made).0)
  {
    if made.Ok? {
      InsertKeeps(t, session, made.value);
    }
  }

  /// Every call keeps the token in order and the login as it was, and adds
  /// session objects to its own session only.
  lemma CallKeeps(t: TokenState, session: nat, c: Call, t2: TokenState)
    requires TokenInv(t) && Proper(c) && Called(t, session, c, t2)
    ensures Kept(t, session, t2)
  {
    hide Created, Inserted, Copied, Destroyed, AttributesSet, Kept, TokenInv, Searched;
    match c {
      case Insert(o) => InsertKeeps(t, session, o);
      case Create(dedup, o) =>
        var t1, r :| Created(t, dedup, session, o, t1, t2, r);
        CreateKeeps(t, dedup, session, o, t1, t2, r);
      case Copy(source, made) => CopyKeeps(t, session, source, made);
      case Destroy(handle, removeOk) => DestroyKeeps(t, session, handle, removeOk);
      case Search(found) => SearchKeeps(t, session, found, t2);
      case SetAttributes(handle, answer, attributes) => AttributesKeep(t, session, handle, answer, attributes);
    }
  }
}
