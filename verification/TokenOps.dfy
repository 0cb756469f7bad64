/// The token itself (src/token.rs): the object whose methods keep handles,
/// session objects, the login and the storage in step.
module TokenOps {
  import opened Common
  import opened Dedup
  import opened Objects
  import opened Sessions
  import opened TokenCalls
  import opened Tokens

  /// What looking for a duplicate by identity finds.
  ghost predicate Looked(t: TokenState, id: Option<Attributes>, t1: TokenState, r: Result<Option<nat>, Rv>) {
    if id.None? then t1 == t && r == Ok(None)
    else
      var found := Matching(t.storage, id.value);
      && Searched(t, found, t1)
      && if |found| == 0 then r == Ok(None)
         else if |found| == 1 then
           r.Ok? && r.value.Some? && r.value.value in t1.uids && t1.uids[r.value.value] in found
         else r == Err(CKR_GENERAL_ERROR)
  }

  /// How the check for duplicates ends: with nothing found, with the duplicate
  /// overwritten, or with the creation refused.
  ghost predicate Checked(t: TokenState, dedup: Option<ObjectsDedup>, o: Object,
                          t1: TokenState, t2: TokenState, r: Result<Option<nat>, Rv>) {
    if !Covered(dedup, o.class_) || Identity(o).None? then t1 == t && t2 == t && r == Ok(None)
    else
      var found := Matching(t.storage, Identity(o).value);
      && Searched(t, found, t1)
      && if |found| == 0 then t2 == t1 && r == Ok(None)
         else if |found| > 1 then t2 == t1 && r == Err(CKR_GENERAL_ERROR)
         else if dedup.None? then t2 == t1 && r == Err(CKR_ATTRIBUTE_VALUE_INVALID)
         else r.Ok? && r.value.Some? && Merged(t1, found, o, t2, Ok(r.value.value))
  }

  function Elements(s: seq<nat>): set<nat> { set h | h in s }

  lemma ElementsSnoc(s: seq<nat>, i: nat)
    requires i < |s|
    ensures Elements(s[..i + 1]) == Elements(s[..i]) + {s[i]}
  {
    assert s[..i + 1] == s[..i] + [s[i]];
  }

  class Token {
    var initialized: bool
    var logged: UserType
    var handles: Handles
    var sessionObjects: map<nat, Object>
    var storage: map<string, Object>
    var dedup: Option<ObjectsDedup>

    ghost function State(): TokenState
      reads this, handles
    {
      TokenState(initialized, logged, handles.next, handles.uids, sessionObjects, storage)
    }

    /// A token over a storage that may or may not have been set up before.
    constructor (initialized: bool, storage: map<string, Object>, dedup: Option<ObjectsDedup>)
      ensures State() == TokenState(initialized, CK_UNAVAILABLE_INFORMATION, 1, map[], map[], storage)
      ensures this.dedup == dedup && fresh(handles)
    {
      this.initialized, this.storage, this.dedup := initialized, storage, dedup;
      logged := CK_UNAVAILABLE_INFORMATION;
      sessionObjects := map[];
      handles := new Handles();
    }

    method IsLoggedIn(user: UserType) returns (r: bool)
      ensures r == if user == CK_UNAVAILABLE_INFORMATION then LoggedIn(State())
                   else (user == CKU_SO || user == CKU_USER) && logged == user
    {
      match user {
        case CK_UNAVAILABLE_INFORMATION => return logged == CKU_SO || logged == CKU_USER;
        case CKU_SO => return logged == CKU_SO;
        case CKU_USER => return logged == CKU_USER;
        case _ => return false;
      }
    }

    // ----- logging in and out

    /// The storage's answer to the authentication is given.
    method AuthUser(user: UserType, auth: Rv, checkOnly: bool) returns (rv: Rv)
      modifies this`logged
      ensures rv == if user != CKU_SO && user != CKU_USER then CKR_USER_TYPE_INVALID else auth
      ensures logged == if rv == CKR_OK && !checkOnly then user else old(logged)
    {
      if user != CKU_SO && user != CKU_USER {
        return CKR_USER_TYPE_INVALID;
      }
      if auth != CKR_OK {
        return auth;
      }
      if !checkOnly {
        logged := user;
      }
      return CKR_OK;
    }

    method Login(user: UserType, auth: Rv) returns (rv: Rv)
      modifies this`logged
      ensures rv == LoginRv(old(State()), user, auth) && State() == AfterLogin(old(State()), user, auth)
    {
      match user {
        case CKU_SO | CKU_USER =>
          if user == logged {
            return CKR_USER_ALREADY_LOGGED_IN;
          }
          if logged != CK_UNAVAILABLE_INFORMATION {
            return CKR_USER_ANOTHER_ALREADY_LOGGED_IN;
          }
          rv := AuthUser(user, auth, false);
        case CKU_CONTEXT_SPECIFIC =>
          rv := AuthUser(logged, auth, true);
        case _ =>
          return CKR_USER_TYPE_INVALID;
      }
    }

    method Logout(unauthOk: bool) returns (rv: Rv)
      modifies this, handles
      ensures handles == old(handles) && dedup == old(dedup)
      ensures rv == LogoutRv(old(State()), unauthOk) && State() == LoggedOut(old(State()))
    {
      match logged {
        case CK_UNAVAILABLE_INFORMATION =>
          return CKR_USER_NOT_LOGGED_IN;
        case CKU_SO | CKU_USER =>
          ClearPrivateSessionObjects();
          logged := CK_UNAVAILABLE_INFORMATION;
          if !unauthOk {
            return CKR_GENERAL_ERROR;
          }
          return CKR_OK;
        case _ =>
          return CKR_GENERAL_ERROR;
      }
    }

    // ----- cleaning up

    method ClearPrivateSessionObjects()
      modifies this`sessionObjects, handles
      ensures State() == Without(old(State()), PrivateObjects(old(sessionObjects)))
    {
      var privHandles := CollectPrivate();
      RemoveAll(privHandles);
    }

    method CollectPrivate() returns (privHandles: seq<nat>)
      ensures Elements(privHandles) == PrivateObjects(sessionObjects)
    {
      privHandles := [];
      var todo := sessionObjects.Keys;
      while todo != {}
        invariant todo <= sessionObjects.Keys
        invariant forall h :: h in privHandles <==> h in PrivateObjects(sessionObjects) && h !in todo
      {
        var handle :| handle in todo;
        todo := todo - {handle};
        var obj := sessionObjects[handle];
        if obj.session == INVALID_HANDLE {
          continue;
        }
        if obj.IsPrivate() {
          privHandles := privHandles + [handle];
        }
      }
    }

    method ClearSessionObjects(session: nat)
      modifies this`sessionObjects, handles
      ensures State() == Without(old(State()), HandlesOf(old(sessionObjects), session))
    {
      var found := CollectOfSession(session);
      RemoveAll(found);
    }

    method CollectOfSession(session: nat) returns (found: seq<nat>)
      ensures Elements(found) == HandlesOf(sessionObjects, session)
    {
      found := [];
      var todo := sessionObjects.Keys;
      ghost var done: set<nat> := {};
      while todo != {}
        invariant todo <= sessionObjects.Keys && done == sessionObjects.Keys - todo
        invariant forall h :: h in found <==>
          exists k :: k in done && sessionObjects[k].session == session && sessionObjects[k].handle == h
      {
        var key :| key in todo;
        todo, done := todo - {key}, done + {key};
        var obj := sessionObjects[key];
        if obj.session == session {
          found := found + [obj.handle];
        }
      }
    }

    method RemoveAll(gone: seq<nat>)
      modifies this`sessionObjects, handles
      ensures State() == Without(old(State()), Elements(gone))
    {
      for i := 0 to |gone|
        invariant sessionObjects == old(sessionObjects) - Elements(gone[..i])
        invariant handles.uids == old(handles.uids) - Elements(gone[..i]) && handles.next == old(handles.next)
      {
        ElementsSnoc(gone, i);
        sessionObjects := sessionObjects - {gone[i]};
        handles.Remove(gone[i]);
      }
      assert gone[..|gone|] == gone;
    }

    // ----- adding and removing objects

    method InsertObject(session: nat, o: Object) returns (r: Result<nat, Rv>)
      requires o.WellFormed()
      modifies this, handles
      ensures handles == old(handles) && dedup == old(dedup)
      ensures (State(), r) == Inserted(old(State()), session, o)
    {
      if o.IsToken() {
        var in_ := IsLoggedIn(CK_UNAVAILABLE_INFORMATION);
        if !in_ {
          return Err(CKR_USER_NOT_LOGGED_IN);
        }
        r := Store(o);
      } else {
        var handle := handles.Next();
        var filed := o.(handle := handle, session := session);
        var ok := handles.Insert(handle, o.UniqueId());
        if !ok {
          return Err(CKR_GENERAL_ERROR);
        }
        sessionObjects := sessionObjects[handle := filed];
        r := Ok(handle);
      }
    }

    /// The storage's part (src/storage/format.rs).
    method Store(o: Object) returns (r: Result<nat, Rv>)
      requires o.WellFormed()
      modifies this`storage, handles
      ensures (State(), r) == StoreObject(old(State()), o)
    {
      var handle := o.handle;
      if handle == INVALID_HANDLE {
        handle := handles.Next();
        var ok := handles.Insert(handle, o.UniqueId());
        if !ok {
          return Err(CKR_GENERAL_ERROR);
        }
      }
      storage := storage[o.UniqueId() := o];
      return Ok(handle);
    }

    method DestroyObject(handle: nat, removeOk: bool) returns (r: Result<(), Rv>)
      modifies this, handles
      ensures handles == old(handles) && dedup == old(dedup)
      ensures (State(), r) == Destroyed(old(State()), handle, removeOk)
    {
      if handle in sessionObjects {
        if !sessionObjects[handle].IsDestroyable() {
          return Err(CKR_ACTION_PROHIBITED);
        }
        sessionObjects := sessionObjects - {handle};
      } else {
        var found := Fetch(handle);
        if found.Err? {
          return Err(found.error);
        }
        if !found.value.IsDestroyable() {
          return Err(CKR_ACTION_PROHIBITED);
        }
        if removeOk {
          storage := storage - {handles.uids[handle]};
        }
      }
      handles.Remove(handle);
      return Ok(());
    }

    /// What the factory makes of the source, or its refusal, is given.
    method CopyObject(session: nat, source: nat, made: Result<Object, Rv>) returns (r: Result<nat, Rv>)
      requires made.Ok? ==> made.value.WellFormed()
      modifies this, handles
      ensures handles == old(handles) && dedup == old(dedup)
      ensures (State(), r) == Copied(old(State()), session, source, made)
    {
      if source !in sessionObjects {
        var found := Fetch(source);
        if found.Err? {
          return Err(found.error);
        }
        var in_ := IsLoggedIn(CK_UNAVAILABLE_INFORMATION);
        if !in_ && found.value.IsPrivate() {
          return Err(CKR_USER_NOT_LOGGED_IN);
        }
      }
      if made.Err? {
        return Err(made.error);
      }
      r := InsertObject(session, made.value);
    }

    /// A stored object by its handle (src/storage/format.rs).
    method Fetch(handle: nat) returns (r: Result<Object, Rv>)
      ensures r.Ok? <==> handle in handles.uids && handles.uids[handle] in storage
      ensures r.Ok? ==> r.value == storage[handles.uids[handle]].(handle := handle)
      ensures r.Err? ==> r.error == if handle in handles.uids then CKR_GENERAL_ERROR else CKR_OBJECT_HANDLE_INVALID
    {
      if handle !in handles.uids {
        return Err(CKR_OBJECT_HANDLE_INVALID);
      }
      var uid := handles.uids[handle];
      if uid !in storage {
        return Err(CKR_GENERAL_ERROR);
      }
      return Ok(storage[uid].(handle := handle));
    }

    /// The factory's answer to the attributes is given.
    method SetObjectAttrs(handle: nat, answer: Rv, attributes: Attributes) returns (rv: Rv)
      requires Settable(attributes)
      modifies this
      ensures handles == old(handles) && dedup == old(dedup)
      ensures (State(), rv) == AttributesSet(old(State()), handle, answer, attributes)
    {
      if handle in sessionObjects {
        if answer != CKR_OK {
          return answer;
        }
        sessionObjects := sessionObjects[handle := WithAttributes(sessionObjects[handle], attributes)];
        return CKR_OK;
      }
      var in_ := IsLoggedIn(CK_UNAVAILABLE_INFORMATION);
      if !in_ {
        return CKR_USER_NOT_LOGGED_IN;
      }
      var found := Fetch(handle);
      if found.Err? {
        return found.error;
      }
      if answer != CKR_OK {
        return answer;
      }
      var uid := handles.uids[handle];
      storage := storage[uid := WithAttributes(storage[uid], attributes)];
      return CKR_OK;
    }

    // ----- searching and deduplication

    /// The handle of one more unique id, which gets one if it has none.
    method HandleFor(uid: string, ghost t: TokenState, ghost order: seq<string>) returns (h: nat)
      requires TokenInv(t) && State() == AllNamed(t, order)
      modifies handles
      ensures State() == AllNamed(t, order + [uid])
      ensures h in handles.uids && handles.uids[h] == uid
      ensures forall k :: k in old(handles.uids) ==> k in handles.uids && handles.uids[k] == old(handles.uids)[k]
    {
      AllNamedFacts(t, order);
      NextIsFree(State());
      NamedKeepsInv(State(), uid);
      assert (order + [uid])[..|order|] == order;
      h := Assign(uid);
    }

    method Assign(uid: string) returns (h: nat)
      requires handles.next !in handles.uids
      modifies handles
      ensures State() == Named(old(State()), uid)
      ensures h in handles.uids && handles.uids[h] == uid
    {
      var known := handles.GetByUid(uid);
      match known {
        case Some(k) =>
          h := k;
        case None =>
          h := handles.Next();
          var ok := handles.Insert(h, uid);
      }
    }

    /// One of the handles is that of a unique id.
    ghost predicate NamedBy(hs: seq<nat>, uid: string)
      reads this, handles
    {
      exists h :: h in hs && h in handles.uids && handles.uids[h] == uid
    }

    /// Gives a handle to every object found that has none yet. The factory
    /// withholds sensitive objects from templates that ask for what is secret.
    method Search(template: Attributes, withheld: set<string>) returns (r: Result<seq<nat>, Rv>)
      requires TokenInv(State())
      modifies handles
      ensures Searched(old(State()), Matching(storage, template) - withheld, State())
      ensures r.Ok? && |r.value| == |Matching(storage, template) - withheld|
      ensures forall h :: h in r.value ==>
        h in handles.uids && handles.uids[h] in Matching(storage, template) - withheld
      ensures forall u :: u in Matching(storage, template) - withheld ==> NamedBy(r.value, u)
    {
      var result;
      ghost var order;
      result, order := NameAll(Matching(storage, template) - withheld);
      return Ok(result);
    }

    method NameAll(found: set<string>) returns (result: seq<nat>, ghost order: seq<string>)
      requires TokenInv(State())
      modifies handles
      ensures (forall u :: u in order <==> u in found) && State() == AllNamed(old(State()), order)
      ensures |result| == |found|
      ensures forall h :: h in result ==> h in handles.uids && handles.uids[h] in found
      ensures forall u :: u in found ==> NamedBy(result, u)
    {
      result, order := [], [];
      var todo := found;
      while todo != {}
        invariant todo <= found && |result| + |todo| == |found|
        invariant forall u :: u in order <==> u in found && u !in todo
        invariant State() == AllNamed(old(State()), order)
        invariant forall h :: h in result ==> h in handles.uids && handles.uids[h] in found
        invariant forall u :: u in found && u !in todo ==> NamedBy(result, u)
      {
        var uid :| uid in todo;
        todo := todo - {uid};
        var h := HandleFor(uid, old(State()), order);
        order := order + [uid];
        result := result + [h];
        assert result[|result| - 1] == h;
      }
    }

    method IsDuplicate(template: Attributes) returns (r: Result<Option<nat>, Rv>)
      requires TokenInv(State())
      modifies handles
      ensures Searched(old(State()), Matching(storage, template), State())
      ensures
        var found := Matching(storage, template);
        if |found| == 0 then r == Ok(None)
        else if |found| == 1 then
          r.Ok? && r.value.Some? && r.value.value in handles.uids && handles.uids[r.value.value] in found
        else r == Err(CKR_GENERAL_ERROR)
    {
      var found := Search(template, {});
      assert Matching(storage, template) - {} == Matching(storage, template);
      match found {
        case Err(e) => return Err(e);
        case Ok(hs) =>
          if |hs| == 0 {
            return Ok(None);
          } else if |hs| == 1 {
            assert hs[0] in hs;
            return Ok(Some(hs[0]));
          } else {
            return Err(CKR_GENERAL_ERROR);
          }
      }
    }

    method IsCertObjDuplicate(o: Object) returns (r: Result<Option<nat>, Rv>)
      requires TokenInv(State())
      modifies handles
      ensures Looked(old(State()), IdentityBy(o, CKA_ISSUER, CKA_SERIAL_NUMBER), State(), r)
    {
      if CKA_ISSUER in o.attributes && CKA_SERIAL_NUMBER in o.attributes {
        r := IsDuplicate(map[
          CKA_CLASS := ClassValue(o.class_),
          CKA_ISSUER := o.attributes[CKA_ISSUER],
          CKA_SERIAL_NUMBER := o.attributes[CKA_SERIAL_NUMBER]]);
      } else {
        r := Ok(None);
      }
    }

    method IsKeyObjDuplicate(o: Object) returns (r: Result<Option<nat>, Rv>)
      requires TokenInv(State())
      modifies handles
      ensures Looked(old(State()), IdentityBy(o, CKA_ID, CKA_KEY_TYPE), State(), r)
    {
      if CKA_ID in o.attributes && CKA_KEY_TYPE in o.attributes {
        r := IsDuplicate(map[
          CKA_CLASS := ClassValue(o.class_),
          CKA_ID := o.attributes[CKA_ID],
          CKA_KEY_TYPE := o.attributes[CKA_KEY_TYPE]]);
      } else {
        r := Ok(None);
      }
    }

    /// Overwrites a stored object's attributes (src/storage/format.rs).
    method Update(handle: nat, o: Object) returns (rv: Rv)
      modifies this`storage
      ensures
        if handle in handles.uids && handles.uids[handle] in old(storage) then
          var uid := handles.uids[handle];
          rv == CKR_OK && storage == old(storage)[uid := Overwritten(old(storage)[uid], o)]
        else rv != CKR_OK && storage == old(storage)
    {
      if handle !in handles.uids {
        return CKR_OBJECT_HANDLE_INVALID;
      }
      var uid := handles.uids[handle];
      if uid !in storage {
        return CKR_GENERAL_ERROR;
      }
      storage := storage[uid := Overwritten(storage[uid], o)];
      return CKR_OK;
    }

    /// The duplicate a setting makes the token look for, if its class is one
    /// the setting covers.
    method FindDuplicate(d: ObjectsDedup, o: Object) returns (r: Result<Option<nat>, Rv>)
      requires TokenInv(State())
      modifies handles
      ensures Looked(old(State()), if Covered(Some(d), o.class_) then Identity(o) else None, State(), r)
    {
      var isCert := o.class_ == CKO_CERTIFICATE;
      var isKey := o.class_ in {CKO_PUBLIC_KEY, CKO_PRIVATE_KEY, CKO_SECRET_KEY};
      var isTrust := o.class_ == CKO_TRUST;
      r := Ok(None);
      match d {
        case TrustOnly =>
          if isTrust {
            r := IsCertObjDuplicate(o);
          }
        case TrustAndCertificates =>
          if isCert || isTrust {
            r := IsCertObjDuplicate(o);
          }
        case All =>
          if isCert || isTrust {
            r := IsCertObjDuplicate(o);
          } else if isKey {
            r := IsKeyObjDuplicate(o);
          }
      }
    }

    method CheckDedup(o: Object) returns (r: Result<Option<nat>, Rv>, ghost t1: TokenState)
      requires TokenInv(State())
      modifies this`storage, handles
      ensures Checked(old(State()), dedup, o, t1, State(), r)
    {
      match dedup {
        case Some(d) =>
          var found := FindDuplicate(d, o);
          t1 := State();
          match found {
            case Err(e) =>
              return Err(e), t1;
            case Ok(None) =>
              return Ok(None), t1;
            case Ok(Some(handle)) =>
              var rv := Update(handle, o);
              if rv != CKR_OK {
                return Err(rv), t1;
              }
              return Ok(Some(handle)), t1;
          }
        case None =>
          t1 := State();
          if o.class_ == CKO_TRUST {
            var found := IsCertObjDuplicate(o);
            t1 := State();
            match found {
              case Err(e) => return Err(e), t1;
              case Ok(None) =>
              case Ok(Some(_)) => return Err(CKR_ATTRIBUTE_VALUE_INVALID), t1;
            }
          }
          return Ok(None), t1;
      }
    }

    /// The object is what the factory makes of the caller's template.
    method CreateObject(session: nat, o: Object) returns (r: Result<nat, Rv>, ghost t1: TokenState)
      requires TokenInv(State()) && o.WellFormed()
      modifies this, handles
      ensures handles == old(handles) && dedup == old(dedup)
      ensures Created(old(State()), dedup, session, o, t1, State(), r)
    {
      t1 := State();
      if o.IsToken() {
        var in_ := IsLoggedIn(CK_UNAVAILABLE_INFORMATION);
        if !in_ {
          return Err(CKR_USER_NOT_LOGGED_IN), t1;
        }
        var found;
        found, t1 := CheckDedup(o);
        match found {
          case Err(e) => return Err(e), t1;
          case Ok(Some(handle)) => return Ok(handle), t1;
          case Ok(None) =>
        }
      }
      r := InsertObject(session, o);
    }

    // ----- setting the token up

    /// The storage's answers and the objects the token adds by itself are given.
    method Initialize(s: Setup, builtins: seq<Object>) returns (rv: Rv)
      requires forall o :: o in builtins ==> o.WellFormed()
      modifies this, handles
      ensures handles == old(handles) || fresh(handles)
      ensures dedup == old(dedup)
      ensures (State(), rv) == SetUp(old(State()), s, builtins)
    {
      if initialized {
        rv := AuthUser(CKU_SO, s.auth, true);
        if rv != CKR_OK {
          return;
        }
      }
      handles := new Handles();
      sessionObjects := map[];
      logged := CK_UNAVAILABLE_INFORMATION;
      if s.reinit != CKR_OK {
        if s.wiped {
          storage := map[];
        }
        return s.reinit;
      }
      storage := map[];
      if s.pin != CKR_OK && s.pin != CKR_USER_TYPE_INVALID {
        return s.pin;
      }
      if s.info != CKR_OK {
        return s.info;
      }
      initialized := true;
      if s.unauth != CKR_OK {
        return s.unauth;
      }
      rv := InternalObjectsInit(builtins);
    }

    method InternalObjectsInit(builtins: seq<Object>) returns (rv: Rv)
      requires forall o :: o in builtins ==> o.WellFormed()
      modifies this, handles
      ensures handles == old(handles) && dedup == old(dedup)
      ensures (State(), rv) == WithBuiltins(old(State()), builtins)
    {
      for i := 0 to |builtins|
        invariant handles == old(handles) && dedup == old(dedup)
        invariant WithBuiltins(State(), builtins[i..]) == WithBuiltins(old(State()), builtins)
      {
        assert builtins[i..][0] == builtins[i] && builtins[i..][1..] == builtins[i + 1..];
        var r := InsertObject(INVALID_HANDLE, builtins[i]);
        if r.Err? {
          return r.error;
        }
      }
      return CKR_OK;
    }
  }
}
