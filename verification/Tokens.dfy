/// A token (src/token.rs): object handles, session objects, logging in and out.
module Tokens {
  import opened Common
  import opened Objects
  import opened Sessions

  // ----- handles

  predicate Injective(m: map<nat, string>) {
    forall h, k :: h in m && k in m && m[h] == m[k] ==> h == k
  }

  /// The bidirectional map between object handles and unique ids, and the next
  /// handle to give out.
  class Handles {
    var uids: map<nat, string>
    var next: nat

    constructor ()
      ensures uids == map[] && next == 1
    {
      uids, next := map[], 1;
    }

    /// Refuses to overwrite either side.
    method Insert(handle: nat, uid: string) returns (ok: bool)
      modifies this`uids
      ensures ok == (handle !in old(uids) && uid !in old(uids).Values)
      ensures uids == if ok then old(uids)[handle := uid] else old(uids)
      ensures Injective(old(uids)) ==> Injective(uids)
    {
      ok := handle !in uids && uid !in uids.Values;
      if ok {
        uids := uids[handle := uid];
      }
    }

    method GetByUid(uid: string) returns (r: Option<nat>)
      ensures r.None? == (uid !in uids.Values)
      ensures r.Some? ==> r.value in uids && uids[r.value] == uid
    {
      if uid in uids.Values {
        var h :| h in uids && uids[h] == uid;
        return Some(h);
      }
      return None;
    }

    method Remove(handle: nat)
      modifies this`uids
      ensures uids == old(uids) - {handle}
    {
      uids := uids - {handle};
    }

    method Next() returns (handle: nat)
      modifies this`next
      ensures handle == old(next) && next == old(next) + 1
    {
      handle := next;
      next := next + 1;
    }
  }

  // ----- the token as a value

  datatype TokenState = TokenState(
    initialized: bool,
    logged: UserType,
    next: nat,
    uids: map<nat, string>,
    sessionObjects: map<nat, Object>,
    storage: map<string, Object>)

  /// What every operation keeps: a session object sits under its own handle,
  /// the handle map is one-to-one and knows it, handles are below the next one,
  /// and only nobody, the user or the security officer can be logged in.
  ghost predicate TokenInv(t: TokenState) {
    && t.next >= 1
    && Injective(t.uids)
    && (forall h :: h in t.uids ==> 1 <= h < t.next)
    && (forall h :: h in t.sessionObjects ==> KnownAs(t.uids, h, t.sessionObjects[h]))
    && (forall u :: u in t.storage ==> t.storage[u].WellFormed() && t.storage[u].UniqueId() == u)
    && LoginLevel(t.logged)
  }

  predicate KnownAs(uids: map<nat, string>, h: nat, o: Object) {
    o.WellFormed() && o.handle == h && h in uids && uids[h] == o.UniqueId()
  }

  predicate LoggedIn(t: TokenState) { t.logged == CKU_SO || t.logged == CKU_USER }

  /// Forgets session objects and their handles.
  function Without(t: TokenState, gone: set<nat>): TokenState {
    t.(sessionObjects := t.sessionObjects - gone, uids := t.uids - gone)
  }

  function PrivateObjects(objects: map<nat, Object>): set<nat> {
    set h | h in objects && !objects[h].IsBuiltin() && objects[h].IsPrivate()
  }

  function ObjectsOf(objects: map<nat, Object>, session: nat): set<nat> {
    set h | h in objects && objects[h].session == session
  }

  /// The handles the objects of a session carry.
  function HandlesOf(objects: map<nat, Object>, session: nat): set<nat> {
    set h | h in objects && objects[h].session == session :: objects[h].handle
  }

  lemma WithoutKeepsInv(t: TokenState, gone: set<nat>)
    requires TokenInv(t)
    ensures TokenInv(Without(t, gone))
  {
  }

  /// Closing a session removes exactly its own objects, from both structures,
  /// and none that the token made itself.
  lemma SessionCleanUp(t: TokenState, session: nat)
    requires TokenInv(t) && session != INVALID_HANDLE
    ensures
      var after := Without(t, HandlesOf(t.sessionObjects, session));
      && TokenInv(after)
      && (forall h :: h in after.sessionObjects <==> h in t.sessionObjects && t.sessionObjects[h].session != session)
      && (forall h :: h in after.uids <==>
            h in t.uids && !(h in t.sessionObjects && t.sessionObjects[h].session == session))
      && (forall h :: h in t.sessionObjects && t.sessionObjects[h].IsBuiltin() ==>
            h in after.sessionObjects && h in after.uids)
  {
    OwnHandles(t, session);
    var gone := HandlesOf(t.sessionObjects, session);
    WithoutKeepsInv(t, gone);
    assert forall h :: h in t.sessionObjects ==> h in t.uids && (h in gone <==> t.sessionObjects[h].session == session);
  }

  /// Objects carry the handles they are filed under.
  lemma OwnHandles(t: TokenState, session: nat)
    requires TokenInv(t)
    ensures HandlesOf(t.sessionObjects, session) == ObjectsOf(t.sessionObjects, session)
  {
    forall h | h in ObjectsOf(t.sessionObjects, session)
      ensures h in HandlesOf(t.sessionObjects, session)
    {
      assert t.sessionObjects[h].handle == h;
    }
  }

  // ----- logging in and out

  function LoggedOut(t: TokenState): TokenState {
    if !LoggedIn(t) then t
    else Without(t, PrivateObjects(t.sessionObjects)).(logged := CK_UNAVAILABLE_INFORMATION)
  }

  function LogoutRv(t: TokenState, unauthOk: bool): Rv {
    if t.logged == CK_UNAVAILABLE_INFORMATION then CKR_USER_NOT_LOGGED_IN
    else if LoggedIn(t) && unauthOk then CKR_OK
    else CKR_GENERAL_ERROR
  }

  /// Logging out removes exactly the private objects made through sessions,
  /// from both structures.
  lemma LogoutCleanUp(t: TokenState)
    requires TokenInv(t) && LoggedIn(t)
    ensures
      var after := LoggedOut(t);
      && TokenInv(after) && after.logged == CK_UNAVAILABLE_INFORMATION
      && (forall h :: h in after.sessionObjects <==>
            h in t.sessionObjects && (t.sessionObjects[h].IsBuiltin() || !t.sessionObjects[h].IsPrivate()))
      && (forall h :: h in after.sessionObjects ==> after.sessionObjects[h] == t.sessionObjects[h] && h in after.uids)
      && (forall h :: h in after.uids <==>
            && h in t.uids
            && !(h in t.sessionObjects && !t.sessionObjects[h].IsBuiltin() && t.sessionObjects[h].IsPrivate()))
      && (forall h :: h in after.uids ==> after.uids[h] == t.uids[h])
      && after.storage == t.storage && after.next == t.next && after.initialized == t.initialized
  {
    WithoutKeepsInv(t, PrivateObjects(t.sessionObjects));
  }

  /// Authentication as the storage answers it; a check leaves the login alone.
  function LoginRv(t: TokenState, user: UserType, auth: Rv): Rv {
    match user
    case CKU_CONTEXT_SPECIFIC => if LoggedIn(t) then auth else CKR_USER_TYPE_INVALID
    case CKU_SO => if t.logged == CKU_SO then CKR_USER_ALREADY_LOGGED_IN
                   else if t.logged != CK_UNAVAILABLE_INFORMATION then CKR_USER_ANOTHER_ALREADY_LOGGED_IN
                   else auth
    case CKU_USER => if t.logged == CKU_USER then CKR_USER_ALREADY_LOGGED_IN
                     else if t.logged != CK_UNAVAILABLE_INFORMATION then CKR_USER_ANOTHER_ALREADY_LOGGED_IN
                     else auth
    case _ => CKR_USER_TYPE_INVALID
  }

  function AfterLogin(t: TokenState, user: UserType, auth: Rv): TokenState {
    if (user == CKU_SO || user == CKU_USER) && t.logged == CK_UNAVAILABLE_INFORMATION && auth == CKR_OK
    then t.(logged := user)
    else t
  }

  /// Who gets in: the user and the security officer when nobody is logged in
  /// and the storage agrees; anyone asking for one operation when somebody is.
  /// Only the first two become logged in.
  lemma LoginExactly(t: TokenState, user: UserType, auth: Rv)
    ensures LoginRv(t, user, auth) == CKR_OK <==>
      && auth == CKR_OK
      && match user
         case CKU_SO => t.logged == CK_UNAVAILABLE_INFORMATION
         case CKU_USER => t.logged == CK_UNAVAILABLE_INFORMATION
         case CKU_CONTEXT_SPECIFIC => t.logged == CKU_SO || t.logged == CKU_USER
         case _ => false
    ensures user in {CKU_SO, CKU_USER} && t.logged == user ==>
      LoginRv(t, user, auth) == CKR_USER_ALREADY_LOGGED_IN
    ensures user in {CKU_SO, CKU_USER} && t.logged !in {user, CK_UNAVAILABLE_INFORMATION} ==>
      LoginRv(t, user, auth) == CKR_USER_ANOTHER_ALREADY_LOGGED_IN
    ensures user in {CKU_SO, CKU_USER} && t.logged == CK_UNAVAILABLE_INFORMATION ==>
      LoginRv(t, user, auth) == auth
    ensures user == CKU_CONTEXT_SPECIFIC ==>
      LoginRv(t, user, auth) == if t.logged in {CKU_SO, CKU_USER} then auth else CKR_USER_TYPE_INVALID
    ensures user !in {CKU_SO, CKU_USER, CKU_CONTEXT_SPECIFIC} ==>
      LoginRv(t, user, auth) == CKR_USER_TYPE_INVALID
    ensures LoginRv(t, user, auth) == CKR_OK && user != CKU_CONTEXT_SPECIFIC ==>
      AfterLogin(t, user, auth) == t.(logged := user)
    ensures LoginRv(t, user, auth) != CKR_OK || user == CKU_CONTEXT_SPECIFIC ==> AfterLogin(t, user, auth) == t
  {
  }

  lemma LogoutExactly(t: TokenState, unauthOk: bool)
    ensures LogoutRv(t, unauthOk) == CKR_OK <==> unauthOk && t.logged in {CKU_SO, CKU_USER}
    ensures LogoutRv(t, unauthOk) == CKR_USER_NOT_LOGGED_IN <==> t.logged == CK_UNAVAILABLE_INFORMATION
    ensures LogoutRv(t, unauthOk) in {CKR_OK, CKR_USER_NOT_LOGGED_IN, CKR_GENERAL_ERROR}
    ensures t.logged !in {CKU_SO, CKU_USER} ==> LoggedOut(t) == t
  {
  }

  // ----- adding objects

  /// Takes the next handle for a unique id. The handle is used up even when the
  /// unique id turns out to have one.
  function Registered(t: TokenState, uid: string): (TokenState, bool) {
    var t1 := t.(next := t.next + 1);
    if t.next in t.uids || uid in t.uids.Values then (t1, false)
    else (t1.(uids := t.uids[t.next := uid]), true)
  }

  /// Files a session object.
  function InsertSessionObject(t: TokenState, session: nat, o: Object): (TokenState, Result<nat, Rv>)
    requires o.WellFormed()
  {
    var (t1, ok) := Registered(t, o.UniqueId());
    if !ok then (t1, Err(CKR_GENERAL_ERROR))
    else
      (t1.(sessionObjects := t.sessionObjects[t.next := o.(handle := t.next, session := session)]), Ok(t.next))
  }

  /// Stores a token object, giving it a handle if it has none.
  function StoreObject(t: TokenState, o: Object): (TokenState, Result<nat, Rv>)
    requires o.WellFormed()
  {
    var (t1, ok) := if o.handle == INVALID_HANDLE then Registered(t, o.UniqueId()) else (t, true);
    if !ok then (t1, Err(CKR_GENERAL_ERROR))
    else (t1.(storage := t.storage[o.UniqueId() := o]), Ok(if o.handle == INVALID_HANDLE then t.next else o.handle))
  }

  function Inserted(t: TokenState, session: nat, o: Object): (TokenState, Result<nat, Rv>)
    requires o.WellFormed()
  {
    if !o.IsToken() then InsertSessionObject(t, session, o)
    else if !LoggedIn(t) then (t, Err(CKR_USER_NOT_LOGGED_IN))
    else StoreObject(t, o)
  }

  lemma NextIsFree(t: TokenState)
    requires TokenInv(t)
    ensures t.next !in t.uids && t.next !in t.sessionObjects
  {
  }

  lemma RegisterKeepsInv(t: TokenState, uid: string)
    requires TokenInv(t)
    ensures TokenInv(Registered(t, uid).0) && t.next !in t.uids && t.next !in t.sessionObjects
  {
    NextIsFree(t);
    if uid !in t.uids.Values {
      AddKeepsInjective(t.uids, t.next, uid);
    }
  }

  lemma AddKeepsInjective(m: map<nat, string>, h: nat, uid: string)
    requires Injective(m) && h !in m && uid !in m.Values
    ensures Injective(m[h := uid])
  {
    assert forall k :: k in m ==> m[k] in m.Values;
  }

  /// Gives a unique id a handle if it has none.
  function Named(t: TokenState, uid: string): TokenState {
    if uid in t.uids.Values then t else Registered(t, uid).0
  }

  lemma NamedKeepsInv(t: TokenState, uid: string)
    requires TokenInv(t)
    ensures TokenInv(Named(t, uid)) && uid in Named(t, uid).uids.Values
    ensures forall h :: h in t.uids ==> h in Named(t, uid).uids && Named(t, uid).uids[h] == t.uids[h]
  {
    RegisterKeepsInv(t, uid);
    AddedValues(t.uids, t.next, uid);
  }

  function AllNamed(t: TokenState, uids: seq<string>): TokenState {
    if uids == [] then t else Named(AllNamed(t, uids[..|uids| - 1]), uids[|uids| - 1])
  }

  /// Naming keeps the invariant and the handles there were; it names what it is
  /// given and nothing else.
  lemma {:induction false} AllNamedFacts(t: TokenState, uids: seq<string>)
    requires TokenInv(t)
    ensures
      var t1 := AllNamed(t, uids);
      && t1 == t.(uids := t1.uids, next := t1.next) && TokenInv(t1) && t1.next >= t.next
      && (forall h :: h in t.uids ==> h in t1.uids && t1.uids[h] == t.uids[h])
      && (forall h :: h in t1.uids && h !in t.uids ==> t1.uids[h] in uids)
      && (forall u :: u in uids ==> u in t1.uids.Values)
  {
    if uids != [] {
      var n := |uids| - 1;
      AllNamedFacts(t, uids[..n]);
      var mid := AllNamed(t, uids[..n]);
      RegisterKeepsInv(mid, uids[n]);
      AddedValues(mid.uids, mid.next, uids[n]);
      assert uids == uids[..n] + [uids[n]];
    }
  }

  /// One after the other, and only those without a handle take one.
  lemma AllNamedExactly(t: TokenState, uids: seq<string>, uid: string)
    requires TokenInv(t)
    ensures AllNamed(t, []) == t
    ensures
      var before, after := AllNamed(t, uids), AllNamed(t, uids + [uid]);
      if exists h :: h in before.uids && before.uids[h] == uid then after == before
      else after == before.(uids := before.uids[before.next := uid], next := before.next + 1)
  {
    AllNamedFacts(t, uids);
    assert (uids + [uid])[..|uids|] == uids;
    var before := AllNamed(t, uids);
    NextIsFree(before);
    if uid in before.uids.Values {
      var h :| h in before.uids && before.uids[h] == uid;
    } else {
      assert forall h :: h in before.uids ==> before.uids[h] in before.uids.Values;
    }
  }

  lemma AddedValues(m: map<nat, string>, h: nat, uid: string)
    requires h !in m
    ensures m[h := uid].Values == m.Values + {uid}
  {
    assert m[h := uid][h] == uid;
    forall u | u in m.Values
      ensures u in m[h := uid].Values
    {
      var k :| k in m && m[k] == u;
      assert m[h := uid][k] == u;
    }
  }

  lemma FileKeepsInv(t: TokenState, session: nat, o: Object)
    requires TokenInv(t) && o.WellFormed()
    ensures TokenInv(InsertSessionObject(t, session, o).0)
  {
    RegisterKeepsInv(t, o.UniqueId());
    var filed := o.(handle := t.next, session := session);
    assert filed.WellFormed() && filed.UniqueId() == o.UniqueId();
  }

  lemma StoreKeepsInv(t: TokenState, o: Object)
    requires TokenInv(t) && o.WellFormed()
    ensures TokenInv(StoreObject(t, o).0)
  {
    RegisterKeepsInv(t, o.UniqueId());
  }

  lemma InsertKeepsInv(t: TokenState, session: nat, o: Object)
    requires TokenInv(t) && o.WellFormed()
    ensures TokenInv(Inserted(t, session, o).0)
  {
    if !o.IsToken() {
      FileKeepsInv(t, session, o);
    } else if LoggedIn(t) {
      StoreKeepsInv(t, o);
    }
  }

  /// A new object gets a handle nobody had; nothing already there changes.
  lemma InsertAdds(t: TokenState, session: nat, o: Object)
    requires TokenInv(t) && o.WellFormed()
    ensures
      var (after, r) := Inserted(t, session, o);
      && t.next !in t.uids && t.next !in t.sessionObjects
      && after.logged == t.logged && after.initialized == t.initialized
      && (after.uids == t.uids || after.uids == t.uids[t.next := o.UniqueId()])
      && (after.sessionObjects == t.sessionObjects ||
          after.sessionObjects == t.sessionObjects[t.next := o.(handle := t.next, session := session)])
      && (r.Ok? && o.handle == INVALID_HANDLE ==> r.value == t.next && after.uids == t.uids[t.next := o.UniqueId()])
  {
    NextIsFree(t);
  }

  /// When an object is taken, and where it goes: into the storage if it says it
  /// is a token object, which needs a login, and among the session objects if
  /// not. It needs a unique id that has no handle, unless it brings a handle of
  /// its own to the storage.
  lemma InsertedExactly(t: TokenState, session: nat, o: Object)
    requires TokenInv(t) && o.WellFormed()
    ensures
      var (after, r) := Inserted(t, session, o);
      var uid := o.attributes[CKA_UNIQUE_ID].text;
      && (r.Ok? <==>
            && (o.IsToken() ==> t.logged in {CKU_SO, CKU_USER})
            && ((o.IsToken() && o.handle != 0) || forall h :: h in t.uids ==> t.uids[h] != uid))
      && (o.IsToken() && t.logged !in {CKU_SO, CKU_USER} ==> after == t && r == Err(CKR_USER_NOT_LOGGED_IN))
      && (r.Err? && !(o.IsToken() && t.logged !in {CKU_SO, CKU_USER}) ==>
            after == t.(next := t.next + 1) && r.error == CKR_GENERAL_ERROR)
      && (r.Ok? && !o.IsToken() ==>
            && r.value == t.next && after.storage == t.storage
            && after.sessionObjects == t.sessionObjects[t.next := o.(handle := t.next, session := session)])
      && (r.Ok? && o.IsToken() ==>
            && r.value == (if o.handle == 0 then t.next else o.handle)
            && after.storage == t.storage[uid := o] && after.sessionObjects == t.sessionObjects)
      && (r.Ok? ==>
            && after.logged == t.logged && after.initialized == t.initialized
            && (if o.IsToken() && o.handle != 0 then after.uids == t.uids && after.next == t.next
                else after.uids == t.uids[t.next := uid] && after.next == t.next + 1))
  {
    NextIsFree(t);
    var uid := o.UniqueId();
    if uid in t.uids.Values {
      var h :| h in t.uids && t.uids[h] == uid;
    } else {
      assert forall h :: h in t.uids ==> t.uids[h] in t.uids.Values;
    }
  }

  /// The handle goes even if the storage fails to remove the object.
  function Destroyed(t: TokenState, handle: nat, removeOk: bool): (TokenState, Result<(), Rv>) {
    if handle in t.sessionObjects then
      if t.sessionObjects[handle].IsDestroyable() then (Without(t, {handle}), Ok(()))
      else (t, Err(CKR_ACTION_PROHIBITED))
    else if handle !in t.uids then (t, Err(CKR_OBJECT_HANDLE_INVALID))
    else if t.uids[handle] !in t.storage then (t, Err(CKR_GENERAL_ERROR))
    else if !t.storage[t.uids[handle]].IsDestroyable() then (t, Err(CKR_ACTION_PROHIBITED))
    else
      (t.(uids := t.uids - {handle}, storage := if removeOk then t.storage - {t.uids[handle]} else t.storage), Ok(()))
  }

  /// When an object goes, why it does not, and what is left.
  lemma DestroyedExactly(t: TokenState, handle: nat, removeOk: bool)
    requires TokenInv(t)
    ensures
      var (after, r) := Destroyed(t, handle, removeOk);
      var filed := handle in t.sessionObjects;
      var stored := !filed && handle in t.uids && t.uids[handle] in t.storage;
      && (r.Ok? <==>
            (filed && t.sessionObjects[handle].IsDestroyable()) ||
            (stored && t.storage[t.uids[handle]].IsDestroyable()))
      && (!filed && handle !in t.uids ==> r == Err(CKR_OBJECT_HANDLE_INVALID))
      && (!filed && handle in t.uids && !stored ==> r == Err(CKR_GENERAL_ERROR))
      && (r.Err? && (filed || stored) ==> r.error == CKR_ACTION_PROHIBITED)
      && (r.Err? ==> after == t)
      && (r.Ok? ==>
            && handle !in after.uids && handle !in after.sessionObjects
            && (forall h :: h != handle ==> (h in after.uids <==> h in t.uids))
            && (forall h :: h in after.uids ==> after.uids[h] == t.uids[h])
            && (forall h :: h != handle ==> (h in after.sessionObjects <==> h in t.sessionObjects))
            && (forall h :: h in after.sessionObjects ==> after.sessionObjects[h] == t.sessionObjects[h])
            && after.storage == (if stored && removeOk then t.storage - {t.uids[handle]} else t.storage)
            && after.next == t.next && after.logged == t.logged && after.initialized == t.initialized)
  {
  }

  /// Destroying a new object undoes its creation, except that the handle is
  /// never given out again.
  lemma DestroyUndoesInsert(t: TokenState, session: nat, o: Object)
    requires TokenInv(t) && o.WellFormed() && o.IsDestroyable() && o.handle == INVALID_HANDLE
    requires o.IsToken() ==> o.UniqueId() !in t.storage
    requires Inserted(t, session, o).1.Ok?
    ensures
      var (mid, r) := Inserted(t, session, o);
      Destroyed(mid, r.value, true) == (t.(next := t.next + 1), Ok(()))
  {
    InsertAdds(t, session, o);
    AddThenRemove(t.uids, t.next, o.UniqueId());
    if o.IsToken() {
      AddThenRemove(t.storage, o.UniqueId(), o);
    } else {
      AddThenRemove(t.sessionObjects, t.next, o.(handle := t.next, session := session));
    }
  }

  lemma AddThenRemove<K, V>(m: map<K, V>, k: K, v: V)
    requires k !in m
    ensures m[k := v] - {k} == m
  {
  }

  // ----- setting a token up

  /// What the token adds by itself: session objects tied to no session.
  function WithBuiltins(t: TokenState, builtins: seq<Object>): (TokenState, Rv)
    requires forall o :: o in builtins ==> o.WellFormed()
    decreases |builtins|
  {
    if builtins == [] then (t, CKR_OK)
    else
      var (t1, r) := Inserted(t, INVALID_HANDLE, builtins[0]);
      if r.Err? then (t1, r.error) else WithBuiltins(t1, builtins[1..])
  }

  /// The answers of the storage while it is set up afresh.
  datatype Setup = Setup(auth: Rv, reinit: Rv, wiped: bool, pin: Rv, info: Rv, unauth: Rv)

  function SetUp(t: TokenState, s: Setup, builtins: seq<Object>): (TokenState, Rv)
    requires forall o :: o in builtins ==> o.WellFormed()
  {
    if t.initialized && s.auth != CKR_OK then (t, s.auth)
    else
      var t1 := TokenState(t.initialized, CK_UNAVAILABLE_INFORMATION, 1, map[], map[], t.storage);
      var t2 := t1.(storage := map[]);
      var t3 := t2.(initialized := true);
      if s.reinit != CKR_OK then (if s.wiped then t2 else t1, s.reinit)
      else if s.pin != CKR_OK && s.pin != CKR_USER_TYPE_INVALID then (t2, s.pin)
      else if s.info != CKR_OK then (t2, s.info)
      else if s.unauth != CKR_OK then (t3, s.unauth)
      else WithBuiltins(t3, builtins)
  }

  /// Where setting up can stop, what it answers and what it leaves: a used
  /// token asks for authentication first, then everything is emptied, then the
  /// PIN, the token information and the end of the login are settled.
  lemma SetUpExactly(t: TokenState, s: Setup, builtins: seq<Object>)
    requires forall o :: o in builtins ==> o.WellFormed()
    ensures
      var (after, rv) := SetUp(t, s, builtins);
      var empty := TokenState(t.initialized, CK_UNAVAILABLE_INFORMATION, 1, map[], map[], map[]);
      if t.initialized && s.auth != CKR_OK then after == t && rv == s.auth
      else if s.reinit != CKR_OK then
        rv == s.reinit && after == empty.(storage := if s.wiped then map[] else t.storage)
      else if s.pin !in {CKR_OK, CKR_USER_TYPE_INVALID} then rv == s.pin && after == empty
      else if s.info != CKR_OK then rv == s.info && after == empty
      else if s.unauth != CKR_OK then rv == s.unauth && after == empty.(initialized := true)
      else (after, rv) == WithBuiltins(empty.(initialized := true), builtins)
  {
  }

  /// The builtin objects are taken one by one, up to the first that is refused.
  lemma BuiltinsExactly(t: TokenState, builtins: seq<Object>)
    requires forall o :: o in builtins ==> o.WellFormed()
    ensures builtins == [] ==> WithBuiltins(t, builtins) == (t, CKR_OK)
    ensures builtins != [] ==>
      var (t1, r) := Inserted(t, 0, builtins[0]);
      WithBuiltins(t, builtins) == match r
        case Ok(_) => WithBuiltins(t1, builtins[1..])
        case Err(e) => (t1, e)
  {
  }

  ghost predicate OnlyBuiltins(t: TokenState) {
    forall h :: h in t.sessionObjects ==> t.sessionObjects[h].IsBuiltin()
  }

  lemma {:induction false} BuiltinsKeepInv(t: TokenState, builtins: seq<Object>)
    requires TokenInv(t) && OnlyBuiltins(t)
    requires forall o :: o in builtins ==> o.WellFormed()
    ensures
      var after := WithBuiltins(t, builtins).0;
      TokenInv(after) && OnlyBuiltins(after) && after.logged == t.logged && after.initialized == t.initialized
    decreases |builtins|
  {
    if builtins != [] {
      InsertKeepsInv(t, INVALID_HANDLE, builtins[0]);
      InsertAdds(t, INVALID_HANDLE, builtins[0]);
      var (t1, r) := Inserted(t, INVALID_HANDLE, builtins[0]);
      if r.Ok? {
        BuiltinsKeepInv(t1, builtins[1..]);
      }
    }
  }

  /// Setting a token up leaves it with nobody logged in and no object of any
  /// session, wherever it stops; if authentication fails it changes nothing.
  lemma SetUpStartsOver(t: TokenState, s: Setup, builtins: seq<Object>)
    requires TokenInv(t) && forall o :: o in builtins ==> o.WellFormed()
    ensures
      var after := SetUp(t, s, builtins).0;
      && TokenInv(after)
      && (after == t || (after.logged == CK_UNAVAILABLE_INFORMATION && OnlyBuiltins(after)))
      && (t.initialized ==> after.initialized)
  {
    SetUpExactly(t, s, builtins);
    EmptiedInv(t, t.initialized, t.storage);
    EmptiedInv(t, t.initialized, map[]);
    EmptiedInv(t, true, map[]);
    hide SetUp, WithBuiltins, TokenInv, OnlyBuiltins;
    BuiltinsKeepInv(TokenState(true, CK_UNAVAILABLE_INFORMATION, 1, map[], map[], map[]), builtins);
  }

  /// A token without handles is in order if its storage is.
  lemma EmptiedInv(t: TokenState, initialized: bool, storage: map<string, Object>)
    requires TokenInv(t) && (storage == t.storage || storage == map[])
    ensures
      var empty := TokenState(initialized, CK_UNAVAILABLE_INFORMATION, 1, map[], map[], storage);
      TokenInv(empty) && OnlyBuiltins(empty)
  {
  }
}
