/// The global state (src/lib.rs), and what its calls do to the slot they reach
/// (src/fns/sessmgmt.rs).
module LibraryOps {
  import opened Common
  import L = Library
  import R = LibraryRuns
  import opened Objects
  import opened Sessions
  import opened Slots
  import opened TokenOps
  import opened Tokens

  // ----- one slot

  /// Logs the token out and tells every session.
  method MakePublic(slot: Slot, unauthOk: bool)
    requires slot.Valid()
    modifies slot.token, slot.token.handles, slot.sessions.Values
    ensures slot.Footprint() == old(slot.Footprint())
    ensures slot.Valid() && slot.State() == L.PublicAgain(old(slot.State()))
  {
    var _ := slot.token.Logout(unauthOk);
    assert slot.Sessions() == old(slot.Sessions());
    ghost var token := slot.token.State();
    slot.InvalidateSessionStates();
    assert slot.token.State() == token;
  }

  method LoginSlot(slot: Slot, user: UserType, auth: Rv, unauthOk: bool) returns (rv: Rv)
    requires slot.Valid()
    modifies slot.token, slot.token.handles, slot.sessions.Values
    ensures slot.Footprint() == old(slot.Footprint())
    ensures slot.Valid() && L.SlotLogin(old(slot.State()), user, auth, slot.State(), rv)
  {
    var result := slot.token.Login(user, auth);
    if user == CKU_CONTEXT_SPECIFIC {
      if result == CKR_PIN_LOCKED {
        MakePublic(slot, unauthOk);
      }
      return result;
    }
    if result != CKR_OK {
      return result;
    }
    ghost var done;
    rv, done := slot.ChangeSessionStates(user);
    if rv != CKR_OK {
      MakePublic(slot, unauthOk);
    }
  }

  method LogoutSlot(slot: Slot, unauthOk: bool) returns (rv: Rv)
    requires slot.Valid()
    modifies slot.token, slot.token.handles, slot.sessions.Values
    ensures slot.Footprint() == old(slot.Footprint())
    ensures slot.Valid() && (slot.State(), rv) == L.SlotLogout(old(slot.State()), unauthOk)
  {
    rv := slot.token.Logout(unauthOk);
    if rv == CKR_OK {
      slot.InvalidateSessionStates();
    }
  }

  method OpenInSlot(slot: Slot, handle: nat, id: nat, user: UserType, flags: SessionFlags) returns (r: Result<(), Rv>)
    requires slot.Valid()
    modifies slot
    ensures slot.Valid() && fresh(slot.Footprint() - old(slot.Footprint()))
    ensures match Opened(id, user, flags)
            case Err(e) => r == Err(e) && slot.State() == old(slot.State())
            case Ok(v) =>
              r == Ok(()) && slot.State() == old(slot.State()).(sessions := old(slot.Sessions())[handle := v])
  {
    var made := Session.New(id, user, flags);
    match made {
      case Err(e) => return Err(e);
      case Ok(session) =>
        slot.AddSession(handle, session);
        return Ok(());
    }
  }

  // ----- what a login checks before it asks the token

  ghost function LoginRefusal(slot: Result<SlotState, Rv>, user: UserType, asked: bool): Rv {
    match slot
    case Err(e) => e
    case Ok(sl) =>
      if user == CKU_SO && HasReadOnly(sl.sessions) then CKR_SESSION_READ_ONLY_EXISTS
      else if !sl.token.initialized then CKR_TOKEN_NOT_INITIALIZED
      else if user == CKU_CONTEXT_SPECIFIC && !asked then CKR_OPERATION_NOT_INITIALIZED
      else CKR_OK
  }

  lemma SessionNeeded(s: L.LibraryState, h: nat, user: UserType, auth: Rv, asked: bool)
    requires L.SessionOf(s, h).Err?
    ensures L.Login(s, h, user, auth, asked, s, L.SessionOf(s, h).error)
  {
    hide L.SlotLogin;
  }

  lemma LoginRefused(s: L.LibraryState, h: nat, user: UserType, auth: Rv, asked: bool, rv: Rv)
    requires L.SessionOf(s, h).Ok? && rv != CKR_OK
    requires rv == LoginRefusal(L.SlotOf(s, L.SessionOf(s, h).value.slotId), user, asked)
    ensures L.Login(s, h, user, auth, asked, s, rv)
  {
    hide L.SlotLogin;
  }

  lemma LoginAsked(s: L.LibraryState, h: nat, user: UserType, auth: Rv, asked: bool, sl: SlotState, rv: Rv)
    requires L.SessionOf(s, h).Ok?
    requires
      var id := L.SessionOf(s, h).value.slotId;
      && id in s.slots && LoginRefusal(L.SlotOf(s, id), user, asked) == CKR_OK
      && L.SlotLogin(s.slots[id], user, auth, sl, rv)
    ensures L.Login(s, h, user, auth, asked, L.WithSlot(s, L.SessionOf(s, h).value.slotId, sl), rv)
  {
    hide L.SlotLogin;
  }

  // ----- what dropping a session does to the library as a value

  /// One session gone from its slot and from the index.
  function Unfiled(s: L.LibraryState, id: nat, h: nat): L.LibraryState
    requires id in s.slots
  {
    var sl := s.slots[id];
    L.LibraryState(s.slots[id := sl.(sessions := sl.sessions - {h})], s.sessionmap - {h}, s.next)
  }

  /// The token of a slot logged out if the slot has no session.
  function LastLoggedOut(s: L.LibraryState, id: nat): (L.LibraryState, Rv)
    requires id in s.slots
  {
    var sl := s.slots[id];
    if sl.sessions != map[] then (s, CKR_OK)
    else if !sl.token.initialized then (s, CKR_TOKEN_NOT_INITIALIZED)
    else (L.WithSlot(s, id, sl.(token := LoggedOut(sl.token))), CKR_OK)
  }

  lemma DropSessionInSteps(s: L.LibraryState, h: nat)
    ensures match L.SlotOfSession(s, h)
            case Err(e) => L.DropSession(s, h) == (s, e)
            case Ok(_) =>
              var id := s.sessionmap[h];
              L.DropSession(s, h) == LastLoggedOut(Unfiled(s, id, h), id)
  {
    hide LoggedOut;
  }

  // ----- several slots

  /// The slots' objects are among the given ones.
  ghost predicate Owned(slots: map<nat, Slot>, objects: set<object>)
    reads objects
  {
    && (forall i :: i in slots ==> slots[i] in objects && slots[i].token in objects && slots[i].Footprint() <= objects)
    && (forall i :: i in slots ==> slots[i].Valid())
  }

  /// The slots share nothing.
  ghost predicate Separate(slots: map<nat, Slot>, objects: set<object>)
    requires Owned(slots, objects)
    reads objects
  {
    forall i, j :: i in slots && j in slots && i != j ==> slots[i].Footprint() !! slots[j].Footprint()
  }

  ghost predicate Shown(slots: map<nat, Slot>, objects: set<object>, states: map<nat, SlotState>)
    requires Owned(slots, objects)
    reads objects
  {
    states.Keys == slots.Keys && forall i :: i in slots ==> slots[i].State() == states[i]
  }

  ghost predicate Holds(slots: map<nat, Slot>, objects: set<object>, states: map<nat, SlotState>)
    reads objects
  {
    Owned(slots, objects) && Separate(slots, objects) && Shown(slots, objects, states)
  }

  lemma HoldsOne(slots: map<nat, Slot>, objects: set<object>, states: map<nat, SlotState>, id: nat)
    requires Holds(slots, objects, states) && id in slots
    ensures slots[id] in slots[id].Footprint() && slots[id].token in slots[id].Footprint()
    ensures slots[id].token.handles in slots[id].Footprint() && slots[id].Footprint() <= objects
    ensures slots[id].Valid() && id in states && slots[id].State() == states[id]
  {
  }

  lemma OwnedAdded(slots: map<nat, Slot>, objects: set<object>, id: nat, slot: Slot)
    requires Owned(slots, objects) && id !in slots && slot.Valid()
    ensures Owned(slots[id := slot], objects + slot.Footprint())
  {
    assert slot in slot.Footprint() && slot.token in slot.Footprint();
  }

  /// A slot that shares nothing with the others can be added.
  lemma HoldsAdded(slots: map<nat, Slot>, objects: set<object>, states: map<nat, SlotState>, id: nat, slot: Slot)
    requires Holds(slots, objects, states) && id !in slots
    requires slot.Valid() && slot.Footprint() !! objects
    ensures Holds(slots[id := slot], objects + slot.Footprint(), states[id := slot.State()])
  {
    OwnedAdded(slots, objects, id, slot);
    assert Separate(slots[id := slot], objects + slot.Footprint());
  }

  twostate lemma Untouched(slot: Slot)
    requires unchanged(old(slot.Footprint()))
    ensures slot.Footprint() == old(slot.Footprint()) && slot.State() == old(slot.State())
    ensures slot.Valid() == old(slot.Valid())
  {
  }

  /// Of the first n slots asked some refused, and the first that did gave rv.
  ghost predicate FirstError(answers: map<nat, Rv>, order: seq<nat>, n: nat, rv: Rv) {
    exists k :: 0 <= k < n && k < |order| && order[k] in answers && answers[order[k]] == rv != CKR_OK
      && forall j :: 0 <= j < k ==> order[j] in answers && answers[order[j]] == CKR_OK
  }

  method AskAll(answers: map<nat, Rv>, order: seq<nat>) returns (rv: Rv)
    requires Elements(order) == answers.Keys
    ensures rv == CKR_OK ==> forall i :: i in answers ==> answers[i] == CKR_OK
    ensures rv != CKR_OK ==> FirstError(answers, order, |order|, rv)
  {
    rv := CKR_OK;
    for i := 0 to |order|
      invariant rv == CKR_OK ==> forall j :: 0 <= j < i ==> order[j] in answers && answers[order[j]] == CKR_OK
      invariant rv != CKR_OK ==> FirstError(answers, order, i, rv)
    {
      assert order[i] in Elements(order);
      if rv == CKR_OK {
        rv := answers[order[i]];
      }
    }
    forall i | i in answers && rv == CKR_OK
      ensures answers[i] == CKR_OK
    {
      assert i in Elements(order);
    }
  }

  /// The error of the whole is that of the first slot in the order that
  /// refuses, and there is one exactly when some slot refuses.
  lemma FirstErrorExactly(answers: map<nat, Rv>, order: seq<nat>, rv: Rv)
    requires Elements(order) == answers.Keys
    ensures FirstError(answers, order, |order|, rv) ==> rv != CKR_OK && rv in answers.Values
    ensures FirstError(answers, order, |order|, rv) ==>
      forall i :: 0 <= i < |order| && order[i] in answers && answers[order[i]] != CKR_OK && rv != answers[order[i]] ==>
        exists j :: 0 <= j < i && order[j] in answers && answers[order[j]] == rv
  {
    if FirstError(answers, order, |order|, rv) {
      var k :| 0 <= k < |order| && order[k] in answers && answers[order[k]] == rv != CKR_OK
        && forall j :: 0 <= j < k ==> order[j] in answers && answers[order[j]] == CKR_OK;
      assert rv in answers.Values;
      forall i | 0 <= i < |order| && order[i] in answers && answers[order[i]] != CKR_OK && rv != answers[order[i]]
        ensures exists j :: 0 <= j < i && order[j] in answers && answers[order[j]] == rv
      {
        assert k < i;
      }
    }
  }

  // ----- the index

  lemma NewSessionKeepsIndex(s: L.LibraryState, id: nat, user: UserType, flags: SessionFlags)
    requires L.IndexAgrees(s) && L.HandlesGiven(s)
    ensures var s2 := L.NewSession(s, id, user, flags).0; L.IndexAgrees(s2) && L.HandlesGiven(s2)
  {
    var slot := L.SlotOf(s, id);
    var session := Opened(id, user, flags);
    if slot.Ok? && session.Ok? {
      R.OpenKeepsIndex(s, id, session.value);
    }
  }

  lemma DropSessionKeepsIndex(s: L.LibraryState, h: nat)
    requires L.IndexAgrees(s) && L.HandlesGiven(s)
    ensures var s2 := L.DropSession(s, h).0; L.IndexAgrees(s2) && L.HandlesGiven(s2)
  {
    if h in s.sessionmap && L.SlotOf(s, s.sessionmap[h]).Ok? {
      var id := s.sessionmap[h];
      var sl := s.slots[id];
      var left := L.LibraryState(s.slots[id := sl.(sessions := sl.sessions - {h})], s.sessionmap - {h}, s.next);
      R.DropKeepsIndex(s, h, sl.token);
      R.ReplaceKeepsIndex(left, id, SlotState(sl.sessions - {h}, LoggedOut(sl.token)));
    }
  }

  lemma DropAllKeepsIndex(s: L.LibraryState, id: nat)
    requires L.IndexAgrees(s) && L.HandlesGiven(s)
    ensures var s2 := L.DropAllSessionsSlot(s, id).0; L.IndexAgrees(s2) && L.HandlesGiven(s2)
  {
    var s2 := L.DropAllSessionsSlot(s, id).0;
    assert s2.sessionmap == R.Unindexed(s.sessionmap, id);
    if L.SlotOf(s, id).Ok? {
      R.CloseAllKeepsIndex(s, id, s.slots[id].token);
    } else {
      assert s2.sessionmap == s.sessionmap;
    }
  }

  // ----- the global state

  class State {
    var slots: map<nat, Slot>
    var sessionmap: map<nat, nat>
    var nextHandle: nat
    /// What the slots and the other fields show.
    ghost var model: L.LibraryState
    /// The objects of all slots.
    ghost var Repr: set<object>

    ghost predicate Valid()
      reads this, Repr
    {
      && this !in Repr && model.sessionmap == sessionmap && model.next == nextHandle
      && Holds(slots, Repr, model.slots)
    }

    /// The index agrees with the slots, and its handles have been given out.
    ghost predicate IndexValid()
      reads this
    {
      L.IndexAgrees(model) && L.HandlesGiven(model)
    }

    lemma Fields()
      requires Valid()
      ensures model.sessionmap == sessionmap && model.next == nextHandle && model.slots.Keys == slots.Keys
    {
    }

    /// What the state shows of each slot are the slot's own fields.
    lemma SlotShown(id: nat, h: nat)
      requires Valid() && id in slots && slots[id] in Repr && slots[id].token in Repr
      ensures id in model.slots && (h in model.slots[id].sessions <==> h in slots[id].sessions)
      ensures h in slots[id].sessions ==>
        var v, session := model.slots[id].sessions[h], slots[id].sessions[h];
        v.state == session.state && v.flags == session.flags && v.slotId == session.slotId
      ensures
        var t, token := model.slots[id].token, slots[id].token;
        && t.initialized == token.initialized && t.logged == token.logged
        && t.sessionObjects == token.sessionObjects && t.storage == token.storage
        && t.uids == token.handles.uids && t.next == token.handles.next
    {
      assert slots[id].State() == model.slots[id];
    }

    // ----- what a change inside one slot leaves alone

    twostate lemma OthersUntouched(id: nat)
      requires slots == old(slots) && id in slots && old(Holds(slots, Repr, model.slots))
      requires unchanged(old(Repr - slots[id].Footprint()))
      ensures forall i :: i in slots && i != id ==>
        && slots[i].State() == old(model).slots[i] && slots[i].Valid()
        && slots[i].Footprint() == old(slots[i].Footprint())
    {
      forall i | i in slots && i != id
        ensures slots[i].State() == old(model).slots[i] && slots[i].Valid()
        ensures slots[i].Footprint() == old(slots[i].Footprint())
      {
        assert old(slots[i].Footprint() !! slots[id].Footprint());
        Untouched(slots[i]);
      }
    }

    twostate lemma StayOwned(id: nat)
      requires slots == old(slots) && id in slots && old(Owned(slots, Repr)) && slots[id].Valid()
      requires forall i :: i in slots && i != id ==>
        slots[i].Footprint() == old(slots[i].Footprint()) && slots[i].Valid()
      ensures Owned(slots, old(Repr) + slots[id].Footprint())
    {
      assert slots[id] in slots[id].Footprint() && slots[id].token in slots[id].Footprint();
    }

    twostate lemma StaySeparate(id: nat)
      requires slots == old(slots) && id in slots && old(Owned(slots, Repr)) && old(Separate(slots, Repr))
      requires Owned(slots, old(Repr) + slots[id].Footprint())
      requires fresh(slots[id].Footprint() - old(slots[id].Footprint()))
      requires forall i :: i in slots && i != id ==> slots[i].Footprint() == old(slots[i].Footprint())
      ensures Separate(slots, old(Repr) + slots[id].Footprint())
    {
      forall i | i in slots && i != id
        ensures slots[i].Footprint() !! slots[id].Footprint()
      {
        assert old(slots[i].Footprint() !! slots[id].Footprint());
      }
    }

    twostate lemma StayShown(id: nat)
      requires slots == old(slots) && id in slots && old(Owned(slots, Repr)) && old(Shown(slots, Repr, model.slots))
      requires Owned(slots, old(Repr) + slots[id].Footprint())
      requires forall i :: i in slots && i != id ==> slots[i].State() == old(model).slots[i]
      ensures Shown(slots, old(Repr) + slots[id].Footprint(), old(model).slots[id := slots[id].State()])
    {
    }

    /// After a change inside one slot the others are as they were.
    twostate lemma OneSlotChanged(id: nat)
      requires slots == old(slots) && id in slots && old(Holds(slots, Repr, model.slots))
      requires slots[id].Valid() && fresh(slots[id].Footprint() - old(slots[id].Footprint()))
      requires unchanged(old(Repr - slots[id].Footprint()))
      ensures Holds(slots, old(Repr) + slots[id].Footprint(), old(model).slots[id := slots[id].State()])
    {
      hide Owned, Separate, Shown;
      OthersUntouched(id);
      StayOwned(id);
      StaySeparate(id);
      StayShown(id);
    }

    // ----- lookups

    method GetSlot(id: nat) returns (r: Result<Slot, Rv>)
      requires Valid()
      ensures r.Ok? ==> nextHandle != 0 && id in slots && r.value == slots[id] && r.value.Footprint() <= Repr
      ensures r.Ok? ==> r.value.State() == model.slots[id] && L.SlotOf(model, id) == Ok(model.slots[id])
      ensures r.Err? ==> L.SlotOf(model, id) == Err(r.error)
    {
      if nextHandle == 0 {
        return Err(CKR_CRYPTOKI_NOT_INITIALIZED);
      }
      if id !in slots {
        return Err(CKR_SLOT_ID_INVALID);
      }
      return Ok(slots[id]);
    }

    /// The token of a slot, if it is ready to be used.
    method GetToken(id: nat) returns (r: Result<Token, Rv>)
      requires Valid()
      ensures r.Ok? ==> id in slots && r.value == slots[id].token
      ensures r.Ok? ==> L.ReadySlot(L.SlotOf(model, id)) == Ok(model.slots[id])
      ensures r.Ok? ==> r.value.State() == model.slots[id].token
      ensures r.Err? ==> L.ReadySlot(L.SlotOf(model, id)) == Err(r.error)
    {
      var found := GetSlot(id);
      if found.Err? {
        return Err(found.error);
      }
      if !found.value.token.initialized {
        return Err(CKR_TOKEN_NOT_INITIALIZED);
      }
      return Ok(found.value.token);
    }

    method GetSession(handle: nat) returns (r: Result<Session, Rv>)
      requires Valid()
      ensures r.Ok? ==> handle in sessionmap && sessionmap[handle] in slots
      ensures r.Ok? ==>
        var slot := slots[sessionmap[handle]];
        handle in slot.sessions && r.value == slot.sessions[handle]
      ensures r.Ok? ==> L.SessionOf(model, handle) == Ok(r.value.Value())
      ensures r.Err? && nextHandle != 0 ==> L.SessionOf(model, handle) == Err(r.error)
      ensures IndexValid() ==> (r.Ok? <==> handle in sessionmap)
    {
      if handle !in sessionmap {
        return Err(CKR_SESSION_HANDLE_INVALID);
      }
      var found := GetSlot(sessionmap[handle]);
      if found.Err? {
        return Err(found.error);
      }
      var slot := found.value;
      if handle !in slot.sessions {
        return Err(CKR_SESSION_HANDLE_INVALID);
      }
      return Ok(slot.sessions[handle]);
    }

    // ----- one slot's part of a call

    method AddToSlot(id: nat, handle: nat, user: UserType, flags: SessionFlags) returns (r: Result<(), Rv>)
      requires Valid() && id in slots
      modifies `model, `Repr, slots[id]
      ensures Valid() && fresh(Repr - old(Repr))
      ensures match Opened(id, user, flags)
              case Err(e) => r == Err(e) && model == old(model)
              case Ok(v) =>
                var sl := old(model).slots[id];
                r == Ok(()) && model == L.WithSlot(old(model), id, sl.(sessions := sl.sessions[handle := v]))
    {
      hide Holds;
      HoldsOne(slots, Repr, model.slots, id);
      var slot := slots[id];
      r := OpenInSlot(slot, handle, id, user, flags);
      assert r.Err? ==> model.slots[id := slot.State()] == model.slots;
      OneSlotChanged(id);
      model, Repr := L.WithSlot(model, id, slot.State()), Repr + slot.Footprint();
    }

    method DropFromSlot(id: nat, handle: nat)
      requires Valid() && id in slots
      modifies `model, `Repr, slots[id]
      ensures Valid() && fresh(Repr - old(Repr))
      ensures var sl := old(model).slots[id];
              model == L.WithSlot(old(model), id, sl.(sessions := sl.sessions - {handle}))
    {
      hide Holds;
      HoldsOne(slots, Repr, model.slots, id);
      var slot := slots[id];
      slot.DropSession(handle);
      OneSlotChanged(id);
      model, Repr := L.WithSlot(model, id, slot.State()), Repr + slot.Footprint();
    }

    method EmptySlot(id: nat) returns (handles: seq<nat>)
      requires Valid() && id in slots
      modifies `model, `Repr, slots[id]
      ensures Valid() && fresh(Repr - old(Repr))
      ensures Elements(handles) == old(model).slots[id].sessions.Keys
      ensures model == L.WithSlot(old(model), id, old(model).slots[id].(sessions := map[]))
    {
      hide Holds;
      HoldsOne(slots, Repr, model.slots, id);
      var slot := slots[id];
      handles := slot.DropAllSessions();
      OneSlotChanged(id);
      model, Repr := L.WithSlot(model, id, slot.State()), Repr + slot.Footprint();
    }

    method ClearObjects(id: nat, session: nat)
      requires Valid() && id in slots
      modifies `model, `Repr, slots[id].token, slots[id].token.handles
      ensures Valid() && fresh(Repr - old(Repr))
      ensures var sl := old(model).slots[id];
              model == L.WithSlot(old(model), id,
                                  sl.(token := Without(sl.token, HandlesOf(sl.token.sessionObjects, session))))
    {
      hide Holds, Without, HandlesOf;
      HoldsOne(slots, Repr, model.slots, id);
      var slot := slots[id];
      slot.token.ClearSessionObjects(session);
      assert slot.Sessions() == old(slot.Sessions());
      OneSlotChanged(id);
      model, Repr := L.WithSlot(model, id, slot.State()), Repr + slot.Footprint();
    }

    method LogOutToken(id: nat, unauthOk: bool)
      requires Valid() && id in slots
      modifies `model, `Repr, slots[id].token, slots[id].token.handles
      ensures Valid() && fresh(Repr - old(Repr))
      ensures var sl := old(model).slots[id];
              model == L.WithSlot(old(model), id, sl.(token := LoggedOut(sl.token)))
    {
      hide Holds, LoggedOut;
      HoldsOne(slots, Repr, model.slots, id);
      var slot := slots[id];
      var _ := slot.token.Logout(unauthOk);
      assert slot.Sessions() == old(slot.Sessions());
      OneSlotChanged(id);
      model, Repr := L.WithSlot(model, id, slot.State()), Repr + slot.Footprint();
    }

    method LogInSlot(id: nat, user: UserType, auth: Rv, unauthOk: bool) returns (rv: Rv, ghost sl: SlotState)
      requires Valid() && id in slots
      modifies `model, `Repr, slots[id].token, slots[id].token.handles, slots[id].sessions.Values
      ensures Valid() && fresh(Repr - old(Repr))
      ensures model == L.WithSlot(old(model), id, sl) && L.SlotLogin(old(model).slots[id], user, auth, sl, rv)
    {
      hide Holds, L.SlotLogin;
      HoldsOne(slots, Repr, model.slots, id);
      var slot := slots[id];
      rv := LoginSlot(slot, user, auth, unauthOk);
      sl := slot.State();
      OneSlotChanged(id);
      model, Repr := L.WithSlot(model, id, slot.State()), Repr + slot.Footprint();
    }

    method LogOutSlot(id: nat, unauthOk: bool) returns (rv: Rv)
      requires Valid() && id in slots
      modifies `model, `Repr, slots[id].token, slots[id].token.handles, slots[id].sessions.Values
      ensures Valid() && fresh(Repr - old(Repr))
      ensures var (sl, answer) := L.SlotLogout(old(model).slots[id], unauthOk);
              rv == answer && model == L.WithSlot(old(model), id, sl)
    {
      hide Holds, L.SlotLogout;
      HoldsOne(slots, Repr, model.slots, id);
      var slot := slots[id];
      rv := LogoutSlot(slot, unauthOk);
      OneSlotChanged(id);
      model, Repr := L.WithSlot(model, id, slot.State()), Repr + slot.Footprint();
    }

    // ----- starting and stopping

    method Reset(next: nat)
      modifies this
      ensures Valid() && model == L.LibraryState(map[], map[], next) && Repr == {}
    {
      slots, sessionmap, nextHandle := map[], map[], next;
      model, Repr := L.LibraryState(map[], map[], next), {};
    }

    /// The slots' numbers in the order a walk over them takes, which can be any.
    method SlotOrder() returns (order: seq<nat>)
      ensures Elements(order) == slots.Keys
    {
      order := [];
      var todo := slots.Keys;
      while todo != {}
        invariant Elements(order) == slots.Keys - todo && todo <= slots.Keys
      {
        var id :| id in todo;
        ElementsSnoc(order + [id], |order|);
        assert (order + [id])[..|order|] == order && (order + [id])[..|order| + 1] == order + [id];
        order, todo := order + [id], todo - {id};
      }
    }

    method Initialize()
      modifies this
      ensures Valid() && model == L.STARTED && Repr == {} && IndexValid()
    {
      Reset(1);
    }

    /// Every slot's own answer to being finalized is given. The slots are asked
    /// in any order; the first error is the outcome, and nothing is left either
    /// way.
    method Finalize(answers: map<nat, Rv>) returns (rv: Rv, order: seq<nat>)
      requires Valid() && answers.Keys == slots.Keys
      modifies this
      ensures Valid() && Repr <= old(Repr)
      ensures old(nextHandle) == 0 ==> rv == CKR_CRYPTOKI_NOT_INITIALIZED && model == old(model)
      ensures old(nextHandle) != 0 ==> model == L.STOPPED && Elements(order) == old(slots).Keys
      ensures old(nextHandle) != 0 && rv == CKR_OK ==> forall i :: i in answers ==> answers[i] == CKR_OK
      ensures old(nextHandle) != 0 && rv != CKR_OK ==> FirstError(answers, order, |order|, rv)
    {
      hide Holds;
      Fields();
      if nextHandle == 0 {
        return CKR_CRYPTOKI_NOT_INITIALIZED, [];
      }
      order := SlotOrder();
      rv := AskAll(answers, order);
      Reset(0);
    }

    /// The slot is new: it has no sessions and shares nothing with the others.
    method AddSlot(id: nat, slot: Slot) returns (rv: Rv)
      requires Valid() && slot.Valid() && slot.sessions == map[]
      requires slot.Footprint() !! Repr && this !in slot.Footprint()
      modifies this
      ensures Valid() && Repr <= old(Repr) + slot.Footprint()
      ensures (model, rv) == L.AddedSlot(old(model), id, slot.token.State())
      ensures old(IndexValid()) && old(nextHandle) != 0 ==> IndexValid()
    {
      hide Holds;
      Fields();
      if id in slots {
        return CKR_CRYPTOKI_ALREADY_INITIALIZED;
      }
      if IndexValid() {
        R.AddSlotKeepsIndex(model, id, slot.token.State());
      }
      HoldsAdded(slots, Repr, model.slots, id, slot);
      slots := slots[id := slot];
      model, Repr := L.WithSlot(model, id, slot.State()), Repr + slot.Footprint();
      return CKR_OK;
    }

    // ----- opening and closing sessions

    method Reindex(sessionmap: map<nat, nat>, nextHandle: nat)
      requires Valid()
      modifies `sessionmap, `nextHandle, `model
      ensures Valid() && model == L.LibraryState(old(model).slots, sessionmap, nextHandle)
    {
      hide Holds;
      this.sessionmap, this.nextHandle := sessionmap, nextHandle;
      model := model.(sessionmap := sessionmap, next := nextHandle);
    }

    method NewSession(id: nat, user: UserType, flags: SessionFlags) returns (r: Result<nat, Rv>)
      requires Valid()
      modifies this, Repr
      ensures Valid() && fresh(Repr - old(Repr))
      ensures (model, r) == L.NewSession(old(model), id, user, flags)
      ensures old(IndexValid()) ==> IndexValid()
    {
      hide Holds, L.IndexAgrees, L.HandlesGiven;
      if IndexValid() {
        NewSessionKeepsIndex(model, id, user, flags);
      }
      Fields();
      var handle := nextHandle;
      var found := GetSlot(id);
      if found.Err? {
        return Err(found.error);
      }
      assert found.value in found.value.Footprint();
      var added := AddToSlot(id, handle, user, flags);
      if added.Err? {
        return Err(added.error);
      }
      Reindex(sessionmap[handle := id], handle + 1);
      return Ok(handle);
    }

    method OpenSession(id: nat, flags: SessionFlags) returns (r: Result<nat, Rv>)
      requires Valid()
      modifies this, Repr
      ensures Valid() && fresh(Repr - old(Repr))
      ensures (model, r) == L.OpenSession(old(model), id, flags)
    {
      hide Holds;
      Fields();
      if nextHandle == 0 {
        return Err(CKR_CRYPTOKI_NOT_INITIALIZED);
      }
      var found := GetToken(id);
      if found.Err? {
        return Err(found.error);
      }
      var token := found.value;
      var user := CK_UNAVAILABLE_INFORMATION;
      var so := token.IsLoggedIn(CKU_SO);
      var us := token.IsLoggedIn(CKU_USER);
      if so {
        if !flags.rw {
          return Err(CKR_SESSION_READ_WRITE_SO_EXISTS);
        }
        user := CKU_SO;
      } else if us {
        user := CKU_USER;
      }
      r := NewSession(id, user, flags);
    }

    method LogOutIfLast(id: nat, unauthOk: bool) returns (rv: Rv)
      requires Valid() && id in slots && nextHandle != 0
      modifies this, Repr
      ensures Valid() && fresh(Repr - old(Repr))
      ensures id in old(model).slots && (model, rv) == LastLoggedOut(old(model), id)
    {
      hide Holds, LoggedOut;
      Fields();
      HoldsOne(slots, Repr, model.slots, id);
      var more := slots[id].HasSessions();
      if !more {
        var found := GetToken(id);
        if found.Err? {
          return found.error;
        }
        LogOutToken(id, unauthOk);
      }
      return CKR_OK;
    }

    method Unfile(id: nat, handle: nat)
      requires Valid() && id in slots
      modifies this, Repr
      ensures Valid() && fresh(Repr - old(Repr)) && slots == old(slots) && nextHandle == old(nextHandle)
      ensures id in old(model).slots && model == Unfiled(old(model), id, handle)
    {
      hide Holds;
      Fields();
      HoldsOne(slots, Repr, model.slots, id);
      DropFromSlot(id, handle);
      Fields();
      Reindex(sessionmap - {handle}, nextHandle);
    }

    /// The last session to go logs the token out.
    method DropSession(handle: nat, unauthOk: bool) returns (rv: Rv)
      requires Valid()
      modifies this, Repr
      ensures Valid() && fresh(Repr - old(Repr))
      ensures (model, rv) == L.DropSession(old(model), handle)
      ensures old(IndexValid()) ==> IndexValid()
    {
      hide Holds, L.DropSession, LastLoggedOut, Unfiled, L.IndexAgrees, L.HandlesGiven;
      if IndexValid() {
        DropSessionKeepsIndex(model, handle);
      }
      DropSessionInSteps(model, handle);
      Fields();
      if handle !in sessionmap {
        return CKR_SESSION_HANDLE_INVALID;
      }
      var id := sessionmap[handle];
      var found := GetSlot(id);
      if found.Err? {
        return found.error;
      }
      HoldsOne(slots, Repr, model.slots, id);
      Unfile(id, handle);
      Fields();
      rv := LogOutIfLast(id, unauthOk);
    }

    method CloseSession(handle: nat, unauthOk: bool) returns (rv: Rv)
      requires Valid()
      modifies this, Repr
      ensures Valid() && fresh(Repr - old(Repr))
      ensures (model, rv) == L.CloseSession(old(model), handle)
    {
      hide Holds, L.DropSession;
      Fields();
      if nextHandle == 0 {
        return CKR_CRYPTOKI_NOT_INITIALIZED;
      }
      if handle !in sessionmap {
        return CKR_SESSION_HANDLE_INVALID;
      }
      var id := sessionmap[handle];
      var found := GetToken(id);
      if found.Err? {
        return found.error;
      }
      HoldsOne(slots, Repr, model.slots, id);
      ClearObjects(id, handle);
      rv := DropSession(handle, unauthOk);
    }

    method DropAllSessionsSlot(id: nat) returns (r: Result<seq<nat>, Rv>)
      requires Valid()
      modifies this, Repr
      ensures Valid() && fresh(Repr - old(Repr))
      ensures model == L.DropAllSessionsSlot(old(model), id).0
      ensures r.Ok? ==> L.DropAllSessionsSlot(old(model), id).1 == CKR_OK && id in old(model).slots
      ensures r.Ok? ==> Elements(r.value) == old(model).slots[id].sessions.Keys
      ensures r.Err? ==> L.DropAllSessionsSlot(old(model), id).1 == r.error != CKR_OK
      ensures old(IndexValid()) ==> IndexValid()
    {
      hide Holds, L.IndexAgrees, L.HandlesGiven;
      if IndexValid() {
        DropAllKeepsIndex(model, id);
      }
      Fields();
      Reindex(map h | h in sessionmap && sessionmap[h] != id :: sessionmap[h], nextHandle);
      Fields();
      var found := GetSlot(id);
      if found.Err? {
        return Err(found.error);
      }
      assert found.value in found.value.Footprint();
      var handles := EmptySlot(id);
      return Ok(handles);
    }

    method ClearObjectsOfAll(id: nat, handles: seq<nat>)
      requires Valid() && id in slots
      modifies this, Repr
      ensures Valid() && fresh(Repr - old(Repr)) && slots == old(slots)
      ensures var sl := old(model).slots[id];
              model == L.WithSlot(old(model), id, sl.(token := L.DropObjects(sl.token, handles)))
    {
      hide Holds, Without, HandlesOf;
      Fields();
      ghost var sl := model.slots[id];
      assert model.slots[id := sl] == model.slots;
      for i := 0 to |handles|
        invariant Valid() && fresh(Repr - old(Repr)) && slots == old(slots)
        invariant id in model.slots && model == L.WithSlot(old(model), id, sl.(token := model.slots[id].token))
        invariant L.DropObjects(model.slots[id].token, handles[i..]) == L.DropObjects(sl.token, handles)
      {
        assert handles[i..][0] == handles[i] && handles[i..][1..] == handles[i + 1..];
        HoldsOne(slots, Repr, model.slots, id);
        ClearObjects(id, handles[i]);
      }
    }

    method CleanUp(id: nat, handles: seq<nat>, unauthOk: bool)
      requires Valid() && id in slots
      modifies this, Repr
      ensures Valid() && fresh(Repr - old(Repr))
      ensures var sl := old(model).slots[id];
              model == L.WithSlot(old(model), id, sl.(token := LoggedOut(L.DropObjects(sl.token, handles))))
    {
      hide Holds, LoggedOut, L.DropObjects;
      HoldsOne(slots, Repr, model.slots, id);
      ClearObjectsOfAll(id, handles);
      HoldsOne(slots, Repr, model.slots, id);
      LogOutToken(id, unauthOk);
    }

    method CloseAllSessions(id: nat, unauthOk: bool) returns (rv: Rv, order: seq<nat>)
      requires Valid()
      modifies this, Repr
      ensures Valid() && fresh(Repr - old(Repr))
      ensures L.CloseAllSessions(old(model), id, order, model, rv)
    {
      hide Holds, LoggedOut, L.DropObjects;
      Fields();
      order := [];
      if nextHandle == 0 {
        return CKR_CRYPTOKI_NOT_INITIALIZED, [];
      }
      var dropped := DropAllSessionsSlot(id);
      if dropped.Err? {
        return dropped.error, [];
      }
      order := dropped.value;
      var found := GetToken(id);
      if found.Err? {
        return found.error, order;
      }
      CleanUp(id, order, unauthOk);
      return CKR_OK, order;
    }

    // ----- logging in and out

    /// The slot a session says it belongs to.
    method SlotIdOf(handle: nat) returns (r: Result<nat, Rv>)
      requires Valid()
      ensures r.Ok? ==> L.SessionOf(model, handle).Ok? && L.SessionOf(model, handle).value.slotId == r.value
      ensures r.Err? ==> L.SessionOf(model, handle) == Err(r.error)
    {
      hide Holds;
      Fields();
      if nextHandle == 0 {
        return Err(CKR_CRYPTOKI_NOT_INITIALIZED);
      }
      var session := GetSession(handle);
      if session.Err? {
        return Err(session.error);
      }
      return Ok(session.value.slotId);
    }

    method CheckLogin(id: nat, user: UserType, asked: bool) returns (rv: Rv)
      requires Valid()
      ensures rv == CKR_OK ==> id in slots
      ensures rv == LoginRefusal(L.SlotOf(model, id), user, asked)
    {
      hide Holds;
      if user == CKU_SO {
        var found := GetSlot(id);
        if found.Err? {
          return found.error;
        }
        var readOnly := found.value.HasRoSessions();
        if readOnly {
          return CKR_SESSION_READ_ONLY_EXISTS;
        }
      }
      var token := GetToken(id);
      if token.Err? {
        return token.error;
      }
      if user == CKU_CONTEXT_SPECIFIC && !asked {
        return CKR_OPERATION_NOT_INITIALIZED;
      }
      return CKR_OK;
    }

    /// The storage answers auth; asked says whether an operation of the session
    /// waits for a login of its own.
    method Login(handle: nat, user: UserType, auth: Rv, asked: bool, unauthOk: bool) returns (rv: Rv)
      requires Valid()
      modifies this, Repr
      ensures Valid() && fresh(Repr - old(Repr))
      ensures L.Login(old(model), handle, user, auth, asked, model, rv)
    {
      hide Holds, L.SlotLogin, L.Login, LoginRefusal;
      Fields();
      var id := SlotIdOf(handle);
      if id.Err? {
        SessionNeeded(model, handle, user, auth, asked);
        return id.error;
      }
      rv := CheckLogin(id.value, user, asked);
      if rv != CKR_OK {
        LoginRefused(model, handle, user, auth, asked, rv);
        return rv;
      }
      HoldsOne(slots, Repr, model.slots, id.value);
      ghost var s := model;
      ghost var sl;
      rv, sl := LogInSlot(id.value, user, auth, unauthOk);
      LoginAsked(s, handle, user, auth, asked, sl, rv);
    }

    method Logout(handle: nat, unauthOk: bool) returns (rv: Rv)
      requires Valid()
      modifies this, Repr
      ensures Valid() && fresh(Repr - old(Repr))
      ensures (model, rv) == L.Logout(old(model), handle, unauthOk)
    {
      hide Holds, L.SlotLogout;
      Fields();
      var id := SlotIdOf(handle);
      if id.Err? {
        return id.error;
      }
      var token := GetToken(id.value);
      if token.Err? {
        return token.error;
      }
      HoldsOne(slots, Repr, model.slots, id.value);
      rv := LogOutSlot(id.value, unauthOk);
    }
  }
}
