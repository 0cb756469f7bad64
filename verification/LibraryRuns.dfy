/// What holds in every state that any run of the library's session calls can
/// reach, and what cannot happen in one.
module LibraryRuns {
  import opened Common
  import opened Library
  import opened Objects
  import opened Sessions
  import opened Slots
  import opened TokenCalls
  import opened Tokens

  datatype Event =
    | Start
    | AddSlot(id: nat, token: TokenState)
    | Stop
    | Open(id: nat, flags: SessionFlags)
    | Close(h: nat)
    | CloseAll(id: nat)
    | LogIn(h: nat, user: UserType, auth: Rv, asked: bool)
    | LogOut(h: nat, unauthOk: bool)
    | SetUpToken(id: nat, setup: Setup, builtins: seq<Object>)
    | ChangePin(h: nat, empty: bool, auth: Rv, set_: Rv)
    | Use(h: nat, call: Call)

  /// A token as a new slot has it.
  ghost predicate NewToken(t: TokenState) {
    TokenInv(t) && t.logged == CK_UNAVAILABLE_INFORMATION && OnlyBuiltins(t)
  }

  ghost predicate Step(s: LibraryState, e: Event, s2: LibraryState) {
    match e
    case Start => s2 == if s.next == 0 then STARTED else s
    case AddSlot(id, token) => s.next != 0 && NewToken(token) && s2 == AddedSlot(s, id, token).0
    case Stop => s2 == STOPPED
    case Open(id, flags) => s2 == OpenSession(s, id, flags).0
    case Close(h) => s2 == CloseSession(s, h).0
    case CloseAll(id) => exists order, rv :: CloseAllSessions(s, id, order, s2, rv)
    case LogIn(h, user, auth, asked) => exists rv :: Login(s, h, user, auth, asked, s2, rv)
    case LogOut(h, unauthOk) => s2 == Logout(s, h, unauthOk).0
    case SetUpToken(id, setup, builtins) =>
      (forall o :: o in builtins ==> o.WellFormed()) && s2 == InitToken(s, id, setup, builtins).0
    case ChangePin(h, empty, auth, set_) => s2 == SetPin(s, h, empty, auth, set_).0
    case Use(h, call) =>
      Proper(call) &&
      match ReadySlot(OwnSlot(s, h))
      case Err(_) => s2 == s
      case Ok(sl) =>
        exists t2 :: Called(sl.token, h, call, t2) && s2 == WithSlot(s, SessionOf(s, h).value.slotId, sl.(token := t2))
  }

  ghost predicate Run(states: seq<LibraryState>, events: seq<Event>) {
    && |states| == |events| + 1
    && forall i :: 0 <= i < |events| ==> Step(states[i], events[i], states[i + 1])
  }

  // ----- the invariant

  /// Replacing what a slot holds, sessions still under the same handles.
  lemma ReplaceKeepsInv(s: LibraryState, id: nat, sl: SlotState)
    requires LibInv(s) && id in s.slots && sl.sessions.Keys == s.slots[id].sessions.Keys && SlotInv(id, sl)
    ensures LibInv(WithSlot(s, id, sl))
  {
    ReplaceKeepsIndex(s, id, sl);
    ReplaceKeepsSlots(s.slots, id, sl);
  }

  lemma ReplaceKeepsIndex(s: LibraryState, id: nat, sl: SlotState)
    requires IndexAgrees(s) && id in s.slots && sl.sessions.Keys == s.slots[id].sessions.Keys
    ensures IndexAgrees(WithSlot(s, id, sl))
  {
    assert forall h :: h in sl.sessions <==> h in s.slots[id].sessions;
  }

  lemma ReplaceKeepsSlots(slots: map<nat, SlotState>, id: nat, sl: SlotState)
    requires SlotsInv(slots) && SlotInv(id, sl)
    ensures SlotsInv(slots[id := sl])
  {
    var slots2 := slots[id := sl];
    forall i | i in slots2
      ensures SlotInv(i, slots2[i])
    {
      if i != id {
        assert slots2[i] == slots[i];
      }
    }
  }

  /// The slot a session names is the one the index gives.
  lemma OwnSlotIsIndexed(s: LibraryState, h: nat)
    requires LibInv(s)
    ensures OwnSlot(s, h).Ok? <==> h in s.sessionmap && s.next != 0
    ensures OwnSlot(s, h).Ok? ==>
              var id := s.sessionmap[h];
              id in s.slots && h in s.slots[id].sessions && OwnSlot(s, h).value == s.slots[id]
              && SessionOf(s, h).value.slotId == id && SlotInv(id, s.slots[id])
  {
    if h in s.sessionmap && s.next != 0 {
      assert SlotInv(s.sessionmap[h], s.slots[s.sessionmap[h]]);
    }
  }

  lemma OpenKeepsInv(s: LibraryState, id: nat, flags: SessionFlags)
    requires LibInv(s)
    ensures LibInv(OpenSession(s, id, flags).0)
  {
    var (s2, r) := OpenSession(s, id, flags);
    if r.Ok? {
      var v := s2.slots[id].sessions[s.next];
      var sl := s.slots[id].(sessions := s.slots[id].sessions[s.next := v]);
      assert s2 == LibraryState(s.slots[id := sl], s.sessionmap[s.next := id], s.next + 1);
      OpenKeepsIndex(s, id, v);
      OpenKeepsSlot(id, s.slots[id], s.next, v);
      ReplaceKeepsSlots(s.slots, id, sl);
    }
  }

  lemma OpenKeepsSlot(id: nat, sl: SlotState, h: nat, v: SessionValue)
    requires SlotInv(id, sl) && sl.token.initialized && WellFormed(v) && v.slotId == id
    ensures SlotInv(id, sl.(sessions := sl.sessions[h := v]))
  {
  }

  lemma OpenKeepsIndex(s: LibraryState, id: nat, v: SessionValue)
    requires IndexAgrees(s) && id in s.slots && s.next !in s.sessionmap
    ensures
      var sl := s.slots[id];
      IndexAgrees(LibraryState(s.slots[id := sl.(sessions := sl.sessions[s.next := v])],
                               s.sessionmap[s.next := id], s.next + 1))
  {
  }

  lemma DropKeepsIndex(s: LibraryState, h: nat, token: TokenState)
    requires IndexAgrees(s) && h in s.sessionmap
    ensures
      var id := s.sessionmap[h];
      IndexAgrees(LibraryState(s.slots[id := SlotState(s.slots[id].sessions - {h}, token)], s.sessionmap - {h}, s.next))
  {
  }

  /// What closing a session leaves of its slot.
  function Closed(sl: SlotState, h: nat): SlotState {
    var cleaned := Without(sl.token, HandlesOf(sl.token.sessionObjects, h));
    var left := sl.sessions - {h};
    SlotState(left, if left == map[] then LoggedOut(cleaned) else cleaned)
  }

  lemma ClosedKeepsInv(id: nat, sl: SlotState, h: nat)
    requires SlotInv(id, sl) && h != INVALID_HANDLE && sl.token.initialized
    ensures SlotInv(id, Closed(sl, h))
  {
    var cleaned := Without(sl.token, HandlesOf(sl.token.sessionObjects, h));
    CleanedObjects(sl.token, h);
    LogoutKeepsInv(cleaned);
    ClosedOwned(sl, h, cleaned, Closed(sl, h).token);
  }

  lemma CleanedObjects(t: TokenState, session: nat)
    requires TokenInv(t) && session != INVALID_HANDLE
    ensures
      var cleaned := Without(t, HandlesOf(t.sessionObjects, session));
      && TokenInv(cleaned)
      && (forall k :: k in cleaned.sessionObjects ==>
            k in t.sessionObjects && cleaned.sessionObjects[k] == t.sessionObjects[k]
            && t.sessionObjects[k].session != session)
  {
    SessionCleanUp(t, session);
  }

  lemma ClosedOwned(sl: SlotState, h: nat, cleaned: TokenState, after: TokenState)
    requires ObjectsOwned(sl)
    requires forall k :: k in cleaned.sessionObjects ==>
      k in sl.token.sessionObjects && cleaned.sessionObjects[k] == sl.token.sessionObjects[k]
      && sl.token.sessionObjects[k].session != h
    requires forall k :: k in after.sessionObjects ==>
      k in cleaned.sessionObjects && after.sessionObjects[k] == cleaned.sessionObjects[k]
    ensures ObjectsOwned(SlotState(sl.sessions - {h}, after))
  {
  }

  lemma LogoutKeepsInv(t: TokenState)
    requires TokenInv(t)
    ensures TokenInv(LoggedOut(t)) && LoggedOut(t).logged == CK_UNAVAILABLE_INFORMATION
    ensures LoggedOut(t).sessionObjects.Keys <= t.sessionObjects.Keys
    ensures forall k :: k in LoggedOut(t).sessionObjects ==> LoggedOut(t).sessionObjects[k] == t.sessionObjects[k]
  {
    if LoggedIn(t) {
      LogoutCleanUp(t);
    }
  }

  lemma CloseResult(s: LibraryState, h: nat)
    requires IndexAgrees(s) && HandlesGiven(s)
    requires h in s.sessionmap ==> s.slots[s.sessionmap[h]].token.initialized
    ensures
      var (s2, rv) := CloseSession(s, h);
      if rv != CKR_OK then s2 == s && h !in s.sessionmap
      else h in s.sessionmap && s.sessionmap[h] in s.slots && h in s.slots[s.sessionmap[h]].sessions
           && s2 == LibraryState(s.slots[s.sessionmap[h] := Closed(s.slots[s.sessionmap[h]], h)],
                                 s.sessionmap - {h}, s.next)
  {
    if h in s.sessionmap {
      var id := s.sessionmap[h];
      var sl := s.slots[id];
      var cleaned := sl.(token := Without(sl.token, HandlesOf(sl.token.sessionObjects, h)));
      DropResult(WithSlot(s, id, cleaned), h);
      assert s.slots[id := cleaned][id := Closed(sl, h)] == s.slots[id := Closed(sl, h)];
    }
  }

  lemma DropResult(s: LibraryState, h: nat)
    requires h in s.sessionmap && s.sessionmap[h] in s.slots && s.next != 0
    requires s.slots[s.sessionmap[h]].token.initialized
    ensures
      var id := s.sessionmap[h];
      var left := s.slots[id].sessions - {h};
      var t := s.slots[id].token;
      DropSession(s, h) ==
        (LibraryState(s.slots[id := SlotState(left, if left == map[] then LoggedOut(t) else t)],
                      s.sessionmap - {h}, s.next), CKR_OK)
  {
    var id := s.sessionmap[h];
    var sl := s.slots[id];
    var left := sl.sessions - {h};
    assert s.slots[id := SlotState(left, sl.token)][id := SlotState(left, LoggedOut(sl.token))] ==
           s.slots[id := SlotState(left, LoggedOut(sl.token))];
  }

  lemma CloseKeepsInv(s: LibraryState, h: nat)
    requires LibInv(s)
    ensures LibInv(CloseSession(s, h).0)
  {
    if h in s.sessionmap {
      HasInitializedToken(s, h);
    }
    CloseResult(s, h);
    var (s2, rv) := CloseSession(s, h);
    if rv == CKR_OK {
      var id := s.sessionmap[h];
      ClosedKeepsInv(id, s.slots[id], h);
      ReplaceKeepsSlots(s.slots, id, Closed(s.slots[id], h));
      DropKeepsIndex(s, h, Closed(s.slots[id], h).token);
    }
  }

  lemma HasInitializedToken(s: LibraryState, h: nat)
    requires LibInv(s) && h in s.sessionmap
    ensures s.slots[s.sessionmap[h]].token.initialized && SlotInv(s.sessionmap[h], s.slots[s.sessionmap[h]])
  {
    assert SlotInv(s.sessionmap[h], s.slots[s.sessionmap[h]]);
  }

  // ----- closing all sessions of a slot

  lemma {:induction false} DropObjectsResult(t: TokenState, order: seq<nat>)
    requires TokenInv(t) && forall h :: h in order ==> h != INVALID_HANDLE
    ensures
      var after := DropObjects(t, order);
      && TokenInv(after) && after.logged == t.logged && after.initialized == t.initialized
      && (forall k :: k in after.sessionObjects ==>
            k in t.sessionObjects && after.sessionObjects[k] == t.sessionObjects[k]
            && t.sessionObjects[k].session !in order)
    decreases |order|
  {
    if order != [] {
      assert order[0] in order;
      CleanedObjects(t, order[0]);
      var rest := order[1..];
      assert forall h :: h in order <==> h == order[0] || h in rest;
      DropObjectsResult(Without(t, HandlesOf(t.sessionObjects, order[0])), rest);
    }
  }

  /// What closing all sessions leaves of a slot.
  function AllClosed(sl: SlotState, order: seq<nat>): SlotState {
    SlotState(map[], LoggedOut(DropObjects(sl.token, order)))
  }

  lemma AllClosedKeepsInv(id: nat, sl: SlotState, order: seq<nat>)
    requires SlotInv(id, sl) && INVALID_HANDLE !in sl.sessions
    requires forall h :: h in order <==> h in sl.sessions
    ensures SlotInv(id, AllClosed(sl, order)) && OnlyBuiltins(AllClosed(sl, order).token)
  {
    DropObjectsResult(sl.token, order);
    var dropped := DropObjects(sl.token, order);
    LogoutKeepsInv(dropped);
    var after := LoggedOut(dropped);
    forall k | k in after.sessionObjects
      ensures after.sessionObjects[k].IsBuiltin()
    {
      assert k in dropped.sessionObjects && dropped.sessionObjects[k].session !in order;
    }
  }

  function Unindexed(sessionmap: map<nat, nat>, id: nat): map<nat, nat> {
    map h | h in sessionmap && sessionmap[h] != id :: sessionmap[h]
  }

  lemma CloseAllKeepsIndex(s: LibraryState, id: nat, token: TokenState)
    requires IndexAgrees(s)
    ensures IndexAgrees(LibraryState(s.slots[id := SlotState(map[], token)], Unindexed(s.sessionmap, id), s.next))
  {
    var s2 := LibraryState(s.slots[id := SlotState(map[], token)], Unindexed(s.sessionmap, id), s.next);
    forall h | h in s2.sessionmap
      ensures s2.sessionmap[h] in s2.slots && h in s2.slots[s2.sessionmap[h]].sessions
    {
      assert h in s.sessionmap && s.sessionmap[h] != id;
    }
    forall i, h | i in s2.slots && h in s2.slots[i].sessions
      ensures h in s2.sessionmap && s2.sessionmap[h] == i
    {
      assert i in s.slots && h in s.slots[i].sessions;
    }
  }

  lemma CloseAllResult(s: LibraryState, id: nat, order: seq<nat>, s2: LibraryState, rv: Rv)
    requires IndexAgrees(s) && HandlesGiven(s) && CloseAllSessions(s, id, order, s2, rv)
    requires id in s.slots && s.slots[id].sessions != map[] ==> s.slots[id].token.initialized
    ensures
      if rv != CKR_OK then s2 == s
      else id in s.slots && s.next != 0 && (forall h :: h in order <==> h in s.slots[id].sessions)
           && s2 == LibraryState(s.slots[id := AllClosed(s.slots[id], order)], Unindexed(s.sessionmap, id), s.next)
  {
    if s.next != 0 {
      if id !in s.slots {
        assert Unindexed(s.sessionmap, id) == s.sessionmap;
      } else if !s.slots[id].token.initialized {
        assert Unindexed(s.sessionmap, id) == s.sessionmap;
        assert s.slots[id := s.slots[id]] == s.slots;
      } else {
        assert s.slots[id := s.slots[id].(sessions := map[])][id := AllClosed(s.slots[id], order)] ==
               s.slots[id := AllClosed(s.slots[id], order)];
      }
    }
  }

  lemma SlotFacts(s: LibraryState, id: nat)
    requires LibInv(s) && id in s.slots
    ensures SlotInv(id, s.slots[id])
    ensures s.slots[id].sessions != map[] ==> s.slots[id].token.initialized
  {
  }

  lemma RealHandles(s: LibraryState, id: nat)
    requires IndexAgrees(s) && HandlesGiven(s) && id in s.slots
    ensures INVALID_HANDLE !in s.slots[id].sessions
  {
    forall h | h in s.slots[id].sessions
      ensures h >= 1
    {
      assert h in s.sessionmap;
    }
  }

  lemma CloseAllKeepsInv(s: LibraryState, id: nat, order: seq<nat>, s2: LibraryState, rv: Rv)
    requires LibInv(s) && CloseAllSessions(s, id, order, s2, rv)
    ensures LibInv(s2)
  {
    if id in s.slots {
      SlotFacts(s, id);
    }
    CloseAllResult(s, id, order, s2, rv);
    if rv == CKR_OK {
      var sl := AllClosed(s.slots[id], order);
      assert IndexAgrees(s2) && HandlesGiven(s2) by {
        CloseAllKeepsIndex(s, id, sl.token);
      }
      assert SlotsInv(s2.slots) by {
        RealHandles(s, id);
        AllClosedKeepsInv(id, s.slots[id], order);
        ReplaceKeepsSlots(s.slots, id, sl);
      }
    }
  }

  // ----- logging in and out

  lemma MoveKeepsSlot(id: nat, sl: SlotState, sessions: SessionMap, token: TokenState)
    requires SlotInv(id, sl) && sl.sessions != map[]
    requires AllWellFormed(sessions) && sessions.Keys == sl.sessions.Keys
    requires forall h :: h in sessions ==> sessions[h].slotId == sl.sessions[h].slotId
    requires TokenInv(token) && token.initialized == sl.token.initialized
    requires forall k :: k in token.sessionObjects ==>
      k in sl.token.sessionObjects && token.sessionObjects[k] == sl.token.sessionObjects[k]
    ensures SlotInv(id, SlotState(sessions, token))
  {
    var some :| some in sl.sessions;
    assert some in sessions;
  }

  lemma PublicAgainKeepsSlot(id: nat, sl: SlotState)
    requires SlotInv(id, sl) && sl.sessions != map[]
    ensures SlotInv(id, PublicAgain(sl)) && PublicAgain(sl).sessions.Keys == sl.sessions.Keys
  {
    LogoutKeepsInv(sl.token);
    AllMovedKeepsModes(sl.sessions, CK_UNAVAILABLE_INFORMATION);
    MoveKeepsSlot(id, sl, PublicAgain(sl).sessions, PublicAgain(sl).token);
  }

  lemma AllMovedKeepsModes(sessions: SessionMap, user: UserType)
    requires AllWellFormed(sessions)
    ensures
      var after := AllMoved(sessions, user);
      && AllWellFormed(after) && after.Keys == sessions.Keys
      && forall h :: h in after ==> after[h].slotId == sessions[h].slotId && after[h].flags == sessions[h].flags
  {
  }

  lemma AfterLoginKeepsSlot(id: nat, sl: SlotState, user: UserType, auth: Rv)
    requires SlotInv(id, sl) && sl.sessions != map[]
    ensures SlotInv(id, sl.(token := AfterLogin(sl.token, user, auth)))
  {
    MoveKeepsSlot(id, sl, sl.sessions, AfterLogin(sl.token, user, auth));
  }

  lemma WalkKeepsSlot(id: nat, sl: SlotState, user: UserType, done: set<nat>, after: SessionMap, rv: Rv)
    requires SlotInv(id, sl) && sl.sessions != map[] && Walked(sl.sessions, user, done, after, rv)
    ensures SlotInv(id, SlotState(after, sl.token)) && after.Keys == sl.sessions.Keys && after != map[]
  {
    WalkKeepsModes(sl.sessions, user, done, after, rv);
    assert after.Keys == sl.sessions.Keys && sl.sessions.Keys != {};
    MoveKeepsSlot(id, sl, after, sl.token);
  }

  lemma LoginKeepsSlot(id: nat, sl: SlotState, user: UserType, auth: Rv, sl2: SlotState, rv: Rv)
    requires SlotInv(id, sl) && sl.sessions != map[] && SlotLogin(sl, user, auth, sl2, rv)
    ensures SlotInv(id, sl2) && sl2.sessions.Keys == sl.sessions.Keys
  {
    var token := AfterLogin(sl.token, user, auth);
    var in_ := sl.(token := token);
    AfterLoginKeepsSlot(id, sl, user, auth);
    var result := LoginRv(sl.token, user, auth);
    if user == CKU_CONTEXT_SPECIFIC {
      if result == CKR_PIN_LOCKED {
        PublicAgainKeepsSlot(id, in_);
      }
    } else if result == CKR_OK {
      var done, after :| Walked(sl.sessions, user, done, after, rv)
        && sl2 == if rv == CKR_OK then SlotState(after, token) else PublicAgain(SlotState(after, token));
      WalkKeepsSlot(id, in_, user, done, after, rv);
      if rv != CKR_OK {
        PublicAgainKeepsSlot(id, SlotState(after, token));
      }
    }
  }

  lemma LogoutKeepsSlot(id: nat, sl: SlotState, unauthOk: bool)
    requires SlotInv(id, sl) && sl.sessions != map[]
    ensures SlotInv(id, SlotLogout(sl, unauthOk).0) && SlotLogout(sl, unauthOk).0.sessions.Keys == sl.sessions.Keys
  {
    PublicAgainKeepsSlot(id, sl);
    LogoutKeepsInv(sl.token);
    MoveKeepsSlot(id, sl, sl.sessions, LoggedOut(sl.token));
  }

  lemma LoginKeepsInv(s: LibraryState, h: nat, user: UserType, auth: Rv, asked: bool, s2: LibraryState, rv: Rv)
    requires LibInv(s) && Login(s, h, user, auth, asked, s2, rv)
    ensures LibInv(s2)
  {
    OwnSlotIsIndexed(s, h);
    if OwnSlot(s, h).Ok? && s2 != s {
      var id := s.sessionmap[h];
      var sl := s.slots[id];
      var sl2 :| s2 == WithSlot(s, id, sl2) && SlotLogin(sl, user, auth, sl2, rv);
      LoginKeepsSlot(id, sl, user, auth, sl2, rv);
      ReplaceKeepsInv(s, id, sl2);
    }
  }

  lemma LogoutStepKeepsInv(s: LibraryState, h: nat, unauthOk: bool)
    requires LibInv(s)
    ensures LibInv(Logout(s, h, unauthOk).0)
  {
    OwnSlotIsIndexed(s, h);
    if OwnSlot(s, h).Ok? {
      var id := s.sessionmap[h];
      LogoutKeepsSlot(id, s.slots[id], unauthOk);
      ReplaceKeepsInv(s, id, SlotLogout(s.slots[id], unauthOk).0);
    }
  }

  // ----- the token behind a slot

  lemma SetUpKeepsInv(s: LibraryState, id: nat, setup: Setup, builtins: seq<Object>)
    requires LibInv(s) && forall o :: o in builtins ==> o.WellFormed()
    ensures LibInv(InitToken(s, id, setup, builtins).0)
  {
    if SlotOf(s, id).Ok? && s.slots[id].sessions == map[] {
      var sl := s.slots[id];
      assert SlotInv(id, sl);
      SetUpStartsOver(sl.token, setup, builtins);
      var sl2 := sl.(token := SetUp(sl.token, setup, builtins).0);
      assert SlotInv(id, sl2);
      ReplaceKeepsInv(s, id, sl2);
    }
  }

  lemma SetPinKeepsSlot(id: nat, sl: SlotState, auth: Rv)
    requires SlotInv(id, sl) && sl.sessions != map[]
    ensures SlotInv(id, sl.(token := LoggedOut(AfterLogin(sl.token, CKU_USER, auth))))
  {
    AfterLoginKeepsSlot(id, sl, CKU_USER, auth);
    var in_ := sl.(token := AfterLogin(sl.token, CKU_USER, auth));
    LogoutKeepsInv(in_.token);
    MoveKeepsSlot(id, in_, in_.sessions, LoggedOut(in_.token));
  }

  lemma SetPinResult(s: LibraryState, h: nat, empty: bool, auth: Rv, set_: Rv)
    requires OwnSlot(s, h).Ok? ==>
               SessionOf(s, h).value.slotId == s.sessionmap[h] && OwnSlot(s, h).value == s.slots[s.sessionmap[h]]
    ensures
      var s2 := SetPin(s, h, empty, auth, set_).0;
      s2 == s || (OwnSlot(s, h).Ok? &&
                  var sl := s.slots[s.sessionmap[h]];
                  s2 == WithSlot(s, s.sessionmap[h], sl.(token := LoggedOut(AfterLogin(sl.token, CKU_USER, auth)))))
  {
  }

  lemma SetPinKeepsInv(s: LibraryState, h: nat, empty: bool, auth: Rv, set_: Rv)
    requires LibInv(s)
    ensures LibInv(SetPin(s, h, empty, auth, set_).0)
  {
    OwnSlotIsIndexed(s, h);
    SetPinResult(s, h, empty, auth, set_);
    if OwnSlot(s, h).Ok? {
      var id := s.sessionmap[h];
      SetPinKeepsSlot(id, s.slots[id], auth);
      ReplaceKeepsInv(s, id, s.slots[id].(token := LoggedOut(AfterLogin(s.slots[id].token, CKU_USER, auth))));
    }
  }

  lemma UseKeepsInv(s: LibraryState, h: nat, t2: TokenState)
    requires LibInv(s) && h in s.sessionmap && s.sessionmap[h] in s.slots
    requires Kept(s.slots[s.sessionmap[h]].token, h, t2)
    ensures LibInv(WithSlot(s, s.sessionmap[h], s.slots[s.sessionmap[h]].(token := t2)))
  {
    var id := s.sessionmap[h];
    var sl := s.slots[id];
    assert SlotInv(id, sl) && h in sl.sessions;
    assert ObjectsOwned(sl.(token := t2));
    ReplaceKeepsInv(s, id, sl.(token := t2));
  }

  lemma CallKeepsInv(s: LibraryState, h: nat, call: Call, s2: LibraryState)
    requires LibInv(s) && Step(s, Use(h, call), s2)
    ensures LibInv(s2)
  {
    OwnSlotIsIndexed(s, h);
    if ReadySlot(OwnSlot(s, h)).Ok? {
      var t := s.slots[s.sessionmap[h]].token;
      var t2 :| Called(t, h, call, t2)
        && s2 == WithSlot(s, s.sessionmap[h], s.slots[s.sessionmap[h]].(token := t2));
      CallKeeps(t, h, call, t2);
      UseKeepsInv(s, h, t2);
    }
  }

  lemma AddSlotKeepsIndex(s: LibraryState, id: nat, token: TokenState)
    requires IndexAgrees(s) && id !in s.slots
    ensures IndexAgrees(WithSlot(s, id, SlotState(map[], token)))
  {
  }

  lemma NewSlotInv(id: nat, token: TokenState)
    requires NewToken(token)
    ensures SlotInv(id, SlotState(map[], token))
  {
  }

  lemma AddSlotKeepsInv(s: LibraryState, id: nat, token: TokenState)
    requires LibInv(s) && s.next != 0 && NewToken(token)
    ensures LibInv(AddedSlot(s, id, token).0)
  {
    if id !in s.slots {
      var sl := SlotState(map[], token);
      assert IndexAgrees(WithSlot(s, id, sl)) by {
        AddSlotKeepsIndex(s, id, token);
      }
      assert SlotsInv(WithSlot(s, id, sl).slots) by {
        NewSlotInv(id, token);
        ReplaceKeepsSlots(s.slots, id, sl);
      }
    }
  }

  /// Every step keeps the invariant.
  lemma StepKeepsInv(s: LibraryState, e: Event, s2: LibraryState)
    requires LibInv(s) && Step(s, e, s2)
    ensures LibInv(s2)
  {
    match e {
      case Start =>
      case AddSlot(id, token) => AddSlotKeepsInv(s, id, token);
      case Stop =>
      case Open(id, flags) => OpenKeepsInv(s, id, flags);
      case Close(h) => CloseKeepsInv(s, h);
      case CloseAll(id) =>
        var order, rv :| CloseAllSessions(s, id, order, s2, rv);
        CloseAllKeepsInv(s, id, order, s2, rv);
      case LogIn(h, user, auth, asked) =>
        var rv :| Login(s, h, user, auth, asked, s2, rv);
        LoginKeepsInv(s, h, user, auth, asked, s2, rv);
      case LogOut(h, unauthOk) => LogoutStepKeepsInv(s, h, unauthOk);
      case SetUpToken(id, setup, builtins) => SetUpKeepsInv(s, id, setup, builtins);
      case ChangePin(h, empty, auth, set_) => SetPinKeepsInv(s, h, empty, auth, set_);
      case Use(h, call) => CallKeepsInv(s, h, call, s2);
    }
  }

  /// Every state a run reaches from the stopped library satisfies it.
  lemma {:induction false} RunKeepsInv(states: seq<LibraryState>, events: seq<Event>, n: nat)
    requires Run(states, events) && states[0] == STOPPED && n < |states|
    ensures LibInv(states[n])
  {
    if n > 0 {
      RunKeepsInv(states, events, n - 1);
      StepKeepsInv(states[n - 1], events[n - 1], states[n]);
    }
  }
}
