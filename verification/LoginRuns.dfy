/// Consequences for every run: the login of a token and the states of its
/// sessions go together, and what that makes impossible.
module LoginRuns {
  import opened Common
  import opened Library
  import opened LibraryRuns
  import opened Objects
  import opened SessionRuns
  import opened Sessions
  import opened Slots
  import opened TokenCalls
  import opened Tokens

  /// A session's level under a login: the same, except that a session opened
  /// while the security officer is logged in starts at the user's level.
  predicate LevelFits(logged: UserType, v: SessionValue) {
    match logged
    case CK_UNAVAILABLE_INFORMATION => Level(v.state) == CK_UNAVAILABLE_INFORMATION
    case CKU_USER => Level(v.state) == CKU_USER
    case CKU_SO => v.flags.rw && Level(v.state) != CK_UNAVAILABLE_INFORMATION
    case _ => false
  }

  ghost predicate LevelsFit(logged: UserType, sessions: SessionMap) {
    forall h :: h in sessions ==> LevelFits(logged, sessions[h])
  }

  ghost predicate Coherent(sl: SlotState) { LevelsFit(sl.token.logged, sl.sessions) }

  ghost predicate AllCoherent(slots: map<nat, SlotState>) {
    forall id :: id in slots ==> Coherent(slots[id])
  }

  // ----- one slot

  lemma PublicAgainCoherent(sl: SlotState)
    requires AllWellFormed(sl.sessions) && LoginLevel(sl.token.logged)
    ensures Coherent(PublicAgain(sl)) && AllAt(PublicAgain(sl).sessions, CK_UNAVAILABLE_INFORMATION)
    ensures PublicAgain(sl).token.logged == CK_UNAVAILABLE_INFORMATION
  {
    forall h | h in sl.sessions
      ensures Level(Moved(sl.sessions[h], CK_UNAVAILABLE_INFORMATION).state) == CK_UNAVAILABLE_INFORMATION
    {
      assert WellFormed(sl.sessions[h]);
    }
  }

  /// All sessions at the level of a login fit it.
  lemma LevelFitsLogin(sessions: SessionMap, user: UserType)
    requires AllWellFormed(sessions) && AllAt(sessions, user) && LoginLevel(user)
    ensures LevelsFit(user, sessions)
  {
    forall h | h in sessions
      ensures LevelFits(user, sessions[h])
    {
      assert WellFormed(sessions[h]);
    }
  }

  /// Once the token accepts a login no session can refuse it: the branch that
  /// rolls the login back is never taken.
  lemma LoginNeverRollsBack(sl: SlotState, user: UserType, auth: Rv, sl2: SlotState, rv: Rv)
    requires AllWellFormed(sl.sessions) && sl.sessions != map[] && Coherent(sl)
    requires user == CKU_USER || (user == CKU_SO && !HasReadOnly(sl.sessions))
    requires SlotLogin(sl, user, auth, sl2, rv)
    ensures rv == LoginRv(sl.token, user, auth)
    ensures if rv == CKR_OK then AllAt(sl2.sessions, user) && sl2.token.logged == user && Coherent(sl2)
              && AllMoved(sl2.sessions, CK_UNAVAILABLE_INFORMATION) == sl.sessions
            else sl2 == sl
  {
    if LoginRv(sl.token, user, auth) == CKR_OK {
      var token := AfterLogin(sl.token, user, auth);
      var done, after :| Walked(sl.sessions, user, done, after, rv)
        && sl2 == if rv == CKR_OK then SlotState(after, token) else PublicAgain(SlotState(after, token));
      LoginMovesAll(sl.sessions, user, done, after, rv);
      LevelFitsLogin(after, user);
    }
  }

  /// Logging in and out again gives every session the state it had.
  lemma LogoutUndoesLogin(sl: SlotState, user: UserType, auth: Rv, sl2: SlotState)
    requires AllWellFormed(sl.sessions) && sl.sessions != map[] && Coherent(sl)
    requires user == CKU_USER || (user == CKU_SO && !HasReadOnly(sl.sessions))
    requires SlotLogin(sl, user, auth, sl2, CKR_OK)
    ensures
      var (sl3, rv) := SlotLogout(sl2, true);
      rv == CKR_OK && sl3.sessions == sl.sessions && sl3.token.logged == CK_UNAVAILABLE_INFORMATION
  {
    LoginNeverRollsBack(sl, user, auth, sl2, CKR_OK);
  }

  lemma SlotLoginKeepsCoherent(sl: SlotState, user: UserType, auth: Rv, sl2: SlotState, rv: Rv)
    requires AllWellFormed(sl.sessions) && sl.sessions != map[] && Coherent(sl) && LoginLevel(sl.token.logged)
    requires user == CKU_SO ==> !HasReadOnly(sl.sessions)
    requires SlotLogin(sl, user, auth, sl2, rv)
    ensures Coherent(sl2)
  {
    if user == CKU_USER || user == CKU_SO {
      RealLoginKeepsCoherent(sl, user, auth, sl2, rv);
    } else if user == CKU_CONTEXT_SPECIFIC {
      ContextLoginKeepsCoherent(sl, auth, sl2, rv);
    } else {
      OtherLoginRefused(sl, user, auth, sl2, rv);
    }
  }

  lemma RealLoginKeepsCoherent(sl: SlotState, user: UserType, auth: Rv, sl2: SlotState, rv: Rv)
    requires AllWellFormed(sl.sessions) && sl.sessions != map[] && Coherent(sl)
    requires user == CKU_USER || (user == CKU_SO && !HasReadOnly(sl.sessions))
    requires SlotLogin(sl, user, auth, sl2, rv)
    ensures Coherent(sl2)
  {
    LoginNeverRollsBack(sl, user, auth, sl2, rv);
  }

  lemma OtherLoginRefused(sl: SlotState, user: UserType, auth: Rv, sl2: SlotState, rv: Rv)
    requires user.CKU_OTHER? || user.CK_UNAVAILABLE_INFORMATION?
    requires SlotLogin(sl, user, auth, sl2, rv)
    ensures sl2 == sl && rv == CKR_USER_TYPE_INVALID
  {
  }

  lemma ContextLoginKeepsCoherent(sl: SlotState, auth: Rv, sl2: SlotState, rv: Rv)
    requires AllWellFormed(sl.sessions) && Coherent(sl) && LoginLevel(sl.token.logged)
    requires SlotLogin(sl, CKU_CONTEXT_SPECIFIC, auth, sl2, rv)
    ensures Coherent(sl2)
  {
    PublicAgainCoherent(sl);
    assert sl2 == sl || sl2 == PublicAgain(sl);
  }

  /// When the storage fails to log out, the sessions are not told: with nobody
  /// logged in any more their states are wrong, and exactly then.
  lemma LogoutCoherentIfStorageAgrees(sl: SlotState, unauthOk: bool)
    requires AllWellFormed(sl.sessions) && sl.sessions != map[] && Coherent(sl) && LoggedIn(sl.token)
    ensures Coherent(SlotLogout(sl, unauthOk).0) <==> unauthOk
  {
    PublicAgainCoherent(sl);
    if !unauthOk {
      var h :| h in sl.sessions;
      assert LevelFits(sl.token.logged, sl.sessions[h]);
      assert !LevelFits(CK_UNAVAILABLE_INFORMATION, sl.sessions[h]);
    }
  }

  /// After such a failure of a user's logout the security officer, though
  /// accepted by the token, is rolled back.
  lemma FailedLogoutBlocksOfficer(sl: SlotState, sl2: SlotState, rv: Rv)
    requires AllWellFormed(sl.sessions) && sl.sessions != map[] && Coherent(sl) && sl.token.logged == CKU_USER
    requires SlotLogin(SlotLogout(sl, false).0, CKU_SO, CKR_OK, sl2, rv)
    ensures rv == CKR_USER_ANOTHER_ALREADY_LOGGED_IN
    ensures sl2.token.logged == CK_UNAVAILABLE_INFORMATION && Coherent(sl2)
  {
    OfficerRolledBack(sl.sessions, LoggedOut(sl.token), sl2, rv);
  }

  lemma OfficerRolledBack(sessions: SessionMap, token: TokenState, sl2: SlotState, rv: Rv)
    requires AllWellFormed(sessions) && sessions != map[] && LevelsFit(CKU_USER, sessions)
    requires token.logged == CK_UNAVAILABLE_INFORMATION
    requires SlotLogin(SlotState(sessions, token), CKU_SO, CKR_OK, sl2, rv)
    ensures rv == CKR_USER_ANOTHER_ALREADY_LOGGED_IN
    ensures sl2.token.logged == CK_UNAVAILABLE_INFORMATION && Coherent(sl2)
  {
    var in_ := token.(logged := CKU_SO);
    var done, after :| Walked(sessions, CKU_SO, done, after, rv)
      && sl2 == if rv == CKR_OK then SlotState(after, in_) else PublicAgain(SlotState(after, in_));
    OfficerRefused(sessions, done, after, rv);
    PublicAgainCoherent(SlotState(after, in_));
  }

  lemma OfficerRefused(before: SessionMap, done: set<nat>, after: SessionMap, rv: Rv)
    requires AllWellFormed(before) && before != map[] && LevelsFit(CKU_USER, before)
    requires Walked(before, CKU_SO, done, after, rv)
    ensures rv == CKR_USER_ANOTHER_ALREADY_LOGGED_IN && AllWellFormed(after)
  {
    forall h | h in before
      ensures ChangeRv(before[h].state, CKU_SO) == CKR_USER_ANOTHER_ALREADY_LOGGED_IN
    {
      assert WellFormed(before[h]) && LevelFits(CKU_USER, before[h]);
    }
    var some :| some in before;
    WalkKeepsModes(before, CKU_SO, done, after, rv);
  }

  // ----- every step

  lemma ReplaceKeepsCoherent(slots: map<nat, SlotState>, id: nat, sl: SlotState)
    requires AllCoherent(slots) && Coherent(sl)
    ensures AllCoherent(slots[id := sl])
  {
  }

  lemma OpenedFits(id: nat, logged: UserType, flags: SessionFlags)
    requires LoginLevel(logged) && (logged == CKU_SO ==> flags.rw)
    ensures Opened(id, logged, flags).Ok? ==> LevelFits(logged, Opened(id, logged, flags).value)
  {
  }

  lemma OpenKeepsCoherent(s: LibraryState, id: nat, flags: SessionFlags)
    requires AllCoherent(s.slots) && (id in s.slots ==> LoginLevel(s.slots[id].token.logged))
    ensures AllCoherent(OpenSession(s, id, flags).0.slots)
  {
    var (s2, r) := OpenSession(s, id, flags);
    if r.Ok? {
      var sl := s.slots[id];
      OpenedFits(id, sl.token.logged, flags);
      assert Coherent(sl);
      ReplaceKeepsCoherent(s.slots, id, s2.slots[id]);
    }
  }

  lemma CloseKeepsCoherent(s: LibraryState, h: nat)
    requires AllCoherent(s.slots) && IndexAgrees(s) && HandlesGiven(s)
    requires h in s.sessionmap ==> s.slots[s.sessionmap[h]].token.initialized
    ensures AllCoherent(CloseSession(s, h).0.slots)
  {
    CloseResult(s, h);
    if h in s.sessionmap {
      var id := s.sessionmap[h];
      ClosedCoherent(s.slots[id], h);
      ReplaceKeepsCoherent(s.slots, id, Closed(s.slots[id], h));
    }
  }

  lemma ClosedCoherent(sl: SlotState, h: nat)
    requires Coherent(sl)
    ensures Coherent(Closed(sl, h))
  {
  }

  lemma CloseAllKeepsCoherent(s: LibraryState, id: nat, order: seq<nat>, s2: LibraryState, rv: Rv)
    requires AllCoherent(s.slots) && IndexAgrees(s) && HandlesGiven(s) && CloseAllSessions(s, id, order, s2, rv)
    requires id in s.slots && s.slots[id].sessions != map[] ==> s.slots[id].token.initialized
    ensures AllCoherent(s2.slots)
  {
    CloseAllResult(s, id, order, s2, rv);
    if rv == CKR_OK {
      ReplaceKeepsCoherent(s.slots, id, AllClosed(s.slots[id], order));
    }
  }

  /// The slot of a session has it, and its token's login is a real one.
  ghost predicate SlotReady(s: LibraryState, h: nat) {
    OwnSlot(s, h).Ok? ==>
      var sl := s.slots[s.sessionmap[h]];
      sl.sessions != map[] && LoginLevel(sl.token.logged)
  }

  lemma ReadyByInv(s: LibraryState, h: nat)
    requires LibInv(s)
    ensures Indexed(s, h) && (OwnSlot(s, h).Ok? ==> s.sessionmap[h] in s.slots) && SlotReady(s, h)
  {
    OwnSlotIsIndexed(s, h);
    if OwnSlot(s, h).Ok? {
      assert h in s.slots[s.sessionmap[h]].sessions;
    }
  }

  lemma LoginKeepsCoherent(s: LibraryState, h: nat, user: UserType, auth: Rv, asked: bool, s2: LibraryState, rv: Rv)
    requires AllCoherent(s.slots) && Indexed(s, h) && SlotReady(s, h) && Login(s, h, user, auth, asked, s2, rv)
    ensures AllCoherent(s2.slots)
  {
    if OwnSlot(s, h).Ok? && s2 != s {
      var id := s.sessionmap[h];
      var sl2 :| s2 == WithSlot(s, id, sl2) && SlotLogin(s.slots[id], user, auth, sl2, rv);
      assert Coherent(s.slots[id]);
      SlotLoginKeepsCoherent(s.slots[id], user, auth, sl2, rv);
      ReplaceKeepsCoherent(s.slots, id, sl2);
    }
  }

  /// Logging out of a slot where somebody is logged in, with the storage
  /// failing its part.
  predicate FailsLogout(s: LibraryState, e: Event) {
    e.LogOut? && !e.unauthOk && var r := ReadySlot(OwnSlot(s, e.h)); r.Ok? && LoggedIn(r.value.token)
  }

  lemma LogoutCoherentExactly(s: LibraryState, h: nat, unauthOk: bool)
    requires AllCoherent(s.slots) && Indexed(s, h) && SlotReady(s, h)
    requires OwnSlot(s, h).Ok? ==> AllWellFormed(s.slots[s.sessionmap[h]].sessions)
    ensures AllCoherent(Logout(s, h, unauthOk).0.slots) <==> !FailsLogout(s, LogOut(h, unauthOk))
  {
    if ReadySlot(OwnSlot(s, h)).Ok? {
      var id := s.sessionmap[h];
      var sl := s.slots[id];
      var after := SlotLogout(sl, unauthOk).0;
      assert Coherent(sl);
      if LoggedIn(sl.token) {
        LogoutCoherentIfStorageAgrees(sl, unauthOk);
      }
      assert AllCoherent(s.slots[id := after]) ==> Coherent(after) by {
        assert s.slots[id := after][id] == after;
      }
    }
  }

  lemma SetPinKeepsCoherent(s: LibraryState, h: nat, empty: bool, auth: Rv, set_: Rv)
    requires AllCoherent(s.slots) && Indexed(s, h) && SlotReady(s, h)
    ensures AllCoherent(SetPin(s, h, empty, auth, set_).0.slots)
  {
    SetPinResult(s, h, empty, auth, set_);
    var s2 := SetPin(s, h, empty, auth, set_).0;
    if OwnSlot(s, h).Ok? && s2 != s {
      var sl := s.slots[s.sessionmap[h]];
      assert Coherent(sl) && !LoggedIn(sl.token);
      ReplaceKeepsCoherent(s.slots, s.sessionmap[h], sl.(token := LoggedOut(AfterLogin(sl.token, CKU_USER, auth))));
    }
  }

  lemma UseKeepsCoherent(s: LibraryState, h: nat, call: Call, s2: LibraryState)
    requires AllCoherent(s.slots) && Indexed(s, h) && Step(s, Use(h, call), s2)
    requires OwnSlot(s, h).Ok? ==> TokenInv(s.slots[s.sessionmap[h]].token)
    ensures AllCoherent(s2.slots)
  {
    if ReadySlot(OwnSlot(s, h)).Ok? {
      var id := s.sessionmap[h];
      var t2 :| Called(s.slots[id].token, h, call, t2) && s2 == WithSlot(s, id, s.slots[id].(token := t2));
      CallKeeps(s.slots[id].token, h, call, t2);
      assert Coherent(s.slots[id]);
      ReplaceKeepsCoherent(s.slots, id, s.slots[id].(token := t2));
    }
  }

  lemma SetUpKeepsCoherent(s: LibraryState, id: nat, setup: Setup, builtins: seq<Object>)
    requires AllCoherent(s.slots) && forall o :: o in builtins ==> o.WellFormed()
    ensures AllCoherent(InitToken(s, id, setup, builtins).0.slots)
  {
  }

  /// A call keeps every slot's sessions and login in agreement exactly when it
  /// is not a logout that the storage fails.
  lemma StepCoherentExactly(s: LibraryState, e: Event, s2: LibraryState)
    requires LibInv(s) && AllCoherent(s.slots) && Step(s, e, s2)
    ensures AllCoherent(s2.slots) <==> !FailsLogout(s, e)
  {
    match e {
      case Start =>
      case AddSlot(_, _) =>
      case Stop =>
      case Open(id, flags) =>
        if id in s.slots {
          SlotFacts(s, id);
        }
        OpenKeepsCoherent(s, id, flags);
      case Close(h) => IndexedByInv(s, h); CloseKeepsCoherent(s, h);
      case CloseAll(id) =>
        var order, rv :| CloseAllSessions(s, id, order, s2, rv);
        if id in s.slots {
          SlotFacts(s, id);
        }
        CloseAllKeepsCoherent(s, id, order, s2, rv);
      case LogIn(h, user, auth, asked) =>
        var rv :| Login(s, h, user, auth, asked, s2, rv);
        ReadyByInv(s, h);
        LoginKeepsCoherent(s, h, user, auth, asked, s2, rv);
      case LogOut(h, unauthOk) => ReadyByInv(s, h); LogoutCoherentExactly(s, h, unauthOk);
      case SetUpToken(id, setup, builtins) => SetUpKeepsCoherent(s, id, setup, builtins);
      case ChangePin(h, empty, auth, set_) => ReadyByInv(s, h); SetPinKeepsCoherent(s, h, empty, auth, set_);
      case Use(h, call) => OwnSlotIsIndexed(s, h); IndexedByInv(s, h); UseKeepsCoherent(s, h, call, s2);
    }
  }

  /// In every state of a run sessions and logins agree exactly when the storage
  /// never fails a logout.
  lemma {:induction false} RunCoherentExactly(states: seq<LibraryState>, events: seq<Event>, n: nat)
    requires Run(states, events) && states[0] == STOPPED && n < |states|
    ensures CoherentUpTo(states, n) <==> NeverFails(states, events, n)
  {
    if n > 0 {
      RunKeepsInv(states, events, n - 1);
      RunCoherentExactly(states, events, n - 1);
      OneMoreCall(states, events, n);
      if CoherentUpTo(states, n - 1) {
        StepCoherentExactly(states[n - 1], events[n - 1], states[n]);
      }
    }
  }

  ghost predicate CoherentUpTo(states: seq<LibraryState>, n: nat)
    requires n < |states|
  {
    forall i :: 0 <= i <= n ==> AllCoherent(states[i].slots)
  }

  predicate NeverFails(states: seq<LibraryState>, events: seq<Event>, n: nat)
    requires n <= |events| <= |states|
  {
    forall i :: 0 <= i < n ==> !FailsLogout(states[i], events[i])
  }

  lemma OneMoreCall(states: seq<LibraryState>, events: seq<Event>, n: nat)
    requires |states| == |events| + 1 && 0 < n < |states|
    ensures CoherentUpTo(states, n) <==> CoherentUpTo(states, n - 1) && AllCoherent(states[n].slots)
    ensures NeverFails(states, events, n) <==>
              NeverFails(states, events, n - 1) && !FailsLogout(states[n - 1], events[n - 1])
  {
    hide AllCoherent, FailsLogout;
  }

  // ----- the last session

  /// Closing the last session of a slot leaves nobody logged in and no object
  /// of any session; closing another leaves the login alone. Only the closed
  /// session's slot is touched.
  lemma LastCloseLogsOut(s: LibraryState, h: nat)
    requires LibInv(s) && CloseSession(s, h).1 == CKR_OK
    ensures h in s.sessionmap && s.sessionmap[h] in s.slots
    ensures
      var id := s.sessionmap[h];
      var left := Closed(s.slots[id], h);
      && CloseSession(s, h).0 == LibraryState(s.slots[id := left], s.sessionmap - {h}, s.next)
      && left.sessions == s.slots[id].sessions - {h}
      && if s.slots[id].sessions.Keys == {h} then
           left.token.logged == CK_UNAVAILABLE_INFORMATION && OnlyBuiltins(left.token)
         else left.token.logged == s.slots[id].token.logged
  {
    CloseFacts(s, h);
    ClosedSlot(s.sessionmap[h], s.slots[s.sessionmap[h]], h);
  }

  lemma CloseFacts(s: LibraryState, h: nat)
    requires LibInv(s) && CloseSession(s, h).1 == CKR_OK
    ensures h in s.sessionmap && s.sessionmap[h] in s.slots && h != INVALID_HANDLE
    ensures
      var id := s.sessionmap[h];
      && h in s.slots[id].sessions && SlotInv(id, s.slots[id])
      && CloseSession(s, h).0 == LibraryState(s.slots[id := Closed(s.slots[id], h)], s.sessionmap - {h}, s.next)
  {
    IndexedByInv(s, h);
    CloseResult(s, h);
    SlotFacts(s, s.sessionmap[h]);
  }

  lemma ClosedSlot(id: nat, sl: SlotState, h: nat)
    requires SlotInv(id, sl) && h in sl.sessions && h != INVALID_HANDLE
    ensures
      var after := Closed(sl, h);
      if sl.sessions.Keys == {h} then after.token.logged == CK_UNAVAILABLE_INFORMATION && OnlyBuiltins(after.token)
      else after.token.logged == sl.token.logged
  {
    ClosedKeepsInv(id, sl, h);
    NoSessionsNoObjects(id, Closed(sl, h));
    var left := sl.sessions - {h};
    assert left.Keys == sl.sessions.Keys - {h};
    assert left == map[] <==> left.Keys == {};
    assert left.Keys == {} <==> sl.sessions.Keys == {h};
  }

  lemma NoSessionsNoObjects(id: nat, sl: SlotState)
    requires SlotInv(id, sl)
    ensures sl.sessions == map[] ==> sl.token.logged == CK_UNAVAILABLE_INFORMATION && OnlyBuiltins(sl.token)
  {
  }

  /// Dropping a session without dropping its objects first: the last one to
  /// go leaves nobody logged in, and no private object of any session exactly
  /// when somebody was logged in or there was none; any other leaves the token
  /// as it was.
  lemma LastDropLogsOut(s: LibraryState, h: nat)
    requires h in s.sessionmap && s.sessionmap[h] in s.slots && s.next != 0
    requires s.slots[s.sessionmap[h]].token.initialized && TokenInv(s.slots[s.sessionmap[h]].token)
    ensures DropSession(s, h).1 == CKR_OK && s.sessionmap[h] in DropSession(s, h).0.slots
    ensures
      var before, after := s.slots[s.sessionmap[h]].token, DropSession(s, h).0.slots[s.sessionmap[h]];
      if after.sessions != map[] then after.token == before
      else
        && after.token.logged == CK_UNAVAILABLE_INFORMATION
        && (PrivateObjects(after.token.sessionObjects) == {} <==>
              LoggedIn(before) || PrivateObjects(before.sessionObjects) == {})
  {
    DropResult(s, h);
    var before := s.slots[s.sessionmap[h]].token;
    LogoutKeepsInv(before);
    if LoggedIn(before) {
      LogoutCleanUp(before);
      assert PrivateObjects(LoggedOut(before).sessionObjects) == {};
    }
  }

  /// Opening a session and closing it again changes nothing but the next
  /// handle.
  lemma CloseUndoesOpen(s: LibraryState, id: nat, flags: SessionFlags)
    requires LibInv(s) && OpenSession(s, id, flags).1.Ok?
    ensures
      var (s1, r) := OpenSession(s, id, flags);
      CloseSession(s1, r.value) == (s.(next := s.next + 1), CKR_OK)
  {
    var v := OpenResult(s, id, flags);
    SlotFacts(s, id);
    NewHandle(s, id);
    CloseOfNew(s, id, v);
  }

  /// What opening a session adds.
  lemma OpenResult(s: LibraryState, id: nat, flags: SessionFlags) returns (v: SessionValue)
    requires OpenSession(s, id, flags).1.Ok?
    ensures id in s.slots && s.next != 0 && s.slots[id].token.initialized
    ensures OpenSession(s, id, flags) == (WithNew(s, id, v), Ok(s.next))
    ensures
      var t := s.slots[id].token;
      Opened(id, if LoggedIn(t) then t.logged else CK_UNAVAILABLE_INFORMATION, flags) == Ok(v)
  {
    var user := if LoggedIn(s.slots[id].token) then s.slots[id].token.logged else CK_UNAVAILABLE_INFORMATION;
    v := Opened(id, user, flags).value;
  }

  function WithNew(s: LibraryState, id: nat, v: SessionValue): LibraryState
    requires id in s.slots
  {
    var sl := s.slots[id].(sessions := s.slots[id].sessions[s.next := v]);
    LibraryState(s.slots[id := sl], s.sessionmap[s.next := id], s.next + 1)
  }

  lemma CloseOfNew(s: LibraryState, id: nat, v: SessionValue)
    requires IndexAgrees(s) && HandlesGiven(s) && id in s.slots && ObjectsOwned(s.slots[id])
    requires s.slots[id].token.initialized
    requires s.slots[id].sessions == map[] ==> s.slots[id].token.logged == CK_UNAVAILABLE_INFORMATION
    requires s.next !in s.slots[id].sessions && s.next !in s.sessionmap && s.next >= 1
    ensures CloseSession(WithNew(s, id, v), s.next) == (s.(next := s.next + 1), CKR_OK)
  {
    var s1 := WithNew(s, id, v);
    OpenKeepsIndex(s, id, v);
    CloseResult(s1, s.next);
    ClosedAgain(s.slots[id], s.next, v);
    assert s1.slots[id := s.slots[id]] == s.slots;
    assert s1.sessionmap - {s.next} == s.sessionmap;
  }

  lemma NewHandle(s: LibraryState, id: nat)
    requires IndexAgrees(s) && HandlesGiven(s) && id in s.slots
    ensures s.next !in s.slots[id].sessions && s.next !in s.sessionmap && s.next >= 1
  {
    forall h | h in s.slots[id].sessions
      ensures h < s.next
    {
      assert h in s.sessionmap;
    }
  }

  lemma ClosedAgain(sl: SlotState, h: nat, v: SessionValue)
    requires ObjectsOwned(sl) && h !in sl.sessions && h != INVALID_HANDLE
    requires sl.sessions == map[] ==> sl.token.logged == CK_UNAVAILABLE_INFORMATION
    ensures Closed(sl.(sessions := sl.sessions[h := v]), h) == sl
  {
    assert HandlesOf(sl.token.sessionObjects, h) == {};
    assert sl.token.sessionObjects - {} == sl.token.sessionObjects && sl.token.uids - {} == sl.token.uids;
    assert sl.sessions[h := v] - {h} == sl.sessions;
  }
}
