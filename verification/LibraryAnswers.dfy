/// How each entry point for sessions answers in every state the library can be
/// in, and what it leaves behind, from the state alone.
module LibraryAnswers {
  import opened Common
  import opened Library
  import opened LibraryRuns
  import opened Objects
  import opened Sessions
  import opened Slots
  import opened Tokens

  // ----- starting and adding slots

  lemma StartExactly()
    ensures STARTED.slots == map[] && STARTED.sessionmap == map[] && STARTED.next == 1
    ensures STOPPED.slots == map[] && STOPPED.sessionmap == map[] && STOPPED.next == 0
  {
  }

  lemma AddSlotExactly(s: LibraryState, id: nat, token: TokenState)
    ensures
      var (s2, rv) := AddedSlot(s, id, token);
      if id in s.slots then s2 == s && rv == CKR_CRYPTOKI_ALREADY_INITIALIZED
      else rv == CKR_OK && s2 == s.(slots := s.slots[id := SlotState(map[], token)])
  {
  }

  // ----- opening and closing

  /// A session can be opened on a slot with a usable token exactly when it is
  /// serial and, under the security officer, for writing.
  lemma OpenAnswer(s: LibraryState, id: nat, flags: SessionFlags)
    requires LibInv(s)
    ensures OpenSession(s, id, flags).1.Ok? <==>
      && s.next != 0 && id in s.slots && s.slots[id].token.initialized && flags.serial
      && (s.slots[id].token.logged == CKU_SO ==> flags.rw)
    ensures
      OpenSession(s, id, flags).1.Err? ==>
        && OpenSession(s, id, flags).0 == s
        && OpenSession(s, id, flags).1.error ==
             if s.next == 0 then CKR_CRYPTOKI_NOT_INITIALIZED
             else if id !in s.slots then CKR_SLOT_ID_INVALID
             else if !s.slots[id].token.initialized then CKR_TOKEN_NOT_INITIALIZED
             else if s.slots[id].token.logged == CKU_SO && !flags.rw then CKR_SESSION_READ_WRITE_SO_EXISTS
             else CKR_ARGUMENTS_BAD
  {
    if id in s.slots {
      SlotFacts(s, id);
      OpenedExactly(id, s.slots[id].token.logged, flags);
    }
  }

  /// What is opened: under the next handle, in the mode asked for, at the level
  /// of the login, or under the security officer at the user's. Nothing else
  /// changes.
  lemma OpenResultExactly(s: LibraryState, id: nat, flags: SessionFlags)
    requires LibInv(s) && OpenSession(s, id, flags).1.Ok?
    ensures
      var (s2, r) := OpenSession(s, id, flags);
      && r.value == s.next && s2.next == s.next + 1 && s2.sessionmap == s.sessionmap[s.next := id]
      && id in s.slots && id in s2.slots && s.next in s2.slots[id].sessions
      && var v := s2.slots[id].sessions[s.next];
         var logged := s.slots[id].token.logged;
         && v.slotId == id && v.flags == flags
         && v.state == (if logged == CKU_USER || logged == CKU_SO
                        then (if flags.rw then CKS_RW_USER_FUNCTIONS else CKS_RO_USER_FUNCTIONS)
                        else (if flags.rw then CKS_RW_PUBLIC_SESSION else CKS_RO_PUBLIC_SESSION))
         && s2.slots == s.slots[id := SlotState(s.slots[id].sessions[s.next := v], s.slots[id].token)]
  {
    SlotFacts(s, id);
    OpenedExactly(id, s.slots[id].token.logged, flags);
  }

  /// Any open session can be closed.
  lemma CloseAnswer(s: LibraryState, h: nat)
    requires LibInv(s)
    ensures CloseSession(s, h).1 ==
      if s.next == 0 then CKR_CRYPTOKI_NOT_INITIALIZED
      else if h !in s.sessionmap then CKR_SESSION_HANDLE_INVALID
      else CKR_OK
    ensures CloseSession(s, h).1 != CKR_OK ==> CloseSession(s, h).0 == s
  {
    if h in s.sessionmap {
      HasInitializedToken(s, h);
    }
    CloseResult(s, h);
  }

  /// What closing takes away: the session and its objects and, with the last
  /// session, the login and what it made private.
  lemma CloseEffect(s: LibraryState, h: nat)
    requires LibInv(s) && s.next != 0 && h in s.sessionmap
    ensures
      var s2 := CloseSession(s, h).0;
      var id := s.sessionmap[h];
      && id in s.slots && id in s2.slots && s2.slots == s.slots[id := s2.slots[id]]
      && s2.sessionmap == s.sessionmap - {h} && s2.next == s.next
      && s2.slots[id].sessions == s.slots[id].sessions - {h}
      && CloseTokens(s.slots[id].token, h, s.slots[id].sessions.Keys == {h}, s2.slots[id].token)
  {
    HasInitializedToken(s, h);
    CloseResult(s, h);
    var sl := s.slots[s.sessionmap[h]];
    var left := sl.sessions - {h};
    assert left.Keys == sl.sessions.Keys - {h};
    assert left == map[] <==> left.Keys == {};
    assert left.Keys == {} <==> sl.sessions.Keys == {h};
    ClosedToken(sl, h);
  }

  /// The token after a session has been closed.
  ghost predicate CloseTokens(t: TokenState, h: nat, last: bool, t2: TokenState) {
    && t2.logged == (if last then CK_UNAVAILABLE_INFORMATION else t.logged)
    && t2.initialized == t.initialized && t2.next == t.next && t2.storage == t.storage
    && (forall k :: k in t2.sessionObjects <==>
          && k in t.sessionObjects && t.sessionObjects[k].session != h
          && (last && t.logged != CK_UNAVAILABLE_INFORMATION ==>
                t.sessionObjects[k].session == 0 || !t.sessionObjects[k].IsPrivate()))
    && (forall k :: k in t2.sessionObjects ==> t2.sessionObjects[k] == t.sessionObjects[k])
    && (forall k :: k in t2.uids <==> k in t.uids && (k in t.sessionObjects ==> k in t2.sessionObjects))
    && (forall k :: k in t2.uids ==> t2.uids[k] == t.uids[k])
  }

  lemma ClosedToken(sl: SlotState, h: nat)
    requires TokenInv(sl.token) && h != INVALID_HANDLE
    ensures CloseTokens(sl.token, h, sl.sessions - {h} == map[], Closed(sl, h).token)
  {
    SessionCleanUp(sl.token, h);
    var cleaned := Without(sl.token, HandlesOf(sl.token.sessionObjects, h));
    if LoggedIn(cleaned) {
      LogoutCleanUp(cleaned);
    }
  }

  /// All sessions of a slot can be closed at once if its token is usable.
  lemma CloseAllAnswer(s: LibraryState, id: nat, order: seq<nat>, s2: LibraryState, rv: Rv)
    requires LibInv(s) && CloseAllSessions(s, id, order, s2, rv)
    ensures rv ==
      if s.next == 0 then CKR_CRYPTOKI_NOT_INITIALIZED
      else if id !in s.slots then CKR_SLOT_ID_INVALID
      else if !s.slots[id].token.initialized then CKR_TOKEN_NOT_INITIALIZED
      else CKR_OK
    ensures rv != CKR_OK ==> s2 == s
  {
    if id in s.slots {
      SlotFacts(s, id);
    }
    CloseAllResult(s, id, order, s2, rv);
    hide LoggedOut, DropObjects, SlotInv, IndexAgrees, SlotsInv, AllClosed;
  }

  /// What is left then: nobody logged in, no session and no session object but
  /// those of the token itself; other slots are as they were.
  lemma CloseAllEffect(s: LibraryState, id: nat, order: seq<nat>, s2: LibraryState)
    requires LibInv(s) && CloseAllSessions(s, id, order, s2, CKR_OK)
    ensures id in s.slots && id in s2.slots && s2.slots == s.slots[id := s2.slots[id]] && s2.next == s.next
    ensures forall h :: h in s2.sessionmap <==> h in s.sessionmap && s.sessionmap[h] != id
    ensures forall h :: h in s2.sessionmap ==> s2.sessionmap[h] == s.sessionmap[h]
    ensures s2.slots[id].sessions == map[] && NothingOpen(s.slots[id].token, s2.slots[id].token)
  {
    if id in s.slots {
      SlotFacts(s, id);
    }
    CloseAllResult(s, id, order, s2, CKR_OK);
    RealHandles(s, id);
    EmptiedToken(id, s.slots[id], order);
    hide SlotInv, IndexAgrees, SlotsInv, DropObjects, LoggedOut, CloseAllSessions, NothingOpen, HandlesGiven;
  }

  /// A token that keeps its own session objects and nothing of any session.
  ghost predicate NothingOpen(t: TokenState, t2: TokenState) {
    && t2.logged == CK_UNAVAILABLE_INFORMATION
    && t2.initialized == t.initialized && t2.next == t.next && t2.storage == t.storage
    && (forall k :: k in t2.sessionObjects <==> k in t.sessionObjects && t.sessionObjects[k].session == 0)
    && (forall k :: k in t2.sessionObjects ==> t2.sessionObjects[k] == t.sessionObjects[k])
    && (forall k :: k in t2.uids <==> k in t.uids && (k in t.sessionObjects ==> k in t2.sessionObjects))
    && (forall k :: k in t2.uids ==> t2.uids[k] == t.uids[k])
  }

  lemma EmptiedToken(id: nat, sl: SlotState, order: seq<nat>)
    requires SlotInv(id, sl) && INVALID_HANDLE !in sl.sessions
    requires forall h :: h in order <==> h in sl.sessions
    ensures NothingOpen(sl.token, AllClosed(sl, order).token)
  {
    DropObjectsExactly(sl.token, order);
    LogoutOfBuiltins(DropObjects(sl.token, order));
    hide DropObjects, LoggedOut, TokenInv, AllWellFormed;
  }

  /// With no private object of a session, logging out takes the login alone.
  lemma LogoutOfBuiltins(t: TokenState)
    requires LoginLevel(t.logged)
    ensures OnlyBuiltins(t) ==> LoggedOut(t) == t.(logged := CK_UNAVAILABLE_INFORMATION)
  {
    if OnlyBuiltins(t) {
      assert PrivateObjects(t.sessionObjects) == {};
      assert t.sessionObjects - {} == t.sessionObjects && t.uids - {} == t.uids;
    }
  }

  /// Dropping the objects of several sessions takes exactly those.
  lemma {:induction false} DropObjectsExactly(t: TokenState, order: seq<nat>)
    requires TokenInv(t) && INVALID_HANDLE !in order
    ensures
      var t2 := DropObjects(t, order);
      && TokenInv(t2) && t2.logged == t.logged && t2.initialized == t.initialized
      && t2.next == t.next && t2.storage == t.storage
      && (forall k :: k in t2.sessionObjects <==> k in t.sessionObjects && t.sessionObjects[k].session !in order)
      && (forall k :: k in t2.sessionObjects ==> t2.sessionObjects[k] == t.sessionObjects[k])
      && (forall k :: k in t2.uids <==> k in t.uids && (k in t.sessionObjects ==> k in t2.sessionObjects))
      && (forall k :: k in t2.uids ==> t2.uids[k] == t.uids[k])
    decreases |order|
  {
    if order != [] {
      SessionCleanUp(t, order[0]);
      var rest := order[1..];
      assert forall h :: h in order <==> h == order[0] || h in rest;
      DropObjectsExactly(Without(t, HandlesOf(t.sessionObjects, order[0])), rest);
    }
  }

  // ----- logging in and out

  /// What a session answers to a login.
  lemma SessionAnswer(v: SessionValue, user: UserType)
    requires WellFormed(v) && user in {CKU_SO, CKU_USER} && (user == CKU_SO ==> v.flags.rw)
    ensures ChangeRv(v.state, user) ==
      if Level(v.state) in {CK_UNAVAILABLE_INFORMATION, user} then CKR_OK else CKR_USER_ANOTHER_ALREADY_LOGGED_IN
    ensures ChangeRv(v.state, user) == CKR_OK ==>
      Level(Moved(v, user).state) == user && Writable(Moved(v, user).state) == v.flags.rw
  {
  }

  /// The answer to a login of the user or the officer in a slot: that of the
  /// token, and if the token lets it in, whether some session is at the level
  /// of the other.
  lemma SlotLoginAnswer(sl: SlotState, user: UserType, auth: Rv, sl2: SlotState, rv: Rv)
    requires AllWellFormed(sl.sessions) && SlotLogin(sl, user, auth, sl2, rv) && user in {CKU_SO, CKU_USER}
    requires user == CKU_SO ==> forall k :: k in sl.sessions ==> sl.sessions[k].flags.rw
    ensures rv ==
      if sl.token.logged == user then CKR_USER_ALREADY_LOGGED_IN
      else if sl.token.logged != CK_UNAVAILABLE_INFORMATION then CKR_USER_ANOTHER_ALREADY_LOGGED_IN
      else if auth != CKR_OK then auth
      else if AllAtOrBelow(sl.sessions, user) then CKR_OK
      else CKR_USER_ANOTHER_ALREADY_LOGGED_IN
  {
    LoginExactly(sl.token, user, auth);
    if LoginRv(sl.token, user, auth) == CKR_OK {
      var token := AfterLogin(sl.token, user, auth);
      var done, after :| Walked(sl.sessions, user, done, after, rv)
        && sl2 == if rv == CKR_OK then SlotState(after, token) else PublicAgain(SlotState(after, token));
      WalkAnswer(sl.sessions, user, done, after, rv);
    }
    hide Walked, LoginRv, AfterLogin, PublicAgain, AllWellFormed, AllAtOrBelow;
  }

  ghost predicate AllAtOrBelow(sessions: SessionMap, user: UserType) {
    forall k :: k in sessions ==> Level(sessions[k].state) in {CK_UNAVAILABLE_INFORMATION, user}
  }

  lemma WalkAnswer(before: SessionMap, user: UserType, done: set<nat>, after: SessionMap, rv: Rv)
    requires AllWellFormed(before) && Walked(before, user, done, after, rv) && user in {CKU_SO, CKU_USER}
    requires user == CKU_SO ==> forall k :: k in before ==> before[k].flags.rw
    ensures rv == if AllAtOrBelow(before, user) then CKR_OK else CKR_USER_ANOTHER_ALREADY_LOGGED_IN
  {
    WalkedExactly(before, user, done, after, rv);
    forall k | k in before
      ensures ChangeRv(before[k].state, user) ==
        if Level(before[k].state) in {CK_UNAVAILABLE_INFORMATION, user} then CKR_OK
        else CKR_USER_ANOTHER_ALREADY_LOGGED_IN
    {
      SessionAnswer(before[k], user);
    }
    hide Walked, ChangeRv, Level, WellFormed;
  }

  /// The answer to the login that one operation waits for, and to any other
  /// user. Only a locked PIN changes something.
  lemma OtherLoginAnswer(sl: SlotState, user: UserType, auth: Rv, sl2: SlotState, rv: Rv)
    requires SlotLogin(sl, user, auth, sl2, rv) && user !in {CKU_SO, CKU_USER}
    ensures rv == if user == CKU_CONTEXT_SPECIFIC && sl.token.logged in {CKU_SO, CKU_USER} then auth
                  else CKR_USER_TYPE_INVALID
    ensures sl2 == if user == CKU_CONTEXT_SPECIFIC && rv == CKR_PIN_LOCKED then PublicAgain(sl) else sl
  {
    LoginExactly(sl.token, user, auth);
    hide LoginRv, AfterLogin, PublicAgain;
  }

  /// What a login of the user or the officer leaves: the user logged in and
  /// every session at its level; or, if it was rolled back, nobody logged in
  /// and every session public; or what there was.
  lemma SlotLoginEffect(sl: SlotState, user: UserType, auth: Rv, sl2: SlotState, rv: Rv)
    requires AllWellFormed(sl.sessions) && SlotLogin(sl, user, auth, sl2, rv) && user in {CKU_SO, CKU_USER}
    requires user == CKU_SO ==> forall k :: k in sl.sessions ==> sl.sessions[k].flags.rw
    ensures rv == CKR_OK ==> sl2.token == sl.token.(logged := user) && AllThere(sl.sessions, sl2.sessions, user)
    ensures rv != CKR_OK && (sl.token.logged != CK_UNAVAILABLE_INFORMATION || auth != CKR_OK) ==> sl2 == sl
    ensures rv != CKR_OK && sl.token.logged == CK_UNAVAILABLE_INFORMATION && auth == CKR_OK ==>
      && sl2.token == LoggedOut(sl.token.(logged := user)) && sl2.token.logged == CK_UNAVAILABLE_INFORMATION
      && AllThere(sl.sessions, sl2.sessions, CK_UNAVAILABLE_INFORMATION)
  {
    LoginExactly(sl.token, user, auth);
    if LoginRv(sl.token, user, auth) == CKR_OK {
      var token := AfterLogin(sl.token, user, auth);
      var done, after :| Walked(sl.sessions, user, done, after, rv)
        && sl2 == if rv == CKR_OK then SlotState(after, token) else PublicAgain(SlotState(after, token));
      WalkedThere(sl.sessions, user, done, after, rv);
      PublicThere(SlotState(after, token));
      AllThereAgain(sl.sessions, after, sl2.sessions);
    }
    hide Walked, LoginRv, AfterLogin, AllWellFormed, LoggedOut, PublicAgain, AllThere;
  }

  lemma AllThereAgain(before: SessionMap, mid: SessionMap, after: SessionMap)
    requires mid.Keys == before.Keys
    requires forall k :: k in before ==> mid[k].slotId == before[k].slotId && mid[k].flags == before[k].flags
    ensures AllThere(mid, after, CK_UNAVAILABLE_INFORMATION) ==> AllThere(before, after, CK_UNAVAILABLE_INFORMATION)
  {
    hide Level, Writable;
  }

  /// The same sessions in the same modes, all at one level.
  ghost predicate AllThere(before: SessionMap, after: SessionMap, level: UserType) {
    && after.Keys == before.Keys
    && forall k :: k in before ==>
         && after[k].slotId == before[k].slotId && after[k].flags == before[k].flags
         && Level(after[k].state) == level && Writable(after[k].state) == before[k].flags.rw
  }

  lemma WalkedThere(before: SessionMap, user: UserType, done: set<nat>, after: SessionMap, rv: Rv)
    requires AllWellFormed(before) && Walked(before, user, done, after, rv) && user in {CKU_SO, CKU_USER}
    requires user == CKU_SO ==> forall k :: k in before ==> before[k].flags.rw
    ensures rv == CKR_OK ==> AllThere(before, after, user)
    ensures AllWellFormed(after) && after.Keys == before.Keys
    ensures forall k :: k in before ==> after[k].slotId == before[k].slotId && after[k].flags == before[k].flags
  {
    WalkKeepsModes(before, user, done, after, rv);
    WalkedExactly(before, user, done, after, rv);
    if rv == CKR_OK {
      forall k | k in before
        ensures Level(after[k].state) == user && Writable(after[k].state) == before[k].flags.rw
      {
        SessionAnswer(before[k], user);
      }
    }
    hide Walked, ChangeRv, Level, WellFormed;
  }

  /// Logged out and every session public.
  lemma PublicThere(sl: SlotState)
    requires AllWellFormed(sl.sessions) && LoginLevel(sl.token.logged)
    ensures AllThere(sl.sessions, PublicAgain(sl).sessions, CK_UNAVAILABLE_INFORMATION)
    ensures PublicAgain(sl).token == LoggedOut(sl.token)
    ensures PublicAgain(sl).token.logged == CK_UNAVAILABLE_INFORMATION
  {
    forall k | k in sl.sessions
      ensures Level(Moved(sl.sessions[k], CK_UNAVAILABLE_INFORMATION).state) == CK_UNAVAILABLE_INFORMATION
      ensures Writable(Moved(sl.sessions[k], CK_UNAVAILABLE_INFORMATION).state) == sl.sessions[k].flags.rw
    {
      assert WellFormed(sl.sessions[k]);
    }
  }

  /// The answer to a login through a session, of the user or the officer, in
  /// every state.
  lemma LoginAnswer(s: LibraryState, h: nat, user: UserType, auth: Rv, asked: bool, s2: LibraryState, rv: Rv)
    requires LibInv(s) && Login(s, h, user, auth, asked, s2, rv) && user in {CKU_SO, CKU_USER}
    ensures rv ==
      if s.next == 0 then CKR_CRYPTOKI_NOT_INITIALIZED
      else if h !in s.sessionmap then CKR_SESSION_HANDLE_INVALID
      else
        var sl := s.slots[s.sessionmap[h]];
        if user == CKU_SO && exists k :: k in sl.sessions && !sl.sessions[k].flags.rw
        then CKR_SESSION_READ_ONLY_EXISTS
        else if sl.token.logged == user then CKR_USER_ALREADY_LOGGED_IN
        else if sl.token.logged != CK_UNAVAILABLE_INFORMATION then CKR_USER_ANOTHER_ALREADY_LOGGED_IN
        else if auth != CKR_OK then auth
        else if forall k :: k in sl.sessions ==> Level(sl.sessions[k].state) in {CK_UNAVAILABLE_INFORMATION, user}
        then CKR_OK
        else CKR_USER_ANOTHER_ALREADY_LOGGED_IN
  {
    LoginRefused(s, h, user, auth, asked, s2, rv);
    if s.next != 0 && h in s.sessionmap {
      var sl := s.slots[s.sessionmap[h]];
      HasInitializedToken(s, h);
      var sl2 := LoginReaches(s, h, user, auth, asked, s2, rv);
      ReadOnlyExactly(sl.sessions);
      hide *;
      if !HasReadOnly(sl.sessions) || user == CKU_USER {
        SlotLoginAnswer(sl, user, auth, sl2, rv);
        AtOrBelowExactly(sl.sessions, user);
      }
    }
  }

  lemma AtOrBelowExactly(sessions: SessionMap, user: UserType)
    ensures AllAtOrBelow(sessions, user) <==>
      forall k :: k in sessions ==> Level(sessions[k].state) in {CK_UNAVAILABLE_INFORMATION, user}
  {
  }

  /// A login reaches the session's slot unless it is refused before that.
  lemma LoginReaches(s: LibraryState, h: nat, user: UserType, auth: Rv, asked: bool, s2: LibraryState, rv: Rv)
    returns (sl2: SlotState)
    requires LibInv(s) && s.next != 0 && h in s.sessionmap && Login(s, h, user, auth, asked, s2, rv)
    ensures s.sessionmap[h] in s.slots
    ensures
      var sl := s.slots[s.sessionmap[h]];
      if user == CKU_SO && HasReadOnly(sl.sessions) then rv == CKR_SESSION_READ_ONLY_EXISTS && s2 == s
      else if user == CKU_CONTEXT_SPECIFIC && !asked then rv == CKR_OPERATION_NOT_INITIALIZED && s2 == s
      else SlotLogin(sl, user, auth, sl2, rv) && s2 == WithSlot(s, s.sessionmap[h], sl2)
  {
    OwnSlotIsIndexed(s, h);
    HasInitializedToken(s, h);
    hide LibInv, SlotInv, SlotLogin, HasReadOnly;
    var sl := s.slots[s.sessionmap[h]];
    sl2 := sl;
    if !(user == CKU_SO && HasReadOnly(sl.sessions)) && !(user == CKU_CONTEXT_SPECIFIC && !asked) {
      sl2 :| s2 == WithSlot(s, s.sessionmap[h], sl2) && SlotLogin(sl, user, auth, sl2, rv);
    }
  }

  lemma LoginRefused(s: LibraryState, h: nat, user: UserType, auth: Rv, asked: bool, s2: LibraryState, rv: Rv)
    requires LibInv(s) && Login(s, h, user, auth, asked, s2, rv)
    ensures s.next == 0 ==> rv == CKR_CRYPTOKI_NOT_INITIALIZED && s2 == s
    ensures s.next != 0 && h !in s.sessionmap ==> rv == CKR_SESSION_HANDLE_INVALID && s2 == s
  {
    hide SlotLogin, HasReadOnly, LibInv;
  }

  lemma KnownLogin(s: LibraryState, h: nat)
    requires LibInv(s) && h in s.sessionmap
    ensures s.sessionmap[h] in s.slots
    ensures s.slots[s.sessionmap[h]].token.logged in {CK_UNAVAILABLE_INFORMATION, CKU_SO, CKU_USER}
  {
    HasInitializedToken(s, h);
    RealLogin(s.slots[s.sessionmap[h]].token);
    hide TokenInv, IndexAgrees, HandlesGiven, SlotsInv;
  }

  lemma RealLogin(t: TokenState)
    requires TokenInv(t)
    ensures t.logged in {CK_UNAVAILABLE_INFORMATION, CKU_SO, CKU_USER}
  {
  }

  /// The answer to the login one operation waits for, and to any other user.
  lemma ContextLoginAnswer(s: LibraryState, h: nat, user: UserType, auth: Rv, asked: bool, s2: LibraryState, rv: Rv)
    requires LibInv(s) && Login(s, h, user, auth, asked, s2, rv) && user !in {CKU_SO, CKU_USER}
    ensures rv ==
      if s.next == 0 then CKR_CRYPTOKI_NOT_INITIALIZED
      else if h !in s.sessionmap then CKR_SESSION_HANDLE_INVALID
      else if user != CKU_CONTEXT_SPECIFIC then CKR_USER_TYPE_INVALID
      else if !asked then CKR_OPERATION_NOT_INITIALIZED
      else if s.slots[s.sessionmap[h]].token.logged == CK_UNAVAILABLE_INFORMATION then CKR_USER_TYPE_INVALID
      else auth
  {
    hide *;
    LoginRefused(s, h, user, auth, asked, s2, rv);
    if s.next != 0 && h in s.sessionmap {
      KnownLogin(s, h);
      var sl2 := LoginReaches(s, h, user, auth, asked, s2, rv);
      if user != CKU_CONTEXT_SPECIFIC || asked {
        OtherLoginAnswer(s.slots[s.sessionmap[h]], user, auth, sl2, rv);
      }
    }
  }

  lemma ReadOnlyExactly(sessions: SessionMap)
    requires AllWellFormed(sessions)
    ensures HasReadOnly(sessions) <==> exists k :: k in sessions && !sessions[k].flags.rw
  {
    forall k | k in sessions
      ensures IsReadOnly(sessions[k]) <==> !sessions[k].flags.rw
    {
      SessionExactly(sessions[k], CKU_USER);
    }
  }

  /// The answer to a logout through a session, and what it leaves: nobody
  /// logged in, but the sessions told so only if the storage agrees.
  lemma LogoutAnswer(s: LibraryState, h: nat, unauthOk: bool)
    requires LibInv(s)
    ensures Logout(s, h, unauthOk).1 ==
      if s.next == 0 then CKR_CRYPTOKI_NOT_INITIALIZED
      else if h !in s.sessionmap then CKR_SESSION_HANDLE_INVALID
      else if s.slots[s.sessionmap[h]].token.logged == CK_UNAVAILABLE_INFORMATION then CKR_USER_NOT_LOGGED_IN
      else if unauthOk then CKR_OK
      else CKR_GENERAL_ERROR
    ensures s.next == 0 || h !in s.sessionmap ==> Logout(s, h, unauthOk).0 == s
    ensures s.next != 0 && h in s.sessionmap ==>
      var (s2, rv) := Logout(s, h, unauthOk);
      var id := s.sessionmap[h];
      && id in s2.slots && s2 == s.(slots := s.slots[id := s2.slots[id]])
      && s2.slots[id].token == LoggedOut(s.slots[id].token)
      && (if rv == CKR_OK then AllThere(s.slots[id].sessions, s2.slots[id].sessions, CK_UNAVAILABLE_INFORMATION)
          else s2.slots[id].sessions == s.slots[id].sessions)
  {
    OwnSlotIsIndexed(s, h);
    if s.next != 0 && h in s.sessionmap {
      HasInitializedToken(s, h);
      SlotLogoutAnswer(s.slots[s.sessionmap[h]], unauthOk);
    }
    hide SlotLogout, LoggedOut, AllThere, SlotsInv, HandlesGiven, TokenInv, AllWellFormed;
  }

  lemma SlotLogoutAnswer(sl: SlotState, unauthOk: bool)
    requires AllWellFormed(sl.sessions) && LoginLevel(sl.token.logged)
    ensures
      var (sl2, rv) := SlotLogout(sl, unauthOk);
      && rv == (if sl.token.logged == CK_UNAVAILABLE_INFORMATION then CKR_USER_NOT_LOGGED_IN
                else if unauthOk then CKR_OK else CKR_GENERAL_ERROR)
      && sl2.token == LoggedOut(sl.token)
      && (if rv == CKR_OK then AllThere(sl.sessions, sl2.sessions, CK_UNAVAILABLE_INFORMATION)
          else sl2.sessions == sl.sessions)
  {
    LogoutExactly(sl.token, unauthOk);
    PublicThere(sl);
    hide LogoutRv, LoggedOut, PublicAgain, AllThere;
  }

  // ----- the token behind a slot

  /// The answer to setting up the token of a slot: not while sessions are open,
  /// and errors that are not about the PIN become one.
  lemma InitTokenAnswer(s: LibraryState, id: nat, setup: Setup, builtins: seq<Object>)
    requires forall o :: o in builtins ==> o.WellFormed()
    ensures
      var (s2, rv) := InitToken(s, id, setup, builtins);
      if s.next == 0 then s2 == s && rv == CKR_CRYPTOKI_NOT_INITIALIZED
      else if id !in s.slots then s2 == s && rv == CKR_SLOT_ID_INVALID
      else if s.slots[id].sessions != map[] then s2 == s && rv == CKR_SESSION_EXISTS
      else
        var (t2, answer) := SetUp(s.slots[id].token, setup, builtins);
        && s2 == s.(slots := s.slots[id := SlotState(map[], t2)])
        && (answer in {CKR_OK, CKR_PIN_LOCKED, CKR_PIN_INCORRECT, CKR_PIN_INVALID, CKR_PIN_EXPIRED} ==> rv == answer)
        && (answer !in {CKR_OK, CKR_PIN_LOCKED, CKR_PIN_INCORRECT, CKR_PIN_INVALID, CKR_PIN_EXPIRED} ==>
              rv == CKR_GENERAL_ERROR)
  {
    hide SetUp;
  }

  /// The answer to changing a PIN through a session. The login there was, or
  /// that there was none, is as before.
  lemma SetPinAnswer(s: LibraryState, h: nat, empty: bool, auth: Rv, set_: Rv)
    requires LibInv(s)
    ensures SetPin(s, h, empty, auth, set_).1 ==
      if s.next == 0 then CKR_CRYPTOKI_NOT_INITIALIZED
      else if h !in s.sessionmap then CKR_SESSION_HANDLE_INVALID
      else if !s.slots[s.sessionmap[h]].sessions[h].flags.rw then CKR_SESSION_READ_ONLY
      else if empty then CKR_PIN_INVALID
      else if s.slots[s.sessionmap[h]].token.logged != CK_UNAVAILABLE_INFORMATION then set_
      else if auth != CKR_OK then auth
      else set_
    ensures s.next == 0 || h !in s.sessionmap ==> SetPin(s, h, empty, auth, set_).0 == s
    ensures s.next != 0 && h in s.sessionmap ==>
      var s2 := SetPin(s, h, empty, auth, set_).0;
      var id := s.sessionmap[h];
      && id in s2.slots && s2 == s.(slots := s.slots[id := s2.slots[id]])
      && s2.slots[id].sessions == s.slots[id].sessions && s2.slots[id].token.logged == s.slots[id].token.logged
      && s2.slots[id].token.storage == s.slots[id].token.storage
  {
    hide *;
    if s.next != 0 && h in s.sessionmap {
      SessionAt(s, h);
      var sl := s.slots[s.sessionmap[h]];
      SetPinInSlot(s, h, sl.sessions[h], sl, empty, auth, set_);
    } else {
      SetPinRefused(s, h, empty, auth, set_);
    }
  }

  lemma SetPinRefused(s: LibraryState, h: nat, empty: bool, auth: Rv, set_: Rv)
    requires s.next == 0 || h !in s.sessionmap
    ensures SetPin(s, h, empty, auth, set_) ==
      (s, if s.next == 0 then CKR_CRYPTOKI_NOT_INITIALIZED else CKR_SESSION_HANDLE_INVALID)
  {
    hide LoginRv, AfterLogin, LoggedOut;
  }

  /// The session of a handle, and its slot.
  lemma SessionAt(s: LibraryState, h: nat)
    requires LibInv(s) && s.next != 0 && h in s.sessionmap
    ensures
      var id := s.sessionmap[h];
      && id in s.slots && h in s.slots[id].sessions && s.slots[id].token.initialized
      && SessionOf(s, h) == Ok(s.slots[id].sessions[h]) && s.slots[id].sessions[h].slotId == id
      && s.slots[id].token.logged in {CK_UNAVAILABLE_INFORMATION, CKU_SO, CKU_USER}
      && WellFormed(s.slots[id].sessions[h])
  {
    OwnSlotIsIndexed(s, h);
    HasInitializedToken(s, h);
    KnownLogin(s, h);
    hide TokenInv, ObjectsOwned, HandlesGiven, WellFormed, SlotsInv;
  }

  lemma SetPinInSlot(s: LibraryState, h: nat, v: SessionValue, sl: SlotState, empty: bool, auth: Rv, set_: Rv)
    requires SessionOf(s, h) == Ok(v) && s.next != 0 && v.slotId in s.slots && s.slots[v.slotId] == sl
    requires WellFormed(v) && sl.token.initialized
    requires sl.token.logged in {CK_UNAVAILABLE_INFORMATION, CKU_SO, CKU_USER}
    ensures
      var (s2, rv) := SetPin(s, h, empty, auth, set_);
      && rv == (if !v.flags.rw then CKR_SESSION_READ_ONLY
                else if empty then CKR_PIN_INVALID
                else if sl.token.logged != CK_UNAVAILABLE_INFORMATION then set_
                else if auth != CKR_OK then auth
                else set_)
      && v.slotId in s2.slots && s2 == s.(slots := s.slots[v.slotId := s2.slots[v.slotId]])
      && s2.slots[v.slotId].sessions == sl.sessions && s2.slots[v.slotId].token.logged == sl.token.logged
      && s2.slots[v.slotId].token.storage == sl.token.storage
  {
    hide SessionOf, LoginRv, AfterLogin, LoggedOut;
    LoginExactly(sl.token, CKU_USER, auth);
    LoggedOutStays(AfterLogin(sl.token, CKU_USER, auth));
    assert s.slots[v.slotId := sl] == s.slots;
  }

  lemma LoggedOutStays(t: TokenState)
    requires LoginLevel(t.logged)
    ensures LoggedOut(t).logged == CK_UNAVAILABLE_INFORMATION && LoggedOut(t).storage == t.storage
  {
  }
}
