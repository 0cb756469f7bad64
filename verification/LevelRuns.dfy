/// When the sessions of every slot are exactly at the level of its token's
/// login, over all runs.
module LevelRuns {
  import opened Common
  import opened Library
  import opened LibraryRuns
  import opened LoginRuns
  import opened Objects
  import opened SessionRuns
  import opened Sessions
  import opened Slots
  import opened TokenCalls
  import opened Tokens

  ghost predicate AtLevel(sl: SlotState) { AllAt(sl.sessions, sl.token.logged) }

  ghost predicate AtLevels(slots: map<nat, SlotState>) {
    forall id :: id in slots ==> AtLevel(slots[id])
  }

  /// A session is opened on a slot where the security officer is logged in, and
  /// nothing refuses it.
  predicate OpensUnderOfficer(s: LibraryState, e: Event) {
    && e.Open? && s.next != 0 && e.id in s.slots && s.slots[e.id].token.initialized
    && s.slots[e.id].token.logged == CKU_SO && e.flags.rw && e.flags.serial
  }

  // ----- one slot

  lemma AtLevelIsCoherent(sl: SlotState)
    requires AllWellFormed(sl.sessions) && LoginLevel(sl.token.logged) && AtLevel(sl)
    ensures Coherent(sl)
  {
    LevelFitsLogin(sl.sessions, sl.token.logged);
  }

  lemma ReplaceLevels(slots: map<nat, SlotState>, id: nat, sl: SlotState)
    requires AtLevels(slots)
    ensures AtLevels(slots[id := sl]) <==> AtLevel(sl)
  {
    var after := slots[id := sl];
    assert after[id] == sl;
  }

  /// A session that is opened starts at the level of the login, unless that is
  /// the security officer's.
  lemma OpenedLevel(id: nat, logged: UserType, flags: SessionFlags)
    requires LoginLevel(logged) && Opened(id, logged, flags).Ok?
    ensures Level(Opened(id, logged, flags).value.state) == logged <==> logged != CKU_SO
  {
  }

  lemma LoginKeepsLevel(sl: SlotState, user: UserType, auth: Rv, sl2: SlotState, rv: Rv)
    requires AllWellFormed(sl.sessions) && sl.sessions != map[] && AtLevel(sl) && LoginLevel(sl.token.logged)
    requires user == CKU_SO ==> !HasReadOnly(sl.sessions)
    requires SlotLogin(sl, user, auth, sl2, rv)
    ensures AtLevel(sl2)
  {
    AtLevelIsCoherent(sl);
    if user == CKU_USER || user == CKU_SO {
      LoginNeverRollsBack(sl, user, auth, sl2, rv);
    } else if user == CKU_CONTEXT_SPECIFIC {
      PublicAgainCoherent(sl);
      assert sl2 == sl || sl2 == PublicAgain(sl);
    } else {
      OtherLoginRefused(sl, user, auth, sl2, rv);
    }
  }

  lemma LogoutLevelExactly(sl: SlotState, unauthOk: bool)
    requires AllWellFormed(sl.sessions) && sl.sessions != map[] && AtLevel(sl) && LoginLevel(sl.token.logged)
    ensures AtLevel(SlotLogout(sl, unauthOk).0) <==> !LoggedIn(sl.token) || unauthOk
  {
    PublicAgainCoherent(sl);
    if LoggedIn(sl.token) && !unauthOk {
      var h :| h in sl.sessions;
      assert Level(sl.sessions[h].state) == sl.token.logged;
    }
  }

  lemma ClosedLevel(sl: SlotState, h: nat)
    requires AtLevel(sl)
    ensures AtLevel(Closed(sl, h))
  {
  }

  // ----- every call

  lemma OpenLevels(s: LibraryState, id: nat, flags: SessionFlags)
    requires AtLevels(s.slots) && (id in s.slots ==> LoginLevel(s.slots[id].token.logged))
    ensures AtLevels(OpenSession(s, id, flags).0.slots) <==> !OpensUnderOfficer(s, Open(id, flags))
  {
    var (s2, r) := OpenSession(s, id, flags);
    if r.Ok? {
      var v := OpenResult(s, id, flags);
      var sl := s.slots[id];
      var user := if LoggedIn(sl.token) then sl.token.logged else CK_UNAVAILABLE_INFORMATION;
      OpenedLevel(id, user, flags);
      var after := sl.(sessions := sl.sessions[s.next := v]);
      assert AtLevel(sl);
      assert AtLevel(after) <==> Level(v.state) == sl.token.logged by {
        assert after.sessions[s.next] == v;
      }
      ReplaceLevels(s.slots, id, after);
    }
  }

  lemma CloseKeepsLevels(s: LibraryState, h: nat)
    requires AtLevels(s.slots) && IndexAgrees(s) && HandlesGiven(s)
    requires h in s.sessionmap ==> s.slots[s.sessionmap[h]].token.initialized
    ensures AtLevels(CloseSession(s, h).0.slots)
  {
    CloseResult(s, h);
    if h in s.sessionmap {
      var id := s.sessionmap[h];
      ClosedLevel(s.slots[id], h);
      ReplaceLevels(s.slots, id, Closed(s.slots[id], h));
    }
  }

  lemma CloseAllKeepsLevels(s: LibraryState, id: nat, order: seq<nat>, s2: LibraryState, rv: Rv)
    requires AtLevels(s.slots) && IndexAgrees(s) && HandlesGiven(s) && CloseAllSessions(s, id, order, s2, rv)
    requires id in s.slots && s.slots[id].sessions != map[] ==> s.slots[id].token.initialized
    ensures AtLevels(s2.slots)
  {
    CloseAllResult(s, id, order, s2, rv);
    if rv == CKR_OK {
      ReplaceLevels(s.slots, id, AllClosed(s.slots[id], order));
    }
  }

  lemma LoginKeepsLevels(s: LibraryState, h: nat, user: UserType, auth: Rv, asked: bool, s2: LibraryState, rv: Rv)
    requires AtLevels(s.slots) && Indexed(s, h) && SlotReady(s, h) && Login(s, h, user, auth, asked, s2, rv)
    ensures AtLevels(s2.slots)
  {
    if OwnSlot(s, h).Ok? && s2 != s {
      var id := s.sessionmap[h];
      var sl2 :| s2 == WithSlot(s, id, sl2) && SlotLogin(s.slots[id], user, auth, sl2, rv);
      assert AtLevel(s.slots[id]);
      LoginKeepsLevel(s.slots[id], user, auth, sl2, rv);
      ReplaceLevels(s.slots, id, sl2);
    }
  }

  lemma LogoutLevels(s: LibraryState, h: nat, unauthOk: bool)
    requires AtLevels(s.slots) && Indexed(s, h) && SlotReady(s, h)
    ensures AtLevels(Logout(s, h, unauthOk).0.slots) <==> !FailsLogout(s, LogOut(h, unauthOk))
  {
    if ReadySlot(OwnSlot(s, h)).Ok? {
      var sl := s.slots[s.sessionmap[h]];
      assert AtLevel(sl);
      LogoutLevelExactly(sl, unauthOk);
      ReplaceLevels(s.slots, s.sessionmap[h], SlotLogout(sl, unauthOk).0);
    }
  }

  lemma SetPinKeepsLevels(s: LibraryState, h: nat, empty: bool, auth: Rv, set_: Rv)
    requires AtLevels(s.slots) && Indexed(s, h) && SlotReady(s, h)
    ensures AtLevels(SetPin(s, h, empty, auth, set_).0.slots)
  {
    SetPinResult(s, h, empty, auth, set_);
    var s2 := SetPin(s, h, empty, auth, set_).0;
    if OwnSlot(s, h).Ok? && s2 != s {
      var sl := s.slots[s.sessionmap[h]];
      assert AtLevel(sl) && !LoggedIn(sl.token);
      ReplaceLevels(s.slots, s.sessionmap[h], sl.(token := LoggedOut(AfterLogin(sl.token, CKU_USER, auth))));
    }
  }

  lemma UseKeepsLevels(s: LibraryState, h: nat, call: Call, s2: LibraryState)
    requires AtLevels(s.slots) && Indexed(s, h) && Step(s, Use(h, call), s2)
    requires OwnSlot(s, h).Ok? ==> TokenInv(s.slots[s.sessionmap[h]].token)
    ensures AtLevels(s2.slots)
  {
    if ReadySlot(OwnSlot(s, h)).Ok? {
      var id := s.sessionmap[h];
      var t2 :| Called(s.slots[id].token, h, call, t2) && s2 == WithSlot(s, id, s.slots[id].(token := t2));
      CallKeeps(s.slots[id].token, h, call, t2);
      assert AtLevel(s.slots[id]);
      ReplaceLevels(s.slots, id, s.slots[id].(token := t2));
    }
  }

  lemma SetUpKeepsLevels(s: LibraryState, id: nat, setup: Setup, builtins: seq<Object>)
    requires AtLevels(s.slots) && forall o :: o in builtins ==> o.WellFormed()
    ensures AtLevels(InitToken(s, id, setup, builtins).0.slots)
  {
  }

  lemma OpenStepLevels(s: LibraryState, id: nat, flags: SessionFlags, s2: LibraryState)
    requires LibInv(s) && AtLevels(s.slots) && Step(s, Open(id, flags), s2)
    ensures AtLevels(s2.slots) <==> !OpensUnderOfficer(s, Open(id, flags))
  {
    if id in s.slots {
      SlotFacts(s, id);
    }
    OpenLevels(s, id, flags);
  }

  lemma CloseStepLevels(s: LibraryState, h: nat, s2: LibraryState)
    requires LibInv(s) && AtLevels(s.slots) && Step(s, Close(h), s2)
    ensures AtLevels(s2.slots)
  {
    IndexedByInv(s, h);
    CloseKeepsLevels(s, h);
  }

  lemma LogoutStepLevels(s: LibraryState, h: nat, unauthOk: bool, s2: LibraryState)
    requires LibInv(s) && AtLevels(s.slots) && Step(s, LogOut(h, unauthOk), s2)
    ensures AtLevels(s2.slots) <==> !FailsLogout(s, LogOut(h, unauthOk))
  {
    ReadyByInv(s, h);
    LogoutLevels(s, h, unauthOk);
  }

  lemma PinStepLevels(s: LibraryState, h: nat, empty: bool, auth: Rv, set_: Rv, s2: LibraryState)
    requires LibInv(s) && AtLevels(s.slots) && Step(s, ChangePin(h, empty, auth, set_), s2)
    ensures AtLevels(s2.slots)
  {
    ReadyByInv(s, h);
    SetPinKeepsLevels(s, h, empty, auth, set_);
  }

  lemma UseStepLevels(s: LibraryState, h: nat, call: Call, s2: LibraryState)
    requires LibInv(s) && AtLevels(s.slots) && Step(s, Use(h, call), s2)
    ensures AtLevels(s2.slots)
  {
    OwnSlotIsIndexed(s, h);
    IndexedByInv(s, h);
    UseKeepsLevels(s, h, call, s2);
  }

  lemma CloseAllStepLevels(s: LibraryState, id: nat, s2: LibraryState)
    requires LibInv(s) && AtLevels(s.slots) && Step(s, CloseAll(id), s2)
    ensures AtLevels(s2.slots)
  {
    var order, rv :| CloseAllSessions(s, id, order, s2, rv);
    if id in s.slots {
      SlotFacts(s, id);
    }
    CloseAllKeepsLevels(s, id, order, s2, rv);
  }

  lemma LoginStepLevels(s: LibraryState, h: nat, user: UserType, auth: Rv, asked: bool, s2: LibraryState)
    requires LibInv(s) && AtLevels(s.slots) && Step(s, LogIn(h, user, auth, asked), s2)
    ensures AtLevels(s2.slots)
  {
    var rv :| Login(s, h, user, auth, asked, s2, rv);
    ReadyByInv(s, h);
    LoginKeepsLevels(s, h, user, auth, asked, s2, rv);
  }

  /// A call keeps all sessions at the level of the login exactly when it neither
  /// opens a session while the security officer is logged in nor logs out
  /// without the storage.
  lemma StepLevelsExactly(s: LibraryState, e: Event, s2: LibraryState)
    requires LibInv(s) && AtLevels(s.slots) && Step(s, e, s2)
    ensures AtLevels(s2.slots) <==> !OpensUnderOfficer(s, e) && !FailsLogout(s, e)
  {
    hide LibInv;
    match e {
      case Start =>
      case AddSlot(_, _) =>
      case Stop =>
      case Open(id, flags) => OpenStepLevels(s, id, flags, s2);
      case Close(h) => CloseStepLevels(s, h, s2);
      case CloseAll(id) => CloseAllStepLevels(s, id, s2);
      case LogIn(h, user, auth, asked) => LoginStepLevels(s, h, user, auth, asked, s2);
      case LogOut(h, unauthOk) => LogoutStepLevels(s, h, unauthOk, s2);
      case SetUpToken(id, setup, builtins) => SetUpKeepsLevels(s, id, setup, builtins);
      case ChangePin(h, empty, auth, set_) => PinStepLevels(s, h, empty, auth, set_, s2);
      case Use(h, call) => UseStepLevels(s, h, call, s2);
    }
  }

  // ----- runs

  ghost predicate LevelsUpTo(states: seq<LibraryState>, n: nat)
    requires n < |states|
  {
    forall i :: 0 <= i <= n ==> AtLevels(states[i].slots)
  }

  predicate Apart(s: LibraryState, e: Event) { OpensUnderOfficer(s, e) || FailsLogout(s, e) }

  ghost predicate NeverApart(states: seq<LibraryState>, events: seq<Event>, n: nat)
    requires n <= |events| <= |states|
  {
    forall i :: 0 <= i < n ==> !Apart(states[i], events[i])
  }

  /// In a run the sessions of every slot are at the level of its token's login
  /// in every state exactly when no session is opened while the security
  /// officer is logged in and no logout is failed by the storage.
  lemma {:induction false} RunLevelsExactly(states: seq<LibraryState>, events: seq<Event>, n: nat)
    requires Run(states, events) && states[0] == STOPPED && n < |states|
    ensures LevelsUpTo(states, n) <==> NeverApart(states, events, n)
  {
    if n > 0 {
      RunLevelsExactly(states, events, n - 1);
      OneMoreStep(states, events, n);
      RunKeepsInv(states, events, n - 1);
      if LevelsUpTo(states, n - 1) {
        StepLevelsExactly(states[n - 1], events[n - 1], states[n]);
      }
    }
  }

  lemma OneMoreStep(states: seq<LibraryState>, events: seq<Event>, n: nat)
    requires |states| == |events| + 1 && 0 < n < |states|
    ensures LevelsUpTo(states, n) <==> LevelsUpTo(states, n - 1) && AtLevels(states[n].slots)
    ensures NeverApart(states, events, n) <==>
              NeverApart(states, events, n - 1) && !Apart(states[n - 1], events[n - 1])
  {
    hide AtLevels, Apart;
  }

  // ----- a session below the officer's level

  /// A slot after the security officer has logged in through session 1.
  function UnderOfficer(id: nat, token: TokenState, flags: SessionFlags): SlotState {
    SlotState(map[1 := SessionValue(id, CKS_RW_SO_FUNCTIONS, flags)], token.(logged := CKU_SO))
  }

  /// A run in which the security officer logs in and a session opened after
  /// that is at the user's level.
  lemma OpenedBelowOfficer(id: nat, token: TokenState, flags: SessionFlags)
      returns (states: seq<LibraryState>, events: seq<Event>)
    requires NewToken(token) && token.initialized && flags.serial && flags.rw
    ensures Run(states, events) && states[0] == STOPPED
    ensures events == [Start, AddSlot(id, token), Open(id, flags), LogIn(1, CKU_SO, CKR_OK, false), Open(id, flags)]
    ensures id in states[5].slots && states[5].slots[id].token.logged == CKU_SO
    ensures states[5].slots[id].sessions ==
      map[1 := SessionValue(id, CKS_RW_SO_FUNCTIONS, flags), 2 := SessionValue(id, CKS_RW_USER_FUNCTIONS, flags)]
  {
    hide Step;
    var added := AddedSlot(STARTED, id, token).0;
    var first := WithNew(added, id, SessionValue(id, CKS_RW_PUBLIC_SESSION, flags));
    var logged := WithSlot(first, id, UnderOfficer(id, token, flags));
    var second := WithNew(logged, id, SessionValue(id, CKS_RW_USER_FUNCTIONS, flags));
    states := [STOPPED, STARTED, added, first, logged, second];
    events := [Start, AddSlot(id, token), Open(id, flags), LogIn(1, CKU_SO, CKR_OK, false), Open(id, flags)];
    StartGives(id, token);
    OpenGives(added, id, flags, SessionValue(id, CKS_RW_PUBLIC_SESSION, flags));
    OfficerIn(first, id, token, flags);
    OpenGives(logged, id, flags, SessionValue(id, CKS_RW_USER_FUNCTIONS, flags));
    FiveSteps(states, events);
  }

  lemma FiveSteps(states: seq<LibraryState>, events: seq<Event>)
    requires |states| == 6 && |events| == 5
    requires Step(states[0], events[0], states[1]) && Step(states[1], events[1], states[2])
    requires Step(states[2], events[2], states[3]) && Step(states[3], events[3], states[4])
    requires Step(states[4], events[4], states[5])
    ensures Run(states, events)
  {
    hide Step;
  }

  lemma StartGives(id: nat, token: TokenState)
    requires NewToken(token)
    ensures Step(STOPPED, Start, STARTED) && Step(STARTED, AddSlot(id, token), AddedSlot(STARTED, id, token).0)
  {
  }

  lemma OpenGives(s: LibraryState, id: nat, flags: SessionFlags, v: SessionValue)
    requires s.next != 0 && id in s.slots && s.slots[id].token.initialized && flags.rw
    requires
      var t := s.slots[id].token;
      Opened(id, if LoggedIn(t) then t.logged else CK_UNAVAILABLE_INFORMATION, flags) == Ok(v)
    ensures Step(s, Open(id, flags), WithNew(s, id, v))
  {
  }

  lemma OfficerIn(first: LibraryState, id: nat, token: TokenState, flags: SessionFlags)
    requires token.logged == CK_UNAVAILABLE_INFORMATION && token.initialized && flags.rw
    requires first.next != 0 && 1 in first.sessionmap && first.sessionmap[1] == id && id in first.slots
    requires first.slots[id] == SlotState(map[1 := SessionValue(id, CKS_RW_PUBLIC_SESSION, flags)], token)
    ensures Step(first, LogIn(1, CKU_SO, CKR_OK, false), WithSlot(first, id, UnderOfficer(id, token, flags)))
  {
    OfficerInSlot(id, token, flags);
    var sl2 := UnderOfficer(id, token, flags);
    hide SlotLogin, UnderOfficer;
    assert Login(first, 1, CKU_SO, CKR_OK, false, WithSlot(first, id, sl2), CKR_OK);
  }

  lemma OfficerInSlot(id: nat, token: TokenState, flags: SessionFlags)
    requires token.logged == CK_UNAVAILABLE_INFORMATION
    ensures
      var sl := SlotState(map[1 := SessionValue(id, CKS_RW_PUBLIC_SESSION, flags)], token);
      SlotLogin(sl, CKU_SO, CKR_OK, UnderOfficer(id, token, flags), CKR_OK)
  {
    var before := map[1 := SessionValue(id, CKS_RW_PUBLIC_SESSION, flags)];
    assert Walked(before, CKU_SO, {1}, UnderOfficer(id, token, flags).sessions, CKR_OK);
  }
}
