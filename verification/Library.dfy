/// What the library keeps about all slots and sessions (src/lib.rs), as values,
/// and what each entry point for sessions does to it (src/fns/sessmgmt.rs,
/// src/fns/stmgmt.rs, src/fns/general.rs).
module Library {
  import opened Common
  import opened Objects
  import opened Sessions
  import opened Slots
  import opened Tokens

  datatype LibraryState = LibraryState(slots: map<nat, SlotState>, sessionmap: map<nat, nat>, next: nat)

  // ----- invariants

  /// A slot's sessions are its own, its token is in order and set up if there
  /// are sessions, nobody is logged in without one, and every session object
  /// belongs to an open session or to the token itself.
  ghost predicate SlotInv(id: nat, sl: SlotState) {
    && AllWellFormed(sl.sessions)
    && (forall h :: h in sl.sessions ==> sl.sessions[h].slotId == id)
    && TokenInv(sl.token)
    && (if sl.sessions == map[] then sl.token.logged == CK_UNAVAILABLE_INFORMATION else sl.token.initialized)
    && ObjectsOwned(sl)
  }

  ghost predicate ObjectsOwned(sl: SlotState) {
    forall k :: k in sl.token.sessionObjects ==>
      sl.token.sessionObjects[k].IsBuiltin() || sl.token.sessionObjects[k].session in sl.sessions
  }

  /// The index of sessions and the slots' own maps agree.
  ghost predicate IndexAgrees(s: LibraryState) {
    && (forall h :: h in s.sessionmap ==> s.sessionmap[h] in s.slots && h in s.slots[s.sessionmap[h]].sessions)
    && (forall id, h :: id in s.slots && h in s.slots[id].sessions ==> h in s.sessionmap && s.sessionmap[h] == id)
  }

  /// Live session handles have been given out in this period.
  ghost predicate HandlesGiven(s: LibraryState) {
    && (forall h :: h in s.sessionmap ==> 1 <= h < s.next)
    && (s.next == 0 ==> s.slots == map[])
  }

  ghost predicate SlotsInv(slots: map<nat, SlotState>) {
    forall id :: id in slots ==> SlotInv(id, slots[id])
  }

  ghost predicate LibInv(s: LibraryState) {
    IndexAgrees(s) && HandlesGiven(s) && SlotsInv(s.slots)
  }

  // ----- finding things

  function SlotOf(s: LibraryState, id: nat): Result<SlotState, Rv> {
    if s.next == 0 then Err(CKR_CRYPTOKI_NOT_INITIALIZED)
    else if id !in s.slots then Err(CKR_SLOT_ID_INVALID)
    else Ok(s.slots[id])
  }

  /// The slot of a session handle.
  function SlotOfSession(s: LibraryState, h: nat): Result<SlotState, Rv> {
    if h !in s.sessionmap then Err(CKR_SESSION_HANDLE_INVALID) else SlotOf(s, s.sessionmap[h])
  }

  /// A slot whose token can be used.
  function ReadySlot(r: Result<SlotState, Rv>): Result<SlotState, Rv> {
    if r.Ok? && !r.value.token.initialized then Err(CKR_TOKEN_NOT_INITIALIZED) else r
  }

  function WithSlot(s: LibraryState, id: nat, sl: SlotState): LibraryState {
    s.(slots := s.slots[id := sl])
  }

  // ----- starting and stopping

  const STARTED := LibraryState(map[], map[], 1)
  const STOPPED := LibraryState(map[], map[], 0)

  function AddedSlot(s: LibraryState, id: nat, token: TokenState): (LibraryState, Rv) {
    if id in s.slots then (s, CKR_CRYPTOKI_ALREADY_INITIALIZED)
    else (WithSlot(s, id, SlotState(map[], token)), CKR_OK)
  }

  // ----- opening and closing sessions

  function NewSession(s: LibraryState, id: nat, user: UserType, flags: SessionFlags): (LibraryState, Result<nat, Rv>) {
    match SlotOf(s, id)
    case Err(e) => (s, Err(e))
    case Ok(sl) =>
      match Opened(id, user, flags)
      case Err(e) => (s, Err(e))
      case Ok(v) =>
        (LibraryState(s.slots[id := sl.(sessions := sl.sessions[s.next := v])], s.sessionmap[s.next := id], s.next + 1),
         Ok(s.next))
  }

  function OpenSession(s: LibraryState, id: nat, flags: SessionFlags): (LibraryState, Result<nat, Rv>) {
    match ReadySlot(SlotOf(s, id))
    case Err(e) => (s, Err(e))
    case Ok(sl) =>
      if sl.token.logged == CKU_SO && !flags.rw then (s, Err(CKR_SESSION_READ_WRITE_SO_EXISTS))
      else NewSession(s, id, if LoggedIn(sl.token) then sl.token.logged else CK_UNAVAILABLE_INFORMATION, flags)
  }

  /// The last session to go takes the login with it.
  function DropSession(s: LibraryState, h: nat): (LibraryState, Rv) {
    match SlotOfSession(s, h)
    case Err(e) => (s, e)
    case Ok(sl) =>
      var id := s.sessionmap[h];
      var left := sl.sessions - {h};
      var s1 := LibraryState(s.slots[id := sl.(sessions := left)], s.sessionmap - {h}, s.next);
      if left != map[] then (s1, CKR_OK)
      else if !sl.token.initialized then (s1, CKR_TOKEN_NOT_INITIALIZED)
      else (WithSlot(s1, id, SlotState(left, LoggedOut(sl.token))), CKR_OK)
  }

  function CloseSession(s: LibraryState, h: nat): (LibraryState, Rv) {
    if s.next == 0 then (s, CKR_CRYPTOKI_NOT_INITIALIZED) else
    match ReadySlot(SlotOfSession(s, h))
    case Err(e) => (s, e)
    case Ok(sl) =>
      var cleaned := Without(sl.token, HandlesOf(sl.token.sessionObjects, h));
      DropSession(WithSlot(s, s.sessionmap[h], sl.(token := cleaned)), h)
  }

  /// Forgets the objects of several sessions, one session after the other.
  function DropObjects(t: TokenState, sessions: seq<nat>): TokenState
    decreases |sessions|
  {
    if sessions == [] then t
    else DropObjects(Without(t, HandlesOf(t.sessionObjects, sessions[0])), sessions[1..])
  }

  function DropAllSessionsSlot(s: LibraryState, id: nat): (LibraryState, Rv) {
    var s1 := s.(sessionmap := map h | h in s.sessionmap && s.sessionmap[h] != id :: s.sessionmap[h]);
    match SlotOf(s1, id)
    case Err(e) => (s1, e)
    case Ok(sl) => (WithSlot(s1, id, sl.(sessions := map[])), CKR_OK)
  }

  /// The sessions come in any order.
  ghost predicate CloseAllSessions(s: LibraryState, id: nat, order: seq<nat>, s2: LibraryState, rv: Rv) {
    var (s1, dropped) := DropAllSessionsSlot(s, id);
    if s.next == 0 then s2 == s && rv == CKR_CRYPTOKI_NOT_INITIALIZED
    else if dropped != CKR_OK then s2 == s1 && rv == dropped
    else
      && (forall h :: h in order <==> h in s.slots[id].sessions)
      && match ReadySlot(SlotOf(s1, id))
         case Err(e) => s2 == s1 && rv == e
         case Ok(sl) => s2 == WithSlot(s1, id, sl.(token := LoggedOut(DropObjects(sl.token, order)))) && rv == CKR_OK
  }

  // ----- logging in and out

  function SessionOf(s: LibraryState, h: nat): Result<SessionValue, Rv> {
    if s.next == 0 then Err(CKR_CRYPTOKI_NOT_INITIALIZED)
    else
      match SlotOfSession(s, h)
      case Err(e) => Err(e)
      case Ok(sl) => if h !in sl.sessions then Err(CKR_SESSION_HANDLE_INVALID) else Ok(sl.sessions[h])
  }

  /// The slot a session says it belongs to.
  function OwnSlot(s: LibraryState, h: nat): Result<SlotState, Rv> {
    match SessionOf(s, h)
    case Err(e) => Err(e)
    case Ok(v) => SlotOf(s, v.slotId)
  }

  /// Logging in through a session: the storage answers auth; asked says whether
  /// an operation of the session waits for a login of its own.
  ghost predicate Login(s: LibraryState, h: nat, user: UserType, auth: Rv, asked: bool, s2: LibraryState, rv: Rv) {
    match OwnSlot(s, h)
    case Err(e) => s2 == s && rv == e
    case Ok(sl) =>
      if user == CKU_SO && HasReadOnly(sl.sessions) then s2 == s && rv == CKR_SESSION_READ_ONLY_EXISTS
      else if !sl.token.initialized then s2 == s && rv == CKR_TOKEN_NOT_INITIALIZED
      else if user == CKU_CONTEXT_SPECIFIC && !asked then s2 == s && rv == CKR_OPERATION_NOT_INITIALIZED
      else exists sl2 :: s2 == WithSlot(s, SessionOf(s, h).value.slotId, sl2) && SlotLogin(sl, user, auth, sl2, rv)
  }

  ghost predicate SlotLogin(sl: SlotState, user: UserType, auth: Rv, sl2: SlotState, rv: Rv) {
    var result := LoginRv(sl.token, user, auth);
    var token := AfterLogin(sl.token, user, auth);
    if user == CKU_CONTEXT_SPECIFIC then
      && rv == result
      && sl2 == if result == CKR_PIN_LOCKED then PublicAgain(sl.(token := token)) else sl.(token := token)
    else if result != CKR_OK then sl2 == sl.(token := token) && rv == result
    else exists done, after :: Walked(sl.sessions, user, done, after, rv)
           && sl2 == if rv == CKR_OK then SlotState(after, token) else PublicAgain(SlotState(after, token))
  }

  /// Logged out and told so to every session.
  function PublicAgain(sl: SlotState): SlotState {
    SlotState(AllMoved(sl.sessions, CK_UNAVAILABLE_INFORMATION), LoggedOut(sl.token))
  }

  function SlotLogout(sl: SlotState, unauthOk: bool): (SlotState, Rv) {
    var rv := LogoutRv(sl.token, unauthOk);
    (if rv == CKR_OK then PublicAgain(sl) else sl.(token := LoggedOut(sl.token)), rv)
  }

  function Logout(s: LibraryState, h: nat, unauthOk: bool): (LibraryState, Rv) {
    match ReadySlot(OwnSlot(s, h))
    case Err(e) => (s, e)
    case Ok(sl) =>
      var (sl2, rv) := SlotLogout(sl, unauthOk);
      (WithSlot(s, SessionOf(s, h).value.slotId, sl2), rv)
  }

  // ----- the token behind a slot

  function InitToken(s: LibraryState, id: nat, setup: Setup, builtins: seq<Object>): (LibraryState, Rv)
    requires forall o :: o in builtins ==> o.WellFormed()
  {
    match SlotOf(s, id)
    case Err(e) => (s, e)
    case Ok(sl) =>
      if sl.sessions != map[] then (s, CKR_SESSION_EXISTS)
      else
        var (token, rv) := SetUp(sl.token, setup, builtins);
        (WithSlot(s, id, sl.(token := token)),
         if rv in {CKR_OK, CKR_PIN_LOCKED, CKR_PIN_INCORRECT, CKR_PIN_INVALID, CKR_PIN_EXPIRED} then rv
         else CKR_GENERAL_ERROR)
  }

  /// Changing a PIN logs the user in and out again if nobody is logged in.
  function SetPin(s: LibraryState, h: nat, empty: bool, auth: Rv, set_: Rv): (LibraryState, Rv) {
    match SessionOf(s, h)
    case Err(e) => (s, e)
    case Ok(v) =>
      if !Writable(v.state) then (s, CKR_SESSION_READ_ONLY)
      else if empty then (s, CKR_PIN_INVALID)
      else
        match ReadySlot(SlotOf(s, v.slotId))
        case Err(e) => (s, e)
        case Ok(sl) =>
          if LoggedIn(sl.token) then (s, set_)
          else
            var rv := LoginRv(sl.token, CKU_USER, auth);
            if rv != CKR_OK then (s, rv)
            else
              (WithSlot(s, v.slotId, sl.(token := LoggedOut(AfterLogin(sl.token, CKU_USER, auth)))), set_)
  }
}
