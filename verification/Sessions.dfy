/// A session and its state (src/session.rs): what it starts in, and how logging
/// in and out moves it.
module Sessions {
  import opened Common

  /// CK_USER_TYPE. CK_UNAVAILABLE_INFORMATION is also the token's KRY_UNSPEC:
  /// nobody.
  datatype UserType =
    | CK_UNAVAILABLE_INFORMATION
    | CKU_SO
    | CKU_USER
    | CKU_CONTEXT_SPECIFIC
    | CKU_OTHER(code: nat)

  /// CK_STATE.
  datatype SessionState =
    | CKS_RO_PUBLIC_SESSION
    | CKS_RO_USER_FUNCTIONS
    | CKS_RW_PUBLIC_SESSION
    | CKS_RW_USER_FUNCTIONS
    | CKS_RW_SO_FUNCTIONS
    | CKS_OTHER(code: nat)

  datatype SessionFlags = SessionFlags(serial: bool, rw: bool)

  datatype SessionValue = SessionValue(slotId: nat, state: SessionState, flags: SessionFlags)

  // ----- a state seen as an access mode and a login level

  predicate Writable(s: SessionState) {
    s.CKS_RW_PUBLIC_SESSION? || s.CKS_RW_USER_FUNCTIONS? || s.CKS_RW_SO_FUNCTIONS?
  }

  /// Who is logged in as far as the session knows.
  function Level(s: SessionState): UserType {
    match s
    case CKS_RO_USER_FUNCTIONS => CKU_USER
    case CKS_RW_USER_FUNCTIONS => CKU_USER
    case CKS_RW_SO_FUNCTIONS => CKU_SO
    case _ => CK_UNAVAILABLE_INFORMATION
  }

  /// The state of a given mode and level; there is no read-only one for the
  /// security officer.
  predicate IsStateOf(s: SessionState, writable: bool, level: UserType) {
    !s.CKS_OTHER? && Writable(s) == writable && Level(s) == level
  }

  lemma StateIsModeAndLevel(s: SessionState, t: SessionState)
    requires !s.CKS_OTHER? && !t.CKS_OTHER?
    requires Writable(s) == Writable(t) && Level(s) == Level(t)
    ensures s == t
  {
    match s {
      case CKS_RO_PUBLIC_SESSION =>
      case CKS_RO_USER_FUNCTIONS =>
      case CKS_RW_PUBLIC_SESSION =>
      case CKS_RW_USER_FUNCTIONS =>
      case CKS_RW_SO_FUNCTIONS =>
    }
  }

  predicate LoginLevel(user: UserType) {
    user.CK_UNAVAILABLE_INFORMATION? || user.CKU_SO? || user.CKU_USER?
  }

  /// How a request to move a session to the level of a user is answered.
  function ChangeRv(s: SessionState, user: UserType): Rv {
    if s.CKS_OTHER? then CKR_GENERAL_ERROR
    else if !LoginLevel(user) then CKR_USER_TYPE_INVALID
    else if user == CK_UNAVAILABLE_INFORMATION || user == Level(s) then CKR_OK
    else if Level(s) != CK_UNAVAILABLE_INFORMATION then CKR_USER_ANOTHER_ALREADY_LOGGED_IN
    else if user == CKU_SO && !Writable(s) then CKR_OPERATION_NOT_INITIALIZED
    else CKR_OK
  }

  /// What is left behind: the requested level in the same mode, or nothing new.
  predicate Changes(s: SessionState, user: UserType, t: SessionState) {
    if ChangeRv(s, user) == CKR_OK then IsStateOf(t, Writable(s), user) else t == s
  }

  /// The state a session of a mode moves to.
  function StateAt(writable: bool, level: UserType): SessionState
    requires LoginLevel(level) && (level == CKU_SO ==> writable)
  {
    match level
    case CKU_SO => CKS_RW_SO_FUNCTIONS
    case CKU_USER => if writable then CKS_RW_USER_FUNCTIONS else CKS_RO_USER_FUNCTIONS
    case _ => if writable then CKS_RW_PUBLIC_SESSION else CKS_RO_PUBLIC_SESSION
  }

  function Changed(s: SessionState, user: UserType): SessionState {
    if ChangeRv(s, user) == CKR_OK then StateAt(Writable(s), user) else s
  }

  lemma ChangeMeaning(s: SessionState, user: UserType)
    ensures Changes(s, user, Changed(s, user))
    ensures Writable(Changed(s, user)) == Writable(s) && Changed(s, user).CKS_OTHER? == s.CKS_OTHER?
  {
  }

  /// What each state stands for.
  lemma StatesExactly(s: SessionState)
    ensures Writable(s) <==> s in {CKS_RW_PUBLIC_SESSION, CKS_RW_USER_FUNCTIONS, CKS_RW_SO_FUNCTIONS}
    ensures Level(s) == CKU_SO <==> s == CKS_RW_SO_FUNCTIONS
    ensures Level(s) == CKU_USER <==> s in {CKS_RO_USER_FUNCTIONS, CKS_RW_USER_FUNCTIONS}
    ensures Level(s) in {CKU_SO, CKU_USER, CK_UNAVAILABLE_INFORMATION}
  {
  }

  /// The whole table: the answer and the state left behind, for each state and
  /// each user.
  lemma ChangeTable(s: SessionState, user: UserType)
    ensures (ChangeRv(s, user), Changed(s, user)) ==
      match s
      case CKS_RO_PUBLIC_SESSION => (
        match user
        case CK_UNAVAILABLE_INFORMATION => (CKR_OK, CKS_RO_PUBLIC_SESSION)
        case CKU_USER => (CKR_OK, CKS_RO_USER_FUNCTIONS)
        case CKU_SO => (CKR_OPERATION_NOT_INITIALIZED, s)
        case _ => (CKR_USER_TYPE_INVALID, s))
      case CKS_RW_PUBLIC_SESSION => (
        match user
        case CK_UNAVAILABLE_INFORMATION => (CKR_OK, CKS_RW_PUBLIC_SESSION)
        case CKU_USER => (CKR_OK, CKS_RW_USER_FUNCTIONS)
        case CKU_SO => (CKR_OK, CKS_RW_SO_FUNCTIONS)
        case _ => (CKR_USER_TYPE_INVALID, s))
      case CKS_RO_USER_FUNCTIONS => (
        match user
        case CK_UNAVAILABLE_INFORMATION => (CKR_OK, CKS_RO_PUBLIC_SESSION)
        case CKU_USER => (CKR_OK, CKS_RO_USER_FUNCTIONS)
        case CKU_SO => (CKR_USER_ANOTHER_ALREADY_LOGGED_IN, s)
        case _ => (CKR_USER_TYPE_INVALID, s))
      case CKS_RW_USER_FUNCTIONS => (
        match user
        case CK_UNAVAILABLE_INFORMATION => (CKR_OK, CKS_RW_PUBLIC_SESSION)
        case CKU_USER => (CKR_OK, CKS_RW_USER_FUNCTIONS)
        case CKU_SO => (CKR_USER_ANOTHER_ALREADY_LOGGED_IN, s)
        case _ => (CKR_USER_TYPE_INVALID, s))
      case CKS_RW_SO_FUNCTIONS => (
        match user
        case CK_UNAVAILABLE_INFORMATION => (CKR_OK, CKS_RW_PUBLIC_SESSION)
        case CKU_USER => (CKR_USER_ANOTHER_ALREADY_LOGGED_IN, s)
        case CKU_SO => (CKR_OK, CKS_RW_SO_FUNCTIONS)
        case _ => (CKR_USER_TYPE_INVALID, s))
      case _ => (CKR_GENERAL_ERROR, s)
  {
  }

  /// Moving a public session up and dropping the login again gives it back the
  /// state it had.
  lemma LogoutRestores(s: SessionState, user: UserType)
    requires !s.CKS_OTHER? && Level(s) == CK_UNAVAILABLE_INFORMATION
    requires ChangeRv(s, user) == CKR_OK
    ensures ChangeRv(Changed(s, user), CK_UNAVAILABLE_INFORMATION) == CKR_OK
    ensures Changed(Changed(s, user), CK_UNAVAILABLE_INFORMATION) == s
  {
    StateIsModeAndLevel(s, Changed(Changed(s, user), CK_UNAVAILABLE_INFORMATION));
  }

  /// The state a session opened for a user starts in. Under the security
  /// officer this is the user's read-write state, not CKS_RW_SO_FUNCTIONS.
  function FirstState(user: UserType, rw: bool): Result<SessionState, Rv> {
    match user
    case CK_UNAVAILABLE_INFORMATION => Ok(StateAt(rw, user))
    case CKU_USER => Ok(StateAt(rw, user))
    case CKU_SO => if rw then Ok(StateAt(true, CKU_USER)) else Err(CKR_OPERATION_NOT_INITIALIZED)
    case _ => Err(CKR_GENERAL_ERROR)
  }

  /// The session opened on a slot, if the flags and the user allow one.
  function Opened(slotId: nat, user: UserType, flags: SessionFlags): (r: Result<SessionValue, Rv>)
    ensures r.Ok? ==> WellFormed(r.value) && r.value.slotId == slotId && r.value.flags == flags
  {
    if !flags.serial then Err(CKR_ARGUMENTS_BAD)
    else match FirstState(user, flags.rw)
      case Err(e) => Err(e)
      case Ok(s) => Ok(SessionValue(slotId, s, flags))
  }

  /// When a session can be opened and what it starts as: writable as the flags
  /// say, at the level of the user, or under the security officer at that of
  /// the user.
  lemma OpenedExactly(slotId: nat, user: UserType, flags: SessionFlags)
    ensures Opened(slotId, user, flags).Ok? <==>
      flags.serial && (user == CK_UNAVAILABLE_INFORMATION || user == CKU_USER || (user == CKU_SO && flags.rw))
    ensures !flags.serial ==> Opened(slotId, user, flags) == Err(CKR_ARGUMENTS_BAD)
    ensures flags.serial && user == CKU_SO && !flags.rw ==>
      Opened(slotId, user, flags) == Err(CKR_OPERATION_NOT_INITIALIZED)
    ensures flags.serial && user !in {CK_UNAVAILABLE_INFORMATION, CKU_USER, CKU_SO} ==>
      Opened(slotId, user, flags) == Err(CKR_GENERAL_ERROR)
    ensures Opened(slotId, user, flags).Ok? ==>
      var v := Opened(slotId, user, flags).value;
      && v.slotId == slotId && v.flags == flags
      && v.state == (if user == CK_UNAVAILABLE_INFORMATION
                     then (if flags.rw then CKS_RW_PUBLIC_SESSION else CKS_RO_PUBLIC_SESSION)
                     else (if flags.rw then CKS_RW_USER_FUNCTIONS else CKS_RO_USER_FUNCTIONS))
  {
  }

  /// A session is writable exactly when it was opened that way.
  predicate WellFormed(s: SessionValue) {
    !s.state.CKS_OTHER? && Writable(s.state) == s.flags.rw
  }

  class Session {
    const slotId: nat
    const flags: SessionFlags
    var state: SessionState

    constructor (v: SessionValue)
      ensures Value() == v
    {
      slotId, flags, state := v.slotId, v.flags, v.state;
    }

    ghost function Value(): SessionValue
      reads this
    {
      SessionValue(slotId, state, flags)
    }

    static method New(slotId: nat, user: UserType, flags: SessionFlags) returns (r: Result<Session, Rv>)
      ensures r.Ok? == Opened(slotId, user, flags).Ok?
      ensures r.Ok? ==> fresh(r.value) && r.value.Value() == Opened(slotId, user, flags).value
      ensures r.Err? ==> r.error == Opened(slotId, user, flags).error
    {
      if !flags.serial {
        return Err(CKR_ARGUMENTS_BAD);
      }
      var rw := flags.rw;
      var first;
      match user {
        case CK_UNAVAILABLE_INFORMATION =>
          first := if rw then CKS_RW_PUBLIC_SESSION else CKS_RO_PUBLIC_SESSION;
        case CKU_USER =>
          first := if rw then CKS_RW_USER_FUNCTIONS else CKS_RO_USER_FUNCTIONS;
        case CKU_SO =>
          if rw {
            first := CKS_RW_USER_FUNCTIONS;
          } else {
            return Err(CKR_OPERATION_NOT_INITIALIZED);
          }
        case _ =>
          return Err(CKR_GENERAL_ERROR);
      }
      var s := new Session(SessionValue(slotId, first, flags));
      return Ok(s);
    }

    method ChangeSessionState(user: UserType) returns (rv: Rv)
      modifies this
      ensures rv == ChangeRv(old(state), user) && state == Changed(old(state), user)
    {
      match state {
        case CKS_RO_PUBLIC_SESSION =>
          match user {
            case CK_UNAVAILABLE_INFORMATION => rv := CKR_OK;
            case CKU_USER => state := CKS_RO_USER_FUNCTIONS; rv := CKR_OK;
            case CKU_SO => rv := CKR_OPERATION_NOT_INITIALIZED;
            case _ => rv := CKR_USER_TYPE_INVALID;
          }
        case CKS_RW_PUBLIC_SESSION =>
          match user {
            case CK_UNAVAILABLE_INFORMATION => rv := CKR_OK;
            case CKU_USER => state := CKS_RW_USER_FUNCTIONS; rv := CKR_OK;
            case CKU_SO => state := CKS_RW_SO_FUNCTIONS; rv := CKR_OK;
            case _ => rv := CKR_USER_TYPE_INVALID;
          }
        case CKS_RO_USER_FUNCTIONS =>
          match user {
            case CK_UNAVAILABLE_INFORMATION => state := CKS_RO_PUBLIC_SESSION; rv := CKR_OK;
            case CKU_USER => rv := CKR_OK;
            case CKU_SO => rv := CKR_USER_ANOTHER_ALREADY_LOGGED_IN;
            case _ => rv := CKR_USER_TYPE_INVALID;
          }
        case CKS_RW_USER_FUNCTIONS =>
          match user {
            case CK_UNAVAILABLE_INFORMATION => state := CKS_RW_PUBLIC_SESSION; rv := CKR_OK;
            case CKU_USER => rv := CKR_OK;
            case CKU_SO => rv := CKR_USER_ANOTHER_ALREADY_LOGGED_IN;
            case _ => rv := CKR_USER_TYPE_INVALID;
          }
        case CKS_RW_SO_FUNCTIONS =>
          match user {
            case CK_UNAVAILABLE_INFORMATION => state := CKS_RW_PUBLIC_SESSION; rv := CKR_OK;
            case CKU_USER => rv := CKR_USER_ANOTHER_ALREADY_LOGGED_IN;
            case CKU_SO => rv := CKR_OK;
            case _ => rv := CKR_USER_TYPE_INVALID;
          }
        case _ => rv := CKR_GENERAL_ERROR;
      }
    }

    method IsWritable() returns (r: bool)
      ensures WellFormed(Value()) ==> r == flags.rw
      ensures r == Writable(state)
    {
      match state {
        case CKS_RW_PUBLIC_SESSION => return true;
        case CKS_RW_USER_FUNCTIONS => return true;
        case CKS_RW_SO_FUNCTIONS => return true;
        case _ => return false;
      }
    }
  }
}
