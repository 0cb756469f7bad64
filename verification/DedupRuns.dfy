/// Deduplication over every run of a token's calls: which of them can store a
/// second object with one identity.
module DedupRuns {
  import opened Common
  import opened Dedup
  import opened Objects
  import opened Sessions
  import opened TokenCalls
  import opened Tokens

  datatype StorageEvent =
    | Use(session: nat, call: Call)
    | LogIn(user: UserType, auth: Rv)
    | LogOut
    | CloseSession(session: nat)
    | SetUpAgain(setup: Setup, builtins: seq<Object>)

  ghost predicate StorageStep(t: TokenState, dedup: Option<ObjectsDedup>, e: StorageEvent, t2: TokenState) {
    match e
    case Use(session, c) => Proper(c) && (c.Create? ==> c.dedup == dedup) && Called(t, session, c, t2)
    case LogIn(user, auth) => t2 == AfterLogin(t, user, auth)
    case LogOut => t2 == LoggedOut(t)
    case CloseSession(session) => t2 == Without(t, HandlesOf(t.sessionObjects, session))
    case SetUpAgain(setup, builtins) =>
      (forall o :: o in builtins ==> o.WellFormed() && !o.IsToken()) && t2 == SetUp(t, setup, builtins).0
  }

  ghost predicate StorageRun(states: seq<TokenState>, dedup: Option<ObjectsDedup>, events: seq<StorageEvent>) {
    && |states| == |events| + 1
    && forall i :: 0 <= i < |events| ==> StorageStep(states[i], dedup, events[i], states[i + 1])
  }

  /// Another stored object than u has the identity of o.
  ghost predicate HasOther(storage: map<string, Object>, dedup: Option<ObjectsDedup>, u: string, o: Object) {
    exists v :: v in storage && v != u && Same(storage[v], o, dedup)
  }

  /// Whether inserting a new object stores it.
  predicate Stores(t: TokenState, o: Object)
    requires o.WellFormed()
  {
    o.IsToken() && LoggedIn(t) && o.UniqueId() !in t.uids.Values
  }

  /// Whether the source of a copy is there and may be read.
  predicate Copyable(t: TokenState, source: nat) {
    source in t.sessionObjects ||
    (source in t.uids && t.uids[source] in t.storage && (LoggedIn(t) || !t.storage[t.uids[source]].IsPrivate()))
  }

  /// The calls that store an object without a search and find one already there
  /// with its identity: inserting, copying and changing attributes.
  ghost predicate AddsDuplicate(t: TokenState, dedup: Option<ObjectsDedup>, e: StorageEvent)
    requires e.Use? ==> Proper(e.call)
  {
    match e
    case Use(_, Insert(o)) => InsertsDuplicate(t, dedup, o)
    case Use(_, Copy(source, made)) =>
      made.Ok? && Copyable(t, source) && InsertsDuplicate(t, dedup, made.value)
    case Use(_, SetAttributes(handle, answer, attributes)) =>
      && SetsStored(t, handle, answer, attributes)
      && var u := t.uids[handle];
         HasOther(t.storage, dedup, u, WithAttributes(t.storage[u], attributes))
    case _ => false
  }

  ghost predicate InsertsDuplicate(t: TokenState, dedup: Option<ObjectsDedup>, o: Object)
    requires o.WellFormed()
  {
    Stores(t, o) && HasOther(t.storage, dedup, o.UniqueId(), o)
  }

  /// What a run keeps besides.
  ghost predicate InOrder(t: TokenState) { TokenInv(t) && NoneInternal(t.storage) }

  // ----- one step

  lemma InsertExactly(t: TokenState, dedup: Option<ObjectsDedup>, session: nat, o: Object)
    requires InOrder(t) && Unique(t.storage, dedup) && IsNew(o)
    ensures
      var after := Inserted(t, session, o).0;
      InOrder(after) && (Unique(after.storage, dedup) <==> !InsertsDuplicate(t, dedup, o))
  {
    InsertKeepsInv(t, session, o);
    InsertStoresExactly(t, session, o);
    if Stores(t, o) {
      PutUniqueExactly(t.storage, dedup, o.UniqueId(), o);
    }
  }

  lemma InsertStoresExactly(t: TokenState, session: nat, o: Object)
    requires TokenInv(t) && o.WellFormed() && o.handle == INVALID_HANDLE
    ensures Inserted(t, session, o).0.storage == if Stores(t, o) then t.storage[o.UniqueId() := o] else t.storage
  {
    NextIsFree(t);
  }

  lemma CopyExactly(t: TokenState, dedup: Option<ObjectsDedup>, session: nat, source: nat, made: Result<Object, Rv>)
    requires InOrder(t) && Unique(t.storage, dedup) && (made.Ok? ==> IsNew(made.value))
    ensures
      var after := Copied(t, session, source, made).0;
      && InOrder(after)
      && (Unique(after.storage, dedup) <==>
            !(made.Ok? && Copyable(t, source) && InsertsDuplicate(t, dedup, made.value)))
  {
    hide InOrder, Unique, InsertsDuplicate, Inserted;
    if made.Ok? {
      InsertExactly(t, dedup, session, made.value);
    }
  }

  lemma AttributesInOrder(t: TokenState, handle: nat, answer: Rv, a: Attributes)
    requires InOrder(t) && Settable(a)
    ensures InOrder(AttributesSet(t, handle, answer, a).0)
  {
    AttributesKeepObject(t, handle, answer, a);
    AttributesStoreExactly(t, handle, answer, a);
  }

  lemma AttributesExactly(t: TokenState, dedup: Option<ObjectsDedup>, session: nat,
                          handle: nat, answer: Rv, a: Attributes)
    requires Unique(t.storage, dedup) && Settable(a)
    ensures
      Unique(AttributesSet(t, handle, answer, a).0.storage, dedup) <==>
      !AddsDuplicate(t, dedup, Use(session, SetAttributes(handle, answer, a)))
  {
    AttributesStoreExactly(t, handle, answer, a);
    if SetsStored(t, handle, answer, a) {
      var u := t.uids[handle];
      PutUniqueExactly(t.storage, dedup, u, WithAttributes(t.storage[u], a));
    }
  }

  /// Whether attributes of a stored object get set.
  predicate SetsStored(t: TokenState, handle: nat, answer: Rv, a: Attributes) {
    && handle !in t.sessionObjects && LoggedIn(t) && answer == CKR_OK
    && handle in t.uids && t.uids[handle] in t.storage
  }

  lemma AttributesStoreExactly(t: TokenState, handle: nat, answer: Rv, a: Attributes)
    requires Settable(a)
    ensures
      AttributesSet(t, handle, answer, a).0.storage ==
      if SetsStored(t, handle, answer, a)
      then t.storage[t.uids[handle] := WithAttributes(t.storage[t.uids[handle]], a)] else t.storage
  {
  }

  lemma UseUniqueExactly(t: TokenState, dedup: Option<ObjectsDedup>, session: nat, c: Call, t2: TokenState)
    requires InOrder(t) && Unique(t.storage, dedup) && Proper(c) && StorageStep(t, dedup, Use(session, c), t2)
    ensures InOrder(t2) && (Unique(t2.storage, dedup) <==> !AddsDuplicate(t, dedup, Use(session, c)))
  {
    match c {
      case Insert(o) => InsertExactly(t, dedup, session, o);
      case Create(_, o) =>
        var t1, r :| Created(t, dedup, session, o, t1, t2, r);
        CreateKeepsUnique(t, dedup, session, o, t1, t2, r);
      case Copy(source, made) => CopyExactly(t, dedup, session, source, made);
      case Destroy(handle, removeOk) => DestroyKeepsUnique(t, dedup, handle, removeOk);
      case Search(found) => SearchFacts(t, found, t2);
      case SetAttributes(handle, answer, attributes) =>
        AttributesInOrder(t, handle, answer, attributes);
        AttributesExactly(t, dedup, session, handle, answer, attributes);
    }
  }

  lemma SetUpKeepsUnique(t: TokenState, dedup: Option<ObjectsDedup>, setup: Setup, builtins: seq<Object>)
    requires InOrder(t) && Unique(t.storage, dedup)
    requires forall o :: o in builtins ==> o.WellFormed() && !o.IsToken()
    ensures
      var after := SetUp(t, setup, builtins).0;
      InOrder(after) && Unique(after.storage, dedup)
  {
    SetUpStartsOver(t, setup, builtins);
    BuiltinsAreNotStored(TokenState(true, CK_UNAVAILABLE_INFORMATION, 1, map[], map[], map[]), builtins);
  }

  lemma {:induction false} BuiltinsAreNotStored(t: TokenState, builtins: seq<Object>)
    requires forall o :: o in builtins ==> o.WellFormed() && !o.IsToken()
    ensures WithBuiltins(t, builtins).0.storage == t.storage
    decreases |builtins|
  {
    if builtins != [] && Inserted(t, INVALID_HANDLE, builtins[0]).1.Ok? {
      BuiltinsAreNotStored(Inserted(t, INVALID_HANDLE, builtins[0]).0, builtins[1..]);
    }
  }

  lemma LogInInOrder(t: TokenState, user: UserType, auth: Rv)
    requires InOrder(t)
    ensures InOrder(AfterLogin(t, user, auth)) && AfterLogin(t, user, auth).storage == t.storage
  {
  }

  lemma LogOutInOrder(t: TokenState)
    requires InOrder(t)
    ensures InOrder(LoggedOut(t)) && LoggedOut(t).storage == t.storage
  {
    WithoutKeepsInv(t, PrivateObjects(t.sessionObjects));
  }

  lemma WithoutInOrder(t: TokenState, gone: set<nat>)
    requires InOrder(t)
    ensures InOrder(Without(t, gone)) && Without(t, gone).storage == t.storage
  {
    WithoutKeepsInv(t, gone);
  }

  /// A step keeps identities unique exactly when it does not store a duplicate
  /// without looking for one.
  lemma StepUniqueExactly(t: TokenState, dedup: Option<ObjectsDedup>, e: StorageEvent, t2: TokenState)
    requires InOrder(t) && Unique(t.storage, dedup) && StorageStep(t, dedup, e, t2)
    ensures InOrder(t2) && (Unique(t2.storage, dedup) <==> !AddsDuplicate(t, dedup, e))
  {
    match e {
      case Use(session, c) => UseUniqueExactly(t, dedup, session, c, t2);
      case LogIn(user, auth) => LogInInOrder(t, user, auth);
      case LogOut => LogOutInOrder(t);
      case CloseSession(session) => WithoutInOrder(t, HandlesOf(t.sessionObjects, session));
      case SetUpAgain(setup, builtins) => SetUpKeepsUnique(t, dedup, setup, builtins);
    }
  }

  // ----- runs

  /// From an empty storage, identities are unique in every state of a run
  /// exactly when no step of it stores a duplicate without looking for one.
  lemma {:induction false} RunUniqueExactly(states: seq<TokenState>, dedup: Option<ObjectsDedup>,
                                            events: seq<StorageEvent>, n: nat)
    requires StorageRun(states, dedup, events) && n < |states|
    requires TokenInv(states[0]) && states[0].storage == map[]
    ensures UniqueUpTo(states, dedup, n) <==> ChecksUpTo(states, dedup, events, n)
    ensures UniqueUpTo(states, dedup, n) ==> InOrder(states[n])
  {
    if n > 0 {
      RunUniqueExactly(states, dedup, events, n - 1);
      assert StorageStep(states[n - 1], dedup, events[n - 1], states[n]);
      if UniqueUpTo(states, dedup, n - 1) {
        StepUniqueExactly(states[n - 1], dedup, events[n - 1], states[n]);
      }
      UpToSnoc(states, dedup, events, n);
    }
  }

  lemma UpToSnoc(states: seq<TokenState>, dedup: Option<ObjectsDedup>, events: seq<StorageEvent>, n: nat)
    requires StorageRun(states, dedup, events) && 0 < n < |states|
    ensures UniqueUpTo(states, dedup, n) <==> UniqueUpTo(states, dedup, n - 1) && Unique(states[n].storage, dedup)
    ensures ChecksUpTo(states, dedup, events, n) <==>
              ChecksUpTo(states, dedup, events, n - 1) && !AddsAt(states, dedup, events, n - 1)
  {
  }

  ghost predicate UniqueUpTo(states: seq<TokenState>, dedup: Option<ObjectsDedup>, n: nat)
    requires n < |states|
  {
    forall i :: 0 <= i <= n ==> Unique(states[i].storage, dedup)
  }

  ghost predicate ChecksUpTo(states: seq<TokenState>, dedup: Option<ObjectsDedup>, events: seq<StorageEvent>, n: nat)
    requires StorageRun(states, dedup, events) && n < |states|
  {
    forall i :: 0 <= i < n ==> !AddsAt(states, dedup, events, i)
  }

  ghost predicate AddsAt(states: seq<TokenState>, dedup: Option<ObjectsDedup>, events: seq<StorageEvent>, i: nat)
    requires StorageRun(states, dedup, events) && i < |events|
  {
    assert StorageStep(states[i], dedup, events[i], states[i + 1]);
    AddsDuplicate(states[i], dedup, events[i])
  }

  /// So they are in every run whose uses of the token are creations, removals
  /// and searches.
  lemma CreationsKeepUnique(states: seq<TokenState>, dedup: Option<ObjectsDedup>, events: seq<StorageEvent>, n: nat)
    requires StorageRun(states, dedup, events) && n < |states|
    requires TokenInv(states[0]) && states[0].storage == map[]
    requires forall i, session, c :: 0 <= i < |events| && events[i] == Use(session, c) ==>
      c.Create? || c.Destroy? || c.Search?
    ensures Unique(states[n].storage, dedup)
  {
    forall i | 0 <= i < n
      ensures !AddsAt(states, dedup, events, i)
    {
      assert StorageStep(states[i], dedup, events[i], states[i + 1]);
    }
    RunUniqueExactly(states, dedup, events, n);
  }
}
