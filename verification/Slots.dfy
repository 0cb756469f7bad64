/// A slot with its token and open sessions (src/slot.rs).
module Slots {
  import opened Common
  import opened Objects
  import opened Sessions
  import opened Tokens
  import opened TokenOps

  type SessionMap = map<nat, SessionValue>

  datatype SlotState = SlotState(sessions: SessionMap, token: TokenState)

  // ----- all sessions of a slot at once

  function Moved(s: SessionValue, user: UserType): (t: SessionValue)
    ensures WellFormed(s) ==> WellFormed(t)
  {
    s.(state := Changed(s.state, user))
  }

  function AllMoved(sessions: SessionMap, user: UserType): SessionMap {
    map h | h in sessions :: Moved(sessions[h], user)
  }

  /// A walk over the sessions, in any order, that stops at the first one that
  /// refuses: those in done were moved, the others are as before.
  ghost predicate Walked(before: SessionMap, user: UserType, done: set<nat>, after: SessionMap, rv: Rv) {
    && done <= before.Keys && after.Keys == before.Keys
    && (forall h :: h in before ==> after[h] == if h in done then Moved(before[h], user) else before[h])
    && (forall h :: h in done ==> ChangeRv(before[h].state, user) == CKR_OK)
    && (if rv == CKR_OK then done == before.Keys
        else exists h :: h in before && h !in done && ChangeRv(before[h].state, user) == rv)
  }

  predicate Distinct(order: seq<nat>) {
    forall i, j :: 0 <= i < j < |order| ==> order[i] != order[j]
  }

  /// A walk in a given order that stopped after n sessions.
  lemma WalkDone(before: SessionMap, user: UserType, order: seq<nat>, n: nat, after: SessionMap, rv: Rv)
    requires Distinct(order) && Elements(order) == before.Keys == after.Keys && n <= |order|
    requires rv == CKR_OK <==> n == |order|
    requires forall j :: 0 <= j < n ==>
      ChangeRv(before[order[j]].state, user) == CKR_OK && after[order[j]] == Moved(before[order[j]], user)
    requires forall j :: n <= j < |order| ==> after[order[j]] == before[order[j]]
    requires n < |order| ==> ChangeRv(before[order[n]].state, user) == rv
    ensures Walked(before, user, Elements(order[..n]), after, rv)
  {
    var done := Elements(order[..n]);
    forall h | h in before
      ensures after[h] == if h in done then Moved(before[h], user) else before[h]
      ensures h in done ==> ChangeRv(before[h].state, user) == CKR_OK
    {
      assert h in Elements(order);
      var j :| 0 <= j < |order| && order[j] == h;
      if j < n {
        assert order[..n][j] == h;
      }
    }
    if n < |order| {
      assert order[n] in Elements(order) && order[n] !in done;
    } else {
      assert order[..n] == order;
    }
  }

  lemma AllDone(before: SessionMap, user: UserType, order: seq<nat>, after: SessionMap)
    requires Elements(order) == before.Keys == after.Keys
    requires forall j :: 0 <= j < |order| ==> after[order[j]] == Moved(before[order[j]], user)
    ensures after == AllMoved(before, user)
  {
    forall h | h in before
      ensures after[h] == Moved(before[h], user)
    {
      assert h in Elements(order);
    }
  }

  predicate IsReadOnly(s: SessionValue) {
    s.state == CKS_RO_PUBLIC_SESSION || s.state == CKS_RO_USER_FUNCTIONS
  }

  ghost predicate HasReadOnly(sessions: SessionMap) {
    exists h :: h in sessions && IsReadOnly(sessions[h])
  }

  ghost predicate AllWellFormed(sessions: SessionMap) {
    forall h :: h in sessions ==> WellFormed(sessions[h])
  }

  ghost predicate AllAt(sessions: SessionMap, level: UserType) {
    forall h :: h in sessions ==> Level(sessions[h].state) == level
  }

  /// A well-formed session is read-only exactly when it was not opened for
  /// writing; moving one changes its state alone.
  lemma SessionExactly(v: SessionValue, user: UserType)
    requires WellFormed(v)
    ensures IsReadOnly(v) <==> !v.flags.rw
    ensures Moved(v, user) == SessionValue(v.slotId, Changed(v.state, user), v.flags)
  {
  }

  /// How a walk ends: well when no session refuses, and all have moved then;
  /// otherwise with the answer of one that refuses, and only sessions that do
  /// not refuse have moved.
  lemma WalkedExactly(before: SessionMap, user: UserType, done: set<nat>, after: SessionMap, rv: Rv)
    requires Walked(before, user, done, after, rv)
    ensures rv == CKR_OK <==> forall h :: h in before ==> ChangeRv(before[h].state, user) == CKR_OK
    ensures rv != CKR_OK ==> exists h :: h in before && ChangeRv(before[h].state, user) == rv
    ensures after.Keys == before.Keys
    ensures forall h :: h in before ==>
      if rv == CKR_OK then after[h] == Moved(before[h], user)
      else after[h] == before[h] || (ChangeRv(before[h].state, user) == CKR_OK && after[h] == Moved(before[h], user))
  {
    if rv != CKR_OK {
      var h :| h in before && h !in done && ChangeRv(before[h].state, user) == rv;
    }
  }

  /// Whatever the order of the walk, public sessions all move to a level
  /// exactly when it is one sessions have and, for the security officer, none
  /// of them is read-only; dropping the login again then restores each of them.
  lemma LoginMovesAll(before: SessionMap, user: UserType, done: set<nat>, after: SessionMap, rv: Rv)
    requires AllWellFormed(before) && AllAt(before, CK_UNAVAILABLE_INFORMATION) && before != map[]
    requires Walked(before, user, done, after, rv)
    ensures rv == CKR_OK <==> LoginLevel(user) && (user == CKU_SO ==> !HasReadOnly(before))
    ensures rv == CKR_OK ==> AllWellFormed(after) && AllAt(after, user)
    ensures rv == CKR_OK ==> AllMoved(after, CK_UNAVAILABLE_INFORMATION) == before
  {
    forall h | h in before
      ensures ChangeRv(before[h].state, user) == CKR_OK <==>
                LoginLevel(user) && (user == CKU_SO ==> !IsReadOnly(before[h]))
    {
      assert WellFormed(before[h]);
    }
    var some :| some in before;
    if rv == CKR_OK {
      InvalidateRestores(before, user, after);
    }
  }

  lemma InvalidateRestores(before: SessionMap, user: UserType, after: SessionMap)
    requires AllWellFormed(before) && AllAt(before, CK_UNAVAILABLE_INFORMATION)
    requires forall h :: h in before ==> ChangeRv(before[h].state, user) == CKR_OK
    requires after == AllMoved(before, user)
    ensures AllMoved(after, CK_UNAVAILABLE_INFORMATION) == before
  {
    forall h | h in before
      ensures Moved(after[h], CK_UNAVAILABLE_INFORMATION) == before[h]
    {
      LogoutRestores(before[h].state, user);
    }
  }

  /// A walk keeps every session's mode, whether it finishes or not.
  lemma WalkKeepsModes(before: SessionMap, user: UserType, done: set<nat>, after: SessionMap, rv: Rv)
    requires AllWellFormed(before) && Walked(before, user, done, after, rv)
    ensures AllWellFormed(after)
    ensures forall h :: h in before ==> after[h].flags == before[h].flags && after[h].slotId == before[h].slotId
  {
  }

  // ----- the slot

  class Slot {
    const token: Token
    var sessions: map<nat, Session>

    ghost predicate Valid()
      reads this
    {
      forall h, k :: h in sessions && k in sessions && sessions[h] == sessions[k] ==> h == k
    }

    ghost function Footprint(): set<object>
      reads this, token
    {
      {this, token, token.handles} + sessions.Values
    }

    ghost function Sessions(): SessionMap
      reads this, sessions.Values
    {
      map h | h in sessions :: sessions[h].Value()
    }

    ghost function State(): SlotState
      reads Footprint()
    {
      SlotState(Sessions(), token.State())
    }

    constructor (token: Token)
      ensures this.token == token && Valid() && State() == SlotState(map[], token.State())
    {
      this.token := token;
      sessions := map[];
    }

    method AddSession(handle: nat, session: Session)
      requires Valid() && session !in sessions.Values
      modifies this`sessions
      ensures Valid() && sessions == old(sessions)[handle := session]
      ensures Sessions() == old(Sessions())[handle := session.Value()]
    {
      sessions := sessions[handle := session];
    }

    method HasSessions() returns (r: bool)
      ensures r == (Sessions() != map[])
    {
      assert sessions != map[] ==> exists h :: h in sessions && h in Sessions();
      return |sessions| > 0;
    }

    method HasRoSessions() returns (r: bool)
      ensures r == HasReadOnly(Sessions())
    {
      var todo := sessions.Keys;
      while todo != {}
        invariant todo <= sessions.Keys
        invariant forall h :: h in sessions && h !in todo ==> !IsReadOnly(Sessions()[h])
      {
        var key :| key in todo;
        todo := todo - {key};
        assert Sessions()[key].state == sessions[key].state;
        match sessions[key].state {
          case CKS_RO_PUBLIC_SESSION | CKS_RO_USER_FUNCTIONS => return true;
          case _ =>
        }
      }
      return false;
    }

    /// The keys in the order a walk visits them, which can be any.
    method WalkOrder() returns (order: seq<nat>)
      ensures Distinct(order) && Elements(order) == sessions.Keys
    {
      order := [];
      var todo := sessions.Keys;
      while todo != {}
        invariant Distinct(order) && Elements(order) == sessions.Keys - todo && todo <= sessions.Keys
      {
        var key :| key in todo;
        assert key !in Elements(order);
        ElementsSnoc(order + [key], |order|);
        assert (order + [key])[..|order|] == order && (order + [key])[..|order| + 1] == order + [key];
        order, todo := order + [key], todo - {key};
      }
    }

    method ChangeSessionStates(user: UserType) returns (rv: Rv, ghost done: set<nat>)
      requires Valid()
      modifies sessions.Values
      ensures Walked(old(Sessions()), user, done, Sessions(), rv)
    {
      var order := WalkOrder();
      ghost var before := Sessions();
      ghost var n;
      rv, n := Walk(order, user);
      done := Elements(order[..n]);
      WalkDone(before, user, order, n, Sessions(), rv);
    }

    method Walk(order: seq<nat>, user: UserType) returns (rv: Rv, ghost n: nat)
      requires Valid() && Distinct(order) && forall h :: h in order ==> h in sessions
      modifies sessions.Values
      ensures n <= |order| && (rv == CKR_OK <==> n == |order|)
      ensures forall j :: 0 <= j < n ==>
        ChangeRv(old(sessions[order[j]].state), user) == CKR_OK &&
        sessions[order[j]].state == Changed(old(sessions[order[j]].state), user)
      ensures forall j :: n <= j < |order| ==> sessions[order[j]].state == old(sessions[order[j]].state)
      ensures n < |order| ==> ChangeRv(old(sessions[order[n]].state), user) == rv
    {
      hide ChangeRv, StateAt;
      for i := 0 to |order|
        invariant forall j :: 0 <= j < i ==>
          ChangeRv(old(sessions[order[j]].state), user) == CKR_OK &&
          sessions[order[j]].state == Changed(old(sessions[order[j]].state), user)
        invariant forall j :: i <= j < |order| ==> sessions[order[j]].state == old(sessions[order[j]].state)
      {
        rv := sessions[order[i]].ChangeSessionState(user);
        if rv != CKR_OK {
          return rv, i;
        }
      }
      return CKR_OK, |order|;
    }

    method InvalidateSessionStates()
      requires Valid()
      modifies sessions.Values
      ensures Sessions() == AllMoved(old(Sessions()), CK_UNAVAILABLE_INFORMATION)
    {
      var order := WalkOrder();
      ghost var before := Sessions();
      Invalidate(order);
      AllDone(before, CK_UNAVAILABLE_INFORMATION, order, Sessions());
    }

    method Invalidate(order: seq<nat>)
      requires Valid() && Distinct(order) && forall h :: h in order ==> h in sessions
      modifies sessions.Values
      ensures forall j :: 0 <= j < |order| ==>
        sessions[order[j]].state == Changed(old(sessions[order[j]].state), CK_UNAVAILABLE_INFORMATION)
    {
      hide ChangeRv, Changed;
      for i := 0 to |order|
        invariant forall j :: 0 <= j < i ==>
          sessions[order[j]].state == Changed(old(sessions[order[j]].state), CK_UNAVAILABLE_INFORMATION)
        invariant forall j :: i <= j < |order| ==> sessions[order[j]].state == old(sessions[order[j]].state)
      {
        var _ := sessions[order[i]].ChangeSessionState(CK_UNAVAILABLE_INFORMATION);
      }
    }

    method DropSession(handle: nat)
      requires Valid()
      modifies this`sessions
      ensures Valid() && sessions == old(sessions) - {handle}
      ensures Sessions() == old(Sessions()) - {handle}
    {
      sessions := sessions - {handle};
    }

    method DropAllSessions() returns (handles: seq<nat>)
      modifies this`sessions
      ensures Valid() && sessions == map[] && Sessions() == map[]
      ensures Elements(handles) == old(Sessions()).Keys
    {
      handles := WalkOrder();
      sessions := map[];
    }
  }
}
