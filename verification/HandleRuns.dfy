/// Object handles over every run of a token's calls.
module HandleRuns {
  import opened Common
  import opened Dedup
  import opened DedupRuns
  import opened Objects
  import opened Sessions
  import opened TokenCalls
  import opened Tokens

  /// The handles a step gives out.
  function GivenOut(t: TokenState, t2: TokenState): set<nat> { t2.uids.Keys - t.uids.Keys }

  /// The next handle does not fall, and what is given out lies below it and not
  /// below the one before.
  ghost predicate Rises(t: TokenState, t2: TokenState) {
    t.next <= t2.next && forall h :: h in GivenOut(t, t2) ==> t.next <= h < t2.next
  }

  lemma RisesOn(t: TokenState, t1: TokenState, t2: TokenState)
    requires Rises(t, t1) && Rises(t1, t2)
    ensures Rises(t, t2)
  {
    forall h | h in GivenOut(t, t2)
      ensures t.next <= h < t2.next
    {
      assert h in GivenOut(t, t1) || h in GivenOut(t1, t2);
    }
  }

  // ----- one call

  lemma InsertRises(t: TokenState, session: nat, o: Object)
    requires o.WellFormed()
    ensures Rises(t, Inserted(t, session, o).0)
  {
  }

  lemma {:induction false} AllNamedRises(t: TokenState, uids: seq<string>)
    ensures Rises(t, AllNamed(t, uids))
  {
    if uids != [] {
      var n := |uids| - 1;
      AllNamedRises(t, uids[..n]);
      RisesOn(t, AllNamed(t, uids[..n]), AllNamed(t, uids));
    }
  }

  lemma SearchRises(t: TokenState, found: set<string>, t1: TokenState)
    requires Searched(t, found, t1)
    ensures Rises(t, t1)
  {
    var order: seq<string> :| (forall u :: u in order <==> u in found) && t1 == AllNamed(t, order);
    AllNamedRises(t, order);
  }

  lemma CreateRises(t: TokenState, dedup: Option<ObjectsDedup>, session: nat, o: Object,
                    t1: TokenState, t2: TokenState, r: Result<nat, Rv>)
    requires o.WellFormed() && Created(t, dedup, session, o, t1, t2, r)
    ensures Rises(t, t2)
  {
    if !o.IsToken() || !LoggedIn(t) || !Covered(dedup, o.class_) || Identity(o).None? {
      InsertRises(t, session, o);
    } else {
      var found := Matching(t.storage, Identity(o).value);
      SearchRises(t, found, t1);
      if |found| == 0 {
        InsertRises(t1, session, o);
      }
      RisesOn(t, t1, t2);
    }
  }

  lemma CallRises(t: TokenState, session: nat, c: Call, t2: TokenState)
    requires Proper(c) && Called(t, session, c, t2)
    ensures Rises(t, t2)
  {
    match c {
      case Insert(o) => InsertRises(t, session, o);
      case Create(dedup, o) =>
        var t1, r :| Created(t, dedup, session, o, t1, t2, r);
        CreateRises(t, dedup, session, o, t1, t2, r);
      case Copy(source, made) =>
        if made.Ok? {
          InsertRises(t, session, made.value);
        }
      case Destroy(handle, removeOk) =>
      case Search(found) => SearchRises(t, found, t2);
      case SetAttributes(handle, answer, attributes) =>
    }
  }

  lemma StepRises(t: TokenState, dedup: Option<ObjectsDedup>, e: StorageEvent, t2: TokenState)
    requires StorageStep(t, dedup, e, t2) && !e.SetUpAgain?
    ensures Rises(t, t2)
  {
    if e.Use? {
      CallRises(t, e.session, e.call, t2);
    }
  }

  // ----- runs

  ghost predicate NoSetUp(events: seq<StorageEvent>, i: nat, j: nat)
    requires j <= |events|
  {
    forall k :: i <= k < j ==> !events[k].SetUpAgain?
  }

  lemma {:induction false} NextNeverFalls(states: seq<TokenState>, dedup: Option<ObjectsDedup>,
                                          events: seq<StorageEvent>, i: nat, j: nat)
    requires StorageRun(states, dedup, events) && i <= j <= |events| && NoSetUp(events, i, j)
    ensures states[i].next <= states[j].next
    decreases j - i
  {
    if i < j {
      StepRises(states[i], dedup, events[i], states[i + 1]);
      NextNeverFalls(states, dedup, events, i + 1, j);
    }
  }

  /// Until the token is set up again no object handle is given out twice, not
  /// even after its object is gone: each is larger than all given out before.
  lemma ObjectHandlesNeverReused(states: seq<TokenState>, dedup: Option<ObjectsDedup>,
                                 events: seq<StorageEvent>, i: nat, j: nat)
    requires StorageRun(states, dedup, events) && i < j < |events| && NoSetUp(events, i, j + 1)
    ensures
      var before, after := GivenOut(states[i], states[i + 1]), GivenOut(states[j], states[j + 1]);
      forall h, k :: h in before && k in after ==> h < k
  {
    StepRises(states[i], dedup, events[i], states[i + 1]);
    NextNeverFalls(states, dedup, events, i + 1, j);
    StepRises(states[j], dedup, events[j], states[j + 1]);
  }
}
