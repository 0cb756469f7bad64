/// Consequences for every run: session handles are not given out twice, and a
/// session keeps its slot and its mode.
module SessionRuns {
  import opened Common
  import opened Library
  import opened LibraryRuns
  import opened Objects
  import opened Sessions
  import opened Slots
  import opened TokenCalls
  import opened Tokens

  // ----- session handles

  /// The handle a step gives out.
  function Issued(s: LibraryState, e: Event): Option<nat> {
    match e
    case Open(id, flags) =>
      (match OpenSession(s, id, flags).1
       case Ok(h) => Some(h)
       case Err(_) => None)
    case _ => None
  }

  lemma StepNext(s: LibraryState, e: Event, s2: LibraryState)
    requires Step(s, e, s2) && !e.Stop?
    ensures s2.next >= s.next
    ensures Issued(s, e).Some? ==> Issued(s, e).value == s.next && s2.next == s.next + 1 && s.next != 0
    ensures Issued(s, e).None? ==> s2.next == if e.Start? && s.next == 0 then 1 else s.next
  {
    match e {
      case LogIn(h, user, auth, asked) =>
        var rv :| Login(s, h, user, auth, asked, s2, rv);
      case CloseAll(id) =>
        var order, rv :| CloseAllSessions(s, id, order, s2, rv);
      case _ =>
    }
  }

  ghost predicate NoStop(events: seq<Event>, i: nat, j: nat)
    requires j <= |events|
  {
    forall k :: i <= k < j ==> !events[k].Stop?
  }

  lemma {:induction false} NextGrows(states: seq<LibraryState>, events: seq<Event>, i: nat, j: nat)
    requires Run(states, events) && i <= j < |states| && NoStop(events, i, j)
    ensures states[i].next <= states[j].next
    decreases j - i
  {
    if i < j {
      StepNext(states[i], events[i], states[i + 1]);
      NextGrows(states, events, i + 1, j);
    }
  }

  /// Between one start and the next stop every handle given out is larger than
  /// all that were given out before.
  lemma HandlesNeverReused(states: seq<LibraryState>, events: seq<Event>, i: nat, j: nat)
    requires Run(states, events) && i < j < |events| && NoStop(events, i, j)
    requires Issued(states[i], events[i]).Some? && Issued(states[j], events[j]).Some?
    ensures Issued(states[i], events[i]).value < Issued(states[j], events[j]).value
  {
    StepNext(states[i], events[i], states[i + 1]);
    NextGrows(states, events, i + 1, j);
    IssuedIsNext(states, events, j);
  }

  lemma IssuedIsNext(states: seq<LibraryState>, events: seq<Event>, j: nat)
    requires Run(states, events) && j < |events| && Issued(states[j], events[j]).Some?
    ensures Issued(states[j], events[j]).value == states[j].next
  {
  }

  /// How many handles have been given out since the library was last started,
  /// before event j.
  function IssuedSince(states: seq<LibraryState>, events: seq<Event>, j: nat): nat
    requires |states| == |events| + 1 && j <= |events|
  {
    if j == 0 || events[j - 1].Stop? then 0
    else IssuedSince(states, events, j - 1) + if Issued(states[j - 1], events[j - 1]).Some? then 1 else 0
  }

  lemma {:induction false} NextCounts(states: seq<LibraryState>, events: seq<Event>, j: nat)
    requires Run(states, events) && states[0] == STOPPED && j <= |events|
    ensures IssuedSince(states, events, j) == if states[j].next == 0 then 0 else states[j].next - 1
  {
    if j > 0 {
      NextCounts(states, events, j - 1);
      if !events[j - 1].Stop? {
        StepNext(states[j - 1], events[j - 1], states[j]);
      }
    }
  }

  /// Every handle is one more than the number given out since the last start;
  /// so two calls, anywhere in a run, get the same handle exactly when equally
  /// many were given out before each of them since the start before it.
  lemma SameHandleExactly(states: seq<LibraryState>, events: seq<Event>, i: nat, j: nat)
    requires Run(states, events) && states[0] == STOPPED && i < |events| && j < |events|
    requires Issued(states[i], events[i]).Some? && Issued(states[j], events[j]).Some?
    ensures Issued(states[j], events[j]).value == 1 + IssuedSince(states, events, j)
    ensures Issued(states[i], events[i]).value == Issued(states[j], events[j]).value <==>
              IssuedSince(states, events, i) == IssuedSince(states, events, j)
  {
    NextCounts(states, events, i);
    NextCounts(states, events, j);
    IssuedIsNext(states, events, i);
    IssuedIsNext(states, events, j);
  }

  /// A run of two periods that gives out handle 1 twice.
  lemma HandleOneTwice(id: nat, token: TokenState, flags: SessionFlags)
      returns (states: seq<LibraryState>, events: seq<Event>)
    requires NewToken(token) && token.initialized && flags.serial
    ensures Run(states, events) && states[0] == STOPPED && |events| == 7
    ensures Issued(states[2], events[2]) == Some(1) && Issued(states[6], events[6]) == Some(1)
  {
    var added := AddedSlot(STARTED, id, token).0;
    var opened_ := OpenSession(added, id, flags).0;
    FirstHandle(id, token, flags);
    states := [STOPPED, STARTED, added, opened_, STOPPED, STARTED, added, opened_];
    events := [Start, AddSlot(id, token), Open(id, flags), Stop, Start, AddSlot(id, token), Open(id, flags)];
    assert Step(STOPPED, Start, STARTED) && Step(opened_, Stop, STOPPED);
    assert Step(STARTED, AddSlot(id, token), added) && Step(added, Open(id, flags), opened_);
  }

  lemma FirstHandle(id: nat, token: TokenState, flags: SessionFlags)
    requires NewToken(token) && token.initialized && flags.serial
    ensures Issued(AddedSlot(STARTED, id, token).0, Open(id, flags)) == Some(1)
  {
    var s := AddedSlot(STARTED, id, token).0;
    assert s.slots[id] == SlotState(map[], token) && !LoggedIn(token);
  }

  // ----- the mode of a session

  /// No session under an old handle appears, and those that stay keep mode and
  /// slot.
  ghost predicate ModesKept(before: SessionMap, after: SessionMap, next: nat) {
    forall h :: h in after && h < next ==> h in before && after[h].flags == before[h].flags
  }

  /// A step in which sessions change in one slot at most.
  ghost predicate KeepsModes(s: LibraryState, s2: LibraryState, id: nat) {
    s2.slots.Keys == s.slots.Keys && (id in s.slots ==> ModesKept(s.slots[id].sessions, s2.slots[id].sessions, s.next))
  }

  lemma OneSlotKeepsModes(s: LibraryState, own: nat, sl: SlotState, sessionmap: map<nat, nat>, next: nat, id: nat)
    requires own in s.slots && ModesKept(s.slots[own].sessions, sl.sessions, s.next)
    ensures KeepsModes(s, LibraryState(s.slots[own := sl], sessionmap, next), id)
  {
  }

  lemma ContextLoginKeepsModes(sl: SlotState, auth: Rv, sl2: SlotState, rv: Rv, next: nat)
    requires AllWellFormed(sl.sessions) && SlotLogin(sl, CKU_CONTEXT_SPECIFIC, auth, sl2, rv)
    ensures ModesKept(sl.sessions, sl2.sessions, next)
  {
    AllMovedKeepsModes(sl.sessions, CK_UNAVAILABLE_INFORMATION);
  }

  lemma WalkLoginKeepsModes(before: SessionMap, user: UserType, done: set<nat>, after: SessionMap, rv: Rv, next: nat)
    requires AllWellFormed(before) && Walked(before, user, done, after, rv)
    ensures ModesKept(before, after, next) && ModesKept(before, AllMoved(after, CK_UNAVAILABLE_INFORMATION), next)
  {
    WalkKeepsModes(before, user, done, after, rv);
    AllMovedKeepsModes(after, CK_UNAVAILABLE_INFORMATION);
  }

  lemma SlotLoginKeepsModes(sl: SlotState, user: UserType, auth: Rv, sl2: SlotState, rv: Rv, next: nat)
    requires AllWellFormed(sl.sessions) && SlotLogin(sl, user, auth, sl2, rv)
    ensures ModesKept(sl.sessions, sl2.sessions, next)
  {
    if user == CKU_CONTEXT_SPECIFIC {
      ContextLoginKeepsModes(sl, auth, sl2, rv, next);
    } else if LoginRv(sl.token, user, auth) == CKR_OK {
      var token := AfterLogin(sl.token, user, auth);
      var done, after :| Walked(sl.sessions, user, done, after, rv)
        && sl2 == if rv == CKR_OK then SlotState(after, token) else PublicAgain(SlotState(after, token));
      WalkLoginKeepsModes(sl.sessions, user, done, after, rv, next);
    }
  }

  /// The slot a session names is the one the index gives, and in order.
  ghost predicate Indexed(s: LibraryState, h: nat) {
    OwnSlot(s, h).Ok? ==>
      && s.sessionmap[h] in s.slots && SessionOf(s, h).value.slotId == s.sessionmap[h]
      && OwnSlot(s, h).value == s.slots[s.sessionmap[h]] && AllWellFormed(s.slots[s.sessionmap[h]].sessions)
  }

  lemma LoginKeepsModes(s: LibraryState, h: nat, user: UserType, auth: Rv, asked: bool, s2: LibraryState, rv: Rv,
                        id: nat)
    requires Indexed(s, h) && Login(s, h, user, auth, asked, s2, rv)
    ensures KeepsModes(s, s2, id)
  {
    if OwnSlot(s, h).Ok? && s2 != s {
      var own := s.sessionmap[h];
      var sl2 :| s2 == WithSlot(s, own, sl2) && SlotLogin(s.slots[own], user, auth, sl2, rv);
      SlotLoginKeepsModes(s.slots[own], user, auth, sl2, rv, s.next);
      OneSlotKeepsModes(s, own, sl2, s.sessionmap, s.next, id);
    }
  }

  lemma LogoutKeepsModes(s: LibraryState, h: nat, unauthOk: bool, id: nat)
    requires Indexed(s, h)
    ensures KeepsModes(s, Logout(s, h, unauthOk).0, id)
  {
    if OwnSlot(s, h).Ok? {
      var own := s.sessionmap[h];
      AllMovedKeepsModes(s.slots[own].sessions, CK_UNAVAILABLE_INFORMATION);
      OneSlotKeepsModes(s, own, SlotLogout(s.slots[own], unauthOk).0, s.sessionmap, s.next, id);
    }
  }

  lemma CloseKeepsModes(s: LibraryState, h: nat, id: nat)
    requires IndexAgrees(s) && HandlesGiven(s)
    requires h in s.sessionmap ==> s.slots[s.sessionmap[h]].token.initialized
    ensures KeepsModes(s, CloseSession(s, h).0, id)
  {
    CloseResult(s, h);
    if h in s.sessionmap {
      var own := s.sessionmap[h];
      OneSlotKeepsModes(s, own, Closed(s.slots[own], h), s.sessionmap - {h}, s.next, id);
    }
  }

  lemma CloseAllKeepsModes(s: LibraryState, own: nat, order: seq<nat>, s2: LibraryState, rv: Rv, id: nat)
    requires IndexAgrees(s) && HandlesGiven(s) && CloseAllSessions(s, own, order, s2, rv)
    requires own in s.slots && s.slots[own].sessions != map[] ==> s.slots[own].token.initialized
    ensures KeepsModes(s, s2, id)
  {
    CloseAllResult(s, own, order, s2, rv);
    if rv == CKR_OK {
      OneSlotKeepsModes(s, own, AllClosed(s.slots[own], order), Unindexed(s.sessionmap, own), s.next, id);
    }
  }

  lemma OpenKeepsModes(s: LibraryState, own: nat, flags: SessionFlags, id: nat)
    ensures KeepsModes(s, OpenSession(s, own, flags).0, id)
  {
  }

  lemma PinKeepsModes(s: LibraryState, h: nat, empty: bool, auth: Rv, set_: Rv, id: nat)
    requires Indexed(s, h)
    ensures KeepsModes(s, SetPin(s, h, empty, auth, set_).0, id)
  {
    SetPinResult(s, h, empty, auth, set_);
  }

  lemma UseKeepsModes(s: LibraryState, h: nat, call: Call, s2: LibraryState, id: nat)
    requires Indexed(s, h) && Step(s, Use(h, call), s2)
    ensures KeepsModes(s, s2, id)
  {
    if ReadySlot(OwnSlot(s, h)).Ok? {
      var own := s.sessionmap[h];
      var t2 :| Called(s.slots[own].token, h, call, t2) && s2 == WithSlot(s, own, s.slots[own].(token := t2));
      OneSlotKeepsModes(s, own, s.slots[own].(token := t2), s.sessionmap, s.next, id);
    }
  }

  lemma SetUpKeepsModes(s: LibraryState, own: nat, setup: Setup, builtins: seq<Object>, id: nat)
    requires forall o :: o in builtins ==> o.WellFormed()
    ensures KeepsModes(s, InitToken(s, own, setup, builtins).0, id)
  {
  }

  lemma IndexedByInv(s: LibraryState, h: nat)
    requires LibInv(s)
    ensures Indexed(s, h)
    ensures h in s.sessionmap ==> s.sessionmap[h] in s.slots && s.slots[s.sessionmap[h]].token.initialized
  {
    OwnSlotIsIndexed(s, h);
    if h in s.sessionmap {
      HasInitializedToken(s, h);
    }
  }

  lemma StepKeepsModes(s: LibraryState, e: Event, s2: LibraryState, id: nat)
    requires LibInv(s) && Step(s, e, s2) && !e.Stop? && !e.AddSlot? && !e.Start?
    ensures KeepsModes(s, s2, id)
  {
    match e {
      case Open(own, flags) => OpenKeepsModes(s, own, flags, id);
      case Close(h) => IndexedByInv(s, h); CloseKeepsModes(s, h, id);
      case CloseAll(own) =>
        var order, rv :| CloseAllSessions(s, own, order, s2, rv);
        if own in s.slots {
          SlotFacts(s, own);
        }
        CloseAllKeepsModes(s, own, order, s2, rv, id);
      case LogIn(h, user, auth, asked) =>
        var rv :| Login(s, h, user, auth, asked, s2, rv);
        IndexedByInv(s, h);
        LoginKeepsModes(s, h, user, auth, asked, s2, rv, id);
      case LogOut(h, unauthOk) => IndexedByInv(s, h); LogoutKeepsModes(s, h, unauthOk, id);
      case SetUpToken(own, setup, builtins) => SetUpKeepsModes(s, own, setup, builtins, id);
      case ChangePin(h, empty, auth, set_) => IndexedByInv(s, h); PinKeepsModes(s, h, empty, auth, set_, id);
      case Use(h, call) => IndexedByInv(s, h); UseKeepsModes(s, h, call, s2, id);
    }
  }

  lemma SlotSessionStays(s: LibraryState, e: Event, s2: LibraryState, id: nat, h: nat)
    requires LibInv(s) && Step(s, e, s2) && !e.Stop?
    requires id in s2.slots && h in s2.slots[id].sessions && h < s.next
    ensures id in s.slots && h in s.slots[id].sessions
            && s.slots[id].sessions[h].flags == s2.slots[id].sessions[h].flags
  {
    if !e.AddSlot? && !e.Start? {
      StepKeepsModes(s, e, s2, id);
    }
  }

  function SessionAt(s: LibraryState, h: nat): SessionValue
    requires h in s.sessionmap && s.sessionmap[h] in s.slots && h in s.slots[s.sessionmap[h]].sessions
  {
    s.slots[s.sessionmap[h]].sessions[h]
  }

  lemma SessionStays(s: LibraryState, e: Event, s2: LibraryState, h: nat)
    requires LibInv(s) && IndexAgrees(s2) && Step(s, e, s2) && !e.Stop?
    requires h in s2.sessionmap && h < s.next
    ensures h in s.sessionmap && s.sessionmap[h] == s2.sessionmap[h]
    ensures s.sessionmap[h] in s.slots && h in s.slots[s.sessionmap[h]].sessions
    ensures SessionAt(s, h).flags == SessionAt(s2, h).flags
  {
    var id := s2.sessionmap[h];
    SlotSessionStays(s, e, s2, id, h);
    IndexedBack(s, id, h);
  }

  lemma IndexedBack(s: LibraryState, id: nat, h: nat)
    requires IndexAgrees(s) && id in s.slots && h in s.slots[id].sessions
    ensures h in s.sessionmap && s.sessionmap[h] == id
  {
  }

  /// While the library is not stopped a session handle stands for one session:
  /// its slot and mode never change, and it is writable exactly when it was
  /// opened that way.
  lemma {:induction false} SessionKeepsMode(states: seq<LibraryState>, events: seq<Event>, i: nat, j: nat, h: nat)
    requires Run(states, events) && states[0] == STOPPED && i <= j < |states| && NoStop(events, i, j)
    requires h in states[j].sessionmap && h < states[i].next
    ensures LibInv(states[i]) && LibInv(states[j]) && h in states[i].sessionmap
    ensures states[i].sessionmap[h] == states[j].sessionmap[h]
    ensures SessionAt(states[i], h).flags == SessionAt(states[j], h).flags
    ensures Writable(SessionAt(states[j], h).state) == SessionAt(states[i], h).flags.rw
    decreases j
  {
    RunKeepsInv(states, events, i);
    RunKeepsInv(states, events, j);
    if i < j {
      RunKeepsInv(states, events, j - 1);
      NextGrows(states, events, i, j - 1);
      SessionStays(states[j - 1], events[j - 1], states[j], h);
      SessionKeepsMode(states, events, i, j - 1, h);
    }
    ModeIsFlag(states[j], h);
  }

  lemma ModeIsFlag(s: LibraryState, h: nat)
    requires LibInv(s) && h in s.sessionmap
    ensures Writable(SessionAt(s, h).state) == SessionAt(s, h).flags.rw
  {
    assert SlotInv(s.sessionmap[h], s.slots[s.sessionmap[h]]);
  }
}
