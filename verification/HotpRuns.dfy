/// A signer and a verifier with their own copies of one HOTP key, and the
/// passwords that travel between them (section 7.4 of RFC 4226).
module HotpRuns {
  import opened Bytes
  import opened Common
  import opened Hotp
  import opened HotpProtocol

  /// The two keys with what is open on them, and the password in transit by the
  /// counter it was made at. Only the latest password can be in transit.
  datatype World = World(signer: Party, verifier: Party, pending: Option<u64>)

  datatype WorldEvent = Sign(e: PartyEvent) | Verify(e: PartyEvent) | Lose

  /// A password is on its way once signing has stored its counter, and is used
  /// up by the first verification that gets it. Nobody else makes passwords.
  ghost predicate WorldStep(otp: u64 -> seq<u8>, w: World, e: WorldEvent, w': World) {
    match e
    case Sign(e) =>
      && PartyStep(Signer, otp, w.signer, e, w'.signer) && w'.verifier == w.verifier
      && w'.pending == if Stores(e) then Some(w.signer.ops[e.session].counter) else w.pending
    case Verify(e) =>
      && PartyStep(Verifier, otp, w.verifier, e, w'.verifier) && w'.signer == w.signer
      && (e.Finish? ==> w.pending.Some? && e.given == otp(w.pending.value))
      && w'.pending == if e.Finish? then None else w.pending
    case Lose => w' == w.(pending := None)
  }

  ghost predicate WorldRun(otp: u64 -> seq<u8>, ws: seq<World>, es: seq<WorldEvent>) {
    && |ws| == |es| + 1
    && ws[0].signer.ops == map[] && ws[0].verifier.ops == map[] && ws[0].pending == None
    && ws[0].verifier.stored <= ws[0].signer.stored
    && forall i :: 0 <= i < |es| ==> WorldStep(otp, ws[i], es[i], ws[i + 1])
  }

  /// Neither party begins an operation while another is open on its key.
  predicate NoOverlap(w: World, e: WorldEvent) {
    match e
    case Sign(e) => Alone(w.signer, e)
    case Verify(e) => Alone(w.verifier, e)
    case Lose => true
  }

  ghost predicate NeverOverlaps(ws: seq<World>, es: seq<WorldEvent>)
    requires |ws| == |es| + 1
  {
    forall i :: 0 <= i < |es| ==> NoOverlap(ws[i], es[i])
  }

  /// The verifier is never ahead of the signer; what is open began at what is
  /// stored; the password in transit is the signer's last, and neither used nor
  /// passed by what the verifier has matched.
  ghost predicate Synchronized(w: World) {
    && AtMostOne(w.signer) && NoWrap(w.signer) && AtMostOne(w.verifier) && NoWrap(w.verifier)
    && (forall s :: s in w.signer.ops ==> w.signer.ops[s].counter == w.signer.stored)
    && (forall s :: s in w.verifier.ops && w.verifier.ops[s].Begun? ==> w.verifier.ops[s].counter == w.verifier.stored)
    && w.verifier.stored <= w.signer.stored
    && (forall s :: s in w.verifier.ops && w.verifier.ops[s].Matched? ==> w.verifier.ops[s].counter < Next0(w))
    && (w.pending.Some? ==> w.verifier.stored <= w.pending.value && w.pending.value + 1 == w.signer.stored)
  }

  /// The first counter whose password the verifier has not been sent yet.
  function Next0(w: World): u64 {
    if w.pending.Some? then w.pending.value else w.signer.stored
  }

  lemma SignKeepsSynchronized(otp: u64 -> seq<u8>, w: World, e: PartyEvent, w': World)
    requires Synchronized(w) && WorldStep(otp, w, Sign(e), w') && Alone(w.signer, e)
    ensures Synchronized(w') && w.signer.stored <= w'.signer.stored && w'.verifier == w.verifier
  {
    StepKeepsAtMostOne(Signer, otp, w.signer, e, w'.signer);
    if e.Finish? {
      var c := w.signer.ops[e.session].counter;
      assert FirstMatch(otp, c, LOOK_AHEAD, e.given) == Some(c);
    }
  }

  lemma VerifyKeepsSynchronized(otp: u64 -> seq<u8>, w: World, e: PartyEvent, w': World)
    requires Synchronized(w) && WorldStep(otp, w, Verify(e), w') && Alone(w.verifier, e)
    ensures Synchronized(w') && w.verifier.stored <= w'.verifier.stored && w'.signer == w.signer
  {
    StepKeepsAtMostOne(Verifier, otp, w.verifier, e, w'.verifier);
    if e.Finish? {
      MatchNotAhead(otp, w.verifier.ops[e.session].counter, w.pending.value);
    }
  }

  /// A window that starts at or before a password's counter is not matched
  /// beyond it.
  lemma MatchNotAhead(otp: u64 -> seq<u8>, v: u64, p: u64)
    requires InRange(v) && v <= p
    ensures
      var found := FirstMatch(otp, v, LOOK_AHEAD, otp(p));
      found.Some? ==> v <= found.value <= p
  {
    FirstMatchSpec(otp, v, LOOK_AHEAD, otp(p));
  }

  /// Over every run of signing, losing, delivering and failing to store, in any
  /// interleaving of sessions but without overlap on a key, the verifier's
  /// counter never passes the signer's and neither ever goes back.
  lemma {:induction false} VerifierNeverPassesSigner(otp: u64 -> seq<u8>, ws: seq<World>, es: seq<WorldEvent>, i: nat)
    requires WorldRun(otp, ws, es) && NeverOverlaps(ws, es) && i < |ws|
    ensures Synchronized(ws[i])
    ensures i > 0 ==>
      ws[i - 1].signer.stored <= ws[i].signer.stored && ws[i - 1].verifier.stored <= ws[i].verifier.stored
  {
    if i > 0 {
      VerifierNeverPassesSigner(otp, ws, es, i - 1);
      assert NoOverlap(ws[i - 1], es[i - 1]);
      match es[i - 1] {
        case Sign(e) => SignKeepsSynchronized(otp, ws[i - 1], e, ws[i]);
        case Verify(e) => VerifyKeepsSynchronized(otp, ws[i - 1], e, ws[i]);
        case Lose =>
      }
    }
  }

  /// In every such run, a password delivered after at most four losses is
  /// accepted, and storing the outcome brings the counters back together
  /// exactly when no earlier password of the window equals it.
  lemma DeliveryResynchronizes(otp: u64 -> seq<u8>, ws: seq<World>, es: seq<WorldEvent>, i: nat)
    requires WorldRun(otp, ws, es) && NeverOverlaps(ws, es) && i < |es|
    requires es[i].Verify? && es[i].e.Finish?
    requires ws[i].pending.Some? && ws[i].pending.value < ws[i].verifier.stored + LOOK_AHEAD
    ensures
      var s, v, p := es[i].e.session, ws[i].verifier.stored, ws[i].pending.value;
      && s in ws[i + 1].verifier.ops && ws[i + 1].verifier.ops[s].Matched?
      && v < Target(ws[i + 1].verifier.ops[s])
      && (Target(ws[i + 1].verifier.ops[s]) == ws[i + 1].signer.stored <==>
            forall j: u64 :: v <= j < p ==> otp(j) != otp(p))
  {
    VerifierNeverPassesSigner(otp, ws, es, i);
    assert WorldStep(otp, ws[i], es[i], ws[i + 1]);
    FirstMatchSpec(otp, ws[i].verifier.stored, LOOK_AHEAD, otp(ws[i].pending.value));
  }

  // ----- falling behind

  /// The verifier has nothing to store, and what it can be sent is out of its
  /// window.
  ghost predicate OutOfReach(w: World) {
    && (forall s :: s in w.verifier.ops ==> w.verifier.ops[s].Begun?)
    && w.verifier.stored + LOOK_AHEAD <= Next0(w)
  }

  /// The password in transit equals that of some counter in the window.
  ghost predicate Collides(otp: u64 -> seq<u8>, w: World) {
    w.pending.Some? &&
    exists j: u64 :: w.verifier.stored <= j < w.verifier.stored + LOOK_AHEAD && otp(j) == otp(w.pending.value)
  }

  predicate Delivers(e: WorldEvent) { e.Verify? && e.e.Finish? }

  lemma StaysOutOfReach(otp: u64 -> seq<u8>, w: World, e: WorldEvent, w': World)
    requires Synchronized(w) && WorldStep(otp, w, e, w') && NoOverlap(w, e) && OutOfReach(w)
    requires Delivers(e) ==> !Collides(otp, w)
    ensures OutOfReach(w') && w'.verifier.stored == w.verifier.stored
    ensures Delivers(e) ==> e.e.session !in w'.verifier.ops
  {
    match e {
      case Sign(e) => SignKeepsSynchronized(otp, w, e, w');
      case Verify(e) =>
        if e.Finish? {
          FirstMatchSpec(otp, w.verifier.stored, LOOK_AHEAD, otp(w.pending.value));
        }
      case Lose =>
    }
  }

  /// A verifier five passwords behind does not recover by itself: through the
  /// rest of the run its counter stays put and every delivery is rejected,
  /// unless one happens to collide with a password of the window.
  lemma {:induction false} OutOfReachForever(otp: u64 -> seq<u8>, ws: seq<World>, es: seq<WorldEvent>, i: nat, k: nat)
    requires WorldRun(otp, ws, es) && NeverOverlaps(ws, es)
    requires i <= k < |ws| && OutOfReach(ws[i])
    requires forall t :: i <= t < k && Delivers(es[t]) ==> !Collides(otp, ws[t])
    ensures OutOfReach(ws[k]) && ws[k].verifier.stored == ws[i].verifier.stored
    ensures i < k && Delivers(es[k - 1]) ==> es[k - 1].e.session !in ws[k].verifier.ops
  {
    if i < k {
      OutOfReachForever(otp, ws, es, i, k - 1);
      VerifierNeverPassesSigner(otp, ws, es, k - 1);
      assert NoOverlap(ws[k - 1], es[k - 1]);
      StaysOutOfReach(otp, ws[k - 1], es[k - 1], ws[k]);
    }
  }

  // ----- what goes wrong with two operations on the signer's key

  ghost predicate WorldSteps(otp: u64 -> seq<u8>, ws: seq<World>, es: seq<WorldEvent>) {
    |ws| == |es| + 1 && forall i :: 0 <= i < |es| ==> WorldStep(otp, ws[i], es[i], ws[i + 1])
  }

  lemma JoinSteps(otp: u64 -> seq<u8>, ws: seq<World>, es: seq<WorldEvent>, vs: seq<World>, fs: seq<WorldEvent>)
    requires WorldSteps(otp, ws, es) && WorldSteps(otp, vs, fs) && vs[0] == ws[|es|]
    ensures WorldSteps(otp, ws + vs[1..], es + fs)
  {
    var us, gs := ws + vs[1..], es + fs;
    forall i | 0 <= i < |gs|
      ensures WorldStep(otp, us[i], gs[i], us[i + 1])
    {
      if i >= |es| {
        assert us[i] == vs[i - |es|] && us[i + 1] == vs[i + 1 - |es|];
      }
    }
  }

  /// Both counters at n, with an operation of the signer still open that began
  /// at c.
  function Level(a: nat, c: u64, n: u64): World {
    World(Party(n, map[a := Begun(c)]), Party(n, map[]), None)
  }

  function RoundStates(a: nat, b: nat, x: nat, c: u64, n: u64): seq<World>
    requires InRange(n)
  {
    var left := Party(n + 1, map[a := Begun(c)]);
    [Level(a, c, n),
     World(Party(n, map[a := Begun(c), b := Begun(n)]), Party(n, map[]), None),
     World(Party(n, map[a := Begun(c), b := Matched(n)]), Party(n, map[]), None),
     World(left, Party(n, map[]), Some(n)),
     World(left, Party(n, map[x := Begun(n)]), Some(n)),
     World(left, Party(n, map[x := Matched(n)]), None),
     Level(a, c, n + 1)]
  }

  function RoundEvents(otp: u64 -> seq<u8>, b: nat, x: nat, n: u64): seq<WorldEvent> {
    [Sign(Begin(b)), Sign(Finish(b, otp(n))), Sign(Store(b, true)),
     Verify(Begin(x)), Verify(Finish(x, otp(n))), Verify(Store(x, true))]
  }

  /// One password made in another session and delivered.
  lemma Round(otp: u64 -> seq<u8>, a: nat, b: nat, x: nat, c: u64, n: u64)
    requires a != b && InRange(n)
    ensures WorldSteps(otp, RoundStates(a, b, x, c, n), RoundEvents(otp, b, x, n))
  {
    assert FirstMatch(otp, n, LOOK_AHEAD, otp(n)) == Some(n);
    assert map[a := Begun(c)][b := Begun(n)] == map[a := Begun(c), b := Begun(n)];
    assert map[a := Begun(c), b := Begun(n)][b := Matched(n)] == map[a := Begun(c), b := Matched(n)];
    assert map[a := Begun(c), b := Matched(n)] - {b} == map[a := Begun(c)];
    assert map[x := Matched(n)] - {x} == map[];
    RoundSteps(otp, a, b, x, c, n);
  }

  lemma RoundSteps(otp: u64 -> seq<u8>, a: nat, b: nat, x: nat, c: u64, n: u64)
    requires a != b && InRange(n)
    requires FirstMatch(otp, n, LOOK_AHEAD, otp(n)) == Some(n)
    requires map[a := Begun(c)][b := Begun(n)] == map[a := Begun(c), b := Begun(n)]
    requires map[a := Begun(c), b := Begun(n)][b := Matched(n)] == map[a := Begun(c), b := Matched(n)]
    requires map[a := Begun(c), b := Matched(n)] - {b} == map[a := Begun(c)]
    requires map[x := Matched(n)] - {x} == map[]
    ensures forall i :: 0 <= i < 6 ==>
      WorldStep(otp, RoundStates(a, b, x, c, n)[i], RoundEvents(otp, b, x, n)[i], RoundStates(a, b, x, c, n)[i + 1])
  {
    var ws, es := RoundStates(a, b, x, c, n), RoundEvents(otp, b, x, n);
    assert WorldStep(otp, ws[0], es[0], ws[1]);
    assert WorldStep(otp, ws[1], es[1], ws[2]);
    assert WorldStep(otp, ws[2], es[2], ws[3]);
    assert WorldStep(otp, ws[3], es[3], ws[4]);
    assert WorldStep(otp, ws[4], es[4], ws[5]);
    assert WorldStep(otp, ws[5], es[5], ws[6]);
  }

  /// A signing operation left open in one session while another session signs
  /// twice puts the signer's counter back when it is finished at last, and
  /// behind the verifier's.
  lemma OverlapGoesBack(otp: u64 -> seq<u8>, c: u64, a: nat, b: nat, x: nat)
    returns (ws: seq<World>, es: seq<WorldEvent>)
    requires a != b && InRange(c) && InRange(c + 1)
    ensures WorldRun(otp, ws, es) && |es| == 15
    ensures ws[13].signer.stored == c + 2 && ws[13].verifier.stored == c + 2
    ensures ws[15].signer.stored == c + 1 && ws[15].verifier.stored == c + 2
  {
    var start := World(Party(c, map[]), Party(c, map[]), None);
    var first, firstEvents := [start, Level(a, c, c)], [Sign(Begin(a))];
    assert WorldStep(otp, start, Sign(Begin(a)), Level(a, c, c));
    Round(otp, a, b, x, c, c);
    Round(otp, a, b, x, c, c + 1);
    var r1, e1 := RoundStates(a, b, x, c, c), RoundEvents(otp, b, x, c);
    var r2, e2 := RoundStates(a, b, x, c, c + 1), RoundEvents(otp, b, x, c + 1);
    JoinSteps(otp, first, firstEvents, r1, e1);
    JoinSteps(otp, first + r1[1..], firstEvents + e1, r2, e2);
    var last, lastEvents := LastSteps(otp, a, c);
    JoinSteps(otp, first + r1[1..] + r2[1..], firstEvents + e1 + e2, last, lastEvents);
    ws := first + r1[1..] + r2[1..] + last[1..];
    es := firstEvents + e1 + e2 + lastEvents;
    assert ws[13] == last[0] && ws[15] == last[2];
  }

  lemma LastSteps(otp: u64 -> seq<u8>, a: nat, c: u64) returns (ws: seq<World>, es: seq<WorldEvent>)
    requires InRange(c) && InRange(c + 1)
    ensures WorldSteps(otp, ws, es) && |es| == 2 && ws[0] == Level(a, c, c + 2)
    ensures ws[2] == World(Party(c + 1, map[]), Party(c + 2, map[]), Some(c))
  {
    assert FirstMatch(otp, c, LOOK_AHEAD, otp(c)) == Some(c);
    var mid := World(Party(c + 2, map[a := Matched(c)]), Party(c + 2, map[]), None);
    var end := World(Party(c + 1, map[]), Party(c + 2, map[]), Some(c));
    assert map[a := Begun(c)][a := Matched(c)] == map[a := Matched(c)] && map[a := Matched(c)] - {a} == map[];
    assert WorldStep(otp, Level(a, c, c + 2), Sign(Finish(a, otp(c))), mid);
    assert WorldStep(otp, mid, Sign(Store(a, true)), end);
    ws, es := [Level(a, c, c + 2), mid, end], [Sign(Finish(a, otp(c))), Sign(Store(a, true))];
  }
}
