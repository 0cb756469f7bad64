/// The two-party counter protocol that HOTP keys run. A signer and a verifier
/// each write their counter back into their own key object (src/hotp.rs). An
/// operation reads the counter when it begins, moves it when it finishes and
/// stores it in a step of its own (src/fns/signing.rs), and several sessions
/// can have operations open on one key (section 7.4 of RFC 4226).
module HotpProtocol {
  import opened Bytes
  import opened Common
  import opened Hmac
  import opened Hotp

  // ----- one operation on a key

  /// A stored OTP key; its counter attribute is what write-back changes.
  class KeyObject {
    var data: KeyData

    constructor (data: KeyData)
      ensures this.data == data
    {
      this.data := data;
    }

    /// Begins signing or verifying with the key's own counter.
    method Begin(h: HashFn) returns (r: Result<HOTPOperation, Rv>)
      ensures r.Ok? <==> Startable(data)
      ensures r.Err? ==> r.error in {CKR_MECHANISM_PARAM_INVALID, CKR_GENERAL_ERROR}
      ensures r.Ok? ==>
        var op := r.value;
        && fresh(op.Repr()) && op.Valid() && !op.finalized && op.update == Some(false)
        && op.hmac.hash == h && Some(op.hmac.alg) == AlgFor(|data.value|) && op.hmac.key == data.value
        && op.length == data.length && op.CounterValue() == CounterOf(data.counter)
    {
      r := HOTPOperation.New(h, data, None);
    }

    /// Finishes signing and stores the counter the operation has reached, which
    /// is one past the one it began with, whatever is stored by now.
    method Sign(op: HOTPOperation, signature: array<u8>, writeOk: bool) returns (rv: Rv)
      requires op.Valid() && signature !in op.Repr()
      modifies this, op.Repr(), signature
      ensures op.Valid()
      ensures rv == CKR_OK <==>
        && !old(op.finalized) && signature.Length >= STRUCT_SIZE + PARAM_SIZE + op.length
        && SupportedLength(op.length) && (old(op.update).Some? ==> writeOk)
      ensures rv == CKR_OK ==>
        var c := old(op.CounterValue());
        && signature[STRUCT_SIZE + PARAM_SIZE..STRUCT_SIZE + PARAM_SIZE + op.length]
             == OtpAt(op.hmac.hash, op.hmac.alg, op.hmac.key, op.length, c)
        && data == old(data).(counter := data.counter)
        && (if old(op.update).Some? then |data.counter| == 8 && CounterOf(data.counter) == Next(c)
            else data == old(data))
      ensures rv != CKR_OK ==> data == old(data)
    {
      rv := op.SignFinal(signature);
      if rv != CKR_OK {
        return;
      }
      rv := WriteBack(op, writeOk);
    }

    /// Finishes verifying and stores one past the first match of the window
    /// that starts where the operation began.
    method Verify(op: HOTPOperation, otp: seq<u8>, writeOk: bool) returns (rv: Rv)
      requires op.Valid()
      modifies this, op.Repr()
      ensures op.Valid()
      ensures
        var found := FirstMatch(Passwords(op.hmac.hash, op.hmac.alg, op.hmac.key, op.length),
                                old(op.CounterValue()), LOOK_AHEAD, otp);
        && (rv == CKR_OK <==>
              && !old(op.finalized) && |otp| == op.length && SupportedLength(op.length)
              && found.Some? && (old(op.update).Some? ==> writeOk))
        && (rv == CKR_OK ==>
              && data == old(data).(counter := data.counter)
              && (if old(op.update).Some? then |data.counter| == 8 && CounterOf(data.counter) == Next(found.value)
                  else data == old(data)))
      ensures rv != CKR_OK ==> data == old(data)
    {
      rv := op.VerifyFinal(otp);
      if rv != CKR_OK {
        return;
      }
      rv := WriteBack(op, writeOk);
    }

    /// Stores what the operation has to store, if anything.
    method WriteBack(op: HOTPOperation, writeOk: bool) returns (rv: Rv)
      modifies this
      ensures rv == CKR_OK <==> (op.update == Some(true) ==> writeOk)
      ensures data == if op.update == Some(true) && writeOk then old(data).(counter := op.counter) else old(data)
    {
      var update := op.UpdatesObject();
      if update.Some? {
        if !writeOk {
          return CKR_GENERAL_ERROR;
        }
        data := data.(counter := update.value);
      }
      return CKR_OK;
    }
  }

  /// A key that can be used with its own counter.
  predicate Startable(d: KeyData) {
    d.requirement != Mandatory && |d.counter| == 8 && AlgFor(|d.value|).Some?
  }

  // ----- the look-ahead window

  lemma {:induction false} FirstMatchSpec(otp: u64 -> seq<u8>, c: u64, n: nat, given: seq<u8>)
    requires c + n < U64_LIMIT
    ensures match FirstMatch(otp, c, n, given)
      case Some(j) => c <= j < c + n && otp(j) == given && forall i: u64 :: c <= i < j ==> otp(i) != given
      case None => forall i: u64 :: c <= i < c + n ==> otp(i) != given
    decreases n
  {
    if n > 0 {
      FirstMatchSpec(otp, c + 1, n - 1, given);
    }
  }

  /// Where verifying a password leaves the counter v.
  function Advance(otp: u64 -> seq<u8>, v: u64, given: seq<u8>): (v': u64)
  {
    match FirstMatch(otp, v, LOOK_AHEAD, given)
    case Some(j) => Next(j)
    case None => v
  }

  predicate Accepts(otp: u64 -> seq<u8>, v: u64, given: seq<u8>) {
    FirstMatch(otp, v, LOOK_AHEAD, given).Some?
  }

  /// Counters for which the window arithmetic stays within 64 bits.
  predicate InRange(v: u64) { v <= U64_LIMIT - 6 }

  /// An operation that begins at v accepts a password made at p whenever
  /// v <= p < v + 5. Accepting moves its counter strictly up, to one past the
  /// first match of the window; rejecting leaves it alone.
  lemma VerifyStep(otp: u64 -> seq<u8>, v: u64, p: u64)
    requires InRange(v)
    ensures v <= p < v + 5 ==> Accepts(otp, v, otp(p)) && v < Advance(otp, v, otp(p)) <= p + 1
    ensures Accepts(otp, v, otp(p)) <==> exists j: u64 :: v <= j < v + 5 && otp(j) == otp(p)
    ensures Accepts(otp, v, otp(p)) ==>
      && v < Advance(otp, v, otp(p)) <= v + 5
      && otp(Advance(otp, v, otp(p)) - 1) == otp(p)
      && forall i: u64 :: v <= i < Advance(otp, v, otp(p)) - 1 ==> otp(i) != otp(p)
    ensures !Accepts(otp, v, otp(p)) ==> Advance(otp, v, otp(p)) == v
  {
    FirstMatchSpec(otp, v, LOOK_AHEAD, otp(p));
  }

  // ----- one key and the operations open on it

  /// An operation has begun at a counter, or has matched one and is still to
  /// store the next.
  datatype OpState = Begun(counter: u64) | Matched(counter: u64)

  /// A key's stored counter and the operations open on it, by session.
  datatype Party = Party(stored: u64, ops: map<nat, OpState>)

  datatype Role = Signer | Verifier

  datatype PartyEvent =
    | Begin(session: nat)
    | Cancel(session: nat)
    | Finish(session: nat, given: seq<u8>)
    | Store(session: nat, ok: bool)

  /// One step on a key. A session has one operation at a time, but nothing
  /// keeps another session from beginning one on the same key.
  ghost predicate PartyStep(role: Role, otp: u64 -> seq<u8>, p: Party, e: PartyEvent, p': Party) {
    match e
    case Begin(s) => s !in p.ops && p' == p.(ops := p.ops[s := Begun(p.stored)])
    case Cancel(s) => s in p.ops && p.ops[s].Begun? && p' == p.(ops := p.ops - {s})
    case Finish(s, given) =>
      && s in p.ops && p.ops[s].Begun? && InRange(p.ops[s].counter)
      && (role == Signer ==> given == otp(p.ops[s].counter))
      && p' == p.(ops := Finished(otp, p.ops, s, given))
    case Store(s, ok) =>
      s in p.ops && p.ops[s].Matched? && p' == Party(if ok then Next(p.ops[s].counter) else p.stored, p.ops - {s})
  }

  /// Signing matches its own password; verifying matches the first one of the
  /// window, or ends the operation.
  function Finished(otp: u64 -> seq<u8>, ops: map<nat, OpState>, s: nat, given: seq<u8>): map<nat, OpState>
    requires s in ops && ops[s].Begun?
  {
    match FirstMatch(otp, ops[s].counter, LOOK_AHEAD, given)
    case Some(j) => ops[s := Matched(j)]
    case None => ops - {s}
  }

  ghost predicate PartyRun(role: Role, otp: u64 -> seq<u8>, ps: seq<Party>, es: seq<PartyEvent>) {
    |ps| == |es| + 1 && forall i :: 0 <= i < |es| ==> PartyStep(role, otp, ps[i], es[i], ps[i + 1])
  }

  predicate Stores(e: PartyEvent) { e.Store? && e.ok }

  /// Every counter that is stored is higher than the one before.
  ghost predicate Rises(ps: seq<Party>, es: seq<PartyEvent>)
    requires |ps| == |es| + 1
  {
    forall i :: 0 <= i < |es| && Stores(es[i]) ==> ps[i].stored < ps[i + 1].stored
  }

  /// However the operations that are open get finished, what they store rises.
  ghost predicate OpenOnesRise(role: Role, otp: u64 -> seq<u8>, p: Party) {
    forall ps: seq<Party>, es: seq<PartyEvent> ::
      PartyRun(role, otp, ps, es) && ps[0] == p && (forall i :: 0 <= i < |es| ==> !es[i].Begin?) ==> Rises(ps, es)
  }

  /// At most one operation is open, and it is not behind what is stored.
  ghost predicate AtMostOne(p: Party) {
    && (forall s, t :: s in p.ops && t in p.ops ==> s == t)
    && forall s :: s in p.ops ==> p.stored <= p.ops[s].counter
  }

  /// Counters from which the window arithmetic stays within 64 bits.
  ghost predicate AllInRange(p: Party) {
    forall s :: s in p.ops ==> if p.ops[s].Begun? then InRange(p.ops[s].counter) else p.ops[s].counter < U64_LIMIT - 1
  }

  ghost predicate NoWrap(p: Party) {
    forall s :: s in p.ops && p.ops[s].Matched? ==> p.ops[s].counter < U64_LIMIT - 1
  }

  /// An operation begins only when none is open on the key.
  predicate Alone(p: Party, e: PartyEvent) { e.Begin? ==> p.ops == map[] }

  lemma StepKeepsAtMostOne(role: Role, otp: u64 -> seq<u8>, p: Party, e: PartyEvent, p': Party)
    requires AtMostOne(p) && NoWrap(p) && PartyStep(role, otp, p, e, p') && Alone(p, e)
    ensures AtMostOne(p') && NoWrap(p') && p.stored <= p'.stored
    ensures Stores(e) ==> p.stored < p'.stored
  {
    if e.Finish? {
      FirstMatchSpec(otp, p.ops[e.session].counter, LOOK_AHEAD, e.given);
    }
  }

  /// Where finishing an operation can bring the stored counter.
  function Target(o: OpState): u64 { Next(o.counter) }

  /// Finishing one operation and storing what it reached.
  function Completion(otp: u64 -> seq<u8>, p: Party, s: nat): seq<PartyEvent>
    requires s in p.ops
  {
    if p.ops[s].Begun? then [Finish(s, otp(p.ops[s].counter)), Store(s, true)] else [Store(s, true)]
  }

  function Completed(p: Party, s: nat): Party
    requires s in p.ops
  {
    Party(Target(p.ops[s]), p.ops - {s})
  }

  function CompletionStates(p: Party, s: nat): seq<Party>
    requires s in p.ops
  {
    if p.ops[s].Begun? then [p, p.(ops := p.ops[s := Matched(p.ops[s].counter)]), Completed(p, s)]
    else [p, Completed(p, s)]
  }

  lemma CompletionRuns(role: Role, otp: u64 -> seq<u8>, p: Party, s: nat)
    requires s in p.ops && AllInRange(p)
    ensures PartyRun(role, otp, CompletionStates(p, s), Completion(otp, p, s))
    ensures !(p.stored < Target(p.ops[s])) ==> !Rises(CompletionStates(p, s), Completion(otp, p, s))
    ensures forall i :: 0 <= i < |Completion(otp, p, s)| ==> !Completion(otp, p, s)[i].Begin?
  {
    var c := p.ops[s].counter;
    if p.ops[s].Begun? {
      var mid := p.(ops := p.ops[s := Matched(c)]);
      assert FirstMatch(otp, c, LOOK_AHEAD, otp(c)) == Some(c);
      assert PartyStep(role, otp, p, Finish(s, otp(c)), mid);
      assert mid.ops - {s} == p.ops - {s};
      assert PartyStep(role, otp, mid, Store(s, true), Completed(p, s));
      var ps, es := CompletionStates(p, s), Completion(otp, p, s);
      assert Stores(es[1]) && ps[1] == mid && ps[2] == Completed(p, s);
    } else {
      var ps, es := CompletionStates(p, s), Completion(otp, p, s);
      assert Stores(es[0]) && ps[0] == p && ps[1] == Completed(p, s);
    }
  }

  /// A run followed by another.
  lemma Joined(role: Role, otp: u64 -> seq<u8>, ps: seq<Party>, es: seq<PartyEvent>,
               qs: seq<Party>, fs: seq<PartyEvent>)
    requires PartyRun(role, otp, ps, es) && PartyRun(role, otp, qs, fs) && qs[0] == ps[|es|]
    ensures PartyRun(role, otp, ps + qs[1..], es + fs)
    ensures !Rises(qs, fs) ==> !Rises(ps + qs[1..], es + fs)
  {
    var rs, gs := ps + qs[1..], es + fs;
    forall i | 0 <= i < |gs|
      ensures PartyStep(role, otp, rs[i], gs[i], rs[i + 1])
    {
      if i >= |es| {
        assert rs[i] == qs[i - |es|] && rs[i + 1] == qs[i + 1 - |es|];
      }
    }
    if i :| 0 <= i < |fs| && Stores(fs[i]) && !(qs[i].stored < qs[i + 1].stored) {
      assert gs[|es| + i] == fs[i] && rs[|es| + i] == qs[i] && rs[|es| + i + 1] == qs[i + 1];
    }
  }

  lemma {:induction false} ClosingRunRises(role: Role, otp: u64 -> seq<u8>, ps: seq<Party>, es: seq<PartyEvent>, n: nat)
    requires PartyRun(role, otp, ps, es) && n <= |es| && AtMostOne(ps[0]) && NoWrap(ps[0])
    requires forall i :: 0 <= i < |es| ==> Alone(ps[i], es[i])
    ensures AtMostOne(ps[n]) && NoWrap(ps[n]) && ps[0].stored <= ps[n].stored
    ensures n > 0 && Stores(es[n - 1]) ==> ps[n - 1].stored < ps[n].stored
  {
    if n > 0 {
      ClosingRunRises(role, otp, ps, es, n - 1);
      StepKeepsAtMostOne(role, otp, ps[n - 1], es[n - 1], ps[n]);
    }
  }

  lemma RunRises(role: Role, otp: u64 -> seq<u8>, ps: seq<Party>, es: seq<PartyEvent>)
    requires PartyRun(role, otp, ps, es) && AtMostOne(ps[0]) && NoWrap(ps[0])
    requires forall i :: 0 <= i < |es| ==> Alone(ps[i], es[i])
    ensures Rises(ps, es)
  {
    forall i | 0 <= i < |es| && Stores(es[i])
      ensures ps[i].stored < ps[i + 1].stored
    {
      ClosingRunRises(role, otp, ps, es, i + 1);
    }
  }

  /// Finishing what is open always stores higher counters exactly when at most
  /// one operation is open on the key and it is not behind what is stored.
  lemma OpenOnesRiseExactly(role: Role, otp: u64 -> seq<u8>, p: Party)
    requires AllInRange(p)
    ensures OpenOnesRise(role, otp, p) <==> AtMostOne(p)
  {
    if AtMostOne(p) {
      forall ps: seq<Party>, es: seq<PartyEvent> |
        PartyRun(role, otp, ps, es) && ps[0] == p && (forall i :: 0 <= i < |es| ==> !es[i].Begin?)
        ensures Rises(ps, es)
      {
        RunRises(role, otp, ps, es);
      }
    } else if s :| s in p.ops && p.ops[s].counter < p.stored {
      CompletionRuns(role, otp, p, s);
    } else {
      var s, t :| s in p.ops && t in p.ops && s != t && p.ops[s].counter <= p.ops[t].counter;
      TwoOpenFall(role, otp, p, s, t);
    }
  }

  /// Of two open operations the one that is not ahead, finished last, does not
  /// raise the counter.
  lemma TwoOpenFall(role: Role, otp: u64 -> seq<u8>, p: Party, s: nat, t: nat)
    requires AllInRange(p) && s in p.ops && t in p.ops && s != t && p.ops[s].counter <= p.ops[t].counter
    ensures !OpenOnesRise(role, otp, p)
  {
    var mid := Completed(p, t);
    CompletionRuns(role, otp, p, t);
    CompletionRuns(role, otp, mid, s);
    var ps, es := CompletionStates(p, t), Completion(otp, p, t);
    var qs, fs := CompletionStates(mid, s), Completion(otp, mid, s);
    Joined(role, otp, ps, es, qs, fs);
    assert (ps + qs[1..])[0] == p;
  }

  /// What a run from an unused key must do to keep passwords from being used
  /// twice: in every state of it, finishing what is open stores higher
  /// counters, exactly when no operation was begun while another was open on
  /// the key.
  lemma RunSafeExactly(role: Role, otp: u64 -> seq<u8>, ps: seq<Party>, es: seq<PartyEvent>, n: nat)
    requires PartyRun(role, otp, ps, es) && n <= |es| && ps[0].ops == map[]
    requires forall i :: 0 <= i < |ps| ==> AllInRange(ps[i])
    ensures (forall i :: 0 <= i <= n ==> OpenOnesRise(role, otp, ps[i])) <==>
              (forall i :: 0 <= i < n ==> Alone(ps[i], es[i]))
  {
    if forall i :: 0 <= i < n ==> Alone(ps[i], es[i]) {
      forall i | 0 <= i <= n
        ensures OpenOnesRise(role, otp, ps[i])
      {
        PrefixRun(role, otp, ps, es, n);
        ClosingRunRises(role, otp, ps[..n + 1], es[..n], i);
        OpenOnesRiseExactly(role, otp, ps[i]);
      }
    } else {
      var i :| 0 <= i < n && !Alone(ps[i], es[i]);
      assert PartyStep(role, otp, ps[i], es[i], ps[i + 1]);
      OpenOnesRiseExactly(role, otp, ps[i + 1]);
      var s :| s in ps[i].ops;
      assert s in ps[i + 1].ops && es[i].session in ps[i + 1].ops && s != es[i].session;
    }
  }

  lemma PrefixRun(role: Role, otp: u64 -> seq<u8>, ps: seq<Party>, es: seq<PartyEvent>, n: nat)
    requires PartyRun(role, otp, ps, es) && n <= |es|
    ensures PartyRun(role, otp, ps[..n + 1], es[..n])
  {
  }

  /// So in a run without overlap each counter that is stored is higher than all
  /// stored before.
  lemma CountersUsedOnce(role: Role, otp: u64 -> seq<u8>, ps: seq<Party>, es: seq<PartyEvent>, i: nat, j: nat)
    requires PartyRun(role, otp, ps, es) && ps[0].ops == map[]
    requires forall k :: 0 <= k < |es| ==> Alone(ps[k], es[k])
    requires i < j < |es| && Stores(es[i]) && Stores(es[j])
    ensures ps[i + 1].stored < ps[j + 1].stored
  {
    StoredGrows(role, otp, ps, es, i + 1, j);
    ClosingRunRises(role, otp, ps, es, j + 1);
  }

  lemma {:induction false} StoredGrows(role: Role, otp: u64 -> seq<u8>, ps: seq<Party>, es: seq<PartyEvent>,
                                       i: nat, j: nat)
    requires PartyRun(role, otp, ps, es) && ps[0].ops == map[] && i <= j <= |es|
    requires forall k :: 0 <= k < |es| ==> Alone(ps[k], es[k])
    ensures ps[i].stored <= ps[j].stored
    decreases j
  {
    if i < j {
      StoredGrows(role, otp, ps, es, i, j - 1);
      ClosingRunRises(role, otp, ps, es, j - 1);
      StepKeepsAtMostOne(role, otp, ps[j - 1], es[j - 1], ps[j]);
    }
  }

  /// What a signer has open is at the stored counter.
  lemma {:induction false} SignerAtStored(otp: u64 -> seq<u8>, ps: seq<Party>, es: seq<PartyEvent>, n: nat)
    requires PartyRun(Signer, otp, ps, es) && ps[0].ops == map[] && n <= |es|
    requires forall k :: 0 <= k < |es| ==> Alone(ps[k], es[k])
    ensures forall s :: s in ps[n].ops ==> ps[n].ops[s].counter == ps[n].stored
  {
    if n > 0 {
      SignerAtStored(otp, ps, es, n - 1);
      ClosingRunRises(Signer, otp, ps, es, n - 1);
      var p, e := ps[n - 1], es[n - 1];
      assert PartyStep(Signer, otp, p, e, ps[n]);
      if e.Finish? {
        assert FirstMatch(otp, p.ops[e.session].counter, LOOK_AHEAD, e.given) == Some(p.ops[e.session].counter);
      }
    }
  }

  lemma {:induction false} StoredStays(role: Role, otp: u64 -> seq<u8>, ps: seq<Party>, es: seq<PartyEvent>,
                                       i: nat, j: nat)
    requires PartyRun(role, otp, ps, es) && i <= j <= |es| && forall k :: i <= k < j ==> !Stores(es[k])
    ensures ps[i].stored == ps[j].stored
    decreases j
  {
    if i < j {
      StoredStays(role, otp, ps, es, i, j - 1);
      assert PartyStep(role, otp, ps[j - 1], es[j - 1], ps[j]);
    }
  }

  /// In a run without overlap a signer makes the passwords of one counter twice
  /// exactly when nothing was stored in between, that is when storing failed or
  /// an operation was given up.
  lemma SignedAgainExactly(otp: u64 -> seq<u8>, ps: seq<Party>, es: seq<PartyEvent>, i: nat, j: nat)
    requires PartyRun(Signer, otp, ps, es) && ps[0].ops == map[]
    requires forall k :: 0 <= k < |es| ==> Alone(ps[k], es[k])
    requires i < j < |es| && es[i].Finish? && es[j].Finish?
    ensures es[i].session in ps[i].ops && es[j].session in ps[j].ops
    ensures ps[i].ops[es[i].session].counter == ps[j].ops[es[j].session].counter <==>
              forall k :: i < k < j ==> !Stores(es[k])
  {
    assert PartyStep(Signer, otp, ps[i], es[i], ps[i + 1]) && PartyStep(Signer, otp, ps[j], es[j], ps[j + 1]);
    SignerAtStored(otp, ps, es, i);
    SignerAtStored(otp, ps, es, j);
    if k :| i < k < j && Stores(es[k]) {
      StoredGrows(Signer, otp, ps, es, i, k);
      ClosingRunRises(Signer, otp, ps, es, k + 1);
      StoredGrows(Signer, otp, ps, es, k + 1, j);
    } else {
      StoredStays(Signer, otp, ps, es, i, j);
    }
  }

  // ----- what goes wrong with two operations on one key

  /// Two sessions that begin verifying at one counter both accept the same
  /// password.
  lemma OverlapReplays(otp: u64 -> seq<u8>, v: u64, s: nat, t: nat) returns (ps: seq<Party>, es: seq<PartyEvent>)
    requires InRange(v) && s != t
    ensures PartyRun(Verifier, otp, ps, es) && ps[0] == Party(v, map[]) && |es| == 6
    ensures es[2] == Finish(s, otp(v)) && es[3] == Store(s, true)
    ensures es[4] == Finish(t, otp(v)) && es[5] == Store(t, true)
    ensures ps[4].stored == v + 1 && ps[6].stored == v + 1
  {
    assert FirstMatch(otp, v, LOOK_AHEAD, otp(v)) == Some(v);
    ps := [Party(v, map[]), Party(v, map[s := Begun(v)]), Party(v, map[s := Begun(v), t := Begun(v)]),
           Party(v, map[s := Matched(v), t := Begun(v)]), Party(v + 1, map[t := Begun(v)]),
           Party(v + 1, map[t := Matched(v)]), Party(v + 1, map[])];
    es := [Begin(s), Begin(t), Finish(s, otp(v)), Store(s, true), Finish(t, otp(v)), Store(t, true)];
    OverlapSteps(otp, v, s, t);
  }

  lemma OverlapSteps(otp: u64 -> seq<u8>, v: u64, s: nat, t: nat)
    requires InRange(v) && s != t
    ensures PartyStep(Verifier, otp, Party(v, map[]), Begin(s), Party(v, map[s := Begun(v)]))
    ensures PartyStep(Verifier, otp, Party(v, map[s := Begun(v)]),
                      Begin(t), Party(v, map[s := Begun(v), t := Begun(v)]))
    ensures PartyStep(Verifier, otp, Party(v, map[s := Begun(v), t := Begun(v)]), Finish(s, otp(v)),
                      Party(v, map[s := Matched(v), t := Begun(v)]))
    ensures PartyStep(Verifier, otp, Party(v, map[s := Matched(v), t := Begun(v)]), Store(s, true),
                      Party(v + 1, map[t := Begun(v)]))
    ensures PartyStep(Verifier, otp, Party(v + 1, map[t := Begun(v)]),
                      Finish(t, otp(v)), Party(v + 1, map[t := Matched(v)]))
    ensures PartyStep(Verifier, otp, Party(v + 1, map[t := Matched(v)]), Store(t, true), Party(v + 1, map[]))
  {
    assert FirstMatch(otp, v, LOOK_AHEAD, otp(v)) == Some(v);
    assert map[s := Matched(v), t := Begun(v)] - {s} == map[t := Begun(v)];
    assert map[s := Begun(v), t := Begun(v)][s := Matched(v)] == map[s := Matched(v), t := Begun(v)];
    assert map[t := Matched(v)] - {t} == map[];
  }
}
