/// A key object with the operations that sessions have open on it: its calls
/// (src/fns/signing.rs) take the steps that HotpProtocol's runs are made of.
module HotpKeys {
  import opened Bytes
  import opened Common
  import opened Hmac
  import opened Hotp
  import opened HotpProtocol

  // ----- several operations

  /// The operations share nothing, and their objects are among the given ones.
  ghost predicate Separate(ops: map<nat, HOTPOperation>, objects: set<object>) {
    && (forall s :: s in ops ==> ops[s].Repr() <= objects)
    && (forall s, t :: s in ops && t in ops && s != t ==> ops[s].Repr() !! ops[t].Repr())
  }

  /// What an operation that uses the key's own counter shows.
  ghost predicate Shows(op: HOTPOperation, otp: u64 -> seq<u8>, o: OpState)
    reads op.Repr()
  {
    && op.Valid() && Passwords(op.hmac.hash, op.hmac.alg, op.hmac.key, op.length) == otp
    && match o
       case Begun(c) => !op.finalized && op.update == Some(false) && op.CounterValue() == c
       case Matched(c) => op.finalized && op.update == Some(true) && op.CounterValue() == Next(c)
  }

  ghost predicate AllShow(ops: map<nat, HOTPOperation>, objects: set<object>, otp: u64 -> seq<u8>,
                          shown: map<nat, OpState>)
    requires Separate(ops, objects)
    reads objects
  {
    ops.Keys == shown.Keys && forall s :: s in ops ==> Shows(ops[s], otp, shown[s])
  }

  ghost predicate Holds(ops: map<nat, HOTPOperation>, objects: set<object>, otp: u64 -> seq<u8>,
                        shown: map<nat, OpState>)
    reads objects
  {
    Separate(ops, objects) && AllShow(ops, objects, otp, shown)
  }

  lemma HoldsOne(ops: map<nat, HOTPOperation>, objects: set<object>, otp: u64 -> seq<u8>,
                 shown: map<nat, OpState>, session: nat)
    requires Holds(ops, objects, otp, shown) && session in ops
    ensures session in shown && ops[session].Repr() <= objects && Shows(ops[session], otp, shown[session])
  {
  }

  lemma SeparateAdded(ops: map<nat, HOTPOperation>, objects: set<object>, session: nat, op: HOTPOperation)
    requires Separate(ops, objects) && session !in ops && op.Repr() !! objects
    ensures Separate(ops[session := op], objects + op.Repr())
  {
  }

  lemma HoldsAdded(ops: map<nat, HOTPOperation>, objects: set<object>, otp: u64 -> seq<u8>,
                   shown: map<nat, OpState>, session: nat, op: HOTPOperation, o: OpState)
    requires Holds(ops, objects, otp, shown) && session !in ops
    requires op.Repr() !! objects && Shows(op, otp, o)
    ensures Holds(ops[session := op], objects + op.Repr(), otp, shown[session := o])
  {
    SeparateAdded(ops, objects, session, op);
    hide Shows, Separate;
  }

  lemma HoldsReplaced(ops: map<nat, HOTPOperation>, objects: set<object>, otp: u64 -> seq<u8>,
                      shown: map<nat, OpState>, session: nat, o: OpState)
    requires Separate(ops, objects) && ops.Keys == shown.Keys
    requires session in ops && Shows(ops[session], otp, o)
    requires forall s :: s in ops && s != session ==> Shows(ops[s], otp, shown[s])
    ensures Holds(ops, objects, otp, shown[session := o])
  {
    hide Shows;
  }

  lemma HoldsRemoved(ops: map<nat, HOTPOperation>, objects: set<object>, otp: u64 -> seq<u8>,
                     shown: map<nat, OpState>, session: nat)
    requires Separate(ops, objects) && ops.Keys == shown.Keys
    requires forall s :: s in ops && s != session ==> Shows(ops[s], otp, shown[s])
    ensures Holds(ops - {session}, objects, otp, shown - {session})
  {
    hide Shows;
  }

  lemma HoldsWithout(ops: map<nat, HOTPOperation>, objects: set<object>, otp: u64 -> seq<u8>,
                     shown: map<nat, OpState>, session: nat)
    requires Holds(ops, objects, otp, shown)
    ensures Holds(ops - {session}, objects, otp, shown - {session})
  {
    HoldsRemoved(ops, objects, otp, shown, session);
  }

  // ----- one operation

  lemma MatchedHasNext(op: HOTPOperation, otp: u64 -> seq<u8>, c: u64)
    requires Shows(op, otp, Matched(c))
    ensures op.update == Some(true) && |op.counter| == 8 && CounterOf(op.counter) == Next(c)
  {
  }

  /// The password is that of the counter the operation began with.
  method SignShown(op: HOTPOperation, ghost otp: u64 -> seq<u8>, ghost c: u64, signature: array<u8>) returns (rv: Rv)
    requires Shows(op, otp, Begun(c)) && signature !in op.Repr()
    modifies op.Repr(), signature
    ensures rv == CKR_OK ==> Shows(op, otp, Matched(c))
    ensures rv == CKR_OK ==>
      signature.Length >= STRUCT_SIZE + PARAM_SIZE + op.length &&
      signature[STRUCT_SIZE + PARAM_SIZE..STRUCT_SIZE + PARAM_SIZE + op.length] == otp(c)
    ensures rv == CKR_BUFFER_TOO_SMALL ==> Shows(op, otp, Begun(c))
  {
    rv := op.SignFinal(signature);
  }

  /// The password is looked for where the operation began.
  method VerifyShown(op: HOTPOperation, ghost otp: u64 -> seq<u8>, ghost c: u64, given: seq<u8>) returns (rv: Rv)
    requires Shows(op, otp, Begun(c))
    modifies op.Repr()
    ensures
      var found := FirstMatch(otp, c, LOOK_AHEAD, given);
      && (rv == CKR_OK ==> found.Some? && Shows(op, otp, Matched(found.value)))
      && (rv == CKR_SIGNATURE_INVALID ==> found.None?)
  {
    rv := op.VerifyFinal(given);
  }

  // ----- the key

  class SharedKey {
    const key: KeyObject
    const otp: u64 -> seq<u8>
    var ops: map<nat, HOTPOperation>
    /// What the key and the operations show.
    ghost var party: Party
    /// The objects of the operations.
    ghost var Repr: set<object>

    ghost predicate Valid()
      reads this, key, Repr
    {
      && this !in Repr && key !in Repr
      && |key.data.counter| == 8 && party.stored == CounterOf(key.data.counter)
      && Holds(ops, Repr, otp, party.ops)
    }

    lemma Sessions()
      requires Valid()
      ensures ops.Keys == party.ops.Keys && Separate(ops, Repr)
    {
    }

    /// What the key shows are its own fields and those of its operations.
    lemma PartyShown(session: nat)
      requires Valid()
      ensures |key.data.counter| == 8 && party.stored == CounterOf(key.data.counter)
      ensures session in ops <==> session in party.ops
      ensures session in ops ==>
        var op := ops[session];
        && op in Repr && |op.counter| == 8
        && match party.ops[session]
           case Begun(c) => !op.finalized && op.update == Some(false) && CounterOf(op.counter) == c
           case Matched(c) => op.finalized && op.update == Some(true) && CounterOf(op.counter) == Next(c)
    {
      if session in ops {
        assert Shows(ops[session], otp, party.ops[session]);
      }
    }

    /// After a change inside one operation the others show what they did.
    twostate lemma OthersShow(session: nat)
      requires old(Valid()) && ops == old(ops) && session in ops
      requires unchanged(old(Repr - ops[session].Repr()))
      ensures forall s :: s in ops && s != session ==> Shows(ops[s], otp, old(party).ops[s])
    {
      forall s | s in ops && s != session
        ensures Shows(ops[s], otp, old(party).ops[s])
      {
        assert ops[s].Repr() !! ops[session].Repr();
        assert old(Shows(ops[s], otp, party.ops[s]));
      }
    }

    constructor (h: HashFn, key: KeyObject)
      requires |key.data.counter| == 8 && AlgFor(|key.data.value|).Some?
      ensures Valid() && this.key == key && party == Party(CounterOf(key.data.counter), map[]) && Repr == {}
      ensures otp == Passwords(h, AlgFor(|key.data.value|).value, key.data.value, key.data.length)
    {
      this.key := key;
      otp := Passwords(h, AlgFor(|key.data.value|).value, key.data.value, key.data.length);
      ops, Repr := map[], {};
      party := Party(CounterOf(key.data.counter), map[]);
    }

    // ----- the calls

    method Begin(session: nat, h: HashFn) returns (rv: Rv)
      requires Valid() && AlgFor(|key.data.value|).Some?
      requires otp == Passwords(h, AlgFor(|key.data.value|).value, key.data.value, key.data.length)
      modifies this
      ensures Valid() && fresh(Repr - old(Repr))
      ensures rv == CKR_OK <==> session !in old(ops) && Startable(key.data)
      ensures rv == CKR_OK ==> forall role :: PartyStep(role, otp, old(party), PartyEvent.Begin(session), party)
      ensures rv != CKR_OK ==> party == old(party)
    {
      hide Holds;
      if session in ops {
        return CKR_OPERATION_ACTIVE;
      }
      Sessions();
      var made := key.Begin(h);
      if made.Err? {
        return made.error;
      }
      var op := made.value;
      HoldsAdded(ops, Repr, otp, party.ops, session, op, Begun(party.stored));
      ops := ops[session := op];
      party := party.(ops := party.ops[session := Begun(party.stored)]);
      Repr := Repr + op.Repr();
      return CKR_OK;
    }

    /// Signing matches its own password. A buffer too small leaves the operation
    /// open; any other failure ends it.
    method FinishSigning(session: nat, signature: array<u8>) returns (rv: Rv)
      requires Valid() && session in ops && party.ops[session].Begun? && signature !in Repr
      modifies this, Repr, signature
      ensures Valid() && Repr == old(Repr)
      ensures
        var c := old(party).ops[session].counter;
        if rv == CKR_OK then
          InRange(c) ==> PartyStep(Signer, otp, old(party), PartyEvent.Finish(session, otp(c)), party)
        else if rv == CKR_BUFFER_TOO_SMALL then party == old(party)
        else PartyStep(Signer, otp, old(party), Cancel(session), party)
      ensures rv == CKR_OK ==>
        var start, length := STRUCT_SIZE + PARAM_SIZE, old(ops)[session].length;
        start + length <= signature.Length &&
        signature[start..start + length] == otp(old(party).ops[session].counter)
    {
      hide Holds, Separate, Shows;
      Sessions();
      HoldsOne(ops, Repr, otp, party.ops, session);
      var op := ops[session];
      ghost var c := party.ops[session].counter;
      rv := SignShown(op, otp, c, signature);
      OthersShow(session);
      if rv == CKR_OK {
        assert FirstMatch(otp, c, LOOK_AHEAD, otp(c)) == Some(c);
        HoldsReplaced(ops, Repr, otp, party.ops, session, Matched(c));
        party := party.(ops := party.ops[session := Matched(c)]);
      } else if rv == CKR_BUFFER_TOO_SMALL {
        HoldsReplaced(ops, Repr, otp, party.ops, session, Begun(c));
        assert party.ops[session := Begun(c)] == party.ops;
      } else {
        HoldsRemoved(ops, Repr, otp, party.ops, session);
        ops := ops - {session};
        party := party.(ops := party.ops - {session});
      }
    }

    /// Verifying matches the first password of the window, or ends the
    /// operation.
    method FinishVerifying(session: nat, given: seq<u8>) returns (rv: Rv)
      requires Valid() && session in ops && party.ops[session].Begun?
      modifies this, Repr
      ensures Valid() && Repr == old(Repr)
      ensures
        if rv == CKR_OK || rv == CKR_SIGNATURE_INVALID then
          InRange(old(party).ops[session].counter) ==>
            PartyStep(Verifier, otp, old(party), PartyEvent.Finish(session, given), party)
        else PartyStep(Verifier, otp, old(party), Cancel(session), party)
    {
      hide Holds, Separate, Shows;
      Sessions();
      HoldsOne(ops, Repr, otp, party.ops, session);
      var op := ops[session];
      ghost var c := party.ops[session].counter;
      rv := VerifyShown(op, otp, c, given);
      OthersShow(session);
      if rv == CKR_OK {
        ghost var found := FirstMatch(otp, c, LOOK_AHEAD, given);
        HoldsReplaced(ops, Repr, otp, party.ops, session, Matched(found.value));
        party := party.(ops := party.ops[session := Matched(found.value)]);
      } else {
        HoldsRemoved(ops, Repr, otp, party.ops, session);
        ops := ops - {session};
        party := party.(ops := party.ops - {session});
      }
    }

    /// Stores what the operation has reached, whatever is stored by now.
    method Store(session: nat, writeOk: bool) returns (rv: Rv)
      requires Valid() && session in ops && party.ops[session].Matched?
      modifies this, key
      ensures Valid() && Repr == old(Repr)
      ensures rv == CKR_OK <==> writeOk
      ensures forall role :: PartyStep(role, otp, old(party), PartyEvent.Store(session, writeOk), party)
    {
      hide Holds, Separate, Shows;
      Sessions();
      HoldsOne(ops, Repr, otp, party.ops, session);
      ghost var c := party.ops[session].counter;
      MatchedHasNext(ops[session], otp, c);
      HoldsWithout(ops, Repr, otp, party.ops, session);
      rv := key.WriteBack(ops[session], writeOk);
      ops := ops - {session};
      party := Party(if writeOk then Next(c) else party.stored, party.ops - {session});
    }

    /// A session can give its operation up before it is finished.
    method CancelOperation(session: nat)
      requires Valid() && session in ops && party.ops[session].Begun?
      modifies this
      ensures Valid() && Repr == old(Repr) && forall role :: PartyStep(role, otp, old(party), Cancel(session), party)
    {
      hide Holds, Separate, Shows;
      Sessions();
      HoldsWithout(ops, Repr, otp, party.ops, session);
      ops := ops - {session};
      party := party.(ops := party.ops - {session});
    }
  }
}
