/// Saving the state of active operations (src/session.rs): the size promised
/// beforehand against the nested DER that is written.
module OpState {
  import opened Bytes
  import opened Common

  // ----- DER (sections 8.1.3 and 8.3 of X.690), for lengths that fit a usize

  function LenOctets(n: nat): (s: seq<u8>)
    ensures |s| >= 1
  {
    if n < 0x80 then [n] else [(0x80 + |ToBigEndian(n)|) % 0x100] + ToBigEndian(n)
  }

  function Tlv(tag: u8, content: seq<u8>): (s: seq<u8>)
    ensures |s| == 1 + |LenOctets(|content|)| + |content|
  {
    [tag] + LenOctets(|content|) + content
  }

  /// The shortest two's complement form of an unsigned number.
  function UintContent(x: nat): (s: seq<u8>)
  {
    var b := ToBigEndian(x);
    if b == [] || b[0] >= 0x80 then [0] + b else b
  }

  function Integer(x: nat): seq<u8> { Tlv(0x02, UintContent(x)) }

  function OctetString(data: seq<u8>): seq<u8> { Tlv(0x04, data) }

  function Sequence(content: seq<u8>): seq<u8> { Tlv(0x30, content) }

  lemma {:induction false} BigEndianLength(x: nat, k: nat)
    ensures x < Pow256(k) ==> |ToBigEndian(x)| <= k
    ensures x >= Pow256(k) ==> |ToBigEndian(x)| > k
  {
    if k == 0 {
      assert x >= 1 ==> ToBigEndian(x) != [];
    } else if x > 0 {
      BigEndianLength(x / 256, k - 1);
    }
  }

  const LIMIT: nat := 0x1_0000_0000_0000

  /// Below 2^48 a length takes at most seven octets.
  lemma LenOctetsBound(n: nat)
    requires n < LIMIT
    ensures |LenOctets(n)| <= 7
    ensures n < 0x80 ==> |LenOctets(n)| == 1
  {
    Pow256Values();
    assert Pow256(5) == 256 * Pow256(4) && Pow256(6) == 256 * Pow256(5);
    BigEndianLength(n, 6);
  }

  // ----- the structures written

  /// What one operation contributes: its mechanism and its saved state.
  datatype StateData = StateData(mech: u64, data: seq<u8>)

  function StateDataContent(d: StateData): seq<u8> {
    Integer(d.mech) + OctetString(d.data)
  }

  /// The members present, each under its own context tag.
  function Members(parts: seq<Option<StateData>>): (s: seq<u8>)
    requires |parts| <= 8
  {
    if parts == [] then []
    else
      var n := |parts| - 1;
      Members(parts[..n]) + if parts[n].Some? then Tlv(0xa0 + n, StateDataContent(parts[n].value)) else []
  }

  function OperationState(version: u32, parts: seq<Option<StateData>>): seq<u8>
    requires |parts| <= 8
  {
    Sequence(Integer(version) + Members(parts))
  }

  /// AES-256-GCM: its object identifier, a 12-byte IV and an 8-byte tag.
  datatype GcmParams = GcmParams(iv: seq<u8>, tag: seq<u8>)

  predicate ValidGcm(g: GcmParams) { |g.iv| == 12 && |g.tag| == 8 }

  const AES_256_GCM_OID: seq<u8> := [0x60, 0x86, 0x48, 0x01, 0x65, 0x03, 0x04, 0x01, 0x2e]

  function AlgorithmId(g: GcmParams): seq<u8> {
    Sequence(Tlv(0x06, AES_256_GCM_OID) + Sequence(OctetString(g.iv) + OctetString(g.tag)))
  }

  function ProtectedData(g: GcmParams, data: seq<u8>): seq<u8> {
    Sequence(AlgorithmId(g) + OctetString(data))
  }

  // ----- the overheads, computed as the code does by encoding empty values

  const U64_MAX: u64 := U64_LIMIT - 1

  datatype Overheads = Overheads(perOp: nat, members: nat, encryption: nat)

  function ComputeOverheads(): Overheads {
    Overheads(
      |Sequence(StateDataContent(StateData(U64_MAX, [])))|,
      |OperationState(U32_MAX, seq(8, i => Some(StateData(U64_MAX, []))))|,
      |ProtectedData(GcmParams(seq(12, i => 0), seq(8, i => 0)), [])|)
  }

  // ----- the operations

  /// An active operation slot: what asking for its state size, its mechanism
  /// and its saved state gives.
  datatype ActiveOp =
    | NoOp
    | Op(finalized: bool, size: Result<nat, Rv>, saved: Result<seq<u8>, Rv>, mech: Result<u64, Rv>)

  /// Saving never writes more than the announced size.
  predicate Honest(op: ActiveOp) {
    op.Op? && op.size.Ok? && op.saved.Ok? ==> |op.saved.value| <= op.size.value
  }

  function OpStateSize(op: ActiveOp): Result<nat, Rv> {
    if op.NoOp? || op.finalized then Err(CKR_OPERATION_NOT_INITIALIZED) else op.size
  }

  function OpStateSave(op: ActiveOp): Result<StateData, Rv> {
    if op.NoOp? || op.finalized then Err(CKR_OPERATION_NOT_INITIALIZED)
    else match op.size
      case Err(e) => Err(e)
      case Ok(_) =>
        match op.saved
        case Err(e) => Err(e)
        case Ok(s) =>
          match op.mech
          case Err(e) => Err(e)
          case Ok(m) => Ok(StateData(m, s))
  }

  predicate Skippable(e: Rv) { e == CKR_STATE_UNSAVEABLE || e == CKR_OPERATION_NOT_INITIALIZED }

  /// What one more outcome does to the combined one: an error that is not
  /// skipped wins as soon as it is met, and one success is enough otherwise.
  function Advance<T>(before: Rv, last: Result<T, Rv>): Rv {
    if before != CKR_OK && !Skippable(before) then before
    else if last.Ok? then CKR_OK
    else if last.error == CKR_STATE_UNSAVEABLE then (if before == CKR_OK then CKR_OK else CKR_STATE_UNSAVEABLE)
    else if last.error == CKR_OPERATION_NOT_INITIALIZED then before
    else last.error
  }

  /// How the eight outcomes combine.
  function Combine<T>(rs: seq<Result<T, Rv>>): Rv {
    if rs == [] then CKR_OPERATION_NOT_INITIALIZED
    else Advance(Combine(rs[..|rs| - 1]), rs[|rs| - 1])
  }

  lemma CombineSnoc<T>(rs: seq<Result<T, Rv>>, i: nat)
    requires i < |rs|
    ensures Combine(rs[..i + 1]) == Advance(Combine(rs[..i]), rs[i])
  {
    assert rs[..i + 1][..i] == rs[..i];
  }

  /// Without an error that is not skipped: one success is enough, and otherwise
  /// it matters whether something could not be saved.
  lemma {:induction false} CombineSkips<T>(rs: seq<Result<T, Rv>>)
    requires forall i :: 0 <= i < |rs| ==> rs[i].Ok? || Skippable(rs[i].error)
    ensures Combine(rs) ==
      if exists i :: 0 <= i < |rs| && rs[i].Ok? then CKR_OK
      else if exists i :: 0 <= i < |rs| && rs[i] == Err(CKR_STATE_UNSAVEABLE) then CKR_STATE_UNSAVEABLE
      else CKR_OPERATION_NOT_INITIALIZED
  {
    if rs != [] {
      var n := |rs| - 1;
      var init := rs[..n];
      CombineSkips(init);
      assert forall i :: 0 <= i < n ==> init[i] == rs[i];
    }
  }

  /// The first error that is not skipped is the outcome.
  lemma CombineFails<T>(rs: seq<Result<T, Rv>>, i: nat)
    requires i < |rs| && rs[i].Err? && rs[i].error != CKR_OK && !Skippable(rs[i].error)
    requires forall j :: 0 <= j < i ==> rs[j].Ok? || Skippable(rs[j].error)
    ensures Combine(rs) == rs[i].error
  {
    CombineSkips(rs[..i]);
    CombineSnoc(rs, i);
    CombineStops(rs, i + 1);
  }

  lemma {:induction false} FirstFatal<T>(rs: seq<Result<T, Rv>>, n: nat) returns (i: nat)
    requires n <= |rs| && exists j :: 0 <= j < n && rs[j].Err? && !Skippable(rs[j].error)
    ensures i < n && rs[i].Err? && !Skippable(rs[i].error)
    ensures forall j :: 0 <= j < i ==> rs[j].Ok? || Skippable(rs[j].error)
  {
    if exists j :: 0 <= j < n - 1 && rs[j].Err? && !Skippable(rs[j].error) {
      i := FirstFatal(rs, n - 1);
    } else {
      i := n - 1;
    }
  }

  /// Outcomes come to success exactly when there is a success among them and
  /// every error is one of the two that are skipped. Otherwise the first other
  /// error is returned, and if there is none, whether something could not be
  /// saved.
  lemma CombineExactly<T>(rs: seq<Result<T, Rv>>)
    requires Err(CKR_OK) !in rs
    ensures Combine(rs) == CKR_OK <==>
      && (exists i :: 0 <= i < |rs| && rs[i].Ok?)
      && forall i :: 0 <= i < |rs| && rs[i].Err? ==>
           rs[i].error in {CKR_STATE_UNSAVEABLE, CKR_OPERATION_NOT_INITIALIZED}
    ensures forall i ::
      (&& 0 <= i < |rs| && rs[i].Err? && rs[i].error !in {CKR_STATE_UNSAVEABLE, CKR_OPERATION_NOT_INITIALIZED}
       && forall j :: 0 <= j < i ==> rs[j].Ok? || rs[j].error in {CKR_STATE_UNSAVEABLE, CKR_OPERATION_NOT_INITIALIZED})
      ==> Combine(rs) == rs[i].error
    ensures (forall i :: 0 <= i < |rs| ==>
        rs[i].Err? && rs[i].error in {CKR_STATE_UNSAVEABLE, CKR_OPERATION_NOT_INITIALIZED})
      ==> Combine(rs) ==
            if Err(CKR_STATE_UNSAVEABLE) in rs then CKR_STATE_UNSAVEABLE else CKR_OPERATION_NOT_INITIALIZED
  {
    hide Combine;
    if exists j :: 0 <= j < |rs| && rs[j].Err? && !Skippable(rs[j].error) {
      var k := FirstFatal(rs, |rs|);
      assert rs[k] in rs;
      CombineFails(rs, k);
      forall i | 0 <= i < |rs| && rs[i].Err? && !Skippable(rs[i].error)
        && forall j :: 0 <= j < i ==> rs[j].Ok? || Skippable(rs[j].error)
        ensures i == k
      {
        assert i >= k;
        assert k >= i;
      }
    } else {
      CombineSkips(rs);
    }
  }

  /// The outcomes of one operation: asking for the size, and for the state.
  lemma OutcomesExactly(op: ActiveOp)
    ensures op.NoOp? || op.finalized ==>
      && OpStateSize(op) == Err(CKR_OPERATION_NOT_INITIALIZED)
      && OpStateSave(op) == Err(CKR_OPERATION_NOT_INITIALIZED)
    ensures op.Op? && !op.finalized ==>
      && OpStateSize(op) == op.size
      && (OpStateSave(op).Ok? <==> op.size.Ok? && op.saved.Ok? && op.mech.Ok?)
      && (OpStateSave(op).Ok? ==> OpStateSave(op).value == StateData(op.mech.value, op.saved.value))
      && (op.size.Err? ==> OpStateSave(op).Err? && OpStateSave(op).error == op.size.error)
      && (op.size.Ok? && op.saved.Err? ==> OpStateSave(op).Err? && OpStateSave(op).error == op.saved.error)
      && (op.size.Ok? && op.saved.Ok? && op.mech.Err? ==>
            OpStateSave(op).Err? && OpStateSave(op).error == op.mech.error)
  {
  }

  /// What an operation adds to the announced size.
  function OpSize(op: ActiveOp, o: Overheads): nat {
    if OpStateSize(op).Ok? then o.perOp + OpStateSize(op).value else 0
  }

  function SizeSum(ops: seq<ActiveOp>, o: Overheads): (n: nat)
  {
    if ops == [] then 0
    else
      var n := |ops| - 1;
      SizeSum(ops[..n], o) + OpSize(ops[n], o)
  }

  function Saved(ops: seq<ActiveOp>): (parts: seq<Option<StateData>>)
    ensures |parts| == |ops|
  {
    seq(|ops|, i requires 0 <= i < |ops| => if OpStateSave(ops[i]).Ok? then Some(OpStateSave(ops[i]).value) else None)
  }

  function Sizes(ops: seq<ActiveOp>): seq<Result<nat, Rv>> {
    seq(|ops|, i requires 0 <= i < |ops| => OpStateSize(ops[i]))
  }

  function Saves(ops: seq<ActiveOp>): seq<Result<StateData, Rv>> {
    seq(|ops|, i requires 0 <= i < |ops| => OpStateSave(ops[i]))
  }

  /// No error is reported as success.
  predicate NoOkErrors(op: ActiveOp) {
    op.Op? ==> op.size != Err(CKR_OK) && op.saved != Err(CKR_OK) && op.mech != Err(CKR_OK)
  }

  /// The size a caller is told to provide.
  function StateSizeOutcome(ops: seq<ActiveOp>, o: Overheads): Result<nat, Rv> {
    if Combine(Sizes(ops)) != CKR_OK then Err(Combine(Sizes(ops)))
    else Ok(o.members + o.encryption + SizeSum(ops, o))
  }

  /// What is written for a state that can be saved.
  function Written(ops: seq<ActiveOp>, g: GcmParams, encrypt: seq<u8> -> seq<u8>): seq<u8>
    requires |ops| <= 8
  {
    ProtectedData(g, encrypt(OperationState(1, Saved(ops))))
  }

  class Session {
    const ops: seq<ActiveOp>
    /// Computed once, on first use.
    const overheads: Overheads

    constructor (ops: seq<ActiveOp>)
      requires |ops| == 8 && forall op :: op in ops ==> NoOkErrors(op)
      ensures this.ops == ops && overheads == ComputeOverheads()
    {
      this.ops := ops;
      overheads := ComputeOverheads();
    }

    method StateSize() returns (r: Result<nat, Rv>)
      requires |ops| == 8 && forall op :: op in ops ==> NoOkErrors(op)
      ensures r == StateSizeOutcome(ops, overheads)
    {
      var ret, totalSize := AddSizes(overheads.members + overheads.encryption);
      if ret != CKR_OK {
        return Err(ret);
      }
      return Ok(totalSize);
    }

    /// Adds the sizes of all operations that have one to a fixed amount.
    method AddSizes(fixed: nat) returns (ret: Rv, totalSize: nat)
      requires |ops| == 8 && forall op :: op in ops ==> NoOkErrors(op)
      ensures ret == Combine(Sizes(ops))
      ensures ret == CKR_OK ==> totalSize == fixed + SizeSum(ops, overheads)
    {
      hide Combine, Sizes, SizeSum, OpSize, OpStateSize;
      ret, totalSize := CKR_OPERATION_NOT_INITIALIZED, fixed;
      ghost var sizes := Sizes(ops);
      Beginnings(ops, overheads);
      for i := 0 to |ops|
        invariant ret == Combine(sizes[..i]) && (ret == CKR_OK || Skippable(ret))
        invariant totalSize == fixed + SizeSum(ops[..i], overheads)
      {
        CombineSnoc(sizes, i);
        SizeAt(ops, i, overheads);
        SizeErrors(ops[i]);
        match OpStateSize(ops[i]) {
          case Ok(s) =>
            totalSize := totalSize + overheads.perOp + s;
            ret := CKR_OK;
          case Err(e) =>
            if e == CKR_STATE_UNSAVEABLE {
              if ret != CKR_OK {
                ret := CKR_STATE_UNSAVEABLE;
              }
            } else if e != CKR_OPERATION_NOT_INITIALIZED {
              CombineStops(sizes, i + 1);
              return e, totalSize;
            }
        }
      }
      assert ops[..|ops|] == ops && sizes[..|ops|] == sizes;
    }

    /// The states of all operations that can be saved.
    method CollectStates() returns (ret: Rv, opstate: seq<Option<StateData>>)
      requires |ops| == 8 && forall op :: op in ops ==> NoOkErrors(op)
      ensures ret == Combine(Saves(ops))
      ensures ret == CKR_OK ==> opstate == Saved(ops)
    {
      hide Combine, Saves, Saved, OpStateSave;
      ret, opstate := CKR_OPERATION_NOT_INITIALIZED, [];
      ghost var saves := Saves(ops);
      Beginnings(ops, overheads);
      for i := 0 to |ops|
        invariant ret == Combine(saves[..i]) && (ret == CKR_OK || Skippable(ret))
        invariant opstate == Saved(ops)[..i]
      {
        CombineSnoc(saves, i);
        SaveAt(ops, i);
        SaveErrors(ops[i]);
        match OpStateSave(ops[i]) {
          case Ok(s) =>
            opstate := opstate + [Some(s)];
            ret := CKR_OK;
          case Err(e) =>
            opstate := opstate + [None];
            if e == CKR_STATE_UNSAVEABLE {
              if ret != CKR_OK {
                ret := CKR_STATE_UNSAVEABLE;
              }
            } else if e != CKR_OPERATION_NOT_INITIALIZED {
              CombineStops(saves, i + 1);
              return e, opstate;
            }
        }
      }
      assert saves[..|ops|] == saves;
    }

    /// Collects, encodes, encrypts and wraps the states, then copies the result
    /// out if the caller's buffer can hold it.
    method StateSave(g: GcmParams, encrypt: seq<u8> -> seq<u8>, state: array<u8>) returns (r: Result<nat, Rv>)
      requires |ops| == 8 && forall op :: op in ops ==> NoOkErrors(op)
      modifies state
      ensures Combine(Saves(ops)) != CKR_OK ==> r == Err(Combine(Saves(ops)))
      ensures Combine(Saves(ops)) == CKR_OK ==>
        var der := Written(ops, g, encrypt);
        r == if |der| > state.Length then Err(CKR_GENERAL_ERROR) else Ok(|der|)
      ensures r.Ok? ==> r.value <= state.Length && state[..r.value] == Written(ops, g, encrypt)
      ensures r.Ok? ==> state[r.value..] == old(state[r.value..])
      ensures r.Err? ==> state[..] == old(state[..])
    {
      var ret, opstate := CollectStates();
      if ret != CKR_OK {
        return Err(ret);
      }
      var der := ProtectedData(g, encrypt(OperationState(1, opstate)));
      if |der| > state.Length {
        return Err(CKR_GENERAL_ERROR);
      }
      CopyOut(der, state);
      return Ok(|der|);
    }
  }

  method CopyOut(der: seq<u8>, state: array<u8>)
    requires |der| <= state.Length
    modifies state
    ensures state[..|der|] == der && state[|der|..] == old(state[|der|..])
  {
    for i := 0 to |der|
      invariant state[..i] == der[..i] && state[|der|..] == old(state[|der|..])
    {
      state[i] := der[i];
    }
  }

  lemma SizeSumSnoc(ops: seq<ActiveOp>, i: nat, o: Overheads)
    requires i < |ops|
    ensures SizeSum(ops[..i + 1], o) == SizeSum(ops[..i], o) + OpSize(ops[i], o)
  {
    assert ops[..i + 1][..i] == ops[..i];
  }

  /// Before the first operation nothing has been found.
  lemma Beginnings(ops: seq<ActiveOp>, o: Overheads)
    ensures |Sizes(ops)| == |ops| && |Saves(ops)| == |ops| && SizeSum(ops[..0], o) == 0
    ensures Combine(Sizes(ops)[..0]) == CKR_OPERATION_NOT_INITIALIZED
    ensures Combine(Saves(ops)[..0]) == CKR_OPERATION_NOT_INITIALIZED
  {
  }

  lemma SizeAt(ops: seq<ActiveOp>, i: nat, o: Overheads)
    requires i < |ops| == |Sizes(ops)|
    ensures Sizes(ops)[i] == OpStateSize(ops[i])
    ensures SizeSum(ops[..i + 1], o) ==
      SizeSum(ops[..i], o) + if OpStateSize(ops[i]).Ok? then o.perOp + OpStateSize(ops[i]).value else 0
  {
    SizeSumSnoc(ops, i, o);
  }

  lemma SaveAt(ops: seq<ActiveOp>, i: nat)
    requires i < |ops| == |Saves(ops)|
    ensures Saves(ops)[i] == OpStateSave(ops[i])
    ensures Saved(ops)[..i + 1] ==
      Saved(ops)[..i] + [if OpStateSave(ops[i]).Ok? then Some(OpStateSave(ops[i]).value) else None]
  {
  }

  lemma SizeErrors(op: ActiveOp)
    requires NoOkErrors(op)
    ensures OpStateSize(op) != Err(CKR_OK)
  {
  }

  lemma SaveErrors(op: ActiveOp)
    requires NoOkErrors(op)
    ensures OpStateSave(op) != Err(CKR_OK)
  {
  }

  /// Once an error that is not skipped has been met it stays the outcome.
  lemma {:induction false} CombineStops<T>(rs: seq<Result<T, Rv>>, i: nat)
    requires i <= |rs| && Combine(rs[..i]) != CKR_OK && !Skippable(Combine(rs[..i]))
    ensures Combine(rs) == Combine(rs[..i])
    decreases |rs|
  {
    if i < |rs| {
      assert rs[..|rs| - 1][..i] == rs[..i];
      CombineStops(rs[..|rs| - 1], i);
    } else {
      assert rs[..i] == rs;
    }
  }

  // ----- the announced size is enough

  lemma OverheadValues()
    ensures ComputeOverheads() == Overheads(15, 129, 43)
  {
    UintSize(U64_MAX);
    MaxUint();
    var d := StateData(U64_MAX, []);
    assert |Integer(U64_MAX)| == 11 && |OctetString([])| == 2;
    assert |StateDataContent(d)| == 13;
    UintSize32();
    assert |Integer(U32_MAX)| == 7;
    var parts := seq(8, i => Some(d));
    EqualMembers(parts, d, 8);
    assert parts[..8] == parts;
    assert |Members(parts)| == 120;
    assert |AlgorithmId(GcmParams(seq(12, i => 0), seq(8, i => 0)))| == 39;
  }

  lemma {:induction false} EqualMembers(parts: seq<Option<StateData>>, d: StateData, n: nat)
    requires n <= |parts| <= 8 && forall p :: p in parts ==> p == Some(d)
    requires |StateDataContent(d)| == 13
    ensures |Members(parts[..n])| == 15 * n
  {
    if n > 0 {
      EqualMembers(parts, d, n - 1);
      assert parts[..n][..n - 1] == parts[..n - 1] && parts[n - 1] in parts;
    }
  }

  lemma UintSize(x: u64)
    ensures |UintContent(x)| <= 9 && |Integer(x)| <= 11
  {
    Pow256Values();
    BigEndianLength(x, 8);
  }

  lemma MaxUint()
    ensures |UintContent(U64_MAX)| == 9
  {
    Pow256Values();
    BigEndianLength(U64_MAX, 8);
    assert Pow256(8) == 256 * Pow256(7);
    BigEndianLength(U64_MAX, 7);
    LeadingByte(U64_MAX, 8);
  }

  lemma UintSize32()
    ensures |UintContent(U32_MAX)| == 5
  {
    Pow256Values();
    BigEndianLength(U32_MAX, 4);
    assert Pow256(4) == 256 * Pow256(3);
    BigEndianLength(U32_MAX, 3);
    LeadingByte(U32_MAX, 4);
  }

  /// A number of all ones has 0xff as its first byte.
  lemma {:induction false} LeadingByte(x: nat, k: nat)
    requires k >= 1 && x == Pow256(k) - 1
    ensures ToBigEndian(x) != [] && ToBigEndian(x)[0] == 0xff
  {
    if k == 1 {
      assert Pow256(1) == 256 && x / 256 == 0;
      assert ToBigEndian(x) == ToBigEndian(0) + [0xff];
    } else {
      assert x == 256 * (Pow256(k - 1) - 1) + 255;
      assert x / 256 == Pow256(k - 1) - 1;
      LeadingByte(x / 256, k - 1);
    }
  }

  /// A member takes at most 27 bytes besides its data.
  lemma MemberBound(tag: u8, d: StateData)
    requires |d.data| + 19 < LIMIT
    ensures |Tlv(tag, StateDataContent(d))| <= 27 + |d.data|
  {
    UintSize(d.mech);
    LenOctetsBound(|d.data|);
    LenOctetsBound(|StateDataContent(d)|);
  }

  lemma MembersSnoc(ops: seq<ActiveOp>, i: nat)
    requires i < |ops| <= 8
    ensures
      var save := OpStateSave(ops[i]);
      Members(Saved(ops)[..i + 1]) ==
        Members(Saved(ops)[..i]) + if save.Ok? then Tlv(0xa0 + i, StateDataContent(save.value)) else []
  {
    assert Saved(ops)[..i + 1][..i] == Saved(ops)[..i];
  }

  /// Twelve more bytes than the per-operation overhead cover any member.
  lemma OneMemberBound(op: ActiveOp, o: Overheads, tag: u8)
    requires o.perOp == 15 && Honest(op) && OpSize(op, o) + 4 < LIMIT
    ensures OpStateSave(op).Ok? ==> |Tlv(tag, StateDataContent(OpStateSave(op).value))| <= 12 + OpSize(op, o)
  {
    if OpStateSave(op).Ok? {
      MemberBound(tag, OpStateSave(op).value);
    }
  }

  lemma {:induction false} MembersBound(ops: seq<ActiveOp>, o: Overheads, n: nat)
    requires o.perOp == 15 && n <= |ops| <= 8
    requires forall op :: op in ops ==> Honest(op)
    requires SizeSum(ops[..n], o) + 4 < LIMIT
    ensures |Members(Saved(ops)[..n])| <= 12 * n + SizeSum(ops[..n], o)
  {
    if n > 0 {
      SizeSumSnoc(ops, n - 1, o);
      MembersBound(ops, o, n - 1);
      OneMemberBound(ops[n - 1], o, 0xa0 + n - 1);
      MembersSnoc(ops, n - 1);
      hide Tlv, StateDataContent, Saved, SizeSum, Members, OpSize, Honest;
    }
  }

  /// Any buffer of the announced size holds what is saved, whichever of the
  /// eight operations are active, for announced sizes below 2^48: the branch
  /// for a buffer that is too small is then unreachable.
  lemma AnnouncedSizeSuffices(ops: seq<ActiveOp>, o: Overheads, g: GcmParams, encrypt: seq<u8> -> seq<u8>)
    requires o == ComputeOverheads()
    requires |ops| == 8 && forall op :: op in ops ==> Honest(op)
    requires ValidGcm(g) && forall s :: |encrypt(s)| == |s|
    requires StateSizeOutcome(ops, o).Ok? && StateSizeOutcome(ops, o).value < LIMIT
    ensures |Written(ops, g, encrypt)| <= StateSizeOutcome(ops, o).value
  {
    OverheadValues();
    assert ops[..8] == ops && Saved(ops)[..8] == Saved(ops);
    MembersBound(ops, o, 8);
    WrapBound(Saved(ops), g, encrypt);
  }

  /// What wrapping adds around the members.
  lemma WrapBound(parts: seq<Option<StateData>>, g: GcmParams, encrypt: seq<u8> -> seq<u8>)
    requires |parts| <= 8 && |Members(parts)| + 64 < LIMIT
    requires ValidGcm(g) && forall s :: |encrypt(s)| == |s|
    ensures |ProtectedData(g, encrypt(OperationState(1, parts)))| <= |Members(parts)| + 66
  {
    SmallInteger();
    var data := OperationState(1, parts);
    LenOctetsBound(3 + |Members(parts)|);
    AlgorithmIdSize(g);
    LenOctetsBound(|data|);
    LenOctetsBound(|AlgorithmId(g) + OctetString(encrypt(data))|);
  }

  lemma SmallInteger()
    ensures |Integer(1)| == 3
  {
    assert ToBigEndian(1) == ToBigEndian(0) + [1];
  }

  lemma AlgorithmIdSize(g: GcmParams)
    requires ValidGcm(g)
    ensures |AlgorithmId(g)| == 39
  {
  }

  /// A size is announced exactly when an operation has one and the others are
  /// inactive or cannot be saved.
  lemma AnnouncedWhen(ops: seq<ActiveOp>, o: Overheads)
    requires |ops| == 8 && forall op :: op in ops ==> NoOkErrors(op)
    ensures StateSizeOutcome(ops, o).Ok? <==>
      && (exists i :: 0 <= i < 8 && ops[i].Op? && !ops[i].finalized && ops[i].size.Ok?)
      && forall i :: 0 <= i < 8 && ops[i].Op? && !ops[i].finalized && ops[i].size.Err? ==>
           ops[i].size.error in {CKR_STATE_UNSAVEABLE, CKR_OPERATION_NOT_INITIALIZED}
  {
    hide Combine, ComputeOverheads, SizeSum, OpStateSize;
    SizesExactly(ops);
    CombineExactly(Sizes(ops));
  }

  /// Why no size is announced: the first error that is neither of the two that
  /// are skipped.
  lemma NotAnnouncedBecause(ops: seq<ActiveOp>, o: Overheads, i: nat)
    requires |ops| == 8 && i < 8 && forall op :: op in ops ==> NoOkErrors(op)
    requires ops[i].Op? && !ops[i].finalized && ops[i].size.Err?
    requires ops[i].size.error !in {CKR_STATE_UNSAVEABLE, CKR_OPERATION_NOT_INITIALIZED}
    requires forall j :: 0 <= j < i && ops[j].Op? && !ops[j].finalized && ops[j].size.Err? ==>
      ops[j].size.error in {CKR_STATE_UNSAVEABLE, CKR_OPERATION_NOT_INITIALIZED}
    ensures StateSizeOutcome(ops, o) == Err(ops[i].size.error)
  {
    hide Combine, ComputeOverheads, SizeSum, OpStateSize;
    var rs := Sizes(ops);
    SizesExactly(ops);
    assert rs[i] == ops[i].size && rs[i] in rs;
    CombineFails(rs, i);
  }

  /// Without such an error, that something cannot be saved, or else that
  /// nothing is active.
  lemma NotAnnouncedElse(ops: seq<ActiveOp>, o: Overheads)
    requires |ops| == 8 && forall op :: op in ops ==> NoOkErrors(op)
    requires forall j :: 0 <= j < 8 && ops[j].Op? && !ops[j].finalized ==>
      ops[j].size.Err? && ops[j].size.error in {CKR_STATE_UNSAVEABLE, CKR_OPERATION_NOT_INITIALIZED}
    ensures StateSizeOutcome(ops, o) ==
      if exists j :: 0 <= j < 8 && ops[j].Op? && !ops[j].finalized && ops[j].size.error == CKR_STATE_UNSAVEABLE
      then Err(CKR_STATE_UNSAVEABLE) else Err(CKR_OPERATION_NOT_INITIALIZED)
  {
    hide Combine, ComputeOverheads, SizeSum, OpStateSize;
    var rs := Sizes(ops);
    SizesExactly(ops);
    CombineSkips(rs);
    hide Sizes, NoOkErrors;
    if j :| 0 <= j < 8 && ops[j].Op? && !ops[j].finalized && ops[j].size.error == CKR_STATE_UNSAVEABLE {
      assert rs[j] == Err(CKR_STATE_UNSAVEABLE);
    }
  }

  lemma SizesExactly(ops: seq<ActiveOp>)
    requires forall op :: op in ops ==> NoOkErrors(op)
    ensures |Sizes(ops)| == |ops| && Err(CKR_OK) !in Sizes(ops)
    ensures forall i :: 0 <= i < |ops| ==>
      Sizes(ops)[i] ==
        if ops[i].Op? && !ops[i].finalized then ops[i].size else Err(CKR_OPERATION_NOT_INITIALIZED)
  {
    forall i | 0 <= i < |ops|
      ensures Sizes(ops)[i] == OpStateSize(ops[i]) && OpStateSize(ops[i]) != Err(CKR_OK)
    {
      SizeErrors(ops[i]);
    }
  }

  /// The size announced: 172 bytes and, for each operation that has a state, 15
  /// more than the operation asks for.
  lemma AnnouncedSize(ops: seq<ActiveOp>)
    requires |ops| == 8 && StateSizeOutcome(ops, ComputeOverheads()).Ok?
    ensures
      var part := (op: ActiveOp) => if op.Op? && !op.finalized && op.size.Ok? then 15 + op.size.value else 0;
      StateSizeOutcome(ops, ComputeOverheads()).value ==
        172 + part(ops[0]) + part(ops[1]) + part(ops[2]) + part(ops[3])
        + part(ops[4]) + part(ops[5]) + part(ops[6]) + part(ops[7])
  {
    hide Combine, ComputeOverheads, SizeSum, OpSize;
    var o := ComputeOverheads();
    OverheadValues();
    EightSizes(ops, o);
    PartExactly(ops[0], o);
    PartExactly(ops[1], o);
    PartExactly(ops[2], o);
    PartExactly(ops[3], o);
    PartExactly(ops[4], o);
    PartExactly(ops[5], o);
    PartExactly(ops[6], o);
    PartExactly(ops[7], o);
  }

  lemma PartExactly(op: ActiveOp, o: Overheads)
    ensures OpSize(op, o) == if op.Op? && !op.finalized && op.size.Ok? then o.perOp + op.size.value else 0
  {
  }

  /// A state is written exactly when an operation gives its state and the
  /// others are inactive or cannot be saved. If it is not, the reason is the
  /// first error that is neither of the two that are skipped, else whether
  /// something could not be saved.
  lemma SavedWhen(ops: seq<ActiveOp>, i: nat)
    requires |ops| == 8 && forall op :: op in ops ==> NoOkErrors(op)
    ensures Combine(Saves(ops)) == CKR_OK <==>
      && (exists i :: 0 <= i < 8 && OpStateSave(ops[i]).Ok?)
      && forall i :: 0 <= i < 8 && OpStateSave(ops[i]).Err? ==>
           OpStateSave(ops[i]).error in {CKR_STATE_UNSAVEABLE, CKR_OPERATION_NOT_INITIALIZED}
    ensures
      var fails := (op: ActiveOp) =>
        && OpStateSave(op).Err?
        && OpStateSave(op).error !in {CKR_STATE_UNSAVEABLE, CKR_OPERATION_NOT_INITIALIZED};
      && (i < 8 && fails(ops[i]) && (forall j :: 0 <= j < i ==> !fails(ops[j])) ==>
            Combine(Saves(ops)) == OpStateSave(ops[i]).error)
      && (Combine(Saves(ops)) != CKR_OK && (forall j :: 0 <= j < 8 ==> !fails(ops[j])) ==>
            Combine(Saves(ops)) ==
              (if exists j :: 0 <= j < 8 && OpStateSave(ops[j]) == Err(CKR_STATE_UNSAVEABLE)
               then CKR_STATE_UNSAVEABLE else CKR_OPERATION_NOT_INITIALIZED))
  {
    hide Combine, OpStateSave;
    var rs := Saves(ops);
    forall i | 0 <= i < 8
      ensures rs[i] == OpStateSave(ops[i]) && rs[i] != Err(CKR_OK)
    {
      SaveErrors(ops[i]);
    }
    CombineExactly(rs);
    if j :| 0 <= j < 8 && OpStateSave(ops[j]) == Err(CKR_STATE_UNSAVEABLE) {
      assert rs[j] in rs;
    }
  }

  lemma EightSizes(ops: seq<ActiveOp>, o: Overheads)
    requires |ops| == 8
    ensures SizeSum(ops, o) ==
      OpSize(ops[0], o) + OpSize(ops[1], o) + OpSize(ops[2], o) + OpSize(ops[3], o)
      + OpSize(ops[4], o) + OpSize(ops[5], o) + OpSize(ops[6], o) + OpSize(ops[7], o)
  {
    hide OpSize;
    assert ops[..0] == [] && SizeSum([], o) == 0;
    SizeSumSnoc(ops, 0, o);
    SizeSumSnoc(ops, 1, o);
    SizeSumSnoc(ops, 2, o);
    SizeSumSnoc(ops, 3, o);
    SizeSumSnoc(ops, 4, o);
    SizeSumSnoc(ops, 5, o);
    SizeSumSnoc(ops, 6, o);
    SizeSumSnoc(ops, 7, o);
    assert ops[..8] == ops;
  }

  // ----- where each byte of what is written is

  /// Section 8.1.3 of X.690: one octet below 128, else a count and that many
  /// octets, the most significant first, without a leading zero.
  lemma LenOctetsExactly(n: nat)
    ensures n < 0x80 ==> LenOctets(n) == [n]
    ensures 0x80 <= n < U64_LIMIT ==>
      && 2 <= |LenOctets(n)| <= 9 && LenOctets(n)[0] == 0x80 + |LenOctets(n)| - 1
      && LenOctets(n)[1] != 0 && FromBigEndian(LenOctets(n)[1..]) == n
  {
    BigEndianRoundTrip(n);
    if 0x80 <= n < U64_LIMIT {
      LengthFits(n);
      hide ToBigEndian, FromBigEndian;
      assert LenOctets(n)[1..] == ToBigEndian(n);
    }
  }

  lemma LengthFits(n: nat)
    requires n < U64_LIMIT
    ensures |ToBigEndian(n)| <= 8
  {
    Pow256Values();
    BigEndianLength(n, 8);
  }

  /// Section 8.3 of X.690: a number is not negative when read back, is itself,
  /// and takes no more octets than needed.
  lemma UintContentExactly(x: nat)
    ensures UintContent(x) != [] && UintContent(x)[0] < 0x80 && FromBigEndian(UintContent(x)) == x
    ensures |UintContent(x)| > 1 && UintContent(x)[0] == 0 ==> UintContent(x)[1] >= 0x80
  {
    BigEndianRoundTrip(x);
    LeadingZero(ToBigEndian(x));
  }

  lemma {:induction false} LeadingZero(s: seq<u8>)
    ensures FromBigEndian([0] + s) == FromBigEndian(s)
  {
    var t: seq<u8> := [0] + s;
    if s == [] {
      assert t[..|t| - 1] == [] && FromBigEndian([]) == 0;
    } else {
      LeadingZero(s[..|s| - 1]);
      assert t[..|t| - 1] == [0] + s[..|s| - 1];
    }
  }

  lemma TlvExactly(tag: u8, content: seq<u8>)
    ensures var n := |LenOctets(|content|)|;
      && |Tlv(tag, content)| == 1 + n + |content|
      && Tlv(tag, content)[0] == tag && Tlv(tag, content)[1..1 + n] == LenOctets(|content|)
      && Tlv(tag, content)[1 + n..] == content
  {
  }

  /// One member: a mechanism number and an octet string under the member's own
  /// tag.
  ghost predicate MemberIs(part: Option<StateData>, tag: u8, s: seq<u8>) {
    match part
    case None => s == []
    case Some(d) => s == Tlv(tag, Tlv(0x02, UintContent(d.mech)) + Tlv(0x04, d.data))
  }

  /// What is encrypted: version 1, then the members that are present, tagged
  /// 0xa0 to 0xa7 in the order of the operations.
  lemma PlainExactly(parts: seq<Option<StateData>>, m: seq<seq<u8>>)
    requires |parts| == 8 && |m| == 8
    requires forall i :: 0 <= i < 8 ==> MemberIs(parts[i], 0xa0 + i, m[i])
    ensures OperationState(1, parts) ==
      Tlv(0x30, [0x02, 0x01, 0x01] + (m[0] + m[1] + m[2] + m[3] + m[4] + m[5] + m[6] + m[7]))
  {
    hide Tlv, LenOctets, UintContent, Members;
    EightMembers(parts, m);
    VersionOne();
  }

  lemma EightMembers(parts: seq<Option<StateData>>, m: seq<seq<u8>>)
    requires |parts| == 8 && |m| == 8
    requires forall i :: 0 <= i < 8 ==> MemberIs(parts[i], 0xa0 + i, m[i])
    ensures Members(parts) == m[0] + m[1] + m[2] + m[3] + m[4] + m[5] + m[6] + m[7]
  {
    hide MemberIs, Members;
    FirstMember(parts, m);
    MembersStep(parts, m, 1);
    MembersStep(parts, m, 2);
    MembersStep(parts, m, 3);
    MembersStep(parts, m, 4);
    MembersStep(parts, m, 5);
    MembersStep(parts, m, 6);
    MembersStep(parts, m, 7);
    assert parts[..8] == parts;
  }

  lemma FirstMember(parts: seq<Option<StateData>>, m: seq<seq<u8>>)
    requires 0 < |parts| <= 8 && |m| == |parts| && MemberIs(parts[0], 0xa0, m[0])
    ensures Members(parts[..1]) == m[0]
  {
    assert parts[..1][..0] == [];
    assert [] + m[0] == m[0];
  }

  lemma VersionOne()
    ensures Integer(1) == [0x02, 0x01, 0x01]
  {
    assert ToBigEndian(1) == ToBigEndian(0) + [1];
  }

  lemma MembersStep(parts: seq<Option<StateData>>, m: seq<seq<u8>>, i: nat)
    requires i < |parts| <= 8 && |m| == |parts| && MemberIs(parts[i], 0xa0 + i, m[i])
    ensures Members(parts[..i + 1]) == Members(parts[..i]) + m[i]
  {
    assert parts[..i + 1][..i] == parts[..i];
  }

  /// What is wrapped around it: the identifier of AES-256-GCM with its
  /// parameters, and the encrypted state.
  lemma WrittenBytes(ops: seq<ActiveOp>, g: GcmParams, encrypt: seq<u8> -> seq<u8>)
    requires |ops| <= 8
    ensures Written(ops, g, encrypt) ==
      Tlv(0x30, Tlv(0x30, Tlv(0x06, [0x60, 0x86, 0x48, 0x01, 0x65, 0x03, 0x04, 0x01, 0x2e])
                          + Tlv(0x30, Tlv(0x04, g.iv) + Tlv(0x04, g.tag)))
                + Tlv(0x04, encrypt(OperationState(1, Saved(ops)))))
    ensures |Saved(ops)| == |ops| && forall i :: 0 <= i < |ops| ==>
      if OpStateSave(ops[i]).Ok? then Saved(ops)[i] == Some(OpStateSave(ops[i]).value) else Saved(ops)[i] == None
  {
    hide Tlv;
  }

  // ----- what is written can be told apart

  /// The number of a length encoding is known from its first octets, whatever
  /// follows.
  lemma LenOctetsPrefix(n: nat, m: nat, r: seq<u8>, q: seq<u8>)
    requires n < U64_LIMIT && m < U64_LIMIT && LenOctets(n) + r == LenOctets(m) + q
    ensures n == m && r == q
  {
    var s := LenOctets(n) + r;
    LenOctetsExactly(n);
    LenOctetsExactly(m);
    assert s[0] == LenOctets(n)[0] == LenOctets(m)[0];
    assert |LenOctets(n)| == |LenOctets(m)|;
    SamePrefix(LenOctets(n), LenOctets(m), r, q);
  }

  lemma SamePrefix<T>(a: seq<T>, b: seq<T>, r: seq<T>, q: seq<T>)
    requires |a| == |b| && a + r == b + q
    ensures a == b && r == q
  {
    assert (a + r)[..|a|] == a && (b + q)[..|b|] == b;
    assert (a + r)[|a|..] == r && (b + q)[|b|..] == q;
  }

  /// So an encoding and what follows it can be told apart.
  lemma TlvPrefix(tag: u8, c: seq<u8>, r: seq<u8>, tag2: u8, c2: seq<u8>, q: seq<u8>)
    requires |c| < U64_LIMIT && |c2| < U64_LIMIT && Tlv(tag, c) + r == Tlv(tag2, c2) + q
    ensures tag == tag2 && c == c2 && r == q
  {
    hide LenOctets;
    assert Tlv(tag, c) + r == [tag] + (LenOctets(|c|) + (c + r));
    assert Tlv(tag2, c2) + q == [tag2] + (LenOctets(|c2|) + (c2 + q));
    SamePrefix([tag], [tag2], LenOctets(|c|) + (c + r), LenOctets(|c2|) + (c2 + q));
    LenOctetsPrefix(|c|, |c2|, c + r, c2 + q);
    SamePrefix(c, c2, r, q);
  }

  lemma TlvDetermines(tag: u8, c: seq<u8>, c2: seq<u8>)
    requires |c| < U64_LIMIT && |c2| < U64_LIMIT && Tlv(tag, c) == Tlv(tag, c2)
    ensures c == c2
  {
    assert Tlv(tag, c) + [] == Tlv(tag, c2) + [];
    TlvPrefix(tag, c, [], tag, c2, []);
  }

  lemma StateDataDetermines(d: StateData, e: StateData)
    requires StateDataContent(d) == StateDataContent(e) && |StateDataContent(d)| < U64_LIMIT
    ensures d == e
  {
    hide Tlv, UintContent;
    UintContentExactly(d.mech);
    UintContentExactly(e.mech);
    TlvPrefix(0x02, UintContent(d.mech), OctetString(d.data), 0x02, UintContent(e.mech), OctetString(e.data));
    TlvDetermines(0x04, d.data, e.data);
  }

  /// The members from the i-th on, from the front.
  function MembersFrom(parts: seq<Option<StateData>>, i: nat): (s: seq<u8>)
    requires i <= |parts| <= 8
    ensures s != [] ==> s[0] >= 0xa0 + i
    decreases |parts| - i
  {
    if i == |parts| then []
    else
      (if parts[i].Some? then Tlv(0xa0 + i, StateDataContent(parts[i].value)) else []) + MembersFrom(parts, i + 1)
  }

  lemma {:induction false} MembersSplit(parts: seq<Option<StateData>>, i: nat)
    requires i <= |parts| <= 8
    ensures Members(parts[..i]) + MembersFrom(parts, i) == Members(parts)
    decreases |parts| - i
  {
    if i == |parts| {
      assert parts[..i] == parts;
    } else {
      MembersSplit(parts, i + 1);
      OneMember(parts, i);
    }
    hide Members;
  }

  lemma OneMember(parts: seq<Option<StateData>>, i: nat)
    requires i < |parts| <= 8
    ensures Members(parts[..i]) + MembersFrom(parts, i) == Members(parts[..i + 1]) + MembersFrom(parts, i + 1)
  {
    hide Tlv, StateDataContent;
    assert parts[..i + 1][..i] == parts[..i];
    Regroup(Members(parts[..i]),
            if parts[i].Some? then Tlv(0xa0 + i, StateDataContent(parts[i].value)) else [], MembersFrom(parts, i + 1));
  }

  lemma Regroup<T>(a: seq<T>, b: seq<T>, c: seq<T>)
    ensures a + (b + c) == (a + b) + c
  {
  }

  lemma {:induction false} MembersDetermine(a: seq<Option<StateData>>, b: seq<Option<StateData>>, i: nat)
    requires i <= |a| == |b| <= 8 && MembersFrom(a, i) == MembersFrom(b, i) && |MembersFrom(a, i)| < U64_LIMIT
    ensures forall j :: i <= j < |a| ==> a[j] == b[j]
    decreases |a| - i
  {
    hide *;
    if i < |a| {
      FirstDetermines(a, b, i);
      MembersDetermine(a, b, i + 1);
    }
  }

  lemma FirstDetermines(a: seq<Option<StateData>>, b: seq<Option<StateData>>, i: nat)
    requires i < |a| == |b| <= 8 && MembersFrom(a, i) == MembersFrom(b, i) && |MembersFrom(a, i)| < U64_LIMIT
    ensures a[i] == b[i] && MembersFrom(a, i + 1) == MembersFrom(b, i + 1)
    ensures |MembersFrom(a, i + 1)| < U64_LIMIT
  {
    TagFirst(a, b, i);
    hide Tlv, StateDataContent;
    if a[i].Some? {
      var ca, cb := StateDataContent(a[i].value), StateDataContent(b[i].value);
      TlvPrefix(0xa0 + i, ca, MembersFrom(a, i + 1), 0xa0 + i, cb, MembersFrom(b, i + 1));
      StateDataDetermines(a[i].value, b[i].value);
    } else {
      assert MembersFrom(a, i) == [] + MembersFrom(a, i + 1) == MembersFrom(a, i + 1);
      assert MembersFrom(b, i) == [] + MembersFrom(b, i + 1) == MembersFrom(b, i + 1);
    }
  }

  /// A member that is there on one side only shows in the first tag.
  lemma TagFirst(a: seq<Option<StateData>>, b: seq<Option<StateData>>, i: nat)
    requires i < |a| == |b| <= 8 && MembersFrom(a, i) == MembersFrom(b, i)
    ensures a[i].Some? == b[i].Some?
  {
  }

  /// What is encrypted says which operations were saved and all that each of
  /// them gave: no two different sets of states are written alike.
  lemma PlainDetermines(a: seq<Option<StateData>>, b: seq<Option<StateData>>)
    requires |a| == |b| <= 8 && OperationState(1, a) == OperationState(1, b)
    requires |Members(a)| + 3 < U64_LIMIT && |Members(b)| + 3 < U64_LIMIT
    ensures a == b
  {
    hide Tlv, Members, MembersFrom;
    SmallInteger();
    TlvDetermines(0x30, Integer(1) + Members(a), Integer(1) + Members(b));
    SamePrefix(Integer(1), Integer(1), Members(a), Members(b));
    MembersSplit(a, 0);
    MembersSplit(b, 0);
    NoMembers(a);
    NoMembers(b);
    MembersDetermine(a, b, 0);
  }

  lemma NoMembers(parts: seq<Option<StateData>>)
    requires |parts| <= 8
    ensures Members(parts[..0]) + MembersFrom(parts, 0) == MembersFrom(parts, 0)
  {
    assert parts[..0] == [] && Members([]) == [];
  }

  // ----- exactly how much is written

  function ByteCount(n: nat): nat {
    if n == 0 then 0 else 1 + ByteCount(n / 256)
  }

  lemma {:induction false} BigEndianSize(n: nat)
    ensures |ToBigEndian(n)| == ByteCount(n)
  {
    if n > 0 {
      BigEndianSize(n / 256);
    }
  }

  /// The size of an encoding with n content bytes.
  function DerSize(n: nat): nat {
    1 + (if n < 0x80 then 1 else 1 + ByteCount(n)) + n
  }

  lemma TlvSize(tag: u8, content: seq<u8>)
    ensures |Tlv(tag, content)| == DerSize(|content|)
  {
    BigEndianSize(|content|);
  }

  /// The lengths that matter of a state: of its mechanism number and its data.
  datatype Lengths = Lengths(mech: nat, data: nat)

  function LengthsOf(part: Option<StateData>): Option<Lengths> {
    match part
    case None => None
    case Some(d) => Some(Lengths(|UintContent(d.mech)|, |d.data|))
  }

  function AllLengths(parts: seq<Option<StateData>>): seq<Option<Lengths>> {
    if parts == [] then [] else AllLengths(parts[..|parts| - 1]) + [LengthsOf(parts[|parts| - 1])]
  }

  function MembersSize(ls: seq<Option<Lengths>>): nat {
    if ls == [] then 0
    else
      MembersSize(ls[..|ls| - 1]) +
      match ls[|ls| - 1]
      case None => 0
      case Some(l) => DerSize(DerSize(l.mech) + DerSize(l.data))
  }

  /// The whole output: version, members, encryption parameters and wrapping.
  function WrittenSize(ls: seq<Option<Lengths>>): nat {
    DerSize(39 + DerSize(DerSize(3 + MembersSize(ls))))
  }

  lemma {:induction false} MembersExactly(parts: seq<Option<StateData>>)
    requires |parts| <= 8
    ensures |Members(parts)| == MembersSize(AllLengths(parts))
  {
    if parts != [] {
      var n := |parts| - 1;
      MembersExactly(parts[..n]);
      assert AllLengths(parts)[..|AllLengths(parts)| - 1] == AllLengths(parts[..n]);
      if parts[n].Some? {
        var d := parts[n].value;
        TlvSize(0x02, UintContent(d.mech));
        TlvSize(0x04, d.data);
        TlvSize(0xa0 + n, StateDataContent(d));
      }
    }
  }

  /// What is written has a size that depends on the lengths alone, so that a
  /// buffer of any size is big enough exactly when this size is not larger.
  lemma WrittenExactly(ops: seq<ActiveOp>, g: GcmParams, encrypt: seq<u8> -> seq<u8>)
    requires |ops| <= 8 && ValidGcm(g) && forall s :: |encrypt(s)| == |s|
    ensures |Written(ops, g, encrypt)| == WrittenSize(AllLengths(Saved(ops)))
  {
    var parts := Saved(ops);
    MembersExactly(parts);
    SmallInteger();
    TlvSize(0x30, Integer(1) + Members(parts));
    var secret := encrypt(OperationState(1, parts));
    TlvSize(0x04, secret);
    AlgorithmIdSize(g);
    TlvSize(0x30, AlgorithmId(g) + OctetString(secret));
  }
}
