/// Merging slot configurations given at initialization (src/config.rs).
module Config {
  import opened Bytes
  import opened Common

  /// A slot's configuration. The number u32::MAX means not numbered yet.
  datatype Slot = Slot(
    slot: u32,
    description: Option<string>,
    manufacturer: Option<string>,
    dbtype: Option<string>,
    dbargs: Option<string>,
    mechanisms: Option<seq<string>>)

  predicate Unnumbered(s: Slot) { s.slot == U32_MAX }

  /// Two slots share their storage.
  predicate SameDb(a: Slot, b: Slot) { a.dbtype == b.dbtype && a.dbargs == b.dbargs }

  // ----- the specification

  /// Compares one new slot with those already loaded: an error, or the new
  /// slot, perhaps renumbered, and whether it was found.
  function Scan(slots: seq<Slot>, c: Slot, found: bool): (r: Result<(Slot, bool), Rv>)
  {
    if slots == [] then Ok((c, found))
    else
      var s, rest := slots[0], slots[1..];
      if Unnumbered(c) then
        if SameDb(s, c) then Scan(rest, c.(slot := s.slot), true) else Scan(rest, c, found)
      else if c.slot != s.slot then
        if SameDb(s, c) then Err(CKR_ARGUMENTS_BAD) else Scan(rest, c, found)
      else if !SameDb(s, c) then Err(CKR_ARGUMENTS_BAD)
      else Scan(rest, c, true)
  }

  /// Adds new slots in order, stopping at the first that is refused.
  function AddAll(slots: seq<Slot>, conf: seq<Slot>): (r: (seq<Slot>, bool))
    decreases |conf|
  {
    if conf == [] then (slots, true)
    else match Scan(slots, conf[0], false)
      case Err(_) => (slots, false)
      case Ok((c, found)) => AddAll(if found then slots else slots + [c], conf[1..])
  }

  /// One past the highest number in use, or 0.
  function FirstFree(slots: seq<Slot>): (n: u32)
    ensures forall s :: s in slots && !Unnumbered(s) ==> s.slot < n
  {
    if slots == [] then 0
    else
      var n, s := FirstFree(slots[..|slots| - 1]), slots[|slots| - 1];
      if !Unnumbered(s) && n <= s.slot then s.slot + 1 else n
  }

  function MissingCount(slots: seq<Slot>): (n: nat)
    ensures n == 0 <==> forall s :: s in slots ==> !Unnumbered(s)
  {
    if slots == [] then 0 else MissingCount(slots[1..]) + if Unnumbered(slots[0]) then 1 else 0
  }

  /// 32-bit increment, with wrap-around.
  function Inc(n: u32): u32 { if n == U32_MAX then 0 else n + 1 }

  /// Numbers the unnumbered slots from next on.
  function Renumber(slots: seq<Slot>, next: u32): (r: seq<Slot>)
    ensures |r| == |slots|
  {
    if slots == [] then []
    else if Unnumbered(slots[0]) then [slots[0].(slot := next)] + Renumber(slots[1..], Inc(next))
    else [slots[0]] + Renumber(slots[1..], next)
  }

  function FixNumbers(slots: seq<Slot>): (r: seq<Slot>)
    ensures |r| == |slots|
  {
    if MissingCount(slots) > 0 then Renumber(slots, FirstFree(slots)) else slots
  }

  /// What a call with an already parsed configuration leaves behind.
  function Init(slots: seq<Slot>, conf: seq<Slot>): (r: (seq<Slot>, bool))
  {
    var (added, ok) := AddAll(slots, conf);
    (if ok then FixNumbers(added) else added, ok)
  }

  // ----- the code

  class Config {
    var slots: seq<Slot>

    constructor ()
      ensures slots == []
    {
      slots := [];
    }

    /// Allocates numbers after the highest one in use.
    method FixSlotNumbers()
      modifies this
      ensures slots == FixNumbers(old(slots))
    {
      var slotnum, missing := HighestNumber();
      if missing {
        AssignNumbers(slotnum);
      }
    }

    /// The first pass: the number to start from, and whether any is missing.
    method HighestNumber() returns (slotnum: u32, missing: bool)
      ensures slotnum == FirstFree(slots)
      ensures missing <==> MissingCount(slots) > 0
    {
      slotnum, missing := 0, false;
      for i := 0 to |slots|
        invariant slotnum == FirstFree(slots[..i])
        invariant missing <==> exists j :: 0 <= j < i && Unnumbered(slots[j])
      {
        assert slots[..i + 1][..i] == slots[..i];
        if slots[i].slot != U32_MAX {
          if slotnum <= slots[i].slot {
            slotnum := slots[i].slot + 1;
          }
        } else {
          missing := true;
        }
      }
      assert slots[..|slots|] == slots;
    }

    /// The second pass, updating slots in place.
    method AssignNumbers(start: u32)
      modifies this
      ensures slots == Renumber(old(slots), start)
    {
      var slotnum := start;
      ghost var before := slots;
      assert slots[..0] + Renumber(slots[0..], start) == Renumber(slots, start) by { assert slots[0..] == slots; }
      for i := 0 to |slots|
        invariant |slots| == |before| && slots[i..] == before[i..]
        invariant slots[..i] + Renumber(before[i..], slotnum) == Renumber(before, start)
      {
        AssignStep(before, slots, i, slotnum, start);
        if slots[i].slot == U32_MAX {
          slots := slots[i := slots[i].(slot := slotnum)];
          slotnum := Inc(slotnum);
        }
      }
      assert slots[..|slots|] + [] == slots;
    }

    /// Checks one new slot against the loaded ones.
    method CheckSlot(c: Slot) returns (r: Result<(Slot, bool), Rv>)
      ensures r == Scan(slots, c, false)
    {
      var slot, found := c, false;
      assert slots[0..] == slots;
      for i := 0 to |slots|
        invariant Scan(slots, c, false) == Scan(slots[i..], slot, found)
      {
        var s := slots[i];
        assert slots[i..][1..] == slots[i + 1..];
        if slot.slot == U32_MAX {
          if s.dbtype == slot.dbtype && s.dbargs == slot.dbargs {
            found := true;
            slot := slot.(slot := s.slot);
          }
        } else {
          if slot.slot != s.slot {
            if s.dbtype == slot.dbtype && s.dbargs == slot.dbargs {
              return Err(CKR_ARGUMENTS_BAD);
            }
          } else {
            if s.dbtype != slot.dbtype {
              return Err(CKR_ARGUMENTS_BAD);
            }
            if s.dbargs != slot.dbargs {
              return Err(CKR_ARGUMENTS_BAD);
            }
            found := true;
          }
        }
      }
      return Ok((slot, found));
    }

    /// Merges a parsed configuration. A refused slot ends the call at once,
    /// leaving those before it added and possibly unnumbered.
    method FromInitArgs(parsed: Result<seq<Slot>, Rv>) returns (r: Result<(), Rv>)
      modifies this
      ensures parsed.Err? ==> r == Err(parsed.error) && slots == old(slots)
      ensures parsed.Ok? ==>
        slots == Init(old(slots), parsed.value).0 && (r.Ok? <==> Init(old(slots), parsed.value).1)
      ensures parsed.Ok? && r.Err? ==> r.error == CKR_ARGUMENTS_BAD
    {
      if parsed.Err? {
        return Err(parsed.error);
      }
      var conf := parsed.value;
      assert conf[0..] == conf;
      for i := 0 to |conf|
        invariant AddAll(old(slots), conf) == AddAll(slots, conf[i..])
      {
        assert conf[i..][1..] == conf[i + 1..];
        var checked := CheckSlot(conf[i]);
        if checked.Err? {
          assert checked.error == CKR_ARGUMENTS_BAD by { ScanError(slots, conf[i], false); }
          return Err(checked.error);
        }
        var (slot, found) := checked.value;
        if !found {
          slots := slots + [slot];
        }
      }
      FixSlotNumbers();
      return Ok(());
    }
  }

  /// One slot of the second pass.
  lemma AssignStep(before: seq<Slot>, slots: seq<Slot>, i: nat, next: u32, start: u32)
    requires i < |slots| == |before| && slots[i..] == before[i..]
    requires slots[..i] + Renumber(before[i..], next) == Renumber(before, start)
    ensures
      var missing := Unnumbered(slots[i]);
      var after := if missing then slots[i := slots[i].(slot := next)] else slots;
      && after[i + 1..] == before[i + 1..]
      && after[..i + 1] + Renumber(before[i + 1..], if missing then Inc(next) else next) == Renumber(before, start)
  {
    assert slots[i] == slots[i..][0] == before[i..][0];
    assert before[i..][1..] == before[i + 1..] && slots[i..][1..] == slots[i + 1..];
    var after := if Unnumbered(slots[i]) then slots[i := slots[i].(slot := next)] else slots;
    assert after[..i + 1] == slots[..i] + [after[i]];
  }

  lemma ScanError(slots: seq<Slot>, c: Slot, found: bool)
    ensures Scan(slots, c, found).Err? ==> Scan(slots, c, found).error == CKR_ARGUMENTS_BAD
  {
  }

  // ----- the invariants

  ghost predicate UniqueNumbers(slots: seq<Slot>) {
    forall i, j :: 0 <= i < j < |slots| && !Unnumbered(slots[i]) ==> slots[i].slot != slots[j].slot
  }

  ghost predicate UniqueDbs(slots: seq<Slot>) {
    forall i, j :: 0 <= i < j < |slots| ==> !SameDb(slots[i], slots[j])
  }

  /// Kept by every call, successful or not.
  ghost predicate Consistent(slots: seq<Slot>) { UniqueNumbers(slots) && UniqueDbs(slots) }

  /// Reached by every successful call: also, every slot has a number.
  ghost predicate Complete(slots: seq<Slot>) {
    Consistent(slots) && forall s :: s in slots ==> !Unnumbered(s)
  }

  /// The numbers needed are available below u32::MAX.
  predicate Fits(slots: seq<Slot>) { FirstFree(slots) + MissingCount(slots) <= U32_MAX }

  /// What scanning decides, on consistent slots: an unnumbered slot is found
  /// exactly when its storage is loaded; a numbered one is refused when its
  /// number and its storage are not both on the same slot, and found when
  /// they are.
  lemma {:induction false} ScanMeaning(slots: seq<Slot>, c: Slot, found: bool)
    requires Consistent(slots)
    ensures Unnumbered(c) && (exists s :: s in slots && SameDb(s, c)) ==>
      exists s :: s in slots && SameDb(s, c) && Scan(slots, c, found) == Ok((c.(slot := s.slot), true))
    ensures Unnumbered(c) && (forall s :: s in slots ==> !SameDb(s, c)) ==> Scan(slots, c, found) == Ok((c, found))
    ensures !Unnumbered(c) ==>
      (Scan(slots, c, found).Ok? <==> forall s :: s in slots ==> (s.slot == c.slot <==> SameDb(s, c)))
    ensures !Unnumbered(c) && Scan(slots, c, found).Ok? ==>
      Scan(slots, c, found) == Ok((c, found || exists s :: s in slots && s.slot == c.slot))
  {
    if slots != [] {
      var s, rest := slots[0], slots[1..];
      assert slots == [s] + rest;
      assert Consistent(rest) by {
        assert forall i :: 0 <= i < |rest| ==> rest[i] == slots[i + 1];
      }
      assert forall t :: t in rest ==> !SameDb(s, t) && (!Unnumbered(s) ==> s.slot != t.slot);
      ScanMeaning(rest, c, found);
      ScanMeaning(rest, c, true);
      ScanMeaning(rest, c.(slot := s.slot), true);
    }
  }

  /// Adding slots keeps numbers and storages unique and keeps what was there.
  lemma {:induction false} AddAllKeepsConsistent(slots: seq<Slot>, conf: seq<Slot>)
    requires Consistent(slots)
    ensures Consistent(AddAll(slots, conf).0) && slots <= AddAll(slots, conf).0
    decreases |conf|
  {
    if conf != [] {
      var scan := Scan(slots, conf[0], false);
      ScanMeaning(slots, conf[0], false);
      if scan.Ok? {
        var (c, found) := scan.value;
        if found {
          AddAllKeepsConsistent(slots, conf[1..]);
        } else {
          AddAllKeepsConsistent(slots + [c], conf[1..]);
        }
      }
    }
  }

  lemma SlotFacts(a: Slot, b: Slot)
    ensures Unnumbered(a) <==> a.slot == 0xFFFF_FFFF
    ensures SameDb(a, b) <==> a.dbtype == b.dbtype && a.dbargs == b.dbargs
  {
  }

  /// What one more slot adds to a configuration, if none before it was refused:
  /// itself when its storage is not loaded. One with a number is refused when
  /// its number or its storage, but not both, is that of some slot.
  lemma AddAllOneMore(slots: seq<Slot>, conf: seq<Slot>, c: Slot)
    requires Consistent(slots)
    ensures AddAll(slots, []) == (slots, true)
    ensures
      var (added, ok) := AddAll(slots, conf);
      var loaded := exists s :: s in added && SameDb(s, c);
      var clash := c.slot != 0xFFFF_FFFF && !forall s :: s in added ==> (s.slot == c.slot <==> SameDb(s, c));
      AddAll(slots, conf + [c]) ==
        if !ok || clash then (added, false)
        else if loaded then (added, true)
        else (added + [c], true)
  {
    AddAllSplit(slots, conf, c);
    AddAllKeepsConsistent(slots, conf);
    var (added, ok) := AddAll(slots, conf);
    ScanMeaning(added, c, false);
    assert AddAll(added, [c]) ==
      match Scan(added, c, false)
      case Err(_) => (added, false)
      case Ok((c', found)) => (if found then added else added + [c'], true);
  }

  lemma {:induction false} AddAllSplit(slots: seq<Slot>, conf: seq<Slot>, c: Slot)
    ensures AddAll(slots, conf + [c]) ==
      if AddAll(slots, conf).1 then AddAll(AddAll(slots, conf).0, [c]) else AddAll(slots, conf)
    decreases |conf|
  {
    if conf == [] {
      assert conf + [c] == [c];
    } else {
      assert (conf + [c])[1..] == conf[1..] + [c] && (conf + [c])[0] == conf[0];
      var scan := Scan(slots, conf[0], false);
      if scan.Ok? {
        AddAllSplit(if scan.value.1 then slots else slots + [scan.value.0], conf[1..], c);
      }
    }
  }

  /// A refused call leaves the slots added so far as they are; one that goes
  /// through numbers them.
  lemma InitExactly(slots: seq<Slot>, conf: seq<Slot>)
    ensures Init(slots, conf).1 == AddAll(slots, conf).1
    ensures Init(slots, conf).0 == if AddAll(slots, conf).1 then FixNumbers(AddAll(slots, conf).0)
                                   else AddAll(slots, conf).0
  {
  }

  // ----- numbering

  /// Renumbering touches only numbers that were missing.
  lemma {:induction false} RenumberKeeps(slots: seq<Slot>, next: u32, i: nat)
    requires i < |slots|
    ensures Renumber(slots, next)[i] == slots[i].(slot := Renumber(slots, next)[i].slot)
    ensures !Unnumbered(slots[i]) ==> Renumber(slots, next)[i] == slots[i]
  {
    if i > 0 {
      RenumberKeeps(slots[1..], if Unnumbered(slots[0]) then Inc(next) else next, i - 1);
    }
  }

  /// When the numbers suffice, each missing one becomes the next plus the
  /// count of missing ones before it.
  lemma {:induction false} RenumberValues(slots: seq<Slot>, next: u32, i: nat)
    requires i < |slots| && Unnumbered(slots[i])
    requires next + MissingCount(slots) <= U32_MAX
    ensures Renumber(slots, next)[i].slot == next + MissingCount(slots[..i])
    ensures MissingCount(slots[..i]) < MissingCount(slots)
  {
    if i == 0 {
      assert slots[..0] == [];
    } else {
      assert slots[..i][1..] == slots[1..][..i - 1];
      RenumberValues(slots[1..], if Unnumbered(slots[0]) then Inc(next) else next, i - 1);
    }
  }

  lemma {:induction false} MissingCountGrows(slots: seq<Slot>, i: nat, j: nat)
    requires i < j <= |slots| && Unnumbered(slots[i])
    ensures MissingCount(slots[..i]) < MissingCount(slots[..j])
  {
    if i == 0 {
      assert slots[..j][0] == slots[0] && slots[..0] == [];
    } else {
      assert slots[..i][1..] == slots[1..][..i - 1] && slots[..j][1..] == slots[1..][..j - 1];
      MissingCountGrows(slots[1..], i - 1, j - 1);
    }
  }

  function Wrapped(n: nat): u32 { n % 0x1_0000_0000 }

  lemma WrapExactly(n: u32, k: nat)
    ensures Inc(n) == (n + 1) % 0x1_0000_0000
    ensures k < 0x1_0000_0000 ==> Wrapped(k) == k && Wrapped(k + 0x1_0000_0000) == k
  {
  }

  /// Whether they suffice or not: the numbers go round past u32::MAX.
  lemma {:induction false} RenumberWraps(slots: seq<Slot>, next: u32, i: nat)
    requires i < |slots| && slots[i].slot == 0xFFFF_FFFF
    ensures Renumber(slots, next)[i].slot == Wrapped(next + MissingCount(slots[..i]))
  {
    if i == 0 {
      assert slots[..0] == [];
    } else {
      assert slots[..i][1..] == slots[1..][..i - 1];
      RenumberWraps(slots[1..], if Unnumbered(slots[0]) then Inc(next) else next, i - 1);
    }
  }

  /// The places of those of the first n slots that have no number.
  function MissingPlaces(slots: seq<Slot>, n: nat): set<nat>
    requires n <= |slots|
  {
    set j: nat | j < n && slots[j].slot == 0xFFFF_FFFF
  }

  lemma {:induction false} MissingCountExactly(slots: seq<Slot>, n: nat)
    requires n <= |slots|
    ensures MissingCount(slots[..n]) == |MissingPlaces(slots, n)|
  {
    if n == 0 {
      assert MissingPlaces(slots, 0) == {};
    } else {
      MissingCountExactly(slots, n - 1);
      MissingSnoc(slots, n - 1);
      OneMorePlace(slots, n - 1);
    }
    hide MissingPlaces, MissingCount;
  }

  lemma OneMorePlace(slots: seq<Slot>, n: nat)
    requires n < |slots|
    ensures |MissingPlaces(slots, n + 1)| == |MissingPlaces(slots, n)| + if Unnumbered(slots[n]) then 1 else 0
  {
    assert MissingPlaces(slots, n + 1) == MissingPlaces(slots, n) + if Unnumbered(slots[n]) then {n} else {};
  }

  lemma {:induction false} MissingSnoc(slots: seq<Slot>, n: nat)
    requires n < |slots|
    ensures MissingCount(slots[..n + 1]) == MissingCount(slots[..n]) + if Unnumbered(slots[n]) then 1 else 0
  {
    if n == 0 {
      assert slots[..1][1..] == [] && slots[..0] == [];
    } else {
      MissingSnoc(slots[1..], n - 1);
      assert slots[..n + 1][1..] == slots[1..][..n] && slots[..n][1..] == slots[1..][..n - 1];
    }
  }

  /// The first free number: 0 when no slot has one, else one past the highest.
  lemma {:induction false} FirstFreeExactly(slots: seq<Slot>)
    ensures FirstFree(slots) == 0 <==> forall s :: s in slots ==> s.slot == 0xFFFF_FFFF
    ensures FirstFree(slots) > 0 ==> exists s :: s in slots && s.slot != 0xFFFF_FFFF && FirstFree(slots) == s.slot + 1
    ensures forall s :: s in slots && s.slot != 0xFFFF_FFFF ==> s.slot < FirstFree(slots)
  {
    if slots != [] {
      var init, s := slots[..|slots| - 1], slots[|slots| - 1];
      FirstFreeExactly(init);
      assert slots == init + [s];
    }
  }

  /// The number each slot ends up with: its own, or the first free one and as
  /// many more as there are slots without a number before it.
  lemma FixedNumber(slots: seq<Slot>, i: nat)
    requires i < |slots|
    ensures slots[i].slot != 0xFFFF_FFFF ==> FixNumbers(slots)[i] == slots[i]
    ensures slots[i].slot == 0xFFFF_FFFF ==>
      FixNumbers(slots)[i] == slots[i].(slot := Wrapped(FirstFree(slots) + |MissingPlaces(slots, i)|))
  {
    hide *;
    FixedIs(slots, i);
    NumberedAs(slots, FirstFree(slots), i);
  }

  lemma NumberedAs(slots: seq<Slot>, next: u32, i: nat)
    requires i < |slots|
    ensures slots[i].slot != 0xFFFF_FFFF ==> Renumber(slots, next)[i] == slots[i]
    ensures slots[i].slot == 0xFFFF_FFFF ==>
      Renumber(slots, next)[i] == slots[i].(slot := Wrapped(next + |MissingPlaces(slots, i)|))
  {
    RenumberKeeps(slots, next, i);
    if slots[i].slot == 0xFFFF_FFFF {
      GivenNumber(slots, next, i);
    }
    hide Renumber, Wrapped, MissingPlaces;
  }

  lemma FixedIs(slots: seq<Slot>, i: nat)
    requires i < |slots|
    ensures FixNumbers(slots) == Renumber(slots, FirstFree(slots)) ||
            (slots[i].slot != 0xFFFF_FFFF && FixNumbers(slots) == slots)
  {
    hide FirstFree, Renumber;
    SomeMissing(slots, i);
  }

  lemma GivenNumber(slots: seq<Slot>, next: u32, i: nat)
    requires i < |slots| && slots[i].slot == 0xFFFF_FFFF
    ensures Renumber(slots, next)[i].slot == Wrapped(next + |MissingPlaces(slots, i)|)
  {
    hide *;
    MissingCountExactly(slots, i);
    RenumberWraps(slots, next, i);
  }

  lemma SomeMissing(slots: seq<Slot>, i: nat)
    requires i < |slots|
    ensures Unnumbered(slots[i]) ==> MissingCount(slots) > 0
  {
    assert slots[i] in slots;
  }

  /// Otherwise some slot is given the number that means it has none.
  lemma {:induction false} RenumberRunsOut(slots: seq<Slot>, next: u32)
    requires next + MissingCount(slots) > U32_MAX
    ensures exists s :: s in Renumber(slots, next) && Unnumbered(s)
  {
    if Unnumbered(slots[0]) && next == U32_MAX {
      assert Unnumbered(Renumber(slots, next)[0]);
    } else {
      var next' := if Unnumbered(slots[0]) then Inc(next) else next;
      RenumberRunsOut(slots[1..], next');
      var s :| s in Renumber(slots[1..], next') && Unnumbered(s);
      assert s in Renumber(slots, next);
    }
  }

  /// Numbering completes a consistent configuration exactly when the highest
  /// number plus the unnumbered slots stays below u32::MAX.
  lemma FixNumbersCompletes(slots: seq<Slot>)
    requires Consistent(slots)
    ensures Complete(FixNumbers(slots)) <==> Fits(slots)
    ensures Extends(slots, FixNumbers(slots))
  {
    if MissingCount(slots) > 0 {
      forall i | 0 <= i < |slots|
        ensures FixNumbers(slots)[i] == slots[i].(slot := FixNumbers(slots)[i].slot)
        ensures !Unnumbered(slots[i]) ==> FixNumbers(slots)[i] == slots[i]
      {
        RenumberKeeps(slots, FirstFree(slots), i);
      }
      if Fits(slots) {
        RenumberCompletes(slots, FirstFree(slots));
      } else {
        RenumberRunsOut(slots, FirstFree(slots));
      }
    }
  }

  /// With u32::MAX - 1 in use the next slot gets the number that means none.
  lemma NumbersRunOut(a: Slot, b: Slot)
    requires a.slot == U32_MAX - 1 && Unnumbered(b) && !SameDb(a, b)
    ensures Consistent([a, b]) && FixNumbers([a, b]) == [a, b] && Unnumbered(FixNumbers([a, b])[1])
    ensures !Complete(FixNumbers([a, b]))
  {
    assert [a, b][..1] == [a] && [a][..0] == [] && [a, b][1..] == [b] && [b][1..] == [];
    assert FirstFree([]) == 0 && FirstFree([a]) == U32_MAX && FirstFree([a, b]) == U32_MAX;
    assert Renumber([], 0) == [] && Renumber([b], U32_MAX) == [b];
    assert b in [a, b];
  }

  lemma RenumberCompletes(slots: seq<Slot>, next: u32)
    requires Consistent(slots) && next + MissingCount(slots) <= U32_MAX
    requires forall s :: s in slots && !Unnumbered(s) ==> s.slot < next
    ensures Complete(Renumber(slots, next))
  {
    var r := Renumber(slots, next);
    forall i | 0 <= i < |slots|
      ensures SameDb(r[i], slots[i]) && !Unnumbered(r[i])
      ensures r[i].slot == if Unnumbered(slots[i]) then next + MissingCount(slots[..i]) else slots[i].slot
    {
      RenumberKeeps(slots, next, i);
      if Unnumbered(slots[i]) { RenumberValues(slots, next, i); }
    }
    forall i, j | 0 <= i < j < |slots| ensures r[i].slot != r[j].slot && !SameDb(r[i], r[j]) {
      assert slots[i] in slots && slots[j] in slots;
      if Unnumbered(slots[i]) && Unnumbered(slots[j]) { MissingCountGrows(slots, i, j); }
    }
  }

  /// b keeps every slot of a at its place, never changing a number once given.
  ghost predicate Extends(a: seq<Slot>, b: seq<Slot>) {
    |a| <= |b| && forall i :: 0 <= i < |a| ==>
      b[i] == a[i].(slot := b[i].slot) && (!Unnumbered(a[i]) ==> b[i] == a[i])
  }

  // ----- calls and runs of calls

  /// Every call keeps uniqueness and never renumbers a slot; a successful call
  /// leaves every slot numbered exactly when the numbers suffice.
  lemma InitKeeps(slots: seq<Slot>, conf: seq<Slot>)
    requires Consistent(slots)
    ensures Extends(slots, Init(slots, conf).0)
    ensures !Init(slots, conf).1 ==> Consistent(Init(slots, conf).0)
    ensures Init(slots, conf).1 ==> (Complete(Init(slots, conf).0) <==> Fits(AddAll(slots, conf).0))
  {
    AddAllKeepsConsistent(slots, conf);
    var (added, ok) := AddAll(slots, conf);
    if ok {
      FixNumbersCompletes(added);
    }
  }

  /// Every slot of a configuration is already there: under its number when it
  /// has one, otherwise by its storage alone.
  ghost predicate Loaded(slots: seq<Slot>, conf: seq<Slot>) {
    forall c :: c in conf ==>
      exists i :: 0 <= i < |slots| && SameDb(slots[i], c) && (Unnumbered(c) || slots[i].slot == c.slot)
  }

  lemma LoadedExtends(a: seq<Slot>, b: seq<Slot>, conf: seq<Slot>)
    requires Loaded(a, conf) && Extends(a, b)
    ensures Loaded(b, conf)
  {
    forall c | c in conf
      ensures exists i :: 0 <= i < |b| && SameDb(b[i], c) && (Unnumbered(c) || b[i].slot == c.slot)
    {
      var i :| 0 <= i < |a| && SameDb(a[i], c) && (Unnumbered(c) || a[i].slot == c.slot);
      assert b[i] == a[i].(slot := b[i].slot);
    }
  }

  lemma {:induction false} AddAllLoads(slots: seq<Slot>, conf: seq<Slot>)
    requires Consistent(slots) && AddAll(slots, conf).1
    ensures Loaded(AddAll(slots, conf).0, conf)
    decreases |conf|
  {
    if conf != [] {
      var c := conf[0];
      ScanMeaning(slots, c, false);
      var (c', found) := Scan(slots, c, false).value;
      var next := if found then slots else slots + [c'];
      AddAllKeepsConsistent(slots, [c]);
      assert [c][1..] == [];
      assert AddAll(slots, [c]).0 == next;
      AddAllLoads(next, conf[1..]);
      AddAllKeepsConsistent(next, conf[1..]);
      var last := AddAll(next, conf[1..]).0;
      var i := LoadedIndex(slots, c);
      assert last[i] == next[i];
      forall d | d in conf
        ensures exists i :: 0 <= i < |last| && SameDb(last[i], d) && (Unnumbered(d) || last[i].slot == d.slot)
      {
        if d != c { assert d in conf[1..]; }
      }
    }
  }

  /// Where a slot just checked, and added if need be, is to be found.
  lemma LoadedIndex(slots: seq<Slot>, c: Slot) returns (i: nat)
    requires Consistent(slots) && Scan(slots, c, false).Ok?
    ensures var (c', found) := Scan(slots, c, false).value;
      var next := if found then slots else slots + [c'];
      i < |next| && SameDb(next[i], c) && (Unnumbered(c) || next[i].slot == c.slot)
  {
    ScanMeaning(slots, c, false);
    var (c', found) := Scan(slots, c, false).value;
    if found {
      if Unnumbered(c) {
        i :| 0 <= i < |slots| && SameDb(slots[i], c);
      } else {
        i :| 0 <= i < |slots| && slots[i].slot == c.slot;
        assert slots[i] in slots;
      }
    } else {
      i := |slots|;
    }
  }

  /// Adding what is loaded adds nothing.
  lemma {:induction false} AddAllLoadedIsNoOp(slots: seq<Slot>, conf: seq<Slot>)
    requires Consistent(slots) && Loaded(slots, conf)
    ensures AddAll(slots, conf) == (slots, true)
  {
    if conf != [] {
      var c := conf[0];
      ScanMeaning(slots, c, false);
      var i :| 0 <= i < |slots| && SameDb(slots[i], c) && (Unnumbered(c) || slots[i].slot == c.slot);
      assert slots[i] in slots;
      if !Unnumbered(c) {
        forall s | s in slots ensures s.slot == c.slot <==> SameDb(s, c) {
          var j :| 0 <= j < |slots| && slots[j] == s;
          if j < i { assert !SameDb(slots[j], slots[i]); }
          if i < j { assert !SameDb(slots[i], slots[j]); }
        }
      }
      AddAllLoadedIsNoOp(slots, conf[1..]);
    }
  }

  /// Calls, successful or not, one after the other from a consistent
  /// configuration.
  ghost predicate Calls(states: seq<seq<Slot>>, confs: seq<seq<Slot>>) {
    && |states| == |confs| + 1 && Consistent(states[0])
    && forall k :: 0 <= k < |confs| ==> states[k + 1] == Init(states[k], confs[k]).0
  }

  /// The numbers suffice in the successful ones of the first n calls.
  ghost predicate Suffices(states: seq<seq<Slot>>, confs: seq<seq<Slot>>, n: nat)
    requires n <= |states| && n <= |confs|
  {
    forall k :: 0 <= k < n && Init(states[k], confs[k]).1 ==> Fits(AddAll(states[k], confs[k]).0)
  }

  /// Every successful one of the first n calls leaves every slot numbered.
  ghost predicate Completes(states: seq<seq<Slot>>, confs: seq<seq<Slot>>, n: nat)
    requires n < |states| && n <= |confs|
  {
    forall k :: 0 <= k < n && Init(states[k], confs[k]).1 ==> Complete(states[k + 1])
  }

  /// In any run of calls every success leaves every slot numbered exactly when
  /// the numbers suffice each time.
  lemma {:induction false} CallsCompleteExactly(states: seq<seq<Slot>>, confs: seq<seq<Slot>>, n: nat)
    requires Calls(states, confs) && n <= |confs|
    ensures Completes(states, confs, n) <==> Suffices(states, confs, n)
    ensures Suffices(states, confs, n) ==> Consistent(states[n])
  {
    if n > 0 {
      CallsCompleteExactly(states, confs, n - 1);
      OneMoreCall(states, confs, n);
      if Suffices(states, confs, n - 1) {
        InitKeeps(states[n - 1], confs[n - 1]);
      }
    }
  }

  lemma OneMoreCall(states: seq<seq<Slot>>, confs: seq<seq<Slot>>, n: nat)
    requires |states| == |confs| + 1 && 0 < n <= |confs|
    ensures var ok := Init(states[n - 1], confs[n - 1]).1;
            && (Completes(states, confs, n) <==> Completes(states, confs, n - 1) && (ok ==> Complete(states[n])))
            && (Suffices(states, confs, n) <==>
                  Suffices(states, confs, n - 1) && (ok ==> Fits(AddAll(states[n - 1], confs[n - 1]).0)))
  {
    hide Complete, Fits, Init, AddAll;
    assert Completes(states, confs, n) ==> Completes(states, confs, n - 1);
  }

  /// A run of calls in which numbers never run out.
  ghost predicate Run(states: seq<seq<Slot>>, confs: seq<seq<Slot>>) {
    Calls(states, confs) && Suffices(states, confs, |confs|)
  }

  /// Over every run, all states keep numbers and storages unique, later states
  /// extend earlier ones, and after a success every slot is numbered.
  lemma {:induction false} RunKeeps(states: seq<seq<Slot>>, confs: seq<seq<Slot>>, i: nat, j: nat)
    requires Run(states, confs) && i <= j < |states|
    ensures Consistent(states[i]) && Consistent(states[j]) && Extends(states[i], states[j])
    ensures j > 0 && Init(states[j - 1], confs[j - 1]).1 ==> Complete(states[j])
    decreases j
  {
    if j > 0 {
      if i < j {
        RunKeeps(states, confs, i, j - 1);
      } else {
        RunKeeps(states, confs, i - 1, j - 1);
      }
      InitKeeps(states[j - 1], confs[j - 1]);
    }
  }

  /// Repeating an earlier successful call, at any later point of a run,
  /// succeeds and adds nothing; it changes nothing at all unless a failed call
  /// left slots unnumbered.
  lemma RepeatIsNoOp(states: seq<seq<Slot>>, confs: seq<seq<Slot>>, i: nat, j: nat)
    requires Run(states, confs) && i < j < |states|
    requires Init(states[i], confs[i]).1
    ensures Init(states[j], confs[i]) == (FixNumbers(states[j]), true)
    ensures Complete(states[j]) ==> Init(states[j], confs[i]) == (states[j], true)
  {
    RunKeeps(states, confs, i, i + 1);
    RunKeeps(states, confs, i + 1, j);
    var added := AddAll(states[i], confs[i]).0;
    AddAllKeepsConsistent(states[i], confs[i]);
    AddAllLoads(states[i], confs[i]);
    FixNumbersCompletes(added);
    LoadedExtends(added, states[i + 1], confs[i]);
    LoadedExtends(states[i + 1], states[j], confs[i]);
    AddAllLoadedIsNoOp(states[j], confs[i]);
  }
}
