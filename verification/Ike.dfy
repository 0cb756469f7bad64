/// The IKE key derivations (src/ike.rs): one-block PRF derivations and the two
/// feedback expansions, over the streaming HMAC operation.
module Ike {
  import opened Bytes
  import opened Common
  import opened Hmac

  datatype KeyType = GenericSecret | HmacKey(alg: HashAlg) | OtherKey(id: nat)

  /// The input key object: the two attributes a derivation reads, or the error
  /// that reading them gives.
  datatype KeyObject = KeyObject(keyType: Result<KeyType, Rv>, value: Result<seq<u8>, Rv>)

  /// The template of the derived key as the object factories see it: whether it
  /// names a key type, and the CKA_VALUE_LEN of the object they build from it.
  datatype Template = Template(hasKeyType: bool, factory: Result<Option<nat>, Rv>)

  type Outcome = Result<seq<u8>, Rv>

  function PrfLen(mech: Mechanism): Result<nat, Rv> {
    match mech
    case HashMech(a) => Ok(HashLen(a))
    case HmacMech(a) => Ok(HashLen(a))
    case HmacGeneralMech(a) => Ok(HashLen(a))
    case OtherMech(_) => Err(CKR_MECHANISM_PARAM_INVALID)
  }

  function PrfKeyType(mech: Mechanism): Result<KeyType, Rv> {
    match mech
    case HmacMech(a) => Ok(HmacKey(a))
    case _ => Err(CKR_MECHANISM_PARAM_INVALID)
  }

  /// The error, if any, of requiring a key to be of a given type.
  function RequireKeyType(key: KeyObject, wanted: KeyType): Option<Rv> {
    match key.keyType
    case Err(e) => Some(e)
    case Ok(t) => if t == wanted then None else Some(CKR_KEY_TYPE_INCONSISTENT)
  }

  /// The base key must be of exactly the HMAC key type of the PRF.
  function CheckBaseKey(mech: Mechanism, key: KeyObject): Option<Rv> {
    match PrfKeyType(mech)
    case Err(e) => Some(e)
    case Ok(kt) => RequireKeyType(key, kt)
  }

  /// The size of the key to derive; a default length of 0 stands for none.
  function KeySize(t: Template, defaultLen: nat): Result<nat, Rv> {
    match t.factory
    case Err(e) => Err(e)
    case Ok(Some(n)) => Ok(n)
    case Ok(None) => if defaultLen == 0 then Err(CKR_TEMPLATE_INCOMPLETE) else Ok(defaultLen)
  }

  function Concat(parts: seq<seq<u8>>): (s: seq<u8>)
  {
    if parts == [] then [] else Concat(parts[..|parts| - 1]) + parts[|parts| - 1]
  }

  function OrEmpty(o: Option<seq<u8>>): seq<u8> {
    if o.Some? then o.value else []
  }

  function Parts(o: Option<seq<u8>>): (p: seq<seq<u8>>)
  {
    if o.Some? then [o.value] else []
  }

  lemma ConcatAppend(parts: seq<seq<u8>>, more: seq<seq<u8>>)
    ensures Concat(parts + more) == Concat(parts) + Concat(more)
  {
    if more == [] {
      assert parts + more == parts;
    } else {
      var n := |parts + more| - 1;
      assert (parts + more)[..n] == parts + more[..|more| - 1];
      ConcatAppend(parts, more[..|more| - 1]);
    }
  }

  lemma ConcatFour(w: seq<seq<u8>>, x: seq<seq<u8>>, y: seq<seq<u8>>, z: seq<seq<u8>>)
    ensures Concat(w + x + y + z) == Concat(w) + Concat(x) + Concat(y) + Concat(z)
  {
    ConcatAppend(w + x + y, z);
    ConcatAppend(w + x, y);
    ConcatAppend(w, x);
  }

  lemma ConcatPart(o: Option<seq<u8>>)
    ensures Concat(Parts(o)) == OrEmpty(o)
  {
    if o.Some? {
      ConcatOne(o.value);
    }
  }

  lemma ConcatParts(a: Option<seq<u8>>, b: Option<seq<u8>>)
    ensures Concat(Parts(a) + Parts(b)) == OrEmpty(a) + OrEmpty(b)
  {
    ConcatAppend(Parts(a), Parts(b));
    ConcatOne(OrEmpty(a));
    ConcatOne(OrEmpty(b));
  }

  lemma ConcatOne(a: seq<u8>)
    ensures Concat([a]) == a
  {
    assert [a][..0] == [];
    assert Concat([]) == [];
  }

  /// One PRF call: PRF(K, concatenated parts), whatever was computed before.
  method Prf(hmac: HMACOperation, parts: seq<seq<u8>>, out: array<u8>) returns (rv: Rv)
    requires hmac.Valid() && out !in hmac.Repr()
    requires hmac.finalized || !hmac.inUse
    modifies hmac.Repr(), out
    ensures hmac.Valid() && hmac.finalized
    ensures rv == if out.Length == hmac.outputLen then CKR_OK else CKR_GENERAL_ERROR
    ensures rv == CKR_OK ==>
      out[..] == HmacValue(hmac.hash, hmac.alg, hmac.key, Concat(parts))[..hmac.outputLen]
  {
    if hmac.finalized {
      hmac.Reset();
    }
    for i := 0 to |parts|
      invariant hmac.Valid() && !hmac.finalized
      invariant hmac.text == Concat(parts[..i])
    {
      assert parts[..i + 1][..i] == parts[..i];
      rv := hmac.MacUpdate(parts[i]);
    }
    assert parts[..|parts|] == parts;
    rv := hmac.MacFinal(out);
  }

  // ----- prf+ of IKEv2 (section 2.13 of RFC 7296)

  /// T1 = prf(K, S | 0x01), Tn = prf(K, T(n-1) | S | n); T0 is empty.
  function T(h: HashFn, alg: HashAlg, k: seq<u8>, s: seq<u8>, n: nat): (t: seq<u8>)
    requires n <= 255
    ensures |t| == if n == 0 then 0 else HashLen(alg)
  {
    if n == 0 then [] else HmacValue(h, alg, k, T(h, alg, k, s, n - 1) + s + [n])
  }

  /// T1 | T2 | ... | Tn.
  function TStream(h: HashFn, alg: HashAlg, k: seq<u8>, s: seq<u8>, n: nat): (t: seq<u8>)
    requires n <= 255
    ensures |t| == n * HashLen(alg)
  {
    if n == 0 then [] else TStream(h, alg, k, s, n - 1) + T(h, alg, k, s, n)
  }

  /// The fewest blocks that hold size bytes.
  function Blocks(size: nat, len: nat): (n: nat)
    requires len > 0
    ensures size <= n * len
    ensures forall m: nat :: size <= m * len ==> n <= m
  {
    var n := (size + len - 1) / len;
    BlocksBound(size, len);
    n
  }

  lemma BlocksBound(size: nat, len: nat)
    requires len > 0
    ensures size <= (size + len - 1) / len * len
    ensures forall m: nat :: size <= m * len ==> (size + len - 1) / len <= m
  {
    var n := (size + len - 1) / len;
    assert n * len + (size + len - 1) % len == size + len - 1;
    forall m: nat | size <= m * len ensures n <= m {
      assert (n - 1) * len == n * len - len < size;
      LessFromProducts(n - 1, m, len);
    }
  }

  lemma LessFromProducts(a: int, b: int, c: nat)
    requires a * c < b * c
    ensures a < b
  {
    assert (b - a) * c > 0;
  }

  /// The first size bytes of T1 | T2 | ...
  function PrfPlus(h: HashFn, alg: HashAlg, k: seq<u8>, s: seq<u8>, size: nat): (d: seq<u8>)
    requires size <= 255 * HashLen(alg)
    ensures |d| == size
  {
    TStream(h, alg, k, s, Blocks(size, HashLen(alg)))[..size]
  }

  /// A longer stream extends a shorter one.
  lemma {:induction false} TStreamPrefix(h: HashFn, alg: HashAlg, k: seq<u8>, s: seq<u8>, m: nat, n: nat)
    requires m <= n <= 255
    ensures TStream(h, alg, k, s, m) <= TStream(h, alg, k, s, n)
  {
    if m < n {
      TStreamPrefix(h, alg, k, s, m, n - 1);
    }
  }

  /// PrfPlus does not depend on how many blocks are generated, as long as
  /// there are enough of them.
  lemma PrfPlusFromAnyStream(h: HashFn, alg: HashAlg, k: seq<u8>, s: seq<u8>, size: nat, n: nat)
    requires n <= 255 && size <= n * HashLen(alg)
    ensures PrfPlus(h, alg, k, s, size) == TStream(h, alg, k, s, n)[..size]
  {
    TStreamPrefix(h, alg, k, s, Blocks(size, HashLen(alg)), n);
  }

  /// A shorter derived key is a prefix of a longer one from the same inputs.
  lemma PrfPlusPrefix(h: HashFn, alg: HashAlg, k: seq<u8>, s: seq<u8>, small: nat, big: nat)
    requires small <= big <= 255 * HashLen(alg)
    ensures PrfPlus(h, alg, k, s, small) == PrfPlus(h, alg, k, s, big)[..small]
  {
    PrfPlusFromAnyStream(h, alg, k, s, small, 255);
    PrfPlusFromAnyStream(h, alg, k, s, big, 255);
  }

  /// Block n of the derived key is Tn: the bytes from (n-1)*len to n*len.
  lemma TStreamBlock(h: HashFn, alg: HashAlg, k: seq<u8>, s: seq<u8>, n: nat, m: nat)
    requires 1 <= n <= m <= 255
    ensures (n - 1) * HashLen(alg) <= n * HashLen(alg) <= m * HashLen(alg)
    ensures TStream(h, alg, k, s, m)[(n - 1) * HashLen(alg)..n * HashLen(alg)] == T(h, alg, k, s, n)
  {
    TStreamPrefix(h, alg, k, s, n, m);
    var len, t := HashLen(alg), TStream(h, alg, k, s, n);
    assert |t| == n * len == (n - 1) * len + len;
    assert TStream(h, alg, k, s, m)[..|t|] == t;
    assert t[(n - 1) * len..] == T(h, alg, k, s, n);
  }

  lemma BlockPlace(n: nat, len: nat)
    ensures n * len <= (n + 1) * len == n * len + len
  {
  }

  /// The bytes of block n of a derived key that has all of it.
  lemma PrfPlusBlockIs(h: HashFn, alg: HashAlg, k: seq<u8>, s: seq<u8>, size: nat, n: nat)
    requires 1 <= n <= 255 && n * HashLen(alg) <= size <= 255 * HashLen(alg)
    ensures (n - 1) * HashLen(alg) <= n * HashLen(alg)
    ensures PrfPlus(h, alg, k, s, size)[(n - 1) * HashLen(alg)..n * HashLen(alg)] == T(h, alg, k, s, n)
  {
    var len := HashLen(alg);
    BlockPlace(n - 1, len);
    PrfPlusFromAnyStream(h, alg, k, s, size, 255);
    TStreamBlock(h, alg, k, s, n, 255);
    hide *;
    SliceOfPrefix(TStream(h, alg, k, s, 255), size, (n - 1) * len, n * len);
  }

  lemma SliceOfPrefix<X>(s: seq<X>, size: nat, a: nat, b: nat)
    requires a <= b <= size <= |s|
    ensures s[..size][a..b] == s[a..b]
  {
  }

  /// Section 2.13 of RFC 7296, of the key itself: its first block is
  /// prf(K, S | 0x01), each further one prf(K, block before it | S | number).
  lemma PrfPlusBlocks(h: HashFn, alg: HashAlg, k: seq<u8>, s: seq<u8>, size: nat, n: nat)
    requires size <= 255 * HashLen(alg) && (n + 1) * HashLen(alg) <= size
    ensures n < 255 && 0 <= n * HashLen(alg) <= (n + 1) * HashLen(alg)
    ensures n >= 1 ==> 0 <= (n - 1) * HashLen(alg) <= n * HashLen(alg)
    ensures
      var d, len := PrfPlus(h, alg, k, s, size), HashLen(alg);
      d[n * len..(n + 1) * len] ==
        HmacValue(h, alg, k, (if n == 0 then [] else d[(n - 1) * len..n * len]) + s + [n + 1])
  {
    hide PrfPlus, HmacValue;
    BlockPlace(n, HashLen(alg));
    LessFromProducts(n, 255, HashLen(alg));
    PrfPlusBlockIs(h, alg, k, s, size, n + 1);
    if n >= 1 {
      BlockPlace(n - 1, HashLen(alg));
      PrfPlusBlockIs(h, alg, k, s, size, n);
    } else {
      assert T(h, alg, k, s, 0) == [];
    }
  }

  /// The expansion loop by itself: it reports the counter running out exactly
  /// when more than 255 blocks are asked for.
  method ExpandPrfPlus(hmac: HMACOperation, seedKey: Option<seq<u8>>, seedData: Option<seq<u8>>, keysize: nat)
    returns (r: Outcome)
    requires hmac.Valid() && !hmac.inUse && !hmac.finalized && hmac.outputLen == HashLen(hmac.alg)
    modifies hmac.Repr()
    ensures keysize > 255 * HashLen(hmac.alg) ==> r == Err(CKR_KEY_SIZE_RANGE)
    ensures keysize <= 255 * HashLen(hmac.alg) ==>
      r == Ok(PrfPlus(hmac.hash, hmac.alg, hmac.key, OrEmpty(seedKey) + OrEmpty(seedData), keysize))
  {
    ghost var h, alg, k, s := hmac.hash, hmac.alg, hmac.key, OrEmpty(seedKey) + OrEmpty(seedData);
    var block := new u8[hmac.outputLen];
    PrfPlusBlock(hmac, None, seedKey, seedData, 1, block);
    var dkm := block[..];
    var tn := block[..];
    var counter: u8 := 1;
    assert [] + s == s;
    while |dkm| < keysize
      invariant hmac.Valid() && hmac.finalized && fresh(block) && block.Length == hmac.outputLen
      invariant 1 <= counter <= 255
      invariant dkm == TStream(h, alg, k, s, counter)
      invariant tn == T(h, alg, k, s, counter)
      decreases 255 - counter
    {
      if counter == 255 {
        return Err(CKR_KEY_SIZE_RANGE);
      }
      counter := counter + 1;
      PrfPlusBlock(hmac, Some(tn), seedKey, seedData, counter, block);
      dkm := dkm + block[..];
      tn := block[..];
    }
    assert counter * HashLen(alg) <= 255 * HashLen(alg);
    PrfPlusFromAnyStream(h, alg, k, s, keysize, counter);
    return Ok(dkm[..keysize]);
  }

  /// prf(K, [previous block] [seed key] [seed data] counter) into block.
  method PrfPlusBlock(hmac: HMACOperation, t: Option<seq<u8>>, a: Option<seq<u8>>, b: Option<seq<u8>>, c: u8,
                      block: array<u8>)
    requires hmac.Valid() && (hmac.finalized || !hmac.inUse) && block !in hmac.Repr()
    requires hmac.outputLen == HashLen(hmac.alg) == block.Length
    modifies hmac.Repr(), block
    ensures hmac.Valid() && hmac.finalized
    ensures block[..] == HmacValue(hmac.hash, hmac.alg, hmac.key, OrEmpty(t) + (OrEmpty(a) + OrEmpty(b)) + [c])
  {
    var parts := Parts(t) + Parts(a) + Parts(b) + [[c]];
    var rv := Prf(hmac, parts, block);
    SeedParts(t, a, b, c);
  }

  /// What the parts of one prf+ call concatenate to.
  lemma SeedParts(t: Option<seq<u8>>, a: Option<seq<u8>>, b: Option<seq<u8>>, c: u8)
    ensures Concat(Parts(t) + Parts(a) + Parts(b) + [[c]]) == OrEmpty(t) + (OrEmpty(a) + OrEmpty(b)) + [c]
  {
    ConcatFour(Parts(t), Parts(a), Parts(b), [[c]]);
    ConcatPart(t);
    ConcatPart(a);
    ConcatPart(b);
    ConcatOne([c]);
    assert OrEmpty(t) + OrEmpty(a) + OrEmpty(b) == OrEmpty(t) + (OrEmpty(a) + OrEmpty(b));
  }

  /// The conditions on the base key, as the outcomes below name them.
  lemma BaseKeyExactly(prf: Mechanism, key: KeyObject)
    ensures CheckBaseKey(prf, key) ==
      if !prf.HmacMech? then Some(CKR_MECHANISM_PARAM_INVALID)
      else if key.keyType.Err? then Some(key.keyType.error)
      else if key.keyType.value != HmacKey(prf.alg) then Some(CKR_KEY_TYPE_INCONSISTENT)
      else None
  {
  }

  /// What one CKM_IKE2_PRF_PLUS_DERIVE call gives.
  function Ike2Outcome(h: HashFn, prf: Mechanism, finalized: bool, key: KeyObject, t: Template,
                       seedKey: Option<seq<u8>>, seedData: Option<seq<u8>>): Outcome
  {
    if CheckBaseKey(prf, key).Some? then Err(CheckBaseKey(prf, key).value)
    else if finalized then Err(CKR_OPERATION_NOT_INITIALIZED)
    else match KeySize(t, 0)
      case Err(e) => Err(e)
      case Ok(size) =>
        if size == 0 then Err(CKR_TEMPLATE_INCOMPLETE)
        else if size > 255 * HashLen(prf.alg) then Err(CKR_KEY_SIZE_RANGE)
        else match key.value
          case Err(e) => Err(e)
          case Ok(k) => Ok(PrfPlus(h, prf.alg, k, OrEmpty(seedKey) + OrEmpty(seedData), size))
  }

  /// A key can be derived exactly from an HMAC key of the PRF's own hash, once
  /// per operation, with a size from 1 byte to 255 blocks; otherwise the first
  /// condition that fails gives the error.
  lemma Ike2Exactly(h: HashFn, prf: Mechanism, finalized: bool, key: KeyObject, t: Template,
                    seedKey: Option<seq<u8>>, seedData: Option<seq<u8>>)
    ensures
      var r := Ike2Outcome(h, prf, finalized, key, t, seedKey, seedData);
      && (!prf.HmacMech? ==> r == Err(CKR_MECHANISM_PARAM_INVALID))
      && (prf.HmacMech? && key.keyType.Err? ==> r == Err(key.keyType.error))
      && (prf.HmacMech? && key.keyType.Ok? && key.keyType.value != HmacKey(prf.alg) ==>
            r == Err(CKR_KEY_TYPE_INCONSISTENT))
      && (prf.HmacMech? && key.keyType == Ok(HmacKey(prf.alg)) ==>
            && (finalized ==> r == Err(CKR_OPERATION_NOT_INITIALIZED))
            && (!finalized && t.factory.Err? ==> r == Err(t.factory.error))
            && (!finalized && t.factory in {Ok(None), Ok(Some(0))} ==> r == Err(CKR_TEMPLATE_INCOMPLETE))
            && (!finalized && t.factory.Ok? && t.factory.value.Some? && t.factory.value.value > 0 ==>
                  var size := t.factory.value.value;
                  if size > 255 * HashLen(prf.alg) then r == Err(CKR_KEY_SIZE_RANGE)
                  else if key.value.Err? then r == Err(key.value.error)
                  else
                    var seed := (if seedKey.Some? then seedKey.value else [])
                                + (if seedData.Some? then seedData.value else []);
                    r == Ok(PrfPlus(h, prf.alg, key.value.value, seed, size))))
  {
    BaseKeyExactly(prf, key);
  }

  class Ike2PrfPlusOperation {
    const hash: HashFn
    const prf: Mechanism
    var finalized: bool
    var seedKey: Option<seq<u8>>
    var seedData: Option<seq<u8>>

    constructor (hash: HashFn, prf: Mechanism, seedKey: Option<seq<u8>>, seedData: Option<seq<u8>>)
      ensures this.hash == hash && this.prf == prf && !finalized
      ensures this.seedKey == seedKey && this.seedData == seedData
    {
      this.hash, this.prf, this.seedKey, this.seedData := hash, prf, seedKey, seedData;
      finalized := false;
    }

    method Derive(key: KeyObject, t: Template) returns (r: Outcome)
      modifies this`finalized
      ensures r == Ike2Outcome(hash, prf, old(finalized), key, t, seedKey, seedData)
      ensures finalized == (old(finalized) || CheckBaseKey(prf, key).None?)
    {
      var refused := CheckBaseKey(prf, key);
      if refused.Some? {
        return Err(refused.value);
      }
      if finalized {
        return Err(CKR_OPERATION_NOT_INITIALIZED);
      }
      finalized := true;
      var size := KeySize(t, 0);
      if size.Err? {
        return Err(size.error);
      }
      if size.value == 0 {
        return Err(CKR_TEMPLATE_INCOMPLETE);
      }
      var prfLen := PrfLen(prf).value;
      if size.value > 255 * prfLen {
        return Err(CKR_KEY_SIZE_RANGE);
      }
      if key.value.Err? {
        return Err(key.value.error);
      }
      var hmac := HMACOperation.Internal(hash, prf, key.value.value, prfLen);
      r := ExpandPrfPlus(hmac.value, seedKey, seedData, size.value);
    }
  }

  // ----- Appendix B of RFC 2409

  /// What K1 is computed over: the shared secret and the extra data, or one
  /// zero byte when there is neither.
  function K1Input(gxy: Option<seq<u8>>, extra: Option<seq<u8>>): seq<u8> {
    if gxy.None? && extra.None? then [0] else OrEmpty(gxy) + OrEmpty(extra)
  }

  /// K1 = prf(K, [gxy][extra]) or prf(K, 0), Kn = prf(K, K(n-1)[gxy][extra]).
  function KBlock(h: HashFn, alg: HashAlg, k: seq<u8>, gxy: Option<seq<u8>>, extra: Option<seq<u8>>, n: nat)
    : (t: seq<u8>)
    requires n >= 1
    ensures |t| == HashLen(alg)
  {
    if n == 1 then HmacValue(h, alg, k, K1Input(gxy, extra))
    else HmacValue(h, alg, k, KBlock(h, alg, k, gxy, extra, n - 1) + (OrEmpty(gxy) + OrEmpty(extra)))
  }

  function KStream(h: HashFn, alg: HashAlg, k: seq<u8>, gxy: Option<seq<u8>>, extra: Option<seq<u8>>, n: nat)
    : (t: seq<u8>)
    ensures |t| == n * HashLen(alg)
  {
    if n == 0 then [] else KStream(h, alg, k, gxy, extra, n - 1) + KBlock(h, alg, k, gxy, extra, n)
  }

  function AppendixB(h: HashFn, alg: HashAlg, k: seq<u8>, gxy: Option<seq<u8>>, extra: Option<seq<u8>>, size: nat)
    : (d: seq<u8>)
    ensures |d| == size
  {
    KStream(h, alg, k, gxy, extra, Blocks(size, HashLen(alg)))[..size]
  }

  lemma {:induction false} KStreamPrefix(h: HashFn, alg: HashAlg, k: seq<u8>, gxy: Option<seq<u8>>,
                                         extra: Option<seq<u8>>, m: nat, n: nat)
    requires m <= n
    ensures KStream(h, alg, k, gxy, extra, m) <= KStream(h, alg, k, gxy, extra, n)
  {
    if m < n {
      KStreamPrefix(h, alg, k, gxy, extra, m, n - 1);
    }
  }

  lemma AppendixBFromAnyStream(h: HashFn, alg: HashAlg, k: seq<u8>, gxy: Option<seq<u8>>, extra: Option<seq<u8>>,
                               size: nat, n: nat)
    requires size <= n * HashLen(alg)
    ensures AppendixB(h, alg, k, gxy, extra, size) == KStream(h, alg, k, gxy, extra, n)[..size]
  {
    KStreamPrefix(h, alg, k, gxy, extra, Blocks(size, HashLen(alg)), n);
  }

  lemma AppendixBPrefix(h: HashFn, alg: HashAlg, k: seq<u8>, gxy: Option<seq<u8>>, extra: Option<seq<u8>>,
                        small: nat, big: nat)
    requires small <= big
    ensures AppendixB(h, alg, k, gxy, extra, small) == AppendixB(h, alg, k, gxy, extra, big)[..small]
  {
    var n := Blocks(big, HashLen(alg));
    AppendixBFromAnyStream(h, alg, k, gxy, extra, small, n);
    AppendixBFromAnyStream(h, alg, k, gxy, extra, big, n);
  }

  lemma KStreamBlock(h: HashFn, alg: HashAlg, k: seq<u8>, gxy: Option<seq<u8>>, extra: Option<seq<u8>>,
                     n: nat, m: nat)
    requires 1 <= n <= m
    ensures (n - 1) * HashLen(alg) <= n * HashLen(alg) <= m * HashLen(alg)
    ensures KStream(h, alg, k, gxy, extra, m)[(n - 1) * HashLen(alg)..n * HashLen(alg)] ==
            KBlock(h, alg, k, gxy, extra, n)
  {
    KStreamPrefix(h, alg, k, gxy, extra, n, m);
    var len, t := HashLen(alg), KStream(h, alg, k, gxy, extra, n);
    assert |t| == n * len == (n - 1) * len + len;
    assert KStream(h, alg, k, gxy, extra, m)[..|t|] == t;
    assert t[(n - 1) * len..] == KBlock(h, alg, k, gxy, extra, n);
  }

  lemma AppendixBBlockIs(h: HashFn, alg: HashAlg, k: seq<u8>, gxy: Option<seq<u8>>, extra: Option<seq<u8>>,
                         size: nat, n: nat)
    requires 1 <= n && n * HashLen(alg) <= size
    ensures (n - 1) * HashLen(alg) <= n * HashLen(alg)
    ensures AppendixB(h, alg, k, gxy, extra, size)[(n - 1) * HashLen(alg)..n * HashLen(alg)] ==
            KBlock(h, alg, k, gxy, extra, n)
  {
    var len, m := HashLen(alg), Blocks(size, HashLen(alg));
    BlockPlace(n - 1, len);
    LessFromProducts(n - 1, m, len);
    KStreamBlock(h, alg, k, gxy, extra, n, m);
    AppendixBFromAnyStream(h, alg, k, gxy, extra, size, m);
    hide *;
    SliceOfPrefix(KStream(h, alg, k, gxy, extra, m), size, (n - 1) * len, n * len);
  }

  /// Appendix B of RFC 2409, of the key itself: the first block is prf(K, 0) if
  /// there is neither shared secret nor extra data, and otherwise each block is
  /// prf(K, block before it | shared secret | extra data).
  lemma AppendixBBlocks(h: HashFn, alg: HashAlg, k: seq<u8>, gxy: Option<seq<u8>>, extra: Option<seq<u8>>,
                        size: nat, n: nat)
    requires (n + 1) * HashLen(alg) <= size
    ensures 0 <= n * HashLen(alg) <= (n + 1) * HashLen(alg)
    ensures n >= 1 ==> 0 <= (n - 1) * HashLen(alg) <= n * HashLen(alg)
    ensures
      var d, len := AppendixB(h, alg, k, gxy, extra, size), HashLen(alg);
      var more := (if gxy.Some? then gxy.value else []) + (if extra.Some? then extra.value else []);
      d[n * len..(n + 1) * len] ==
        HmacValue(h, alg, k,
                  if n >= 1 then d[(n - 1) * len..n * len] + more
                  else if gxy.None? && extra.None? then [0] else more)
  {
    BlockPlace(n, HashLen(alg));
    AppendixBBlockIs(h, alg, k, gxy, extra, size, n + 1);
    if n >= 1 {
      BlockPlace(n - 1, HashLen(alg));
      AppendixBBlockIs(h, alg, k, gxy, extra, size, n);
    }
  }

  /// What one CKM_IKE1_EXTENDED_DERIVE call gives.
  function Ike1ExtendedOutcome(h: HashFn, prf: Mechanism, finalized: bool, key: KeyObject, t: Template,
                               gxy: Option<seq<u8>>, extra: Option<seq<u8>>): Outcome
  {
    if CheckBaseKey(prf, key).Some? then Err(CheckBaseKey(prf, key).value)
    else if finalized then Err(CKR_OPERATION_NOT_INITIALIZED)
    else match KeySize(t, 0)
      case Err(e) => Err(e)
      case Ok(size) =>
        if size == 0 then Err(CKR_TEMPLATE_INCOMPLETE)
        else if size > 255 * HashLen(prf.alg) then Err(CKR_KEY_SIZE_RANGE)
        else match key.value
          case Err(e) => Err(e)
          case Ok(k) => Ok(AppendixB(h, prf.alg, k, gxy, extra, size))
  }

  /// A key can be derived under the same conditions as for IKEv2.
  lemma Ike1ExtendedExactly(h: HashFn, prf: Mechanism, finalized: bool, key: KeyObject, t: Template,
                            gxy: Option<seq<u8>>, extra: Option<seq<u8>>)
    ensures
      var r := Ike1ExtendedOutcome(h, prf, finalized, key, t, gxy, extra);
      && (!prf.HmacMech? ==> r == Err(CKR_MECHANISM_PARAM_INVALID))
      && (prf.HmacMech? && key.keyType.Err? ==> r == Err(key.keyType.error))
      && (prf.HmacMech? && key.keyType.Ok? && key.keyType.value != HmacKey(prf.alg) ==>
            r == Err(CKR_KEY_TYPE_INCONSISTENT))
      && (prf.HmacMech? && key.keyType == Ok(HmacKey(prf.alg)) ==>
            && (finalized ==> r == Err(CKR_OPERATION_NOT_INITIALIZED))
            && (!finalized && t.factory.Err? ==> r == Err(t.factory.error))
            && (!finalized && t.factory in {Ok(None), Ok(Some(0))} ==> r == Err(CKR_TEMPLATE_INCOMPLETE))
            && (!finalized && t.factory.Ok? && t.factory.value.Some? && t.factory.value.value > 0 ==>
                  var size := t.factory.value.value;
                  if size > 255 * HashLen(prf.alg) then r == Err(CKR_KEY_SIZE_RANGE)
                  else if key.value.Err? then r == Err(key.value.error)
                  else r == Ok(AppendixB(h, prf.alg, key.value.value, gxy, extra, size))))
  {
    BaseKeyExactly(prf, key);
  }

  class Ike1ExtendedOperation {
    const hash: HashFn
    const prf: Mechanism
    var finalized: bool
    var keygxy: Option<seq<u8>>
    var extraData: Option<seq<u8>>

    constructor (hash: HashFn, prf: Mechanism, keygxy: Option<seq<u8>>, extraData: Option<seq<u8>>)
      ensures this.hash == hash && this.prf == prf && !finalized
      ensures this.keygxy == keygxy && this.extraData == extraData
    {
      this.hash, this.prf, this.keygxy, this.extraData := hash, prf, keygxy, extraData;
      finalized := false;
    }

    method Derive(key: KeyObject, t: Template) returns (r: Outcome)
      modifies this`finalized
      ensures r == Ike1ExtendedOutcome(hash, prf, old(finalized), key, t, keygxy, extraData)
      ensures finalized == (old(finalized) || CheckBaseKey(prf, key).None?)
    {
      var refused := CheckBaseKey(prf, key);
      if refused.Some? {
        return Err(refused.value);
      }
      if finalized {
        return Err(CKR_OPERATION_NOT_INITIALIZED);
      }
      finalized := true;
      var size := KeySize(t, 0);
      if size.Err? {
        return Err(size.error);
      }
      var keysize := size.value;
      if keysize == 0 {
        return Err(CKR_TEMPLATE_INCOMPLETE);
      }
      var prfLen := PrfLen(prf).value;
      if keysize > 255 * prfLen {
        return Err(CKR_KEY_SIZE_RANGE);
      }
      if key.value.Err? {
        return Err(key.value.error);
      }
      var hmac := HMACOperation.Internal(hash, prf, key.value.value, prfLen);
      var dkm := ExpandAppendixB(hmac.value, keygxy, extraData, keysize);
      return Ok(dkm);
    }
  }

  method ExpandAppendixB(hmac: HMACOperation, gxy: Option<seq<u8>>, extra: Option<seq<u8>>, keysize: nat)
    returns (dkm: seq<u8>)
    requires hmac.Valid() && !hmac.inUse && !hmac.finalized && hmac.outputLen == HashLen(hmac.alg)
    modifies hmac.Repr()
    ensures dkm == AppendixB(hmac.hash, hmac.alg, hmac.key, gxy, extra, keysize)
  {
    ghost var h, alg, k := hmac.hash, hmac.alg, hmac.key;
    var block := new u8[hmac.outputLen];
    FirstBlock(hmac, gxy, extra, block);
    dkm := block[..];
    var kn := block[..];
    ghost var n := 1;
    assert dkm == KBlock(h, alg, k, gxy, extra, 1);
    while |dkm| < keysize
      invariant hmac.Valid() && hmac.finalized && fresh(block) && block.Length == hmac.outputLen
      invariant n >= 1
      invariant dkm == KStream(h, alg, k, gxy, extra, n)
      invariant kn == KBlock(h, alg, k, gxy, extra, n)
      decreases keysize - |dkm|
    {
      NextBlock(hmac, kn, gxy, extra, block);
      n := n + 1;
      dkm := dkm + block[..];
      kn := block[..];
    }
    AppendixBFromAnyStream(h, alg, k, gxy, extra, keysize, n);
    dkm := dkm[..keysize];
  }

  /// prf(K, K(n-1) [gxy] [extra]) into block.
  method NextBlock(hmac: HMACOperation, kn: seq<u8>, a: Option<seq<u8>>, b: Option<seq<u8>>, block: array<u8>)
    requires hmac.Valid() && hmac.finalized && block !in hmac.Repr()
    requires hmac.outputLen == HashLen(hmac.alg) == block.Length
    modifies hmac.Repr(), block
    ensures hmac.Valid() && hmac.finalized
    ensures block[..] == HmacValue(hmac.hash, hmac.alg, hmac.key, kn + (OrEmpty(a) + OrEmpty(b)))
  {
    var parts := [kn] + Parts(a) + Parts(b);
    ChainParts(kn, a, b);
    var rv := Prf(hmac, parts, block);
  }

  lemma ChainParts(kn: seq<u8>, a: Option<seq<u8>>, b: Option<seq<u8>>)
    ensures Concat([kn] + Parts(a) + Parts(b)) == kn + (OrEmpty(a) + OrEmpty(b))
  {
    assert [kn] + Parts(a) + Parts(b) == [kn] + (Parts(a) + Parts(b));
    ConcatAppend([kn], Parts(a) + Parts(b));
    ConcatOne(kn);
    ConcatParts(a, b);
  }

  /// K1 into block.
  method FirstBlock(hmac: HMACOperation, a: Option<seq<u8>>, b: Option<seq<u8>>, block: array<u8>)
    requires hmac.Valid() && !hmac.inUse && block !in hmac.Repr()
    requires hmac.outputLen == HashLen(hmac.alg) == block.Length
    modifies hmac.Repr(), block
    ensures hmac.Valid() && hmac.finalized
    ensures block[..] == KBlock(hmac.hash, hmac.alg, hmac.key, a, b, 1)
  {
    hide HmacValue, Concat, KBlock, K1Input, Parts;
    var parts := Parts(a) + Parts(b);
    if parts == [] {
      parts := [[0]];
    }
    FirstParts(hmac.hash, hmac.alg, hmac.key, a, b);
    var rv := Prf(hmac, parts, block);
  }

  lemma FirstParts(h: HashFn, alg: HashAlg, k: seq<u8>, a: Option<seq<u8>>, b: Option<seq<u8>>)
    ensures
      var parts := if Parts(a) + Parts(b) == [] then [[0]] else Parts(a) + Parts(b);
      KBlock(h, alg, k, a, b, 1) == HmacValue(h, alg, k, Concat(parts))
  {
    hide HmacValue;
    ConcatOne([0]);
    ConcatParts(a, b);
  }

  // ----- one-block derivations

  /// CKM_IKE1_PRF_DERIVE: prf(K, [prevKey] gxy CKY_I CKY_R keyNumber), cut to
  /// the requested size (section 5 of RFC 2409).
  function Ike1PrfOutcome(h: HashFn, prf: Mechanism, finalized: bool, key: KeyObject, t: Template,
                          gxy: Option<seq<u8>>, prevKey: Option<seq<u8>>, cky: seq<u8>, keyNumber: u8): Outcome
  {
    if CheckBaseKey(prf, key).Some? then Err(CheckBaseKey(prf, key).value)
    else if !t.hasKeyType then Err(CKR_TEMPLATE_INCOMPLETE)
    else if finalized then Err(CKR_OPERATION_NOT_INITIALIZED)
    else match KeySize(t, HashLen(prf.alg))
      case Err(e) => Err(e)
      case Ok(size) =>
        if gxy.None? then Err(CKR_GENERAL_ERROR)
        else if size > HashLen(prf.alg) then Err(CKR_KEY_SIZE_RANGE)
        else match key.value
          case Err(e) => Err(e)
          case Ok(k) => Ok(HmacValue(h, prf.alg, k, OrEmpty(prevKey) + gxy.value + cky + [keyNumber])[..size])
  }

  /// With every condition met the key is the requested first bytes, or all, of
  /// prf(K, [previous key] g^xy cookies number); otherwise the first condition
  /// that fails gives the error.
  lemma Ike1PrfExactly(h: HashFn, prf: Mechanism, finalized: bool, key: KeyObject, t: Template,
                       gxy: Option<seq<u8>>, prevKey: Option<seq<u8>>, cky: seq<u8>, keyNumber: u8)
    ensures
      var r := Ike1PrfOutcome(h, prf, finalized, key, t, gxy, prevKey, cky, keyNumber);
      && (!prf.HmacMech? ==> r == Err(CKR_MECHANISM_PARAM_INVALID))
      && (prf.HmacMech? && key.keyType.Err? ==> r == Err(key.keyType.error))
      && (prf.HmacMech? && key.keyType.Ok? && key.keyType.value != HmacKey(prf.alg) ==>
            r == Err(CKR_KEY_TYPE_INCONSISTENT))
      && (prf.HmacMech? && key.keyType == Ok(HmacKey(prf.alg)) ==>
            if !t.hasKeyType then r == Err(CKR_TEMPLATE_INCOMPLETE)
            else if finalized then r == Err(CKR_OPERATION_NOT_INITIALIZED)
            else if t.factory.Err? then r == Err(t.factory.error)
            else if gxy.None? then r == Err(CKR_GENERAL_ERROR)
            else if t.factory.value.Some? && t.factory.value.value > HashLen(prf.alg) then r == Err(CKR_KEY_SIZE_RANGE)
            else if key.value.Err? then r == Err(key.value.error)
            else
              var block := HmacValue(h, prf.alg, key.value.value,
                                     if prevKey.Some? then prevKey.value + gxy.value + cky + [keyNumber]
                                     else gxy.value + cky + [keyNumber]);
              r == Ok(if t.factory.value.Some? then block[..t.factory.value.value] else block))
  {
    BaseKeyExactly(prf, key);
    if gxy.Some? {
      assert [] + gxy.value + cky + [keyNumber] == gxy.value + cky + [keyNumber];
    }
    if prf.HmacMech? && key.value.Ok? && gxy.Some? {
      var block := HmacValue(h, prf.alg, key.value.value, OrEmpty(prevKey) + gxy.value + cky + [keyNumber]);
      assert block[..HashLen(prf.alg)] == block;
    }
  }

  class Ike1PrfOperation {
    const hash: HashFn
    const prf: Mechanism
    const cky: seq<u8>
    const keyNumber: u8
    var finalized: bool
    var keygxy: Option<seq<u8>>
    var prevKey: Option<seq<u8>>

    constructor (hash: HashFn, prf: Mechanism, keygxy: Option<seq<u8>>, prevKey: Option<seq<u8>>, cky: seq<u8>,
                 keyNumber: u8)
      ensures this.hash == hash && this.prf == prf && this.cky == cky && this.keyNumber == keyNumber
      ensures this.keygxy == keygxy && this.prevKey == prevKey && !finalized
    {
      this.hash, this.prf, this.keygxy, this.prevKey := hash, prf, keygxy, prevKey;
      this.cky, this.keyNumber, finalized := cky, keyNumber, false;
    }

    method Derive(key: KeyObject, t: Template) returns (r: Outcome)
      modifies this`finalized
      ensures r == Ike1PrfOutcome(hash, prf, old(finalized), key, t, keygxy, prevKey, cky, keyNumber)
      ensures finalized == (old(finalized) || (CheckBaseKey(prf, key).None? && t.hasKeyType))
    {
      hide HmacValue, Concat, OrEmpty, Parts;
      var refused := CheckBaseKey(prf, key);
      if refused.Some? {
        return Err(refused.value);
      }
      if !t.hasKeyType {
        return Err(CKR_TEMPLATE_INCOMPLETE);
      }
      if finalized {
        return Err(CKR_OPERATION_NOT_INITIALIZED);
      }
      finalized := true;
      var prfLen := PrfLen(prf).value;
      var size := KeySize(t, prfLen);
      if size.Err? {
        return Err(size.error);
      }
      if keygxy.None? {
        return Err(CKR_GENERAL_ERROR);
      }
      var parts := Parts(prevKey) + [keygxy.value] + [cky] + [[keyNumber]];
      if size.value > prfLen {
        return Err(CKR_KEY_SIZE_RANGE);
      }
      if key.value.Err? {
        return Err(key.value.error);
      }
      var hmac := HMACOperation.Internal(hash, prf, key.value.value, prfLen);
      var out := new u8[prfLen];
      var rv := Prf(hmac.value, parts, out);
      FourParts(prevKey, keygxy.value, cky, keyNumber);
      var block := HmacValue(hash, prf.alg, key.value.value, Concat(parts));
      assert block[..prfLen] == block;
      return Ok(out[..size.value]);
    }
  }

  lemma FourParts(a: Option<seq<u8>>, b: seq<u8>, c: seq<u8>, n: u8)
    ensures Concat(Parts(a) + [b] + [c] + [[n]]) == OrEmpty(a) + b + c + [n]
  {
    ConcatAppend(Parts(a) + [b] + [c], [[n]]);
    ConcatAppend(Parts(a) + [b], [c]);
    ConcatParts(a, Some(b));
    ConcatOne(c);
    ConcatOne([n]);
  }

  /// CKM_IKE_PRF_DERIVE: exactly one block of prf(Ni|Nr, K), prf(K, Ni|Nr) or
  /// prf(K, newKey|Ni|Nr).
  function IkePrfOutcome(h: HashFn, prf: Mechanism, finalized: bool, key: KeyObject, t: Template,
                         dataAsKey: bool, niNr: seq<u8>, rekey: bool, newKey: Option<seq<u8>>): Outcome
  {
    var refused := if dataAsKey then RequireKeyType(key, GenericSecret) else CheckBaseKey(prf, key);
    if refused.Some? then Err(refused.value)
    else if PrfKeyType(prf).Err? then Err(PrfKeyType(prf).error)
    else if finalized then Err(CKR_OPERATION_NOT_INITIALIZED)
    else match KeySize(t, HashLen(prf.alg))
      case Err(e) => Err(e)
      case Ok(size) =>
        match key.value
        case Err(e) => Err(e)
        case Ok(k) =>
          if !dataAsKey && rekey && newKey.None? then Err(CKR_GENERAL_ERROR)
          else if size != HashLen(prf.alg) then Err(CKR_TEMPLATE_INCONSISTENT)
          else if dataAsKey then Ok(HmacValue(h, prf.alg, niNr, k))
          else if rekey then Ok(HmacValue(h, prf.alg, k, newKey.value + niNr))
          else Ok(HmacValue(h, prf.alg, k, niNr))
  }

  /// Which input is the key and which the data: with the data as key, the nonces
  /// key the base key's value; otherwise the base key's value keys the nonces,
  /// after the new key when rekeying. The size can only be the PRF's own.
  lemma IkePrfExactly(h: HashFn, prf: Mechanism, finalized: bool, key: KeyObject, t: Template,
                      dataAsKey: bool, niNr: seq<u8>, rekey: bool, newKey: Option<seq<u8>>)
    requires prf.HmacMech? && key.keyType == Ok(if dataAsKey then GenericSecret else HmacKey(prf.alg))
    ensures
      var r := IkePrfOutcome(h, prf, finalized, key, t, dataAsKey, niNr, rekey, newKey);
      if finalized then r == Err(CKR_OPERATION_NOT_INITIALIZED)
      else if t.factory.Err? then r == Err(t.factory.error)
      else if key.value.Err? then r == Err(key.value.error)
      else if !dataAsKey && rekey && newKey.None? then r == Err(CKR_GENERAL_ERROR)
      else if t.factory.value.Some? && t.factory.value.value != HashLen(prf.alg)
      then r == Err(CKR_TEMPLATE_INCONSISTENT)
      else
        && (dataAsKey ==> r == Ok(HmacValue(h, prf.alg, niNr, key.value.value)))
        && (!dataAsKey && !rekey ==> r == Ok(HmacValue(h, prf.alg, key.value.value, niNr)))
        && (!dataAsKey && rekey ==> r == Ok(HmacValue(h, prf.alg, key.value.value, newKey.value + niNr)))
  {
    BaseKeyExactly(prf, key);
  }

  /// Any other base key or PRF is refused.
  lemma IkePrfRefuses(h: HashFn, prf: Mechanism, finalized: bool, key: KeyObject, t: Template,
                      dataAsKey: bool, niNr: seq<u8>, rekey: bool, newKey: Option<seq<u8>>)
    ensures
      var r := IkePrfOutcome(h, prf, finalized, key, t, dataAsKey, niNr, rekey, newKey);
      && (!dataAsKey && !prf.HmacMech? ==> r == Err(CKR_MECHANISM_PARAM_INVALID))
      && ((dataAsKey || prf.HmacMech?) && key.keyType.Err? ==> r == Err(key.keyType.error))
      && ((dataAsKey || prf.HmacMech?) && key.keyType.Ok?
          && key.keyType.value != (if dataAsKey then GenericSecret else HmacKey(prf.alg)) ==>
            r == Err(CKR_KEY_TYPE_INCONSISTENT))
      && (dataAsKey && !prf.HmacMech? && key.keyType == Ok(GenericSecret) ==> r == Err(CKR_MECHANISM_PARAM_INVALID))
  {
    BaseKeyExactly(prf, key);
  }

  /// prf(K, [first] second) into out.
  method OneBlock(hmac: HMACOperation, first: Option<seq<u8>>, second: seq<u8>, out: array<u8>)
    requires hmac.Valid() && !hmac.inUse && out !in hmac.Repr()
    requires hmac.outputLen == HashLen(hmac.alg) == out.Length
    modifies hmac.Repr(), out
    ensures out[..] == HmacValue(hmac.hash, hmac.alg, hmac.key, OrEmpty(first) + second)
    ensures first.None? ==> OrEmpty(first) + second == second
  {
    var parts := Parts(first) + [second];
    assert Concat(parts) == OrEmpty(first) + second by { ConcatParts(first, Some(second)); }
    hide Concat, Parts, HmacValue;
    var rv := Prf(hmac, parts, out);
  }

  class IkePrfOperation {
    const hash: HashFn
    const prf: Mechanism
    const dataAsKey: bool
    const niNr: seq<u8>
    const rekey: bool
    var finalized: bool
    var newKey: Option<seq<u8>>

    constructor (hash: HashFn, prf: Mechanism, dataAsKey: bool, niNr: seq<u8>, rekey: bool, newKey: Option<seq<u8>>)
      ensures this.hash == hash && this.prf == prf && this.dataAsKey == dataAsKey && this.niNr == niNr
      ensures this.rekey == rekey && this.newKey == newKey && !finalized
    {
      this.hash, this.prf, this.dataAsKey, this.niNr, this.rekey := hash, prf, dataAsKey, niNr, rekey;
      this.newKey, finalized := newKey, false;
    }

    method Derive(key: KeyObject, t: Template) returns (r: Outcome)
      modifies this`finalized
      ensures r == IkePrfOutcome(hash, prf, old(finalized), key, t, dataAsKey, niNr, rekey, newKey)
      ensures
        finalized == (old(finalized)
          || ((if dataAsKey then RequireKeyType(key, GenericSecret) else CheckBaseKey(prf, key)).None?
              && PrfKeyType(prf).Ok?))
    {
      var refused := if dataAsKey then RequireKeyType(key, GenericSecret) else CheckBaseKey(prf, key);
      if refused.Some? {
        return Err(refused.value);
      }
      if PrfKeyType(prf).Err? {
        return Err(PrfKeyType(prf).error);
      }
      if finalized {
        return Err(CKR_OPERATION_NOT_INITIALIZED);
      }
      finalized := true;
      var prfLen := PrfLen(prf).value;
      var size := KeySize(t, prfLen);
      if size.Err? {
        return Err(size.error);
      }
      if key.value.Err? {
        return Err(key.value.error);
      }
      var keyBytes := key.value.value;
      var out := new u8[prfLen];
      if dataAsKey {
        var hmac := HMACOperation.Internal(hash, prf, niNr, prfLen);
        OneBlock(hmac.value, None, keyBytes, out);
      } else {
        var hmac := HMACOperation.Internal(hash, prf, keyBytes, prfLen);
        if rekey {
          if newKey.None? {
            return Err(CKR_GENERAL_ERROR);
          }
          OneBlock(hmac.value, newKey, niNr, out);
        } else {
          OneBlock(hmac.value, None, niNr, out);
        }
      }
      if size.value != out.Length {
        return Err(CKR_TEMPLATE_INCONSISTENT);
      }
      return Ok(out[..]);
    }
  }
}
