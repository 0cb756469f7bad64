/// The streaming hash and keyed-hash operations (src/ossl/hash.rs,
/// src/native/hmac.rs) over an uninterpreted hash function, refined to the
/// one-line definition of HMAC in section 4 of FIPS 198-1.
module Hmac {
  import opened Bytes
  import opened Common

  datatype HashAlg =
    | SHA_1 | SHA224 | SHA256 | SHA384 | SHA512
    | SHA3_224 | SHA3_256 | SHA3_384 | SHA3_512
    | SHA512_224 | SHA512_256

  /// The mechanisms that name a hash, in the three roles the tables list.
  datatype Mechanism =
    | HashMech(alg: HashAlg)
    | HmacMech(alg: HashAlg)
    | HmacGeneralMech(alg: HashAlg)
    | OtherMech(id: nat)

  const MAX_BSZ: nat := 160

  function HashLen(alg: HashAlg): (n: nat)
    ensures 20 <= n <= 64
  {
    match alg
    case SHA_1 => 20
    case SHA224 | SHA3_224 | SHA512_224 => 28
    case SHA256 | SHA3_256 | SHA512_256 => 32
    case SHA384 | SHA3_384 => 48
    case SHA512 | SHA3_512 => 64
  }

  function BlockLen(alg: HashAlg): (n: nat)
    ensures HashLen(alg) < n <= MAX_BSZ
  {
    match alg
    case SHA_1 | SHA224 | SHA256 => 64
    case SHA384 | SHA512 | SHA512_224 | SHA512_256 => 128
    case SHA3_224 => 144
    case SHA3_256 => 136
    case SHA3_384 => 104
    case SHA3_512 => 72
  }

  /// A hash family: any function whose outputs have the advertised length.
  type HashFn = f: (HashAlg, seq<u8>) -> seq<u8> | forall a, m :: |f(a, m)| == HashLen(a)
    witness (a: HashAlg, m: seq<u8>) => seq(HashLen(a), i => 0)

  function Pow2(i: nat): (r: nat)
    ensures r > 0
  {
    if i == 0 then 1 else 2 * Pow2(i - 1)
  }

  /// Exclusive or of the k low bits.
  function XorLow(a: nat, b: nat, k: nat): (x: nat)
    ensures x < Pow2(k)
  {
    if k == 0 then 0 else (a + b) % 2 + 2 * XorLow(a / 2, b / 2, k - 1)
  }

  function Xor(a: u8, b: u8): u8 {
    assert Pow2(8) == 256 by { assert Pow2(4) == 16; }
    XorLow(a, b, 8)
  }

  function Zeros(n: nat): (s: seq<u8>)
    ensures |s| == n
  {
    seq(n, i => 0)
  }

  /// The key adjusted to one block: padded with zeros, or hashed first when
  /// it is longer than a block.
  function BlockKey(h: HashFn, alg: HashAlg, key: seq<u8>): (k0: seq<u8>)
    ensures |k0| == BlockLen(alg)
  {
    if |key| <= BlockLen(alg) then key + Zeros(BlockLen(alg) - |key|)
    else h(alg, key) + Zeros(BlockLen(alg) - HashLen(alg))
  }

  function Padded(c: u8, k0: seq<u8>): (s: seq<u8>)
    ensures |s| == |k0|
  {
    seq(|k0|, i requires 0 <= i < |k0| => Xor(c, k0[i]))
  }

  /// HMAC(K, text) = H((K0 ^ opad) || H((K0 ^ ipad) || text)).
  function HmacValue(h: HashFn, alg: HashAlg, key: seq<u8>, text: seq<u8>): (m: seq<u8>)
    ensures |m| == HashLen(alg)
  {
    var k0 := BlockKey(h, alg, key);
    h(alg, Padded(0x5c, k0) + h(alg, Padded(0x36, k0) + text))
  }

  // ----- HMAC without reference to how the key is adjusted

  /// Block sizes: for SHA-3 twice the hash length short of 200 bytes, otherwise
  /// 64 or, for the variants over 64-bit words, 128.
  lemma HashSizes(alg: HashAlg)
    ensures alg in {SHA3_224, SHA3_256, SHA3_384, SHA3_512} ==> BlockLen(alg) == 200 - 2 * HashLen(alg)
    ensures alg in {SHA_1, SHA224, SHA256} ==> BlockLen(alg) == 64
    ensures alg in {SHA384, SHA512, SHA512_224, SHA512_256} ==> BlockLen(alg) == 128
    ensures HashLen(SHA_1) == 20
    ensures alg in {SHA224, SHA3_224, SHA512_224} ==> 8 * HashLen(alg) == 224
    ensures alg in {SHA256, SHA3_256, SHA512_256} ==> 8 * HashLen(alg) == 256
    ensures alg in {SHA384, SHA3_384} ==> 8 * HashLen(alg) == 384
    ensures alg in {SHA512, SHA3_512} ==> 8 * HashLen(alg) == 512
  {
  }

  function Bit(x: nat, i: nat): nat { x / Pow2(i) % 2 }

  lemma BitOfHalf(x: nat, i: nat)
    requires i > 0
    ensures Bit(x, i) == Bit(x / 2, i - 1)
  {
    DivideTwice(x, 2, Pow2(i - 1));
  }

  lemma FirstBit(x: nat)
    ensures Bit(x, 0) == x % 2
  {
    assert Pow2(0) == 1;
  }

  lemma Halve(c: nat, low: nat)
    requires c < 2
    ensures (c + 2 * low) % 2 == c && (c + 2 * low) / 2 == low
  {
  }

  lemma {:induction false} XorLowBit(a: nat, b: nat, k: nat, i: nat)
    requires i < k
    ensures Bit(XorLow(a, b, k), i) == (Bit(a, i) + Bit(b, i)) % 2
  {
    hide Bit, Pow2;
    var x, low := XorLow(a, b, k), XorLow(a / 2, b / 2, k - 1);
    Halve((a + b) % 2, low);
    if i == 0 {
      FirstBit(x);
      FirstBit(a);
      FirstBit(b);
    } else {
      XorLowBit(a / 2, b / 2, k - 1, i - 1);
      BitOfHalf(x, i);
      BitOfHalf(a, i);
      BitOfHalf(b, i);
    }
  }

  /// Bit by bit, exclusive or is addition modulo 2.
  lemma XorBits(a: u8, b: u8, i: nat)
    requires i < 8
    ensures Xor(a, b) / Pow2(i) % 2 == (a / Pow2(i) % 2 + b / Pow2(i) % 2) % 2
    ensures Pow2(0) == 1 && Pow2(i + 1) == 2 * Pow2(i)
  {
    XorLowBit(a, b, 8, i);
  }

  /// A key of one block is mixed with 0x36 for the inner and with 0x5c for the
  /// outer hash, byte by byte.
  lemma HmacOfBlock(h: HashFn, alg: HashAlg, key: seq<u8>, text: seq<u8>)
    requires |key| == BlockLen(alg)
    ensures
      var ipad := seq(|key|, i requires 0 <= i < |key| => Xor(0x36, key[i]));
      var opad := seq(|key|, i requires 0 <= i < |key| => Xor(0x5c, key[i]));
      HmacValue(h, alg, key, text) == h(alg, opad + h(alg, ipad + text))
  {
    assert key + Zeros(0) == key;
    assert Padded(0x36, key) == seq(|key|, i requires 0 <= i < |key| => Xor(0x36, key[i]));
    assert Padded(0x5c, key) == seq(|key|, i requires 0 <= i < |key| => Xor(0x5c, key[i]));
  }

  /// A shorter key counts as if zeros followed it.
  lemma HmacOfShortKey(h: HashFn, alg: HashAlg, key: seq<u8>, zeros: nat, text: seq<u8>)
    requires |key| + zeros <= BlockLen(alg)
    ensures HmacValue(h, alg, key + seq(zeros, i => 0), text) == HmacValue(h, alg, key, text)
  {
    var longer := key + seq(zeros, i => 0);
    assert longer + Zeros(BlockLen(alg) - |longer|) == key + Zeros(BlockLen(alg) - |key|);
  }

  /// A longer key counts as its hash.
  lemma HmacOfLongKey(h: HashFn, alg: HashAlg, key: seq<u8>, text: seq<u8>)
    requires |key| > BlockLen(alg)
    ensures HmacValue(h, alg, key, text) == HmacValue(h, alg, h(alg, key), text)
  {
  }

  function HashAlgOf(mech: Mechanism): (r: Result<HashAlg, Rv>) {
    match mech
    case HmacMech(a) => Ok(a)
    case HmacGeneralMech(a) => Ok(a)
    case _ => Err(CKR_MECHANISM_INVALID)
  }

  /// Exactly the two keyed mechanisms name a hash.
  lemma HashOfMechanism(mech: Mechanism)
    ensures HashAlgOf(mech).Ok? <==> mech.HmacMech? || mech.HmacGeneralMech?
    ensures HashAlgOf(mech).Ok? ==> HashAlgOf(mech).value == mech.alg
    ensures HashAlgOf(mech).Err? ==> HashAlgOf(mech).error == CKR_MECHANISM_INVALID
  {
  }

  /// One streaming digest; `absorbed` stands for the state of its context.
  class HashOperation {
    const alg: HashAlg
    const hash: HashFn
    var absorbed: seq<u8>
    var finalized: bool
    var inUse: bool

    constructor (hash: HashFn, alg: HashAlg)
      ensures this.alg == alg && this.hash == hash
      ensures absorbed == [] && !finalized && !inUse
    {
      this.alg, this.hash := alg, hash;
      absorbed, finalized, inUse := [], false, false;
    }

    method Reset()
      modifies this
      ensures absorbed == [] && !finalized && !inUse
    {
      absorbed, finalized, inUse := [], false, false;
    }

    /// One-shot digest of data into the first len bytes of out.
    method Digest(data: seq<u8>, out: array<u8>, len: nat) returns (rv: Rv)
      requires len <= out.Length
      modifies this, out
      ensures old(inUse || finalized) ==> rv == CKR_OPERATION_NOT_INITIALIZED
      ensures !old(inUse || finalized) && len != HashLen(alg) ==> rv == CKR_GENERAL_ERROR
      ensures rv == CKR_OK <==> !old(inUse || finalized) && len == HashLen(alg)
      ensures rv == CKR_OK ==> finalized && out[..len] == hash(alg, old(absorbed) + data)
      ensures forall i :: len <= i < out.Length ==> out[i] == old(out[i])
    {
      if inUse || finalized {
        return CKR_OPERATION_NOT_INITIALIZED;
      }
      if len != HashLen(alg) {
        return CKR_GENERAL_ERROR;
      }
      finalized := true;
      absorbed := absorbed + data;
      CopyInto(out, hash(alg, absorbed));
      return CKR_OK;
    }

    method DigestUpdate(data: seq<u8>) returns (rv: Rv)
      modifies this
      ensures rv == if old(finalized) then CKR_OPERATION_NOT_INITIALIZED else CKR_OK
      ensures finalized == old(finalized)
      ensures absorbed == if old(finalized) then old(absorbed) else old(absorbed) + data
      ensures inUse == (old(inUse) || !old(finalized))
    {
      if finalized {
        return CKR_OPERATION_NOT_INITIALIZED;
      }
      inUse := true;
      absorbed := absorbed + data;
      return CKR_OK;
    }

    method DigestFinal(out: array<u8>, len: nat) returns (rv: Rv)
      requires len <= out.Length
      modifies this, out
      ensures rv == CKR_OK <==> !old(finalized) && len == HashLen(alg)
      ensures rv == CKR_OK ==> finalized && out[..len] == hash(alg, old(absorbed))
      ensures forall i :: len <= i < out.Length ==> out[i] == old(out[i])
    {
      if finalized {
        return CKR_OPERATION_NOT_INITIALIZED;
      }
      if len != HashLen(alg) {
        return CKR_GENERAL_ERROR;
      }
      finalized := true;
      CopyInto(out, hash(alg, absorbed));
      return CKR_OK;
    }
  }

  /// Overwrites the front of a buffer.
  method CopyInto(out: array<u8>, data: seq<u8>)
    requires |data| <= out.Length
    modifies out
    ensures out[..|data|] == data
    ensures forall i :: |data| <= i < out.Length ==> out[i] == old(out[i])
  {
    for i := 0 to |data|
      invariant out[..i] == data[..i]
      invariant forall j :: i <= j < out.Length ==> out[j] == old(out[j])
    {
      out[i] := data[i];
    }
  }

  method Fill(out: array<u8>, c: u8)
    modifies out
    ensures forall i :: 0 <= i < out.Length ==> out[i] == c
  {
    for i := 0 to out.Length
      invariant forall j :: 0 <= j < i ==> out[j] == c
    {
      out[i] := c;
    }
  }

  /// Exclusive-ors the first n bytes of the block key into both pads.
  method MixPads(ipad: array<u8>, opad: array<u8>, state: array<u8>, n: nat)
    requires ipad != opad && ipad != state && opad != state
    requires n <= ipad.Length && n <= opad.Length && n <= state.Length
    requires forall i :: 0 <= i < n ==> ipad[i] == 0x36 && opad[i] == 0x5c
    modifies ipad, opad
    ensures ipad[..n] == Padded(0x36, state[..n])
    ensures opad[..n] == Padded(0x5c, state[..n])
  {
    for i := 0 to n
      invariant forall j :: 0 <= j < i ==> ipad[j] == Xor(0x36, state[j]) && opad[j] == Xor(0x5c, state[j])
      invariant forall j :: i <= j < n ==> ipad[j] == 0x36 && opad[j] == 0x5c
    {
      ipad[i] := Xor(ipad[i], state[i]);
      opad[i] := Xor(opad[i], state[i]);
    }
  }

  /// The HMAC operation with its three block buffers and inner digest.
  class HMACOperation {
    const alg: HashAlg
    const hash: HashFn
    const key: seq<u8>
    const outputLen: nat
    const state: array<u8>
    const ipad: array<u8>
    const opad: array<u8>
    const inner: HashOperation
    var finalized: bool
    var inUse: bool

    /// The text fed since the operation was created or last reset.
    ghost var text: seq<u8>

    ghost function Repr(): set<object> {
      {this, state, ipad, opad, inner}
    }

    ghost function K0(): (k: seq<u8>)
      ensures |k| == BlockLen(alg)
    {
      BlockKey(hash, alg, key)
    }

    ghost predicate Shape() {
      && state.Length == ipad.Length == opad.Length == MAX_BSZ
      && state != ipad && state != opad && ipad != opad
      && inner.alg == alg && inner.hash == hash
      && outputLen <= HashLen(alg)
    }

    /// While the operation runs, the inner digest has absorbed the inner pad
    /// and the text, and the outer pad is ready.
    ghost predicate Valid()
      reads this, opad, inner
    {
      && Shape()
      && (!finalized ==>
            && !inner.finalized
            && inner.absorbed == Padded(0x36, K0()) + text
            && opad[..BlockLen(alg)] == Padded(0x5c, K0()))
      && (!inUse && !finalized ==> text == [])
    }

    /// Allocates the buffers; Init must follow.
    constructor (hash: HashFn, alg: HashAlg, key: seq<u8>, outputLen: nat)
      requires outputLen <= HashLen(alg)
      ensures this.alg == alg && this.hash == hash && this.key == key && this.outputLen == outputLen
      ensures Shape() && fresh(Repr())
      ensures !finalized && !inUse && text == []
      ensures !inner.finalized && !inner.inUse && inner.absorbed == []
      ensures forall i :: 0 <= i < MAX_BSZ ==> state[i] == 0 && ipad[i] == 0x36 && opad[i] == 0x5c
    {
      this.hash, this.alg, this.key, this.outputLen := hash, alg, key, outputLen;
      state := new u8[MAX_BSZ](i => 0);
      ipad := new u8[MAX_BSZ](i => 0x36);
      opad := new u8[MAX_BSZ](i => 0x5c);
      inner := new HashOperation(hash, alg);
      finalized, inUse, text := false, false, [];
    }

    /// A ready operation for an HMAC mechanism.
    static method Internal(hash: HashFn, mech: Mechanism, key: seq<u8>, outputLen: nat)
      returns (r: Result<HMACOperation, Rv>)
      requires HashAlgOf(mech).Ok? ==> outputLen <= HashLen(HashAlgOf(mech).value)
      ensures r.Ok? <==> HashAlgOf(mech).Ok?
      ensures r.Err? ==> r.error == CKR_MECHANISM_INVALID
      ensures r.Ok? ==>
        var op := r.value;
        && fresh(op.Repr()) && op.Valid() && !op.finalized && !op.inUse && op.text == []
        && op.hash == hash && op.alg == HashAlgOf(mech).value && op.key == key && op.outputLen == outputLen
    {
      match HashAlgOf(mech)
      case Err(e) => return Err(e);
      case Ok(alg) =>
        var op := new HMACOperation(hash, alg, key, outputLen);
        op.Init();
        return Ok(op);
    }

    /// Forms K0, mixes it into both pads and starts the inner digest.
    method Init()
      requires Shape() && !finalized && !inUse && text == []
      requires !inner.finalized && !inner.inUse && inner.absorbed == []
      requires forall i :: 0 <= i < MAX_BSZ ==> state[i] == 0 && ipad[i] == 0x36 && opad[i] == 0x5c
      modifies state, ipad, opad, inner
      ensures Valid()
    {
      LoadKey();
      MixPads(ipad, opad, state, BlockLen(alg));
      inner.Reset();
      var rv := inner.DigestUpdate(ipad[..BlockLen(alg)]);
      assert [] + ipad[..BlockLen(alg)] == Padded(0x36, K0()) + text;
    }

    method LoadKey()
      requires Shape() && !inner.finalized && !inner.inUse && inner.absorbed == []
      requires forall i :: 0 <= i < MAX_BSZ ==> state[i] == 0
      modifies state, inner
      ensures state[..BlockLen(alg)] == K0()
    {
      if |key| <= BlockLen(alg) {
        CopyInto(state, key);
      } else {
        var rv := inner.Digest(key, state, HashLen(alg));
      }
      ghost var kept := if |key| <= BlockLen(alg) then key else hash(alg, key);
      assert state[..|kept|] == kept by { assert [] + key == key; }
      assert state[..BlockLen(alg)] == state[..|kept|] + state[|kept|..BlockLen(alg)] == K0();
    }

    method Begin() returns (rv: Rv)
      ensures rv == if inUse then CKR_OPERATION_NOT_INITIALIZED else CKR_OK
    {
      return if inUse then CKR_OPERATION_NOT_INITIALIZED else CKR_OK;
    }

    method MacUpdate(data: seq<u8>) returns (rv: Rv)
      requires Valid()
      modifies this, inner
      ensures Valid() && finalized == old(finalized)
      ensures rv == if old(finalized) then CKR_OPERATION_NOT_INITIALIZED else CKR_OK
      ensures text == if old(finalized) then old(text) else old(text) + data
    {
      if finalized {
        return CKR_OPERATION_NOT_INITIALIZED;
      }
      inUse := true;
      rv := inner.DigestUpdate(data);
      text := text + data;
      assert Padded(0x36, K0()) + text == Padded(0x36, K0()) + old(text) + data;
    }

    method MacFinal(output: array<u8>) returns (rv: Rv)
      requires Valid() && output !in Repr()
      modifies this, state, inner, output
      ensures Valid() && finalized
      ensures rv == if old(finalized) then CKR_OPERATION_NOT_INITIALIZED
                    else if output.Length != outputLen then CKR_GENERAL_ERROR else CKR_OK
      ensures rv == CKR_OK ==> output[..] == HmacValue(hash, alg, key, old(text))[..outputLen]
    {
      if finalized {
        return CKR_OPERATION_NOT_INITIALIZED;
      }
      inUse, finalized := true, true;
      if output.Length != outputLen {
        return CKR_GENERAL_ERROR;
      }
      FinishDigests();
      CopyInto(output, state[..outputLen]);
      assert state[..outputLen] == state[..HashLen(alg)][..outputLen];
      assert output[..] == output[..outputLen];
      return CKR_OK;
    }

    /// Leaves the outer digest of the inner digest in the state buffer.
    method FinishDigests()
      requires Shape() && !inner.finalized
      requires inner.absorbed == Padded(0x36, K0()) + text
      requires opad[..BlockLen(alg)] == Padded(0x5c, K0())
      modifies state, inner
      ensures state[..HashLen(alg)] == HmacValue(hash, alg, key, text)
    {
      var hashLen := HashLen(alg);
      var rv := inner.DigestFinal(state, hashLen);
      inner.Reset();
      rv := inner.DigestUpdate(opad[..BlockLen(alg)]);
      rv := inner.DigestUpdate(state[..hashLen]);
      assert [] + opad[..BlockLen(alg)] == opad[..BlockLen(alg)];
      rv := inner.DigestFinal(state, hashLen);
    }

    /// Starts over with the same key, whatever happened before.
    method Reset()
      requires Valid()
      modifies Repr()
      ensures Valid() && !finalized && !inUse && text == []
    {
      Fill(state, 0);
      Fill(ipad, 0x36);
      Fill(opad, 0x5c);
      inner.Reset();
      finalized, inUse, text := false, false, [];
      Init();
    }

    /// One-shot MAC; refused once the operation has been used.
    method Mac(data: seq<u8>, output: array<u8>) returns (rv: Rv)
      requires Valid() && output !in Repr()
      modifies Repr(), output
      ensures Valid()
      ensures old(inUse || finalized) ==> rv == CKR_OPERATION_NOT_INITIALIZED
      ensures !old(inUse || finalized) ==>
        && finalized
        && rv == (if output.Length == outputLen then CKR_OK else CKR_GENERAL_ERROR)
        && (rv == CKR_OK ==> output[..] == HmacValue(hash, alg, key, data)[..outputLen])
    {
      rv := Begin();
      if rv != CKR_OK {
        return;
      }
      rv := MacUpdate(data);
      if rv != CKR_OK {
        return;
      }
      assert text == data;
      rv := MacFinal(output);
    }
  }
}
