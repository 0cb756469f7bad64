/// Counter-based one-time passwords (src/hotp.rs): dynamic truncation, the
/// decimal text, and the sign and verify operations with their look-ahead.
module Hotp {
  import opened Bytes
  import opened Common
  import opened Hmac

  /// Modelled with the wrap-around of 64-bit arithmetic.
  function Next(c: u64): u64 { if c + 1 == U64_LIMIT then 0 else c + 1 }

  const LOOK_AHEAD: nat := 5

  // ----- dynamic truncation (section 5.3 of RFC 4226)

  predicate IsHotpMac(mac: seq<u8>) {
    |mac| == 20 || |mac| == 32 || |mac| == 64
  }

  /// The low four bits of the last byte.
  function Offset(mac: seq<u8>): (o: nat)
    requires IsHotpMac(mac)
    ensures o + 4 <= |mac|
  {
    mac[|mac| - 1] % 16
  }

  /// The 31-bit number at the offset.
  function Truncate(mac: seq<u8>): (v: nat)
    requires IsHotpMac(mac)
    ensures v < 0x8000_0000
  {
    var o := Offset(mac);
    var a: int, b: int, c: int, d: int := mac[o], mac[o + 1], mac[o + 2], mac[o + 3];
    (a % 128) * 0x100_0000 + b * 0x1_0000 + c * 0x100 + d
  }

  function Pow10(k: nat): (r: nat)
    ensures r > 0
  {
    if k == 0 then 1 else 10 * Pow10(k - 1)
  }

  /// Decimal digits of n in ASCII, without padding.
  function Decimal(n: nat): (s: seq<u8>)
    ensures |s| >= 1
  {
    if n < 10 then [0x30 + n] else Decimal(n / 10) + [0x30 + n % 10]
  }

  function ZeroPad(s: seq<u8>, width: nat): (r: seq<u8>)
  {
    if |s| >= width then s else seq(width - |s|, i => 0x30) + s
  }

  /// The number a string of ASCII digits denotes.
  function DecimalValue(s: seq<u8>): int
  {
    if s == [] then 0
    else
      var last: int := s[|s| - 1];
      10 * DecimalValue(s[..|s| - 1]) + last - 0x30
  }

  predicate AllDigits(s: seq<u8>) {
    forall b :: b in s ==> 0x30 <= b <= 0x39
  }

  /// The password text for a MAC.
  function OtpText(mac: seq<u8>, length: nat): (s: seq<u8>)
    requires IsHotpMac(mac)
  {
    ZeroPad(Decimal(Truncate(mac) % Pow10(length)), length)
  }

  lemma {:induction false} DecimalCorrect(n: nat, k: nat)
    requires n < Pow10(k) && k >= 1
    ensures |Decimal(n)| <= k && AllDigits(Decimal(n)) && DecimalValue(Decimal(n)) == n
  {
    if n < 10 {
      assert [0x30 + n][..0] == [];
      assert DecimalValue([]) == 0;
    } else {
      assert k > 1 by { assert Pow10(1) == 10; }
      DecimalCorrect(n / 10, k - 1);
      var s := Decimal(n);
      assert s[..|s| - 1] == Decimal(n / 10);
    }
  }

  lemma {:induction false} LeadingZeros(z: nat, s: seq<u8>)
    ensures DecimalValue(seq(z, i => 0x30) + s) == DecimalValue(s)
  {
    var t := seq(z, i => 0x30) + s;
    if s == [] {
      if z > 0 {
        LeadingZeros(z - 1, []);
        assert t[..z - 1] == seq(z - 1, i => 0x30) + [];
      }
    } else {
      LeadingZeros(z, s[..|s| - 1]);
      assert t[..|t| - 1] == seq(z, i => 0x30) + s[..|s| - 1];
    }
  }

  /// Sections 5.3 and 5.4 of RFC 4226: the password is exactly `length` ASCII
  /// digits whose decimal value, leading zeros included, is the 31-bit
  /// truncation modulo 10^length.
  lemma OtpTextCorrect(mac: seq<u8>, length: nat)
    requires IsHotpMac(mac) && length >= 1
    ensures |OtpText(mac, length)| == length && AllDigits(OtpText(mac, length))
    ensures var o := mac[|mac| - 1] % 16;
      && o + 4 <= |mac|
      && DecimalValue(OtpText(mac, length)) == FromBigEndian([mac[o] % 128] + mac[o + 1..o + 4]) % Pow10(length)
  {
    var d := Decimal(Truncate(mac) % Pow10(length));
    DecimalCorrect(Truncate(mac) % Pow10(length), length);
    LeadingZeros(length - |d|, d);
    if |d| == length { assert seq(0, i => 0x30) + d == d; }
    TruncateExactly(mac);
  }

  /// Section 5.3 of RFC 4226: the low four bits of the last byte say where the
  /// four bytes of the 31-bit number are, and the top bit is dropped.
  lemma TruncateExactly(mac: seq<u8>)
    requires IsHotpMac(mac)
    ensures var o := mac[|mac| - 1] % 16;
      && o + 4 <= |mac|
      && Truncate(mac) == FromBigEndian([mac[o] % 128] + mac[o + 1..o + 4])
      && Truncate(mac) == (mac[o] as int % 128) * 0x100_0000 + (mac[o + 1] as int) * 0x1_0000
                            + (mac[o + 2] as int) * 0x100 + (mac[o + 3] as int)
  {
    var o := mac[|mac| - 1] % 16;
    FourBytes(mac[o] % 128, mac[o + 1], mac[o + 2], mac[o + 3]);
    assert [mac[o] % 128] + mac[o + 1..o + 4] == [mac[o] % 128, mac[o + 1], mac[o + 2], mac[o + 3]];
  }

  lemma Pow10Values()
    ensures Pow10(0) == 1 && Pow10(1) == 10 && Pow10(2) == 100 && Pow10(3) == 1000 && Pow10(4) == 1_0000
    ensures Pow10(5) == 10_0000 && Pow10(6) == 100_0000 && Pow10(7) == 1000_0000 && Pow10(8) == 1_0000_0000
  {
    assert Pow10(2) == 10 * Pow10(1) && Pow10(4) == 10 * Pow10(3);
    assert Pow10(6) == 10 * Pow10(5) && Pow10(8) == 10 * Pow10(7);
  }

  /// Where each decimal digit is, the most significant first.
  lemma {:induction false} PaddedDigit(n: nat, k: nat, i: nat)
    requires n < Pow10(k) && i < k
    ensures |ZeroPad(Decimal(n), k)| == k
    ensures ZeroPad(Decimal(n), k)[i] == 0x30 + n / Pow10(k - 1 - i) % 10
  {
    DecimalCorrect(n, k);
    if n < 10 {
      if i < k - 1 {
        assert Pow10(k - 1 - i) == 10 * Pow10(k - 2 - i);
        QuotientIs(n, Pow10(k - 1 - i), 0, n);
      }
    } else {
      assert k > 1 by { assert Pow10(1) == 10; }
      if i < k - 1 {
        PaddedDigit(n / 10, k - 1, i);
        DivideTwice(n, 10, Pow10(k - 2 - i));
      }
    }
  }

  /// Digit i of a password, from the bytes of the MAC.
  lemma OtpDigit(mac: seq<u8>, length: nat, i: nat)
    requires IsHotpMac(mac) && i < length
    ensures var o := mac[|mac| - 1] % 16;
      && o + 4 <= |mac| && |OtpText(mac, length)| == length
      && OtpText(mac, length)[i] ==
           0x30 + FromBigEndian([mac[o] % 128] + mac[o + 1..o + 4]) % Pow10(length) / Pow10(length - 1 - i) % 10
  {
    TruncateExactly(mac);
    PaddedDigit(Truncate(mac) % Pow10(length), length, i);
  }

  /// The example of section 5.4 of RFC 4226: the password is 872921.
  lemma PublishedExample(mac: seq<u8>)
    requires mac == [0x1f, 0x86, 0x98, 0x69, 0x0e, 0x02, 0xca, 0x16, 0x61, 0x85,
                     0x50, 0xef, 0x7f, 0x19, 0xda, 0x8e, 0x94, 0x5b, 0x55, 0x5a]
    ensures Truncate(mac) == 0x50ef_7f19
    ensures OtpText(mac, 6) == [0x38, 0x37, 0x32, 0x39, 0x32, 0x31]
  {
    hide Truncate, OtpText;
    assert mac[19] == 0x5a && mac[10] == 0x50 && mac[11] == 0xef && mac[12] == 0x7f && mac[13] == 0x19;
    ExampleNumber(mac);
    ExampleText(mac, 0x50ef_7f19 % 100_0000);
    ExampleDigits(0x50ef_7f19 % 100_0000);
  }

  lemma ExampleNumber(mac: seq<u8>)
    requires |mac| == 20 && mac[19] == 0x5a && mac[10] == 0x50 && mac[11] == 0xef && mac[12] == 0x7f && mac[13] == 0x19
    ensures Truncate(mac) == 0x50ef_7f19
  {
    hide Truncate, FromBigEndian;
    TruncateExactly(mac);
  }

  lemma ExampleText(mac: seq<u8>, n: nat)
    requires IsHotpMac(mac) && Truncate(mac) % 100_0000 == n
    ensures OtpText(mac, 6) == ZeroPad(Decimal(n), 6)
  {
    hide Truncate, ZeroPad, Decimal;
    Pow10Values();
  }

  lemma ExampleDigits(n: nat)
    requires n == 87_2921
    ensures ZeroPad(Decimal(n), 6) == [0x38, 0x37, 0x32, 0x39, 0x32, 0x31]
  {
    hide ZeroPad, Decimal;
    Pow10Values();
    PaddedDigit(n, 6, 0);
    PaddedDigit(n, 6, 1);
    PaddedDigit(n, 6, 2);
    PaddedDigit(n, 6, 3);
    PaddedDigit(n, 6, 4);
    PaddedDigit(n, 6, 5);
  }

  lemma FourBytes(a: u8, b: u8, c: u8, d: u8)
    ensures FromBigEndian([a, b, c, d]) == a * 0x100_0000 + b * 0x1_0000 + c * 0x100 + d
  {
    assert [a, b, c, d][..3] == [a, b, c];
    assert [a, b, c][..2] == [a, b];
    assert [a, b][..1] == [a];
    assert [a][..0] == [];
    assert FromBigEndian([]) == 0;
    assert FromBigEndian([a]) == a;
    assert FromBigEndian([a, b]) == 256 * a + b;
  }

  // ----- the operation

  datatype Requirement = Ignored | Optional | Mandatory

  /// The attributes of an OTP key that the operation reads.
  datatype KeyData = KeyData(value: seq<u8>, length: nat, requirement: Requirement, counter: seq<u8>)

  function AlgFor(keyLen: nat): Option<HashAlg> {
    if keyLen == 20 then Some(SHA_1)
    else if keyLen == 32 then Some(SHA256)
    else if keyLen == 64 then Some(SHA512)
    else None
  }

  /// The password of a key at a counter value.
  function OtpAt(h: HashFn, alg: HashAlg, key: seq<u8>, length: nat, c: u64): seq<u8>
    requires alg in {SHA_1, SHA256, SHA512}
  {
    OtpText(HmacValue(h, alg, key, ToBigEndianFixed(c, 8)), length)
  }

  lemma NextExactly(c: u64)
    ensures Next(c) == (c + 1) % 0x1_0000_0000_0000_0000
  {
  }

  /// A key picks the hash whose output is as long as it, and no other.
  lemma AlgForExactly(keyLen: nat, alg: HashAlg)
    ensures AlgFor(keyLen) == Some(alg) <==>
      match alg
      case SHA_1 => keyLen == 20
      case SHA256 => keyLen == 32
      case SHA512 => keyLen == 64
      case _ => false
    ensures AlgFor(keyLen) == Some(alg) ==> keyLen == HashLen(alg)
    ensures AlgFor(keyLen).None? <==> keyLen !in {20, 32, 64}
  {
  }

  /// The password of a counter is that of the MAC of its eight bytes, the most
  /// significant first.
  lemma PasswordExactly(h: HashFn, alg: HashAlg, key: seq<u8>, length: nat, c: u64)
    requires alg in {SHA_1, SHA256, SHA512}
    ensures
      var text: seq<u8> :=
        [c / 0x100_0000_0000_0000 % 0x100, c / 0x1_0000_0000_0000 % 0x100, c / 0x100_0000_0000 % 0x100,
         c / 0x1_0000_0000 % 0x100, c / 0x100_0000 % 0x100, c / 0x1_0000 % 0x100, c / 0x100 % 0x100, c % 0x100];
      && Passwords(h, alg, key, length)(c) == OtpAt(h, alg, key, length, c)
      && OtpAt(h, alg, key, length, c) == OtpText(HmacValue(h, alg, key, text), length)
  {
    hide HmacValue, OtpText;
    Pow256Values();
    var b := ToBigEndianFixed(c, 8);
    BigEndianByte(c, 8, 0);
    BigEndianByte(c, 8, 1);
    BigEndianByte(c, 8, 2);
    BigEndianByte(c, 8, 3);
    BigEndianByte(c, 8, 4);
    BigEndianByte(c, 8, 5);
    BigEndianByte(c, 8, 6);
    BigEndianByte(c, 8, 7);
    assert b == [b[0], b[1], b[2], b[3], b[4], b[5], b[6], b[7]];
  }

  /// All the passwords of a key, by counter.
  function Passwords(h: HashFn, alg: HashAlg, key: seq<u8>, length: nat): (otp: u64 -> seq<u8>)
    requires alg in {SHA_1, SHA256, SHA512}
  {
    (c: u64) => OtpAt(h, alg, key, length, c)
  }

  /// The first counter, of the n starting at c, whose password is given.
  function FirstMatch(otp: u64 -> seq<u8>, c: u64, n: nat, given: seq<u8>): (r: Option<u64>)
    decreases n
  {
    if n == 0 then None
    else if otp(c) == given then Some(c)
    else FirstMatch(otp, Next(c), n - 1, given)
  }

  lemma FirstMatchStep(otp: u64 -> seq<u8>, c: u64, n: nat, given: seq<u8>)
    requires n > 0 && otp(c) != given
    ensures FirstMatch(otp, c, n, given) == FirstMatch(otp, Next(c), n - 1, given)
  {
  }

  /// How many steps i is past c, counting past the largest counter to zero.
  function Past(c: u64, i: u64): nat { (i - c) % U64_LIMIT }

  lemma PastExactly(c: u64, i: u64)
    ensures Past(c, i) == if c <= i then i - c else i - c + U64_LIMIT
    ensures i != c ==> Past(Next(c), i) == Past(c, i) - 1
  {
  }

  /// The match is the first of the n counters from c on, wherever the 64 bits
  /// wrap around.
  lemma {:induction false} FirstMatchExactly(otp: u64 -> seq<u8>, c: u64, n: nat, given: seq<u8>)
    ensures match FirstMatch(otp, c, n, given)
      case Some(j) =>
        otp(j) == given && Past(c, j) < n && forall i: u64 :: Past(c, i) < Past(c, j) ==> otp(i) != given
      case None => forall i: u64 :: Past(c, i) < n ==> otp(i) != given
    decreases n
  {
    hide Past, Next;
    if n > 0 {
      PastExactly(c, c);
      if otp(c) != given {
        FirstMatchExactly(otp, Next(c), n - 1, given);
        forall i: u64
          ensures i != c ==> Past(Next(c), i) == Past(c, i) - 1
        {
          PastExactly(c, i);
        }
      }
    }
  }

  predicate SupportedLength(length: nat) { length == 6 || length == 7 || length == 8 }

  lemma LengthsSupported(length: nat)
    ensures SupportedLength(length) <==> 6 <= length <= 8
    ensures STRUCT_SIZE + PARAM_SIZE == 40
  {
  }

  /// Sizes of the C structures that precede the digits in a signature.
  const STRUCT_SIZE: nat := 16
  const PARAM_SIZE: nat := 24

  /// Clears the top bit at the offset and reads four bytes there.
  method TruncateInPlace(mac: array<u8>) returns (value: nat)
    requires IsHotpMac(mac[..])
    modifies mac
    ensures value == Truncate(old(mac[..]))
  {
    var offset := mac[mac.Length - 1] % 16;
    mac[offset] := mac[offset] % 128;
    FourBytes(mac[offset], mac[offset + 1], mac[offset + 2], mac[offset + 3]);
    assert mac[offset..offset + 4] == [mac[offset], mac[offset + 1], mac[offset + 2], mac[offset + 3]];
    value := FromBigEndian(mac[offset..offset + 4]);
  }

  class HOTPOperation {
    const hmac: HMACOperation
    const length: nat
    var counter: seq<u8>
    var finalized: bool
    var update: Option<bool>

    ghost predicate Valid()
      reads this, hmac, hmac.opad, hmac.inner
    {
      && MacReady()
      && |counter| == 8
      && (!finalized ==> !hmac.inUse && !hmac.finalized)
    }

    ghost predicate MacReady()
      reads hmac, hmac.opad, hmac.inner
    {
      hmac.Valid() && hmac.alg in {SHA_1, SHA256, SHA512} && hmac.outputLen == HashLen(hmac.alg)
    }

    ghost function Repr(): set<object> { {this} + hmac.Repr() }

    function CounterValue(): (c: u64)
      requires |counter| == 8
      reads this
    {
      CounterOf(counter)
    }

    constructor (hmac: HMACOperation, length: nat, counter: seq<u8>, update: Option<bool>)
      requires hmac.Valid() && !hmac.inUse && !hmac.finalized
      requires hmac.alg in {SHA_1, SHA256, SHA512} && hmac.outputLen == HashLen(hmac.alg)
      requires |counter| == 8
      ensures Valid() && this.hmac == hmac && this.length == length
      ensures this.counter == counter && this.update == update && !finalized
    {
      this.hmac, this.length, this.counter, this.update := hmac, length, counter, update;
      finalized := false;
    }

    /// Starts an operation from a key and an optional counter parameter. Only
    /// an operation that uses the key's own counter will write it back.
    static method New(h: HashFn, key: KeyData, param: Option<seq<u8>>) returns (r: Result<HOTPOperation, Rv>)
      ensures r.Ok? ==>
        var op := r.value;
        && fresh(op.Repr()) && op.Valid() && !op.finalized
        && op.hmac.hash == h && Some(op.hmac.alg) == AlgFor(|key.value|) && op.hmac.key == key.value
        && op.length == key.length
        && (if param.Some? && key.requirement != Ignored
            then op.counter == param.value && op.update == None
            else op.counter == key.counter && op.update == Some(false))
      ensures r.Ok? <==>
        && !(param.None? && key.requirement == Mandatory)
        && |if param.Some? && key.requirement != Ignored then param.value else key.counter| == 8
        && AlgFor(|key.value|).Some?
      ensures r.Err? ==> r.error in {CKR_MECHANISM_PARAM_INVALID, CKR_GENERAL_ERROR}
    {
      var update: Option<bool>;
      var cVec: seq<u8>;
      if param.Some? {
        if key.requirement == Optional || key.requirement == Mandatory {
          update, cVec := None, param.value;
        } else {
          update, cVec := Some(false), key.counter;
        }
      } else {
        if key.requirement == Mandatory {
          return Err(CKR_MECHANISM_PARAM_INVALID);
        }
        update, cVec := Some(false), key.counter;
      }
      if |cVec| != 8 {
        return Err(CKR_GENERAL_ERROR);
      }
      var alg := AlgFor(|key.value|);
      if alg.None? {
        return Err(CKR_GENERAL_ERROR);
      }
      var hmac := HMACOperation.Internal(h, HmacMech(alg.value), key.value, HashLen(alg.value));
      var op := new HOTPOperation(hmac.value, key.length, cVec, update);
      return Ok(op);
    }

    /// Writes the password for a counter. Needs an unused MAC operation.
    method GenerateOtp(c: seq<u8>, output: array<u8>) returns (rv: Rv)
      requires MacReady() && output !in hmac.Repr()
      requires !hmac.inUse && !hmac.finalized && |c| == 8
      modifies hmac.Repr(), output
      ensures MacReady()
      ensures rv == if output.Length == length && SupportedLength(length) then CKR_OK else CKR_GENERAL_ERROR
      ensures rv == CKR_OK ==> output[..] == OtpText(HmacValue(hmac.hash, hmac.alg, hmac.key, c), length)
    {
      if output.Length != length {
        return CKR_GENERAL_ERROR;
      }
      var mac := new u8[hmac.outputLen];
      rv := hmac.Mac(c, mac);
      ghost var m := HmacValue(hmac.hash, hmac.alg, hmac.key, c);
      assert mac[..] == m[..hmac.outputLen] == m;
      var value := TruncateInPlace(mac);
      if !SupportedLength(length) {
        return CKR_GENERAL_ERROR;
      }
      var otp := value % Pow10(length);
      var text := ZeroPad(Decimal(otp), length);
      OtpTextCorrect(m, length);
      CopyInto(output, text);
      assert output[..] == output[..length];
      return CKR_OK;
    }

    /// Writes a signature holding the next password and steps the counter.
    method SignFinal(signature: array<u8>) returns (rv: Rv)
      requires Valid() && signature !in Repr()
      modifies Repr(), signature
      ensures Valid()
      ensures old(finalized) ==> rv == CKR_OPERATION_NOT_INITIALIZED
      ensures !old(finalized) && signature.Length < STRUCT_SIZE + PARAM_SIZE + length ==>
        rv == CKR_BUFFER_TOO_SMALL && !finalized
      ensures !old(finalized) && signature.Length >= STRUCT_SIZE + PARAM_SIZE + length ==>
        finalized && rv == if SupportedLength(length) then CKR_OK else CKR_GENERAL_ERROR
      ensures rv == CKR_OK ==>
        && signature[STRUCT_SIZE + PARAM_SIZE..STRUCT_SIZE + PARAM_SIZE + length]
             == OtpAt(hmac.hash, hmac.alg, hmac.key, length, old(CounterValue()))
        && CounterValue() == (if old(update).Some? then Next(old(CounterValue())) else old(CounterValue()))
        && update == (if old(update).Some? then Some(true) else None)
      ensures rv != CKR_OK ==> counter == old(counter) && update == old(update)
      ensures forall i :: STRUCT_SIZE + PARAM_SIZE + length <= i < signature.Length ==>
        signature[i] == old(signature[i])
    {
      if finalized {
        return CKR_OPERATION_NOT_INITIALIZED;
      }
      var head := STRUCT_SIZE + PARAM_SIZE;
      if signature.Length < head + length {
        return CKR_BUFFER_TOO_SMALL;
      }
      finalized := true;
      var otp := new u8[length];
      CounterBytes(counter);
      rv := GenerateOtp(counter, otp);
      if rv != CKR_OK {
        return;
      }
      CopyAt(signature, head, otp[..]);
      if update.Some? {
        SetCounter(Next(CounterOf(counter)));
      }
    }

    /// Compares a password with the one for the i-th counter of the window,
    /// resetting the MAC before every one but the first.
    method TryCounter(ghost otp: u64 -> seq<u8>, i: nat, c: u64, signature: seq<u8>) returns (rv: Rv, hit: bool)
      requires MacReady() && |signature| == length
      requires i == 0 ==> !hmac.inUse && !hmac.finalized
      requires otp == Passwords(hmac.hash, hmac.alg, hmac.key, length)
      modifies hmac.Repr()
      ensures MacReady()
      ensures rv == if SupportedLength(length) then CKR_OK else CKR_GENERAL_ERROR
      ensures rv == CKR_OK ==> (hit <==> otp(c) == signature)
    {
      if i > 0 {
        hmac.Reset();
      }
      var text := new u8[length];
      rv := GenerateOtp(ToBigEndianFixed(c, 8), text);
      hit := signature == text[..];
    }

    /// Accepts a password that matches one of the next five counters, moving
    /// the counter to one past the first match.
    method VerifyFinal(signature: seq<u8>) returns (rv: Rv)
      requires Valid()
      modifies Repr()
      ensures Valid() && finalized
      ensures old(finalized) ==> rv == CKR_OPERATION_NOT_INITIALIZED
      ensures !old(finalized) && |signature| != length ==> rv == CKR_SIGNATURE_LEN_RANGE
      ensures !old(finalized) && |signature| == length && !SupportedLength(length) ==> rv == CKR_GENERAL_ERROR
      ensures !old(finalized) && |signature| == length && SupportedLength(length) ==>
        var otp := Passwords(hmac.hash, hmac.alg, hmac.key, length);
        var found := FirstMatch(otp, old(CounterValue()), LOOK_AHEAD, signature);
        && rv == (if found.Some? then CKR_OK else CKR_SIGNATURE_INVALID)
        && (found.Some? && old(update).Some? ==> CounterValue() == Next(found.value) && update == Some(true))
        && (found.Some? && old(update).None? ==> counter == old(counter) && update == None)
      ensures rv != CKR_OK ==> counter == old(counter) && update == old(update)
    {
      if finalized {
        return CKR_OPERATION_NOT_INITIALIZED;
      }
      finalized := true;
      if |signature| != length {
        return CKR_SIGNATURE_LEN_RANGE;
      }
      var found;
      ghost var otp := Passwords(hmac.hash, hmac.alg, hmac.key, length);
      rv, found := SearchWindow(otp, CounterOf(counter), LOOK_AHEAD, signature);
      if rv != CKR_OK {
        return;
      }
      if found.None? {
        return CKR_SIGNATURE_INVALID;
      }
      if update.Some? {
        SetCounter(Next(found.value));
      }
      return CKR_OK;
    }

    /// Tries the look-ahead counters one by one, resetting the MAC in between.
    method SearchWindow(ghost otp: u64 -> seq<u8>, start: u64, window: nat, signature: seq<u8>)
      returns (rv: Rv, found: Option<u64>)
      requires MacReady() && |signature| == length
      requires !hmac.inUse && !hmac.finalized
      requires otp == Passwords(hmac.hash, hmac.alg, hmac.key, length)
      modifies hmac.Repr()
      ensures MacReady()
      ensures rv == if SupportedLength(length) || window == 0 then CKR_OK else CKR_GENERAL_ERROR
      ensures rv == CKR_OK ==>
        found == FirstMatch(otp, start, window, signature)
    {
      hide Passwords, OtpAt;
      var cVal := start;
      ghost var target := FirstMatch(otp, start, window, signature);
      for i := 0 to window
        invariant MacReady() && (i == 0 ==> !hmac.inUse && !hmac.finalized)
        invariant i > 0 ==> SupportedLength(length)
        invariant target == FirstMatch(otp, cVal, window - i, signature)
      {
        var hit;
        rv, hit := TryCounter(otp, i, cVal, signature);
        if rv != CKR_OK {
          return rv, None;
        }
        if hit {
          return CKR_OK, Some(cVal);
        }
        FirstMatchStep(otp, cVal, window - i, signature);
        cVal := Next(cVal);
      }
      return CKR_OK, None;
    }

    method SetCounter(c: u64)
      requires |counter| == 8
      modifies this`counter, this`update
      ensures |counter| == 8 && CounterValue() == c && update == Some(true)
    {
      FixedCounter(c);
      counter := ToBigEndianFixed(c, 8);
      update := Some(true);
    }

    /// The counter to store back into the key, if it moved.
    method UpdatesObject() returns (r: Option<seq<u8>>)
      ensures r == if update == Some(true) then Some(counter) else None
    {
      return if update == Some(true) then Some(counter) else None;
    }
  }

  /// Overwrites part of a buffer.
  method CopyAt(dst: array<u8>, at: nat, src: seq<u8>)
    requires at + |src| <= dst.Length
    modifies dst
    ensures dst[at..at + |src|] == src
    ensures forall i :: 0 <= i < dst.Length && !(at <= i < at + |src|) ==> dst[i] == old(dst[i])
  {
    for i := 0 to |src|
      invariant dst[at..at + i] == src[..i]
      invariant forall j :: 0 <= j < dst.Length && !(at <= j < at + i) ==> dst[j] == old(dst[j])
    {
      dst[at + i] := src[i];
    }
  }

  function CounterOf(c: seq<u8>): (v: u64)
    requires |c| == 8
  {
    BigEndianBytes(c);
    Pow256Values();
    FromBigEndian(c)
  }

  lemma CounterBytes(c: seq<u8>)
    requires |c| == 8
    ensures ToBigEndianFixed(CounterOf(c), 8) == c
  {
    BigEndianBytes(c);
  }

  lemma FixedCounter(v: u64)
    ensures CounterOf(ToBigEndianFixed(v, 8)) == v
  {
    Pow256Values();
    BigEndianFixedRoundTrip(v, 8);
  }
}
