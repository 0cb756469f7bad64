/// Bytes and the fixed-width integer encodings the token uses.
module Bytes {
  type u8 = x: int | 0 <= x < 0x100
  type u32 = x: int | 0 <= x < 0x1_0000_0000
  type u64 = x: int | 0 <= x < 0x1_0000_0000_0000_0000

  const U32_MAX := 0xFFFF_FFFF
  const U64_LIMIT := 0x1_0000_0000_0000_0000

  /// 256 to the k: the number of values k bytes can hold.
  function Pow256(k: nat): (r: nat)
    ensures r > 0
  {
    if k == 0 then 1 else 256 * Pow256(k - 1)
  }

  /// The number a big-endian byte string denotes, leading zeros allowed.
  function FromBigEndian(s: seq<u8>): (r: nat)
  {
    if s == [] then 0 else 256 * FromBigEndian(s[..|s| - 1]) + s[|s| - 1]
  }

  /// The number a little-endian byte string denotes.
  function FromLittleEndian(s: seq<u8>): (r: nat)
  {
    if s == [] then 0 else s[0] + 256 * FromLittleEndian(s[1..])
  }

  /// The k low bytes of x, least significant first.
  function ToLittleEndian(x: nat, k: nat): (s: seq<u8>)
    ensures |s| == k
  {
    if k == 0 then [] else [x % 256] + ToLittleEndian(x / 256, k - 1)
  }

  /// The k low bytes of x, most significant first.
  function ToBigEndianFixed(x: nat, k: nat): (s: seq<u8>)
    ensures |s| == k
  {
    if k == 0 then [] else ToBigEndianFixed(x / 256, k - 1) + [x % 256]
  }

  /// The shortest big-endian byte string denoting x; zero is the empty string.
  function ToBigEndian(x: nat): (s: seq<u8>)
  {
    if x == 0 then [] else ToBigEndian(x / 256) + [x % 256]
  }

  lemma {:induction false} BigEndianRoundTrip(x: nat)
    ensures FromBigEndian(ToBigEndian(x)) == x
    ensures ToBigEndian(x) != [] ==> ToBigEndian(x)[0] != 0
    ensures x != 0 ==> ToBigEndian(x) != []
  {
    if x > 0 {
      BigEndianRoundTrip(x / 256);
      var s := ToBigEndian(x);
      assert s[..|s| - 1] == ToBigEndian(x / 256);
    }
  }

  lemma {:induction false} BigEndianFixedRoundTrip(x: nat, k: nat)
    requires x < Pow256(k)
    ensures FromBigEndian(ToBigEndianFixed(x, k)) == x
  {
    if k > 0 {
      BigEndianFixedRoundTrip(x / 256, k - 1);
      var s := ToBigEndianFixed(x, k);
      assert s[..|s| - 1] == ToBigEndianFixed(x / 256, k - 1);
    }
  }

  lemma {:induction false} LittleEndianRoundTrip(x: nat, k: nat)
    requires x < Pow256(k)
    ensures FromLittleEndian(ToLittleEndian(x, k)) == x
  {
    if k > 0 {
      LittleEndianRoundTrip(x / 256, k - 1);
      assert ToLittleEndian(x, k)[1..] == ToLittleEndian(x / 256, k - 1);
    }
  }

  lemma {:induction false} LittleEndianBytes(s: seq<u8>)
    ensures FromLittleEndian(s) < Pow256(|s|)
    ensures ToLittleEndian(FromLittleEndian(s), |s|) == s
  {
    if s != [] {
      LittleEndianBytes(s[1..]);
      hide *;
      FirstByte(s);
    }
  }

  lemma FirstByte(s: seq<u8>)
    requires s != [] && FromLittleEndian(s[1..]) < Pow256(|s| - 1)
    requires ToLittleEndian(FromLittleEndian(s[1..]), |s| - 1) == s[1..]
    ensures FromLittleEndian(s) < Pow256(|s|)
    ensures ToLittleEndian(FromLittleEndian(s), |s|) == s
  {
    hide *;
    var b, rest := s[0], s[1..];
    var y, k := FromLittleEndian(rest), |rest|;
    assert s == [b] + rest;
    NextPower(k);
    LowestFirst(b, y, k);
    FromFirst(s);
  }

  lemma FromFirst(s: seq<u8>)
    requires s != []
    ensures FromLittleEndian(s) == s[0] + 256 * FromLittleEndian(s[1..])
  {
  }

  lemma LowestFirst(b: u8, y: nat, k: nat)
    ensures ToLittleEndian(b + 256 * y, k + 1) == [b] + ToLittleEndian(y, k)
  {
    LowByte(b, y);
  }

  lemma LowByte(b: u8, y: nat)
    ensures (b + 256 * y) % 256 == b && (b + 256 * y) / 256 == y
  {
  }

  lemma NextPower(k: nat)
    ensures Pow256(k + 1) == 256 * Pow256(k)
  {
  }

  lemma Pow256Values()
    ensures Pow256(0) == 1 && Pow256(1) == 0x100 && Pow256(2) == 0x1_0000 && Pow256(3) == 0x100_0000
    ensures Pow256(4) == 0x1_0000_0000
    ensures Pow256(5) == 0x100_0000_0000 && Pow256(6) == 0x1_0000_0000_0000 && Pow256(7) == 0x100_0000_0000_0000
    ensures Pow256(8) == U64_LIMIT == 0x1_0000_0000_0000_0000
  {
    assert Pow256(1) == 256 && Pow256(2) == 0x1_0000;
    assert Pow256(3) == 0x100_0000 && Pow256(4) == 0x1_0000_0000;
    assert Pow256(5) == 0x100_0000_0000 && Pow256(6) == 0x1_0000_0000_0000;
    assert Pow256(7) == 0x100_0000_0000_0000;
  }

  // ----- where each byte is

  lemma DivideTwice(x: nat, c: nat, b: nat)
    requires b > 0 && c > 0
    ensures c * b > 0 && x / c / b == x / (c * b)
  {
    var q, r := x / c / b, x / c % b;
    ProductSplit(x / c, b);
    ProductSplit(x, c);
    Factors(c, b, q, r);
    Below(c, b, r, x % c);
    QuotientIs(x, c * b, q, c * r + x % c);
  }

  lemma Factors(c: nat, b: nat, q: nat, r: nat)
    ensures c * (b * q + r) == (c * b) * q + c * r
  {
  }

  lemma Below(c: nat, b: nat, r: nat, s: nat)
    requires r < b && s < c
    ensures c * r + s < c * b
  {
    Steps(c, r, b);
  }

  lemma ProductSplit(x: nat, b: nat)
    requires b > 0
    ensures x == b * (x / b) + x % b
  {
  }

  lemma QuotientIs(x: nat, n: nat, q: nat, r: nat)
    requires n > 0 && r < n && x == n * q + r
    ensures x / n == q
  {
    var p := x / n;
    ProductSplit(x, n);
    if p < q {
      Steps(n, p, q);
    } else if q < p {
      Steps(n, q, p);
    }
  }

  lemma {:induction false} Steps(n: nat, p: nat, q: nat)
    requires p < q
    ensures n * p + n <= n * q
  {
    OneStep(n, q - 1);
    if p < q - 1 {
      Steps(n, p, q - 1);
    }
  }

  lemma OneStep(n: nat, p: nat)
    ensures n * (p + 1) == n * p + n
  {
  }

  /// Byte i of a little-endian number has weight 256^i.
  lemma {:induction false} LittleEndianByte(x: nat, k: nat, i: nat)
    requires i < k
    ensures ToLittleEndian(x, k)[i] == x / Pow256(i) % 256
  {
    if i > 0 {
      LittleEndianByte(x / 256, k - 1, i - 1);
      DivideTwice(x, 256, Pow256(i - 1));
    }
  }

  /// Byte i of a big-endian number of k bytes has weight 256^(k-1-i).
  lemma {:induction false} BigEndianByte(x: nat, k: nat, i: nat)
    requires i < k
    ensures ToBigEndianFixed(x, k)[i] == x / Pow256(k - 1 - i) % 256
  {
    if i < k - 1 {
      BigEndianByte(x / 256, k - 1, i);
      DivideTwice(x, 256, Pow256(k - 2 - i));
    }
  }

  /// Reading a little-endian number gives byte i the weight 256^i.
  lemma LittleEndianWeights(s: seq<u8>, i: nat)
    requires i < |s|
    ensures FromLittleEndian(s) < Pow256(|s|) && FromLittleEndian(s) / Pow256(i) % 256 == s[i]
  {
    LittleEndianBytes(s);
    LittleEndianByte(FromLittleEndian(s), |s|, i);
  }

  lemma {:induction false} BigEndianBytes(s: seq<u8>)
    ensures FromBigEndian(s) < Pow256(|s|)
    ensures ToBigEndianFixed(FromBigEndian(s), |s|) == s
  {
    if s != [] {
      BigEndianBytes(s[..|s| - 1]);
      var x := FromBigEndian(s);
      assert x % 256 == s[|s| - 1] && x / 256 == FromBigEndian(s[..|s| - 1]);
      assert s == s[..|s| - 1] + [s[|s| - 1]];
    }
  }

  /// Reading a big-endian number gives byte i the weight 256^(|s|-1-i).
  lemma BigEndianWeights(s: seq<u8>, i: nat)
    requires i < |s|
    ensures FromBigEndian(s) < Pow256(|s|) && FromBigEndian(s) / Pow256(|s| - 1 - i) % 256 == s[i]
  {
    BigEndianBytes(s);
    BigEndianByte(FromBigEndian(s), |s|, i);
  }

  /// The shortest form is the fixed one of as many bytes.
  lemma {:induction false} ShortestIsFixed(x: nat)
    ensures ToBigEndian(x) == ToBigEndianFixed(x, |ToBigEndian(x)|)
  {
    if x > 0 {
      ShortestIsFixed(x / 256);
    }
  }
}
