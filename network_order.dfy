/**
 * Network byte order (big-endian) encoding of unsigned integers, the arithmetic
 * behind `s2n_stuffer_read_uintN` / `s2n_stuffer_write_uintN`.
 */
module NetworkOrder {
  import opened Common

  /** 256^n: one more than the largest value `n` bytes can hold. */
  function Pow256(n: nat): (r: nat)
    ensures r > 0
  {
    if n == 0 then 1 else 256 * Pow256(n - 1)
  }

  /** The `width` low-order bytes of `v`, most significant byte first. */
  function ToBigEndian(v: nat, width: nat): (r: seq<uint8>)
    ensures |r| == width
  {
    if width == 0 then [] else ToBigEndian(v / 256, width - 1) + [(v % 256) as uint8]
  }

  /** The unsigned value of `s` read most significant byte first. */
  function FromBigEndian(s: seq<uint8>): nat
  {
    if s == [] then 0 else FromBigEndian(s[..|s| - 1]) * 256 + s[|s| - 1] as nat
  }

  /** `n` bytes never decode to a value that does not fit in `n` bytes. */
  lemma {:induction false} FromBigEndianBound(s: seq<uint8>)
    ensures FromBigEndian(s) < Pow256(|s|)
  {
    if s != [] {
      FromBigEndianBound(s[..|s| - 1]);
    }
  }

  lemma {:induction false} MulAtLeast(m: int, k: nat)
    requires m > 0 && k >= 1
    ensures m * k >= m
  {
    if k > 1 {
      MulAtLeast(m, k - 1);
      assert m * k == m * (k - 1) + m;
    }
  }

  /** Euclidean division has one answer: quotient `a` and remainder `b`. */
  lemma ModUnique(x: int, m: int, a: int, b: int)
    requires m > 0 && 0 <= b < m && x == m * a + b
    ensures x % m == b && x / m == a
  {
    var q, r := x / m, x % m;
    assert m * (q - a) == b - r;
    if q > a {
      MulAtLeast(m, q - a);
    } else if q < a {
      MulAtLeast(m, a - q);
    }
  }

  /** Reducing modulo `256 * p` keeps the low byte and reduces the rest modulo `p`. */
  lemma ModByteThenRest(v: nat, p: nat)
    requires p > 0
    ensures v % (256 * p) == 256 * ((v / 256) % p) + v % 256
  {
    var q, r := v / 256, v % 256;
    var a, b := q / p, q % p;
    assert v == 256 * q + r;
    assert q == p * a + b;
    assert 256 * q == (256 * p) * a + 256 * b;
    assert 256 * b + r < 256 * p;
    ModUnique(v, 256 * p, a, 256 * b + r);
  }

  /** Decoding an encoding gives the value reduced to the encoded width (exactly `v` when it fits). */
  lemma {:induction false} DecodeEncode(v: nat, width: nat)
    ensures FromBigEndian(ToBigEndian(v, width)) == v % Pow256(width)
  {
    if width > 0 {
      var e := ToBigEndian(v, width);
      assert e[..width - 1] == ToBigEndian(v / 256, width - 1);
      DecodeEncode(v / 256, width - 1);
      var p := Pow256(width - 1);
      assert FromBigEndian(e) == 256 * ((v / 256) % p) + v % 256;
      ModByteThenRest(v, p);
    }
  }

  /** Encoding a decoded byte string gives the byte string back. */
  lemma {:induction false} EncodeDecode(s: seq<uint8>)
    ensures ToBigEndian(FromBigEndian(s), |s|) == s
  {
    if s != [] {
      var init := s[..|s| - 1];
      EncodeDecode(init);
      var v := FromBigEndian(s);
      assert v / 256 == FromBigEndian(init) && v % 256 == s[|s| - 1] as nat;
      assert s == init + [s[|s| - 1]];
    }
  }

  /** Only the low `width` bytes of a value are written: `write_uint24` of a 32-bit value drops its top byte. */
  lemma ToBigEndianTruncates(v: nat, width: nat)
    ensures ToBigEndian(v, width) == ToBigEndian(v % Pow256(width), width)
  {
    EncodeDecode(ToBigEndian(v, width));
    DecodeEncode(v, width);
  }

  /** The encoding of a value that fits is exactly the reverse of reading it back. */
  lemma RoundTrip(v: nat, width: nat)
    requires v < Pow256(width)
    ensures FromBigEndian(ToBigEndian(v, width)) == v
  {
    DecodeEncode(v, width);
  }

  /** The 24-bit encoding of 0x010203 is the bytes 01 02 03. */
  lemma Uint24Example()
    ensures ToBigEndian(0x010203, 3) == [0x01, 0x02, 0x03]
  {
    assert ToBigEndian(0x0102, 2) == [0x01, 0x02] by {
      assert ToBigEndian(0x01, 1) == [0x01];
    }
  }
}
