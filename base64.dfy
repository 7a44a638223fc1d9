/**
 * The base64 codec behind `s2n_stuffer_read_base64` and `s2n_stuffer_write_base64` (the alphabet and
 * padding of section 4 of RFC 4648), as functions on byte strings. The shift-and-mask expressions of
 * the C code are written as the division and remainder they compute on values below 256; each
 * carries its C form in a comment.
 */
module Base64 {
  import opened Common

  const PAD: uint8 := '=' as uint8

  /** Marks a byte outside the alphabet in `b64_inverse`. */
  const INVALID: nat := 255

  /** `b64[v]`: the character for the 6-bit value `v`. */
  function Alphabet(v: nat): (c: uint8)
    requires v < 64
  {
    if v < 26 then ('A' as int + v) as uint8
    else if v < 52 then ('a' as int + (v - 26)) as uint8
    else if v < 62 then ('0' as int + (v - 52)) as uint8
    else if v == 62 then '+' as uint8
    else '/' as uint8
  }

  /** `b64_inverse[c]`: the 6-bit value of an alphabet character, 64 for the pad `=`, 255 otherwise. */
  function Inverse(c: uint8): (v: nat)
    ensures v <= 64 || v == INVALID
  {
    if 'A' as uint8 <= c <= 'Z' as uint8 then (c - 'A' as uint8) as nat
    else if 'a' as uint8 <= c <= 'z' as uint8 then (c - 'a' as uint8) as nat + 26
    else if '0' as uint8 <= c <= '9' as uint8 then (c - '0' as uint8) as nat + 52
    else if c == '+' as uint8 then 62
    else if c == '/' as uint8 then 63
    else if c == PAD then 64
    else INVALID
  }

  /** `s2n_is_base64_char`: `c` is an alphabet character or the pad. */
  predicate IsBase64Char(c: uint8)
  {
    Inverse(c) != INVALID
  }

  /** `b64_inverse` undoes `b64`. */
  lemma InverseAlphabet(v: nat)
    requires v < 64
    ensures Inverse(Alphabet(v)) == v
  {
  }

  /** `b64` undoes `b64_inverse` on the alphabet, so the two tables are mutually inverse. */
  lemma AlphabetInverse(c: uint8)
    requires Inverse(c) < 64
    ensures Alphabet(Inverse(c)) == c
  {
  }

  /** The base64 characters are exactly the 64 alphabet characters and the pad. */
  lemma IsBase64CharIff(c: uint8)
    ensures IsBase64Char(c) <==> c == PAD || exists v :: 0 <= v < 64 && Alphabet(v) == c
  {
    if IsBase64Char(c) && c != PAD {
      AlphabetInverse(c);
    }
    if exists v :: 0 <= v < 64 && Alphabet(v) == c {
      var v :| 0 <= v < 64 && Alphabet(v) == c;
      InverseAlphabet(v);
    }
  }

  /** The four characters for three input bytes, as the loop of `s2n_stuffer_write_base64` writes them. */
  function EncodeGroup(a: uint8, b: uint8, c: uint8): (r: seq<uint8>)
    ensures |r| == 4
    ensures forall i :: 0 <= i < 4 ==> IsBase64Char(r[i]) && r[i] != PAD
  {
    AlphabetCharIsBase64(a as nat / 4);
    AlphabetCharIsBase64(a as nat % 4 * 16 + b as nat / 16);
    AlphabetCharIsBase64(b as nat % 16 * 4 + c as nat / 64);
    AlphabetCharIsBase64(c as nat % 64);
    [ Alphabet(a as nat / 4),                          // b64[(a >> 2) & 0x3f]
      Alphabet(a as nat % 4 * 16 + b as nat / 16),     // b64[((a << 4) & 0x30) | ((b >> 4) & 0x0f)]
      Alphabet(b as nat % 16 * 4 + c as nat / 64),     // b64[((b << 2) & 0x3c) | ((c >> 6) & 0x03)]
      Alphabet(c as nat % 64) ]                        // b64[c & 0x3f]
  }

  /**
   * `s2n_stuffer_write_base64` on the unread bytes `b`: a group of four characters per three bytes,
   * then a final group padded with `=` for the one or two bytes left over.
   */
  function Encode(b: seq<uint8>): seq<uint8>
  {
    if |b| >= 3 then EncodeGroup(b[0], b[1], b[2]) + Encode(b[3..])
    else if |b| == 2 then
      [ Alphabet(b[0] as nat / 4),
        Alphabet(b[0] as nat % 4 * 16 + b[1] as nat / 16),   // b64[((b[0] << 4) & 0x30) | ((b[1] >> 4) & 0x0f)]
        Alphabet(b[1] as nat % 16 * 4),                      // b64[(b[1] << 2) & 0x3c]
        PAD ]
    else if |b| == 1 then
      [ Alphabet(b[0] as nat / 4),
        Alphabet(b[0] as nat % 4 * 16),                      // b64[(b[0] << 4) & 0x30]
        PAD, PAD ]
    else []
  }

  /** Four characters for every three bytes, the last group counted whole. */
  lemma {:induction false} EncodeLength(b: seq<uint8>)
    ensures |Encode(b)| == 4 * ((|b| + 2) / 3)
    decreases |b|
  {
    if |b| >= 3 {
      EncodeLength(b[3..]);
      assert (|b| + 2) / 3 == (|b[3..]| + 2) / 3 + 1;
    }
  }

  /** How `s2n_stuffer_read_base64` treats one group of four characters. */
  datatype Quantum =
    | Bytes(data: seq<uint8>)  // decoded; fewer than three bytes ends the text
    | NotBase64                // the first character is not base64: the read is undone, an error
    | Malformed                // an error, with the four characters consumed

  /** The three bytes held by the 6-bit values `v1 .. v4`, as `s2n_stuffer_read_base64` assembles them. */
  function Assemble(v1: nat, v2: nat, v3: nat, v4: nat): (r: seq<uint8>)
    requires v1 < 64 && v2 < 64 && v3 < 64 && v4 < 64
    ensures |r| == 3
  {
    [ (v1 * 4 + v2 / 16) as uint8,            // ((v1 << 2) & 0xfc) | ((v2 >> 4) & 0x03)
      (v2 % 16 * 16 + v3 / 4) as uint8,       // ((v2 << 4) & 0xf0) | ((v3 >> 2) & 0x0f)
      (v3 % 4 * 64 + v4) as uint8 ]           // ((v3 << 6) & 0xc0) | (v4 & 0x3f)
  }

  /**
   * One round of `s2n_stuffer_read_base64` on the four characters `q`: the checks in the order the
   * code makes them, then one byte for `xx==`, two for `xxx=` and three otherwise.
   */
  function DecodeQuantum(q: seq<uint8>): (r: Quantum)
    requires |q| == 4
    ensures r.Bytes? ==> 1 <= |r.data| <= 3
  {
    var v1, v2, v3, v4 := Inverse(q[0]), Inverse(q[1]), Inverse(q[2]), Inverse(q[3]);
    if v1 == INVALID then NotBase64
    else if v1 == 64 || v2 == 64 || v2 == INVALID || v3 == INVALID || v4 == INVALID then Malformed
    else if q[2] == PAD then
      if q[3] == PAD && v2 % 16 == 0 then Bytes(Assemble(v1, v2, 0, 0)[..1]) else Malformed
    else if q[3] == PAD then
      if v3 % 4 == 0 then Bytes(Assemble(v1, v2, v3, 0)[..2]) else Malformed
    else Bytes(Assemble(v1, v2, v3, v4))
  }

  /**
   * Where the loop of `s2n_stuffer_read_base64` over `text` stops: whether it succeeds, how many
   * characters it has consumed, and the bytes it has decoded (on an error, those of the rounds
   * before the failing one).
   */
  datatype Decoding = Decoding(ok: bool, consumed: nat, data: seq<uint8>)

  /**
   * The loop of `s2n_stuffer_read_base64`: stop with success when fewer than four characters are
   * left or a round decodes fewer than three bytes; stop with an error on a bad group.
   */
  function Decode(text: seq<uint8>): (r: Decoding)
    ensures r.consumed <= |text| && r.consumed % 4 == 0
    ensures 4 * |r.data| <= 3 * r.consumed
    decreases |text|
  {
    if |text| < 4 then Decoding(true, 0, [])
    else match DecodeQuantum(text[..4])
      case NotBase64 => Decoding(false, 0, [])
      case Malformed => Decoding(false, 4, [])
      case Bytes(d) =>
        if |d| < 3 then Decoding(true, 4, d)
        else
          var rest := Decode(text[4..]);
          Decoding(rest.ok, 4 + rest.consumed, d + rest.data)
  }

  /** Every character `Encode` produces is a base64 character. */
  lemma {:induction false} EncodeIsBase64(b: seq<uint8>)
    ensures forall i :: 0 <= i < |Encode(b)| ==> IsBase64Char(Encode(b)[i])
    decreases |b|
  {
    if |b| >= 3 {
      EncodeIsBase64(b[3..]);
      var g := EncodeGroup(b[0], b[1], b[2]);
      forall i | 0 <= i < 4
        ensures IsBase64Char(g[i])
      {
        AlphabetCharIsBase64(if i == 0 then b[0] as nat / 4
                             else if i == 1 then b[0] as nat % 4 * 16 + b[1] as nat / 16
                             else if i == 2 then b[1] as nat % 16 * 4 + b[2] as nat / 64
                             else b[2] as nat % 64);
      }
    } else if |b| == 2 {
      AlphabetCharIsBase64(b[0] as nat / 4);
      AlphabetCharIsBase64(b[0] as nat % 4 * 16 + b[1] as nat / 16);
      AlphabetCharIsBase64(b[1] as nat % 16 * 4);
    } else if |b| == 1 {
      AlphabetCharIsBase64(b[0] as nat / 4);
      AlphabetCharIsBase64(b[0] as nat % 4 * 16);
    }
  }

  lemma AlphabetCharIsBase64(v: nat)
    requires v < 64
    ensures IsBase64Char(Alphabet(v)) && Alphabet(v) != PAD
  {
    InverseAlphabet(v);
  }

  /** Reassembling the 6-bit values of a full group gives back its three bytes. */
  lemma AssembleGroup(a: uint8, b: uint8, c: uint8)
    ensures Assemble(a as nat / 4, a as nat % 4 * 16 + b as nat / 16, b as nat % 16 * 4 + c as nat / 64, c as nat % 64)
            == [a, b, c]
  {
    var x, y, z := a as nat, b as nat, c as nat;
    var v2, v3 := x % 4 * 16 + y / 16, y % 16 * 4 + z / 64;
    assert v2 / 16 == x % 4 && v2 % 16 == y / 16;
    assert v3 / 4 == y % 16 && v3 % 4 == z / 64;
  }

  /** A full group decodes to the three bytes it encodes. */
  lemma DecodeGroup(a: uint8, b: uint8, c: uint8)
    ensures DecodeQuantum(EncodeGroup(a, b, c)) == Bytes([a, b, c])
  {
    var g := EncodeGroup(a, b, c);
    var v1, v2, v3, v4 := a as nat / 4, a as nat % 4 * 16 + b as nat / 16, b as nat % 16 * 4 + c as nat / 64, c as nat % 64;
    InverseAlphabet(v1);
    InverseAlphabet(v2);
    InverseAlphabet(v3);
    InverseAlphabet(v4);
    assert Inverse(g[0]) == v1 && Inverse(g[1]) == v2 && Inverse(g[2]) == v3 && Inverse(g[3]) == v4;
    AlphabetCharIsBase64(v3);
    AlphabetCharIsBase64(v4);
    assert g[2] != PAD && g[3] != PAD;
    AssembleGroup(a, b, c);
  }

  /** The final group for two bytes, `xxx=`, decodes to them. */
  lemma DecodePair(q: seq<uint8>, a: uint8, b: uint8)
    requires |q| == 4 && q[0] == Alphabet(a as nat / 4) && q[1] == Alphabet(a as nat % 4 * 16 + b as nat / 16)
    requires q[2] == Alphabet(b as nat % 16 * 4) && q[3] == PAD
    ensures DecodeQuantum(q) == Bytes([a, b])
  {
    var x, y := a as nat, b as nat;
    var v1, v2, v3 := x / 4, x % 4 * 16 + y / 16, y % 16 * 4;
    InverseAlphabet(v1);
    InverseAlphabet(v2);
    InverseAlphabet(v3);
    AlphabetCharIsBase64(v3);
    assert v3 % 4 == 0;
    assert v2 / 16 == x % 4 && v2 % 16 == y / 16 && v3 / 4 == y % 16;
    assert Assemble(v1, v2, v3, 0)[..2] == [a, b];
  }

  /** The final group for one byte, `xx==`, decodes to it. */
  lemma DecodeSingle(q: seq<uint8>, a: uint8)
    requires |q| == 4 && q[0] == Alphabet(a as nat / 4) && q[1] == Alphabet(a as nat % 4 * 16)
    requires q[2] == PAD && q[3] == PAD
    ensures DecodeQuantum(q) == Bytes([a])
  {
    var x := a as nat;
    var v1, v2 := x / 4, x % 4 * 16;
    InverseAlphabet(v1);
    InverseAlphabet(v2);
    assert v2 % 16 == 0 && v2 / 16 == x % 4;
    assert Assemble(v1, v2, 0, 0)[..1] == [a];
  }

  /** The padded final group decodes to the one or two bytes it encodes. */
  lemma DecodeTail(b: seq<uint8>)
    requires 1 <= |b| <= 2
    ensures DecodeQuantum(Encode(b)) == Bytes(b)
  {
    if |b| == 2 {
      DecodeTailPair(b);
    } else {
      DecodeTailSingle(b);
    }
  }

  lemma DecodeTailPair(b: seq<uint8>)
    requires |b| == 2
    ensures DecodeQuantum(Encode(b)) == Bytes(b)
  {
    DecodePair(Encode(b), b[0], b[1]);
    assert [b[0], b[1]] == b;
  }

  lemma DecodeTailSingle(b: seq<uint8>)
    requires |b| == 1
    ensures DecodeQuantum(Encode(b)) == Bytes(b)
  {
    DecodeSingle(Encode(b), b[0]);
    assert [b[0]] == b;
  }

  /**
   * Round trip: `s2n_stuffer_read_base64` on the text `s2n_stuffer_write_base64` produced succeeds,
   * consumes all of it, and decodes exactly the original bytes.
   */
  lemma {:induction false} DecodeEncode(b: seq<uint8>)
    ensures Decode(Encode(b)) == Decoding(true, |Encode(b)|, b)
    decreases |b|
  {
    var e := Encode(b);
    if |b| >= 3 {
      var g, rest := EncodeGroup(b[0], b[1], b[2]), Encode(b[3..]);
      assert e[..4] == g && e[4..] == rest;
      DecodeGroup(b[0], b[1], b[2]);
      DecodeEncode(b[3..]);
      assert [b[0], b[1], b[2]] + b[3..] == b;
    } else if |b| > 0 {
      assert e[..4] == e;
      DecodeTail(b);
    }
  }

  /** Text after a complete encoding does not change how that encoding decodes. */
  lemma {:induction false} DecodeEncodeThenMore(b: seq<uint8>, more: seq<uint8>)
    requires |b| % 3 != 0
    ensures Decode(Encode(b) + more) == Decoding(true, |Encode(b)|, b)
    decreases |b|
  {
    var e := Encode(b);
    if |b| >= 3 {
      var g, rest := EncodeGroup(b[0], b[1], b[2]), Encode(b[3..]);
      assert (e + more)[..4] == g && (e + more)[4..] == rest + more;
      DecodeGroup(b[0], b[1], b[2]);
      DropThree(|b|);
      DecodeEncodeThenMore(b[3..], more);
      assert [b[0], b[1], b[2]] + b[3..] == b;
    } else {
      assert (e + more)[..4] == e;
      DecodeTail(b);
    }
  }

  /** Three bytes fewer leave the same remainder modulo three. */
  lemma DropThree(n: nat)
    requires n >= 3
    ensures (n - 3) % 3 == n % 3
  {
  }
}
