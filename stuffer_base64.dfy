/**
 * `s2n_stuffer_read_base64` and `s2n_stuffer_write_base64`: the loops that move base64 text between
 * two stuffers, proved against `Base64.Decode` and `Base64.Encode` on the unread bytes.
 */
module StufferBase64 {
  import opened Common
  import opened Stuffers
  import opened Base64

  /**
   * `s2n_stuffer_read_base64`: decode the base64 text at the front of the unread bytes of `s` onto
   * `out`, four characters at a time, until fewer than four are left or a group with padding has
   * been decoded. A group that does not start with a base64 character is left unread; any other bad
   * group is consumed; either is an error. The bytes of each group are written before the next is
   * read, so a failure leaves on `out` a prefix of what the text decodes to.
   */
  method ReadBase64(s: Stuffer, out: Stuffer) returns (ok: bool)
    requires s != out && s.Valid() && out.Valid()
    modifies s`readCursor, out`blob, out`hasData, out`writeCursor, out`highWaterMark
    ensures s.Valid() && out.Valid()
    ensures var d := Decode(old(s.Unread()));
            && (ok ==> d.ok && s.readCursor == old(s.readCursor) + d.consumed
                       && out.Written() == old(out.Written()) + d.data)
            && (!d.ok ==> !ok)
            && old(s.readCursor) <= s.readCursor <= old(s.readCursor) + d.consumed
            && old(out.Written()) <= out.Written() <= old(out.Written()) + d.data
            && (d.ok && |d.data| <= old(out.SpaceRemaining()) ==> ok)
            && (!out.growable || out.tainted ==> (ok <==> d.ok && |d.data| <= old(out.SpaceRemaining())))
  {
    ghost var text := s.Unread();
    ghost var d := Decode(text);
    ghost var rc0, w0, size0 := s.readCursor, out.Written(), |out.blob|;
    ProgressStart(text, w0);
    while s.DataAvailable() >= 4
      invariant Decoded(s, out, text, rc0, w0, size0, d)
      decreases s.DataAvailable()
    {
      var more;
      ok, more := ReadQuantum(s, out, text, rc0, w0, size0, d);
      if !ok || !more {
        return;
      }
    }
    ProgressDone(text, s.readCursor - rc0, w0, out.Written(), d);
    ok := true;
  }

  /**
   * Part-way through `s2n_stuffer_read_base64`, which began at read cursor `rc0` on the text `text`,
   * with `w0` written on `out` and a blob of `size0` bytes: what is left of the text is unread, `out`
   * holds what has been decoded so far, and its blob has not shrunk (nor grown, unless it may grow).
   */
  ghost predicate Decoded(s: Stuffer, out: Stuffer, text: seq<uint8>, rc0: nat, w0: seq<uint8>, size0: nat,
                         d: Decoding)
    reads s, out
  {
    && s.Valid() && out.Valid()
    && rc0 <= s.readCursor && Progress(text, s.readCursor - rc0, w0, out.Written(), d)
    && s.Unread() == text[s.readCursor - rc0..]
    && |out.blob| >= size0 && (!out.growable || out.tainted ==> |out.blob| == size0)
  }

  /**
   * Decoding `text` from its `k`th character on, with `written` already on the output that held
   * `w0` before, finishes the decoding of the whole of `text`.
   */
  ghost predicate Progress(text: seq<uint8>, k: nat, w0: seq<uint8>, written: seq<uint8>, d: Decoding)
  {
    k <= |text| &&
    var r := Decode(text[k..]);
    && d.ok == r.ok && d.consumed == k + r.consumed
    && w0 <= written && written + r.data == w0 + d.data
  }

  /** Nothing decoded yet: the decoding of the rest is the decoding of the whole. */
  lemma ProgressStart(text: seq<uint8>, w0: seq<uint8>)
    ensures Progress(text, 0, w0, w0, Decode(text))
  {
    assert text[0..] == text;
  }

  /** Fewer than four characters left: the decoding is over, with success. */
  lemma ProgressDone(text: seq<uint8>, k: nat, w0: seq<uint8>, written: seq<uint8>, d: Decoding)
    requires Progress(text, k, w0, written, d) && |text| - k < 4
    ensures d.ok && d.consumed == k && written == w0 + d.data
  {
  }

  /**
   * How one more group of four characters moves the decoding of `text` on: it ends on the first
   * character with nothing more consumed; on another bad character with the four consumed; after a
   * padded group with success; and a group of three bytes goes on four characters further. In
   * every case the group's bytes are part of what the whole text decodes to.
   */
  lemma ProgressStep(text: seq<uint8>, k: nat, w0: seq<uint8>, written: seq<uint8>, d: Decoding)
    requires Progress(text, k, w0, written, d) && k + 4 <= |text|
    ensures var q := DecodeQuantum(text[k..][..4]);
            && written <= w0 + d.data
            && (q.NotBase64? ==> !d.ok && d.consumed == k)
            && (q.Malformed? ==> !d.ok && d.consumed == k + 4)
            && (q.Bytes? ==> k + 4 <= d.consumed && |written| + |q.data| <= |w0| + |d.data|)
            && (q.Bytes? && |q.data| < 3 ==> d.ok && d.consumed == k + 4 && written + q.data == w0 + d.data)
            && (q.Bytes? && |q.data| == 3 ==> Progress(text, k + 4, w0, written + q.data, d))
    ensures text[k..][4..] == text[k + 4..]
  {
    assert text[k..][4..] == text[k + 4..];
  }

  /**
   * One round of the `s2n_stuffer_read_base64` loop, with the state of the loop: it goes on
   * (`more`) after a group of three bytes; it stops with success after a padded group, which ends
   * the decoding; it fails on a bad group or when `out` cannot take the bytes.
   */
  method ReadQuantum(s: Stuffer, out: Stuffer, ghost text: seq<uint8>, ghost rc0: nat, ghost w0: seq<uint8>,
                     ghost size0: nat, ghost d: Decoding) returns (ok: bool, more: bool)
    requires s != out && s.DataAvailable() >= 4 && Decoded(s, out, text, rc0, w0, size0, d)
    modifies s`readCursor, out`blob, out`hasData, out`writeCursor, out`highWaterMark
    ensures s.Valid() && out.Valid()
    ensures more ==> ok && Decoded(s, out, text, rc0, w0, size0, d) && s.readCursor == old(s.readCursor) + 4
    ensures ok && !more ==> d.ok && s.readCursor == rc0 + d.consumed && out.Written() == w0 + d.data
                            && (!out.growable || out.tainted ==> |out.blob| == size0)
    ensures !ok ==> (!d.ok || |w0| + |d.data| > size0)
                    && rc0 <= s.readCursor <= rc0 + d.consumed && w0 <= out.Written() <= w0 + d.data
  {
    ghost var k, written := s.readCursor - rc0, out.Written();
    assert |s.Unread()| >= 4;
    ProgressStep(text, k, w0, written, d);
    ok, more := ReadGroup(s, out);
  }

  /**
   * The body of the `s2n_stuffer_read_base64` loop: read four characters and act on how
   * `DecodeQuantum` classifies them. A group that does not start with a base64 character is put
   * back; the bytes of a good group are written to `out`, and a group of three lets the loop go on.
   */
  method ReadGroup(s: Stuffer, out: Stuffer) returns (ok: bool, more: bool)
    requires s != out && s.Valid() && out.Valid() && s.DataAvailable() >= 4
    modifies s`readCursor, out`blob, out`hasData, out`writeCursor, out`highWaterMark
    ensures s.Valid() && out.Valid()
    ensures var u := old(s.Unread());
            var q := DecodeQuantum(u[..4]);
            && (ok <==> q.Bytes? && old(out.CanReserve(|q.data|)))
            && more == (ok && |q.data| == 3)
            && s.readCursor == old(s.readCursor) + (if q.NotBase64? then 0 else 4)
            && s.Unread() == (if q.NotBase64? then u else u[4..])
            && out.Written() == (if ok then old(out.Written()) + q.data else old(out.Written()))
            && |out.blob| >= old(|out.blob|)
            && (!out.growable || out.tainted ==> |out.blob| == old(|out.blob|))
  {
    ghost var u := s.Unread();
    var _, o := s.Read(Blob(Fill(4, 0), false));
    assert o.data == u[..4] && s.Unread() == u[4..];
    match DecodeQuantum(o.data)
    case NotBase64 =>
      s.readCursor := s.readCursor - 4;
      return false, false;
    case Malformed =>
      return false, false;
    case Bytes(data) =>
      out.WriteAppends(data);
      ok := out.WriteBytes(data);
      more := ok && |data| == 3;
  }

  /**
   * `s2n_stuffer_write_base64`: encode all unread bytes of `inp` onto `s`, three bytes to four
   * characters at a time, then the padded group for the one or two bytes left. Each group is read
   * from `inp` before it is written to `s`, so a failed write leaves both part-way: what `s` has
   * gained is then a prefix of the encoding.
   */
  method WriteBase64(s: Stuffer, inp: Stuffer) returns (ok: bool)
    requires s != inp && s.Valid() && inp.Valid()
    modifies s`blob, s`hasData, s`writeCursor, s`highWaterMark, inp`readCursor
    ensures s.Valid() && inp.Valid()
    ensures var e := Encode(old(inp.Unread()));
            && (ok ==> inp.IsConsumed() && s.Written() == old(s.Written()) + e)
            && old(s.Written()) <= s.Written() <= old(s.Written()) + e
            && old(inp.readCursor) <= inp.readCursor
            && (|e| <= old(s.SpaceRemaining()) ==> ok)
            && (!s.growable || s.tainted ==> (ok <==> |e| <= old(s.SpaceRemaining())))
  {
    ghost var e := Encode(inp.Unread());
    ghost var w0, size0 := s.Written(), |s.blob|;
    while inp.DataAvailable() > 2
      invariant Encoded(s, inp, w0, e, size0)
      invariant old(inp.readCursor) <= inp.readCursor
      decreases inp.DataAvailable()
    {
      ok := WriteGroup(s, inp, w0, e, size0);
      if !ok {
        return;
      }
    }
    ok := WriteTail(s, inp, w0, e, size0);
  }

  /**
   * Part-way through `s2n_stuffer_write_base64`, which began with `w0` written on `s`, a blob of
   * `size0` bytes and the encoding `e` to write: `s` holds a prefix of `w0 + e`, the rest being the
   * encoding of what `inp` still holds, and its blob has not shrunk (nor grown, unless it may grow).
   */
  ghost predicate Encoded(s: Stuffer, inp: Stuffer, w0: seq<uint8>, e: seq<uint8>, size0: nat)
    reads s, inp
  {
    && s.Valid() && inp.Valid()
    && Pending(s.Written(), inp.Unread(), w0, e)
    && |s.blob| >= size0 && (!s.growable || s.tainted ==> |s.blob| == size0)
  }

  /** With `written` on the output that held `w0`, encoding `rest` finishes the encoding `e`. */
  ghost predicate Pending(written: seq<uint8>, rest: seq<uint8>, w0: seq<uint8>, e: seq<uint8>)
  {
    written + Encode(rest) == w0 + e && w0 <= written <= w0 + e
  }

  /** Three more bytes encoded as a group leave the encoding of the rest to finish the encoding. */
  lemma PendingGroup(written: seq<uint8>, u: seq<uint8>, w0: seq<uint8>, e: seq<uint8>)
    requires Pending(written, u, w0, e) && |u| >= 3
    ensures Pending(written + EncodeGroup(u[0], u[1], u[2]), u[3..], w0, e)
    ensures |written| + 4 <= |w0| + |e|
  {
    var g, r := EncodeGroup(u[0], u[1], u[2]), Encode(u[3..]);
    assert Encode(u) == g + r;
    assert (written + g) + r == w0 + e;
    PrefixOfAppend(w0, written, g);
    PrefixOfAppend(written + g, w0 + e, r);
  }

  /** A prefix of `a` is a prefix of `a + b`; and `a` is a prefix of what `a + b` equals. */
  lemma PrefixOfAppend(p: seq<uint8>, a: seq<uint8>, b: seq<uint8>)
    ensures p <= a ==> p <= a + b
    ensures a + b == p ==> a <= p
  {
    if p <= a {
      assert forall i :: 0 <= i < |p| ==> (a + b)[i] == a[i];
    }
  }

  /** The encoding of the last one or two bytes finishes the encoding. */
  lemma PendingTail(written: seq<uint8>, u: seq<uint8>, w0: seq<uint8>, e: seq<uint8>)
    requires Pending(written, u, w0, e)
    ensures written + Encode(u) == w0 + e && |written| + |Encode(u)| == |w0| + |e|
  {
  }

  /**
   * The `s2n_stuffer_write_base64` loop body: three bytes of `inp` become four characters on `s`.
   * It fails only when `s` can take no more, and then not the whole encoding either.
   */
  method WriteGroup(s: Stuffer, inp: Stuffer, ghost w0: seq<uint8>, ghost e: seq<uint8>, ghost size0: nat)
      returns (ok: bool)
    requires s != inp && inp.DataAvailable() > 2 && Encoded(s, inp, w0, e, size0)
    modifies s`blob, s`hasData, s`writeCursor, s`highWaterMark, inp`readCursor
    ensures s.Valid() && inp.Valid() && inp.readCursor == old(inp.readCursor) + 3
    ensures var u := old(inp.Unread());
            s.Written() == if ok then old(s.Written()) + EncodeGroup(u[0], u[1], u[2]) else old(s.Written())
    ensures ok ==> Encoded(s, inp, w0, e, size0)
    ensures !ok ==> |w0| + |e| > size0 && w0 <= s.Written() <= w0 + e
  {
    ghost var u := inp.Unread();
    PendingGroup(s.Written(), u, w0, e);
    var _, i := inp.Read(Blob(Fill(3, 0), false));
    assert inp.Unread() == u[3..];
    var g := EncodeGroup(i.data[0], i.data[1], i.data[2]);
    s.WriteAppends(g);
    ok := s.Write(Blob(g, false));
  }

  /**
   * The tail of `s2n_stuffer_write_base64`: the one or two bytes left become a group padded with
   * `=`. It fails only when `s` cannot take the whole encoding.
   */
  method WriteTail(s: Stuffer, inp: Stuffer, ghost w0: seq<uint8>, ghost e: seq<uint8>, ghost size0: nat)
      returns (ok: bool)
    requires s != inp && inp.DataAvailable() <= 2 && Encoded(s, inp, w0, e, size0)
    modifies s`blob, s`hasData, s`writeCursor, s`highWaterMark, inp`readCursor
    ensures s.Valid() && inp.Valid() && inp.IsConsumed()
    ensures var t := Encode(old(inp.Unread()));
            s.Written() == if ok then old(s.Written()) + t else old(s.Written())
    ensures ok ==> Encoded(s, inp, w0, e, size0) && s.Written() == w0 + e
    ensures !ok ==> |w0| + |e| > size0 && w0 <= s.Written() <= w0 + e
  {
    if inp.DataAvailable() == 0 {
      assert Encode(inp.Unread()) == [];
      return true;
    }
    ghost var u := inp.Unread();
    PendingTail(s.Written(), u, w0, e);
    var _, i := inp.Read(Blob(Fill(inp.DataAvailable(), 0), false));
    var o := TailGroup(i.data);
    assert i.data == u;
    s.WriteAppends(o);
    ok := s.Write(Blob(o, false));
  }

  /** The padded group `s2n_stuffer_write_base64` builds for the last one or two bytes. */
  method TailGroup(b: seq<uint8>) returns (o: seq<uint8>)
    requires 1 <= |b| <= 2
    ensures o == Encode(b)
  {
    if |b| == 2 {
      o := [Alphabet(b[0] as nat / 4), Alphabet(b[0] as nat % 4 * 16 + b[1] as nat / 16),
            Alphabet(b[1] as nat % 16 * 4), PAD];
    } else {
      o := [Alphabet(b[0] as nat / 4), Alphabet(b[0] as nat % 4 * 16), PAD, PAD];
    }
  }
}
