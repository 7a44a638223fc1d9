/**
 * The text operations of the stuffer (`s2n_stuffer_peek_char`, `s2n_stuffer_read_token`,
 * `s2n_stuffer_skip_whitespace`, ...): scans over the unread bytes that advance the read cursor
 * and never read past the write cursor. Each is proved against a scan of `TextScan` on the
 * unread bytes. A C `char` argument is taken as its byte value.
 */
module StufferText {
  import opened Common
  import opened TextScan
  import opened Stuffers
  import opened StufferNetworkOrder

  const LF: uint8 := '\n' as uint8
  const CR: uint8 := '\r' as uint8

  /** `s2n_stuffer_peek_char`: the next unread byte, left unread; fails when nothing is left. */
  method PeekChar(s: Stuffer) returns (ok: bool, c: uint8)
    requires s.Valid()
    modifies s`readCursor
    ensures s.Valid() && s.readCursor == old(s.readCursor)
    ensures ok <==> 0 < s.DataAvailable()
    ensures ok ==> c == s.Unread()[0]
  {
    ok, c := ReadUint8(s);
    if ok {
      s.readCursor := s.readCursor - 1;
    }
  }

  /**
   * `s2n_stuffer_read_expected_str`: consume `expected` (the bytes of a C string before its
   * terminator) when the unread bytes begin with it; otherwise fail and consume nothing.
   */
  method ReadExpectedStr(s: Stuffer, expected: seq<uint8>) returns (ok: bool)
    requires s.Valid()
    modifies s`readCursor
    ensures s.Valid()
    ensures ok <==> expected <= old(s.Unread())
    ensures s.readCursor == if ok then old(s.readCursor) + |expected| else old(s.readCursor)
  {
    if |expected| == 0 {
      return true;
    }
    if s.DataAvailable() < |expected| {
      return false;
    }
    ok := s.blob[s.readCursor..s.readCursor + |expected|] == expected;
    if ok {
      s.readCursor := s.readCursor + |expected|;
    }
  }

  /** `s2n_stuffer_peek_check_for_str`: whether the unread bytes begin with `expected`; nothing is consumed. */
  method PeekCheckForStr(s: Stuffer, expected: seq<uint8>) returns (ok: bool)
    requires s.Valid()
    modifies s`readCursor
    ensures s.Valid() && s.readCursor == old(s.readCursor)
    ensures ok <==> expected <= s.Unread()
  {
    var origReadPos := s.readCursor;
    ok := ReadExpectedStr(s, expected);
    s.readCursor := origReadPos;
  }

  /**
   * `s2n_stuffer_skip_whitespace`: step over the run of spaces, tabs, line feeds and carriage
   * returns at the read cursor and report its length (possibly zero). Never fails.
   */
  method SkipWhitespace(s: Stuffer) returns (skipped: uint32)
    requires s.Valid()
    modifies s`readCursor
    ensures s.Valid()
    ensures skipped == LeadingWhitespace(old(s.Unread()))
    ensures s.readCursor == old(s.readCursor) + skipped
  {
    ghost var text := s.Unread();
    var initial := s.readCursor;
    while s.readCursor < s.writeCursor
      invariant s.Valid() && initial <= s.readCursor <= s.writeCursor
      invariant forall i :: 0 <= i < s.readCursor - initial ==> IsWhitespace(text[i])
      decreases s.writeCursor - s.readCursor
    {
      if !IsWhitespace(s.blob[s.readCursor]) {
        assert text[s.readCursor - initial] == s.blob[s.readCursor];
        break;
      }
      assert text[s.readCursor - initial] == s.blob[s.readCursor];
      s.readCursor := s.readCursor + 1;
    }
    skipped := s.readCursor - initial;
  }

  /**
   * `s2n_stuffer_skip_to_char`: advance until `target` is the next unread byte, or to the end of
   * the data when it does not occur. Never fails.
   */
  method SkipToChar(s: Stuffer, target: uint8)
    requires s.Valid()
    modifies s`readCursor
    ensures s.Valid()
    ensures s.readCursor == IndexFrom(s.Written(), target, old(s.readCursor))
    ensures s.readCursor == old(s.readCursor) + IndexOf(old(s.Unread()), target)
  {
    ghost var initial := s.readCursor;
    while s.DataAvailable() > 0
      invariant s.Valid() && initial <= s.readCursor <= s.writeCursor
      invariant forall k :: initial <= k < s.readCursor ==> s.blob[k] != target
      decreases s.writeCursor - s.readCursor
    {
      if s.blob[s.readCursor] == target {
        break;
      }
      s.readCursor := s.readCursor + 1;
    }
    IndexFromIsFirst(s.Written(), target, initial, s.readCursor as nat);
    IndexFromIsIndexOf(s.Written(), target, initial);
  }

  /**
   * `s2n_stuffer_skip_expected_char`: consume the run of `expected` at the read cursor, at most
   * `max` of them. Fails when `min > max`, consuming nothing, and when the run is shorter than
   * `min`, after consuming it.
   */
  method SkipExpectedChar(s: Stuffer, expected: uint8, min: uint32, max: uint32) returns (ok: bool, skipped: uint32)
    requires s.Valid()
    modifies s`readCursor
    ensures s.Valid()
    ensures var run := LeadingRun(old(s.Unread()), expected, max);
            && (ok <==> min <= max && min <= run)
            && s.readCursor == old(s.readCursor) + (if min <= max then run else 0)
            && (ok ==> skipped == run)
  {
    if min > max {
      return false, 0;
    }
    ghost var text := s.Unread();
    ghost var initial := s.readCursor;
    var skip: uint32 := 0;
    while s.readCursor < s.writeCursor && skip < max
      invariant s.Valid() && s.readCursor == initial + skip && skip <= max
      invariant forall i :: 0 <= i < skip ==> text[i] == expected
      decreases max - skip
    {
      assert text[skip] == s.blob[s.readCursor];
      if s.blob[s.readCursor] != expected {
        break;
      }
      s.readCursor := s.readCursor + 1;
      skip := skip + 1;
    }
    if skip < min {
      return false, 0;
    }
    ok, skipped := true, skip;
  }

  /**
   * One round of `s2n_stuffer_skip_read_until`'s loop over the written bytes `text`, as
   * `SearchRound`: skip to the target's first byte and take `|target|` bytes; stop (`done`) when
   * too few are left there or they are the target, and otherwise step back to one byte after
   * where they began.
   */
  method SkipReadUntilRound(s: Stuffer, target: seq<uint8>, ghost text: seq<uint8>) returns (done: bool, ok: bool)
    requires s.Valid() && 0 < |target| <= s.DataAvailable() && text == s.Written()
    modifies s`readCursor
    ensures s.Valid()
    ensures var r := SearchRound(text, target, old(s.readCursor));
            && (done <==> r.Stopped?)
            && (done ==> (ok <==> !r.result.Failed?) && s.readCursor == r.result.Stop())
            && (!done ==> s.readCursor == r.next)
  {
    ghost var j := IndexFrom(text, target[0], s.readCursor);
    assert text == s.blob[..s.writeCursor];
    SkipToChar(s, target[0]);
    ok := s.SkipRead(|target|);
    if !ok {
      return true, false;
    }
    assert s.readCursor as nat == j + |target|;
    assert s.blob[j..j + |target|] == text[j..j + |target|] by {
      WindowOfPrefix(s.blob, s.writeCursor as nat, j, j + |target|);
    }
    if s.blob[s.readCursor - |target|..s.readCursor] == target {
      return true, true;
    }
    ok := s.RewindRead(|target| - 1);
    done := false;
  }

  /**
   * `s2n_stuffer_skip_read_until`: search the written bytes from the read cursor for `target` (the
   * bytes of a C string before its terminator) as `SkipUntil` does: skip to its first byte, take
   * `|target|` bytes, stop when they match, else step back to one byte after where they began. An
   * empty target succeeds at once.
   */
  method SkipReadUntil(s: Stuffer, target: seq<uint8>) returns (ok: bool)
    requires s.Valid() && |target| <= UINT32_MAX
    modifies s`readCursor
    ensures s.Valid()
    ensures |target| == 0 ==> ok && s.readCursor == old(s.readCursor)
    ensures |target| > 0 ==> var u := SkipUntil(old(s.Written()), target, old(s.readCursor));
                             && (ok <==> !u.Failed?)
                             && s.readCursor == u.Stop()
  {
    if |target| == 0 {
      return true;
    }
    ghost var text := s.Written();
    ghost var goal := SkipUntil(text, target, s.readCursor);
    while s.DataAvailable() >= |target|
      invariant s.Valid() && text == s.Written()
      invariant SkipUntil(text, target, s.readCursor) == goal
      decreases s.writeCursor - s.readCursor
    {
      var done;
      done, ok := SkipReadUntilRound(s, target, text);
      if done {
        return;
      }
    }
    ok := true;
  }

  /**
   * The scan at the start of `s2n_stuffer_read_token`: the number of unread bytes before the first
   * `delim`, or all of them when there is none. Changes nothing.
   */
  method TokenLength(s: Stuffer, delim: uint8) returns (n: uint32)
    requires s.Valid()
    ensures n as nat == IndexOf(s.Unread(), delim)
  {
    ghost var text := s.Unread();
    n := 0;
    while s.readCursor + n < s.writeCursor
      invariant s.readCursor + n <= s.writeCursor
      invariant forall i :: 0 <= i < n ==> text[i] != delim
      decreases s.writeCursor - s.readCursor - n
    {
      assert text[n] == s.blob[s.readCursor + n];
      if s.blob[s.readCursor + n] == delim {
        break;
      }
      n := n + 1;
    }
  }

  /**
   * `s2n_stuffer_read_token`: copy the unread bytes before the first `delim` (all of them when
   * there is none) to `token`, then consume them and the delimiter if there is one. Fails,
   * changing nothing, when `token` cannot take them.
   */
  method ReadToken(s: Stuffer, token: Stuffer, delim: uint8) returns (ok: bool)
    requires s != token && s.Valid() && token.Valid()
    modifies s`readCursor, token`blob, token`hasData, token`writeCursor, token`highWaterMark
    ensures s.Valid() && token.Valid()
    ensures var n := old(IndexOf(s.Unread(), delim));
            && (ok <==> old(token.CanReserve(n)))
            && (ok ==> && token.blob == Overwrite(old(token.Reserved(n)), old(token.writeCursor), old(s.Unread()[..n]))
                       && token.writeCursor == old(token.writeCursor) + n
                       && token.highWaterMark == Max(old(token.highWaterMark), token.writeCursor)
                       && token.hasData == (old(token.hasData) || old(token.SpaceRemaining()) < n)
                       && s.readCursor == old(s.readCursor) + n + (if n < old(s.DataAvailable()) then 1 else 0))
    ensures !ok ==> unchanged(s) && unchanged(token)
  {
    ghost var text := s.Unread();
    var tokenSize := TokenLength(s, delim);
    ghost var line := text[..tokenSize];
    assert line == s.blob[s.readCursor..s.readCursor + tokenSize] by {
      PrefixOfWindow(s.blob, s.readCursor as nat, s.writeCursor as nat, tokenSize as nat);
    }
    ok := Copy(s, token, tokenSize);
    if !ok {
      return;
    }
    if s.DataAvailable() > 0 {
      s.readCursor := s.readCursor + 1;
    }
  }

  /**
   * The token stuffer after `s2n_stuffer_read_line` copied `line` into it: a carriage return at
   * the end of its unread bytes is cut off by stepping the write cursor back.
   */
  predicate EndsWithCR(written: seq<uint8>, readCursor: nat)
  {
    readCursor < |written| && written[|written| - 1] == CR
  }

  /**
   * `s2n_stuffer_read_line`: `ReadToken` up to a line feed, then drop a carriage return that ends
   * the token's unread bytes, so that both LF and CR LF line endings are accepted.
   */
  method ReadLine(s: Stuffer, token: Stuffer) returns (ok: bool)
    requires s != token && s.Valid() && token.Valid()
    modifies s`readCursor, token`blob, token`hasData, token`writeCursor, token`highWaterMark
    ensures s.Valid() && token.Valid()
    ensures var n := old(IndexOf(s.Unread(), LF));
            var line := old(s.Unread()[..n]);
            var full := old(token.Written()) + line;
            && (ok <==> old(token.CanReserve(n)))
            && (ok ==> && token.blob == Overwrite(old(token.Reserved(n)), old(token.writeCursor), line)
                       && token.Written() == (if EndsWithCR(full, token.readCursor) then full[..|full| - 1] else full)
                       && token.highWaterMark == Max(old(token.highWaterMark), old(token.writeCursor) + n)
                       && s.readCursor == old(s.readCursor) + n + (if n < old(s.DataAvailable()) then 1 else 0))
    ensures !ok ==> unchanged(s) && unchanged(token)
  {
    ghost var line := s.Unread()[..IndexOf(s.Unread(), LF)];
    ghost var full := token.Written() + line;
    token.WriteAppends(line);
    ok := ReadToken(s, token, LF);
    if !ok {
      return;
    }
    assert token.Written() == full;
    SnipCR(token);
  }

  /** The end of `s2n_stuffer_read_line`: step the write cursor back over a carriage return that ends the unread bytes. */
  method SnipCR(token: Stuffer)
    requires token.Valid()
    modifies token`writeCursor
    ensures token.Valid()
    ensures var w := old(token.Written());
            token.Written() == if EndsWithCR(w, token.readCursor) then w[..|w| - 1] else w
  {
    if token.DataAvailable() > 0 && token.blob[token.writeCursor - 1] == CR {
      token.writeCursor := token.writeCursor - 1;
    }
  }

  /**
   * `s2n_stuffer_init_ro_from_string`: a stuffer over the caller's `data` (not owned, not
   * growable) whose bytes are all written and none yet read.
   */
  method InitRoFromString(s: Stuffer, data: seq<uint8>)
    requires |data| <= UINT32_MAX
    modifies s
    ensures s.Valid() && s.blob == data && s.hasData
    ensures s.readCursor == 0 && s.writeCursor == |data| && s.highWaterMark == |data|
    ensures s.Unread() == data && s.SpaceRemaining() == 0
    ensures !s.alloced && !s.growable && !s.tainted
  {
    var ok := s.Init(Blob(data, false));
    assert ok;
    ok := s.SkipWrite(|data|);
    assert ok;
  }

  /**
   * `s2n_stuffer_alloc_ro_from_string`: allocate `|str| + 1` bytes (a `uint32_t` sum, which wraps to
   * 0 for the longest string) and write the string into them. `allocOk` is the allocator's answer.
   */
  method AllocRoFromString(s: Stuffer, str: seq<uint8>, allocOk: bool) returns (ok: bool)
    requires |str| <= UINT32_MAX
    modifies s
    ensures s.Valid() && s.readCursor == 0 && !s.growable && !s.tainted
    ensures ok <==> allocOk && |str| < UINT32_MAX
    ensures ok ==> s.alloced && s.blob == str + [0] && s.writeCursor == |str| && s.Unread() == str
    ensures !ok ==> s.writeCursor == 0
  {
    var size: uint32 := (|str| + 1) % 0x1_0000_0000;
    ok := s.Alloc(size, allocOk);
    if !ok {
      return;
    }
    ok := s.WriteBytes(str);
    assert ok ==> s.blob == Overwrite(Fill(size, 0), 0, str);
  }
}
