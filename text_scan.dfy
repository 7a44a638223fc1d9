/**
 * The scans behind the stuffer's text operations, stated on the unread bytes as a byte string.
 */
module TextScan {
  import opened Common

  /** The whitespace `s2n_stuffer_skip_whitespace` steps over: space, tab, line feed, carriage return. */
  predicate IsWhitespace(c: uint8)
  {
    c == ' ' as uint8 || c == '\t' as uint8 || c == '\n' as uint8 || c == '\r' as uint8
  }

  /** The position of the first `c` in `s`, or `|s|` when there is none. */
  function IndexOf(s: seq<uint8>, c: uint8): (r: nat)
    ensures r <= |s|
    ensures forall i :: 0 <= i < r ==> s[i] != c
    ensures r < |s| ==> s[r] == c
  {
    if s == [] || s[0] == c then 0 else 1 + IndexOf(s[1..], c)
  }

  /** The length of the run of whitespace that starts `s`. */
  function LeadingWhitespace(s: seq<uint8>): (r: nat)
    ensures r <= |s|
    ensures forall i :: 0 <= i < r ==> IsWhitespace(s[i])
    ensures r < |s| ==> !IsWhitespace(s[r])
  {
    if s == [] || !IsWhitespace(s[0]) then 0 else 1 + LeadingWhitespace(s[1..])
  }

  /** The length of the run of `c` that starts `s`, cut off at `max`. */
  function LeadingRun(s: seq<uint8>, c: uint8, max: nat): (r: nat)
    ensures r <= |s| && r <= max
    ensures forall i :: 0 <= i < r ==> s[i] == c
    ensures r < |s| && r < max ==> s[r] != c
  {
    if s == [] || max == 0 || s[0] != c then 0 else 1 + LeadingRun(s[1..], c, max - 1)
  }

  /** `t` occurs in `s` starting at `k`. */
  predicate OccursAt(s: seq<uint8>, t: seq<uint8>, k: nat)
  {
    k + |t| <= |s| && s[k..k + |t|] == t
  }

  /** How the search of `s2n_stuffer_skip_read_until` ends. */
  datatype Until =
    | Found(end: nat)      // the target was read; the cursor stands just after it
    | Exhausted(pos: nat)  // fewer bytes than the target's length are left; success
    | Failed(pos: nat)     // the first character was seen too close to the end; an error
  {
    /** Where the read cursor stands, relative to where the search began. */
    function Stop(): nat
    {
      if Found? then end else pos
    }
  }

  /** The position of the first `c` in `s` at or after `pos`, or `|s|` when there is none. */
  function IndexFrom(s: seq<uint8>, c: uint8, pos: nat): (j: nat)
    requires pos <= |s|
    ensures pos <= j <= |s|
    ensures j < |s| ==> s[j] == c
    decreases |s| - pos
  {
    if pos == |s| || s[pos] == c then pos else IndexFrom(s, c, pos + 1)
  }

  /** `IndexFrom` passes over no `c`. */
  lemma {:induction false} IndexFromSkips(s: seq<uint8>, c: uint8, pos: nat)
    requires pos <= |s|
    ensures forall k :: pos <= k < IndexFrom(s, c, pos) ==> s[k] != c
    decreases |s| - pos
  {
    if pos < |s| && s[pos] != c {
      IndexFromSkips(s, c, pos + 1);
    }
  }

  /** A position at or after `pos` with no `c` between is where `IndexFrom` stops, if it holds `c` or ends `s`. */
  lemma {:induction false} IndexFromIsFirst(s: seq<uint8>, c: uint8, pos: nat, j: nat)
    requires pos <= j <= |s| && (j < |s| ==> s[j] == c)
    requires forall k :: pos <= k < j ==> s[k] != c
    ensures IndexFrom(s, c, pos) == j
    decreases j - pos
  {
    if pos < j {
      IndexFromIsFirst(s, c, pos + 1, j);
    }
  }

  /** Searching from `pos` for `c` is searching the bytes from `pos` on. */
  lemma {:induction false} IndexFromIsIndexOf(s: seq<uint8>, c: uint8, pos: nat)
    requires pos <= |s|
    ensures IndexFrom(s, c, pos) == pos + IndexOf(s[pos..], c)
    decreases |s| - pos
  {
    if pos < |s| && s[pos] != c {
      assert s[pos..][1..] == s[pos + 1..];
      IndexFromIsIndexOf(s, c, pos + 1);
    }
  }

  /** How one round of the search ends: with the search over, or to go on from `next`. */
  datatype Round = Stopped(result: Until) | Continue(next: nat)

  /**
   * One round of the search of `s2n_stuffer_skip_read_until`, while at least `|t|` bytes are left
   * from `pos`: with `j` the place where the first byte of the target is next seen, fail at `j` when
   * fewer than `|t|` bytes are left there, stop after the target when it occurs at `j`, and
   * otherwise go on from `j + 1`.
   */
  function SearchRound(s: seq<uint8>, t: seq<uint8>, pos: nat): (r: Round)
    requires 0 < |t| && pos <= |s| && |s| - pos >= |t|
    ensures r.Stopped? ==> r.result.Failed? || r.result.Found?
    ensures r.Continue? ==> pos < r.next <= |s| - |t| + 1
  {
    var j := IndexFrom(s, t[0], pos);
    if |s| - j < |t| then Stopped(Failed(j))
    else if OccursAt(s, t, j) then Stopped(Found(j + |t|))
    else Continue(j + 1)
  }

  /**
   * The search of `s2n_stuffer_skip_read_until` from position `pos` of the written bytes `s`:
   * rounds of `SearchRound` while the target still fits, then `Exhausted`.
   */
  function SkipUntil(s: seq<uint8>, t: seq<uint8>, pos: nat): Until
    requires 0 < |t| && pos <= |s|
    decreases |s| - pos
  {
    if |s| - pos < |t| then Exhausted(pos)
    else match SearchRound(s, t, pos)
      case Stopped(u) => u
      case Continue(next) => SkipUntil(s, t, next)
  }

  /** No occurrence of the target starts before the next place its first byte is seen. */
  lemma NoOccurrenceBefore(s: seq<uint8>, t: seq<uint8>, pos: nat)
    requires 0 < |t| && pos <= |s|
    ensures forall k :: pos <= k < IndexFrom(s, t[0], pos) ==> !OccursAt(s, t, k)
  {
    IndexFromSkips(s, t[0], pos);
    forall k | pos <= k < IndexFrom(s, t[0], pos)
      ensures !OccursAt(s, t, k)
    {
      if k + |t| <= |s| {
        assert s[k..k + |t|][0] == s[k] != t[0];
      }
    }
  }

  /** On `Found(end)`, the target ends at `end` and occurs nowhere between `pos` and there. */
  lemma {:induction false} FoundIsFirst(s: seq<uint8>, t: seq<uint8>, pos: nat)
    requires 0 < |t| && pos <= |s|
    ensures SkipUntil(s, t, pos).Found? ==>
              var end := SkipUntil(s, t, pos).end;
              pos + |t| <= end && OccursAt(s, t, end - |t|)
              && forall k :: pos <= k < end - |t| ==> !OccursAt(s, t, k)
    decreases |s| - pos
  {
    if |s| - pos >= |t| {
      var j := IndexFrom(s, t[0], pos);
      NoOccurrenceBefore(s, t, pos);
      if |s| - j >= |t| {
        if OccursAt(s, t, j) {
          assert SkipUntil(s, t, pos) == Found(j + |t|);
        } else {
          assert SkipUntil(s, t, pos) == SkipUntil(s, t, j + 1);
          assert !OccursAt(s, t, j);
          FoundIsFirst(s, t, j + 1);
        }
      }
    }
  }

  /** When the search does not find the target, it occurs nowhere from `pos` on. */
  lemma {:induction false} NotFoundIsAbsent(s: seq<uint8>, t: seq<uint8>, pos: nat)
    requires 0 < |t| && pos <= |s| && !SkipUntil(s, t, pos).Found?
    ensures forall k :: pos <= k ==> !OccursAt(s, t, k)
    decreases |s| - pos
  {
    if |s| - pos >= |t| {
      var j := IndexFrom(s, t[0], pos);
      NoOccurrenceBefore(s, t, pos);
      if |s| - j >= |t| {
        assert SkipUntil(s, t, pos) == SkipUntil(s, t, j + 1);
        assert !OccursAt(s, t, j);
        NotFoundIsAbsent(s, t, j + 1);
      }
    }
  }

  /**
   * The search finds the first occurrence at or after `pos`: on `Found(end)` the target ends at
   * `end` and occurs nowhere earlier; otherwise it occurs nowhere at all from `pos` on.
   */
  lemma SkipUntilFindsFirst(s: seq<uint8>, t: seq<uint8>, pos: nat)
    requires 0 < |t| && pos <= |s|
    ensures SkipUntil(s, t, pos).Found? ==>
              var end := SkipUntil(s, t, pos).end;
              pos + |t| <= end && OccursAt(s, t, end - |t|)
              && forall k :: pos <= k < end - |t| ==> !OccursAt(s, t, k)
    ensures !SkipUntil(s, t, pos).Found? ==> forall k :: pos <= k ==> !OccursAt(s, t, k)
  {
    FoundIsFirst(s, t, pos);
    if !SkipUntil(s, t, pos).Found? {
      NotFoundIsAbsent(s, t, pos);
    }
  }

  /** Whenever the target occurs at or after `pos`, the search ends just after its first occurrence. */
  lemma SkipUntilOccurrence(s: seq<uint8>, t: seq<uint8>, pos: nat, k: nat)
    requires 0 < |t| && pos <= k && OccursAt(s, t, k)
    ensures SkipUntil(s, t, pos).Found? && SkipUntil(s, t, pos).end <= k + |t|
  {
    SkipUntilFindsFirst(s, t, pos);
  }

  /** The search ends within the bytes, never before where it began, and `Failed` only near the end. */
  lemma {:induction false} SkipUntilBounds(s: seq<uint8>, t: seq<uint8>, pos: nat)
    requires 0 < |t| && pos <= |s|
    ensures SkipUntil(s, t, pos).Found? ==> pos + |t| <= SkipUntil(s, t, pos).end <= |s|
    ensures !SkipUntil(s, t, pos).Found? ==> pos <= SkipUntil(s, t, pos).pos <= |s|
                                             && |s| - SkipUntil(s, t, pos).pos < |t|
    decreases |s| - pos
  {
    if |s| - pos >= |t| {
      var j := IndexFrom(s, t[0], pos);
      if |s| - j >= |t| && !OccursAt(s, t, j) {
        assert SkipUntil(s, t, pos) == SkipUntil(s, t, j + 1);
        SkipUntilBounds(s, t, j + 1);
      }
    }
  }
}
