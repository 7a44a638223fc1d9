/**
 * The stuffer: a byte blob with a read cursor, a write cursor and a high-water mark
 * (`struct s2n_stuffer`), and the operations of stuffer/s2n_stuffer.h that move them.
 */
module Stuffers {
  import opened Common

  /** Every growth of a growable stuffer adds at least this many bytes. */
  const MIN_STUFFER_GROWTH_IN_BYTES: nat := 1024

  /** Wiped bytes are overwritten with this non-zero byte ('w'). */
  const WIPE_PATTERN: uint8 := 'w' as uint8

  const SIZEOF_UINT24: nat := 3

  /** `struct s2n_blob`: its bytes (`size` is their number) and whether `data` is NULL. */
  datatype Blob = Blob(data: seq<uint8>, isNull: bool) {
    /** `s2n_blob_validate`: a NULL blob is empty, and the size is a `uint32_t`. */
    predicate Valid() {
      |data| <= UINT32_MAX && (isNull ==> |data| == 0)
    }
  }

  class Stuffer {
    /** `blob.data[0 .. blob.size)` */
    var blob: seq<uint8>
    /** `blob.data != NULL` */
    var hasData: bool
    var readCursor: uint32
    var writeCursor: uint32
    var highWaterMark: uint32
    var alloced: bool
    var growable: bool
    var tainted: bool

    /** `s2n_stuffer_validate`: the blob is valid and read <= write <= high-water mark <= size. */
    predicate Valid()
      reads this
    {
      |blob| <= UINT32_MAX && (!hasData ==> |blob| == 0)
      && readCursor <= writeCursor <= highWaterMark <= |blob|
    }

    /** `s2n_stuffer_data_available`: a `uint32_t` subtraction, which never wraps on a valid stuffer. */
    function DataAvailable(): (r: uint32)
      reads this
      ensures Valid() ==> r == writeCursor - readCursor
    {
      if readCursor <= writeCursor then writeCursor - readCursor else writeCursor - readCursor + 0x1_0000_0000
    }

    /**
     * `s2n_stuffer_space_remaining`: `blob.size - write_cursor` in unsigned arithmetic, which
     * never wraps on a valid stuffer.
     */
    function SpaceRemaining(): (r: nat)
      reads this
      ensures Valid() ==> r == |blob| - writeCursor
    {
      if writeCursor <= |blob| then |blob| - writeCursor else |blob| - writeCursor + 0x1_0000_0000
    }

    /** `s2n_stuffer_is_wiped`: nothing was ever written since the last wipe, so nothing can be read. */
    predicate IsWiped()
      reads this
      ensures IsWiped() && Valid() ==> writeCursor == 0 && DataAvailable() == 0
    {
      highWaterMark == 0
    }

    /** `s2n_stuffer_is_freed`: a freed stuffer has no bytes at all. */
    predicate IsFreed()
      reads this
      ensures IsFreed() && Valid() ==> |blob| == 0 && SpaceRemaining() == 0 && DataAvailable() == 0
    {
      !hasData
    }

    /** `s2n_stuffer_is_consumed`: everything written has been read. */
    predicate IsConsumed()
      reads this
      ensures Valid() ==> (IsConsumed() <==> DataAvailable() == 0)
    {
      readCursor == writeCursor
    }

    /** The bytes written but not yet read. */
    function Unread(): (r: seq<uint8>)
      reads this
      requires Valid()
      ensures |r| == DataAvailable()
    {
      blob[readCursor..writeCursor]
    }

    /** The bytes written so far, read or not. */
    function Written(): (r: seq<uint8>)
      reads this
      requires Valid()
      ensures |r| == writeCursor
    {
      blob[..writeCursor]
    }

    /** Writing `data` at the write cursor, after making room for it, appends it to what was written. */
    lemma WriteAppends(data: seq<uint8>)
      requires Valid()
      ensures CanReserve(|data|) ==>
                Overwrite(Reserved(|data|), writeCursor, data)[..writeCursor + |data|] == Written() + data
    {
    }

    /** How far `s2n_stuffer_reserve_space(n)` grows a stuffer that lacks room for `n` more bytes. */
    function Growth(n: nat): (r: nat)
      reads this
      requires Valid()
      ensures SpaceRemaining() < n ==> SpaceRemaining() + r >= n
      ensures r >= MIN_STUFFER_GROWTH_IN_BYTES
    {
      Max(n - SpaceRemaining(), MIN_STUFFER_GROWTH_IN_BYTES)
    }

    /** Whether `s2n_stuffer_reserve_space(n)` succeeds: there is room, or the stuffer may grow to a `uint32_t` size. */
    predicate CanReserve(n: nat)
      reads this
      requires Valid()
    {
      n <= SpaceRemaining() || (growable && !tainted && |blob| + Growth(n) <= UINT32_MAX)
    }

    /** The blob after a successful `s2n_stuffer_reserve_space(n)`: unchanged, or grown by zero bytes. */
    function Reserved(n: nat): (r: seq<uint8>)
      reads this
      requires Valid()
      ensures |r| >= |blob| && r[..|blob|] == blob
      ensures n <= SpaceRemaining() ==> r == blob
      ensures |r| - writeCursor >= n
      ensures SpaceRemaining() < n ==> |r| >= |blob| + MIN_STUFFER_GROWTH_IN_BYTES
    {
      if n <= SpaceRemaining() then blob else blob + Fill(Growth(n), 0)
    }

    /** A zeroed `struct s2n_stuffer` (`= {0}`): valid and freed. */
    constructor ()
      ensures Valid() && IsFreed() && IsWiped()
      ensures blob == [] && readCursor == 0 && writeCursor == 0
      ensures !alloced && !growable && !tainted
    {
      blob, hasData := [], false;
      readCursor, writeCursor, highWaterMark := 0, 0, 0;
      alloced, growable, tainted := false, false, false;
    }

    /** `s2n_stuffer_init`: wrap a caller's blob, not owned, with both cursors at 0; fails on an invalid blob. */
    method Init(src: Blob) returns (ok: bool)
      modifies this
      ensures ok == src.Valid()
      ensures ok ==> Valid() && IsWiped() && blob == src.data && hasData == !src.isNull
      ensures ok ==> readCursor == 0 && writeCursor == 0 && !alloced && !growable && !tainted
      ensures !ok ==> unchanged(this)
    {
      ok := src.Valid();
      if ok {
        blob, hasData := src.data, !src.isNull;
        readCursor, writeCursor, highWaterMark := 0, 0, 0;
        alloced, growable, tainted := false, false, false;
      }
    }

    /** Clear every field, as `*stuffer = (struct s2n_stuffer) {0}`. */
    method Zero()
      modifies this
      ensures Valid() && IsFreed() && IsWiped()
      ensures blob == [] && readCursor == 0 && writeCursor == 0
      ensures !alloced && !growable && !tainted
    {
      blob, hasData := [], false;
      readCursor, writeCursor, highWaterMark := 0, 0, 0;
      alloced, growable, tainted := false, false, false;
    }

    /**
     * `s2n_stuffer_alloc`: own a fresh blob of `size` bytes. `allocOk` is the allocator's answer; on
     * failure the stuffer is left zeroed. A zero-byte blob keeps a NULL data pointer.
     */
    method Alloc(size: uint32, allocOk: bool) returns (ok: bool)
      modifies this
      ensures ok == allocOk
      ensures Valid() && IsWiped() && readCursor == 0 && writeCursor == 0
      ensures !growable && !tainted
      ensures ok ==> blob == Fill(size, 0) && hasData == (size > 0) && alloced
      ensures !ok ==> blob == [] && IsFreed() && !alloced
    {
      Zero();
      ok := allocOk;
      if ok {
        blob, hasData := Fill(size, 0), size > 0;
        alloced := true;
      }
    }

    /** `s2n_stuffer_growable_alloc`: `s2n_stuffer_alloc`, then mark the stuffer growable. */
    method GrowableAlloc(size: uint32, allocOk: bool) returns (ok: bool)
      modifies this
      ensures ok == allocOk
      ensures Valid() && IsWiped() && readCursor == 0 && writeCursor == 0 && !tainted
      ensures ok ==> blob == Fill(size, 0) && hasData == (size > 0) && alloced && growable
      ensures !ok ==> blob == [] && IsFreed() && !alloced && !growable
    {
      ok := Alloc(size, allocOk);
      if ok {
        growable := true;
      }
    }

    /** `s2n_stuffer_free`: release an owned blob and zero every field; the stuffer is freed. */
    method Free()
      modifies this
      ensures Valid() && IsFreed() && IsWiped()
      ensures blob == [] && readCursor == 0 && writeCursor == 0
      ensures !alloced && !growable && !tainted
    {
      Zero();
    }

    /**
     * `s2n_stuffer_resize`: refused while tainted or when not growable. Resizing to 0 wipes and
     * frees the blob; shrinking truncates the blob and pulls the cursors back to the new size;
     * growing appends zero bytes.
     */
    method Resize(size: uint32) returns (ok: bool)
      requires Valid()
      modifies this
      ensures Valid()
      ensures ok <==> !old(tainted) && old(growable)
      ensures !ok || size == old(|blob|) ==> unchanged(this)
      ensures ok ==> |blob| == size && alloced == old(alloced) && growable == old(growable) && !tainted
      ensures ok && size < old(|blob|) ==> blob == old(blob)[..size]
                                           && readCursor == Min(old(readCursor), size)
                                           && writeCursor == Min(old(writeCursor), size)
                                           && highWaterMark == Min(old(highWaterMark), size)
                                           && hasData == (size > 0)
      ensures ok && size > old(|blob|) ==> blob == old(blob) + Fill(size - old(|blob|), 0) && hasData
                                           && readCursor == old(readCursor) && writeCursor == old(writeCursor)
                                           && highWaterMark == old(highWaterMark)
    {
      if tainted || !growable {
        return false;
      }
      ok := true;
      if size == |blob| {
        return;
      }
      if size == 0 {
        Wipe();
        blob, hasData := [], false;
        return;
      }
      if size < |blob| {
        blob := blob[..size];
        readCursor := Min(readCursor, size);
        writeCursor := Min(writeCursor, size);
        highWaterMark := Min(highWaterMark, size);
        return;
      }
      blob, hasData := blob + Fill(size - |blob|, 0), true;
    }

    /**
     * `s2n_stuffer_resize_if_empty`: give a stuffer that has no blob yet (`blob.data == NULL`) a
     * blob of `size` zero bytes; a stuffer that already has one is left alone.
     */
    method ResizeIfEmpty(size: uint32) returns (ok: bool)
      requires Valid()
      modifies this
      ensures Valid()
      ensures ok <==> old(hasData) || (!old(tainted) && old(growable))
      ensures !ok || old(hasData) ==> unchanged(this)
      ensures ok && !old(hasData) ==> blob == Fill(size, 0) && hasData == (size > 0)
                                      && readCursor == 0 && writeCursor == 0 && highWaterMark == 0
                                      && alloced == old(alloced) && growable && !tainted
    {
      ok := true;
      if !hasData {
        if tainted || !growable {
          return false;
        }
        blob, hasData := Fill(size, 0), size > 0;
      }
    }

    /** `s2n_stuffer_rewind_read`: step the read cursor back `n` bytes; fails if fewer than `n` were read. */
    method RewindRead(n: uint32) returns (ok: bool)
      requires Valid()
      modifies this`readCursor
      ensures Valid()
      ensures ok <==> n <= old(readCursor)
      ensures readCursor == if ok then old(readCursor) - n else old(readCursor)
    {
      ok := n <= readCursor;
      if ok {
        readCursor := readCursor - n;
      }
    }

    /** `s2n_stuffer_reread`: everything written becomes readable again. */
    method Reread()
      requires Valid()
      modifies this`readCursor
      ensures Valid() && readCursor == 0 && Unread() == blob[..writeCursor]
    {
      readCursor := 0;
    }

    /** `s2n_stuffer_rewrite`: start writing, and reading, from the beginning again. */
    method Rewrite()
      requires Valid()
      modifies this`readCursor, this`writeCursor
      ensures Valid() && readCursor == 0 && writeCursor == 0 && DataAvailable() == 0
    {
      writeCursor := 0;
      readCursor := 0;
    }

    /**
     * `s2n_stuffer_wipe`: overwrite every byte ever written (below the high-water mark) with the
     * wipe pattern, and reset the cursors, the high-water mark and the taint.
     */
    method Wipe()
      requires Valid()
      modifies this`blob, this`readCursor, this`writeCursor, this`highWaterMark, this`tainted
      ensures Valid() && IsWiped() && DataAvailable() == 0 && !tainted
      ensures readCursor == 0 && writeCursor == 0
      ensures blob == Fill(old(highWaterMark), WIPE_PATTERN) + old(blob)[old(highWaterMark)..]
    {
      blob := Overwrite(blob, 0, Fill(highWaterMark, WIPE_PATTERN));
      tainted := false;
      writeCursor, readCursor, highWaterMark := 0, 0, 0;
    }

    /**
     * `s2n_stuffer_wipe_n`: wipe the last `n` written bytes and pull the write cursor (and, if
     * needed, the read cursor) back over them; `n` at least the write cursor wipes everything.
     */
    method WipeN(n: uint32)
      requires Valid()
      modifies this`blob, this`readCursor, this`writeCursor, this`highWaterMark, this`tainted
      ensures Valid()
      ensures n >= old(writeCursor) ==> IsWiped() && writeCursor == 0 && readCursor == 0 && !tainted
                                        && blob == Fill(old(highWaterMark), WIPE_PATTERN) + old(blob)[old(highWaterMark)..]
      ensures n < old(writeCursor) ==> writeCursor == old(writeCursor) - n
                                       && readCursor == Min(old(readCursor), writeCursor)
                                       && highWaterMark == old(highWaterMark) && tainted == old(tainted)
                                       && blob == Overwrite(old(blob), writeCursor, Fill(n, WIPE_PATTERN))
    {
      if n >= writeCursor {
        Wipe();
        return;
      }
      writeCursor := writeCursor - n;
      blob := Overwrite(blob, writeCursor, Fill(n, WIPE_PATTERN));
      readCursor := Min(readCursor, writeCursor);
    }

    /** `s2n_stuffer_skip_read`: consume `n` bytes without copying; fails when fewer are available. */
    method SkipRead(n: uint32) returns (ok: bool)
      requires Valid()
      modifies this`readCursor
      ensures Valid()
      ensures ok <==> n <= old(DataAvailable())
      ensures readCursor == if ok then old(readCursor) + n else old(readCursor)
    {
      ok := n <= DataAvailable();
      if ok {
        readCursor := readCursor + n;
      }
    }

    /**
     * `s2n_stuffer_reserve_space`: make room for `n` more bytes. Without room, a growable, untainted
     * stuffer grows by `Growth(n)` (at least 1024) bytes unless the size would overflow `uint32_t`.
     */
    method ReserveSpace(n: uint32) returns (ok: bool)
      requires Valid()
      modifies this`blob, this`hasData
      ensures Valid()
      ensures ok <==> old(CanReserve(n))
      ensures ok ==> blob == old(Reserved(n)) && SpaceRemaining() >= n
                     && hasData == (old(hasData) || old(SpaceRemaining()) < n)
      ensures !ok ==> blob == old(blob) && hasData == old(hasData)
    {
      if SpaceRemaining() >= n {
        return true;
      }
      if !growable || tainted || |blob| + Growth(n) > UINT32_MAX {
        return false;
      }
      blob, hasData := blob + Fill(Growth(n), 0), true;
      ok := true;
    }

    /** `s2n_stuffer_skip_write`: reserve `n` bytes, then advance the write cursor (and high-water mark) over them. */
    method SkipWrite(n: uint32) returns (ok: bool)
      requires Valid()
      modifies this`blob, this`hasData, this`writeCursor, this`highWaterMark
      ensures Valid()
      ensures ok <==> old(CanReserve(n))
      ensures ok ==> blob == old(Reserved(n)) && writeCursor == old(writeCursor) + n
                     && highWaterMark == Max(old(highWaterMark), writeCursor)
                     && hasData == (old(hasData) || old(SpaceRemaining()) < n)
      ensures !ok ==> unchanged(this)
    {
      ok := ReserveSpace(n);
      if ok {
        writeCursor := writeCursor + n;
        highWaterMark := Max(highWaterMark, writeCursor);
      }
    }

    /**
     * `s2n_stuffer_raw_read`: consume `n` bytes in place and mark the stuffer tainted. The pointer
     * handed back is NULL, which callers take as a failure, when the blob is NULL: a zero-byte raw
     * read of a freed stuffer fails after tainting it.
     */
    method RawRead(n: uint32) returns (ok: bool)
      requires Valid()
      modifies this`readCursor, this`tainted
      ensures Valid()
      ensures ok <==> n <= old(DataAvailable()) && hasData
      ensures n <= old(DataAvailable()) ==> readCursor == old(readCursor) + n && tainted
      ensures n > old(DataAvailable()) ==> unchanged(this)
    {
      ok := SkipRead(n);
      if ok {
        tainted := true;
        ok := hasData;
      }
    }

    /**
     * `s2n_stuffer_raw_write`: claim `n` bytes for writing in place and mark the stuffer tainted.
     * The pointer handed back is NULL, which callers take as a failure, when the blob is still NULL:
     * a zero-byte raw write to a freed stuffer fails after tainting it.
     */
    method RawWrite(n: uint32) returns (ok: bool)
      requires Valid()
      modifies this`blob, this`hasData, this`writeCursor, this`highWaterMark, this`tainted
      ensures Valid()
      ensures ok <==> old(CanReserve(n)) && (n > 0 || old(hasData))
      ensures old(CanReserve(n)) ==>
                blob == old(Reserved(n)) && writeCursor == old(writeCursor) + n
                && highWaterMark == Max(old(highWaterMark), writeCursor)
                && hasData == (old(hasData) || old(SpaceRemaining()) < n) && tainted
      ensures !old(CanReserve(n)) ==> unchanged(this)
    {
      ok := SkipWrite(n);
      if ok {
        tainted := true;
        ok := hasData;
      }
    }

    /**
     * `s2n_stuffer_read_bytes`: copy out the next `n` bytes and consume them; fails when fewer are
     * available, and on a stuffer whose blob is NULL.
     */
    method ReadBytes(n: uint32) returns (ok: bool, out: seq<uint8>)
      requires Valid()
      modifies this`readCursor
      ensures Valid()
      ensures ok <==> n <= old(DataAvailable()) && hasData
      ensures ok ==> out == old(Unread())[..n] && readCursor == old(readCursor) + n
      ensures !ok ==> out == [] && readCursor == old(readCursor)
    {
      out := [];
      ok := SkipRead(n);
      if !ok {
        return;
      }
      if !hasData {
        return false, [];
      }
      out := blob[readCursor - n..readCursor];
    }

    /** `s2n_stuffer_erase_and_read_bytes`: `ReadBytes`, then zero the consumed bytes in the blob. */
    method EraseAndReadBytes(n: uint32) returns (ok: bool, out: seq<uint8>)
      requires Valid()
      modifies this`readCursor, this`blob
      ensures Valid()
      ensures ok <==> n <= old(DataAvailable()) && hasData
      ensures ok ==> out == old(Unread())[..n] && readCursor == old(readCursor) + n
                     && blob == Overwrite(old(blob), old(readCursor), Fill(n, 0))
      ensures !ok ==> out == [] && unchanged(this)
    {
      ok, out := ReadBytes(n);
      if ok {
        blob := Overwrite(blob, readCursor - n, Fill(n, 0));
      }
    }

    /** `s2n_stuffer_read`: fill the caller's blob with its size's worth of bytes; a NULL blob fails. */
    method Read(out: Blob) returns (ok: bool, filled: Blob)
      requires Valid() && |out.data| <= UINT32_MAX
      modifies this`readCursor
      ensures Valid()
      ensures ok <==> !out.isNull && |out.data| <= old(DataAvailable()) && hasData
      ensures ok ==> filled == Blob(old(Unread())[..|out.data|], false)
                     && readCursor == old(readCursor) + |out.data|
      ensures !ok ==> filled == out && readCursor == old(readCursor)
    {
      if out.isNull {
        return false, out;
      }
      var bytes;
      ok, bytes := ReadBytes(|out.data|);
      filled := if ok then Blob(bytes, false) else out;
    }

    /** `s2n_stuffer_erase_and_read`: `Read`, then zero the consumed bytes in the blob. */
    method EraseAndRead(out: Blob) returns (ok: bool, filled: Blob)
      requires Valid() && |out.data| <= UINT32_MAX
      modifies this`readCursor, this`blob
      ensures Valid()
      ensures ok <==> !out.isNull && |out.data| <= old(DataAvailable()) && hasData
      ensures ok ==> filled == Blob(old(Unread())[..|out.data|], false)
                     && readCursor == old(readCursor) + |out.data|
                     && blob == Overwrite(old(blob), old(readCursor), Fill(|out.data|, 0))
      ensures !ok ==> filled == out && unchanged(this)
    {
      if out.isNull {
        return false, out;
      }
      var bytes;
      ok, bytes := EraseAndReadBytes(|out.data|);
      filled := if ok then Blob(bytes, false) else out;
    }

    /**
     * `s2n_stuffer_write_bytes`: reserve room for `data` (growing if allowed) and copy it at the
     * write cursor; fails, changing nothing, when the room cannot be reserved.
     */
    method WriteBytes(data: seq<uint8>) returns (ok: bool)
      requires Valid() && |data| <= UINT32_MAX
      modifies this`blob, this`hasData, this`writeCursor, this`highWaterMark
      ensures Valid()
      ensures ok <==> old(CanReserve(|data|))
      ensures ok ==> blob == Overwrite(old(Reserved(|data|)), old(writeCursor), data)
                     && writeCursor == old(writeCursor) + |data|
                     && highWaterMark == Max(old(highWaterMark), writeCursor)
                     && hasData == (old(hasData) || old(SpaceRemaining()) < |data|)
      ensures !ok ==> unchanged(this)
    {
      ok := SkipWrite(|data|);
      if ok {
        blob := Overwrite(blob, writeCursor - |data|, data);
      }
    }

    /** `s2n_stuffer_write`: `WriteBytes` of a caller's blob, which must be valid. */
    method Write(src: Blob) returns (ok: bool)
      requires Valid()
      modifies this`blob, this`hasData, this`writeCursor, this`highWaterMark
      ensures Valid()
      ensures ok <==> src.Valid() && old(CanReserve(|src.data|))
      ensures ok ==> blob == Overwrite(old(Reserved(|src.data|)), old(writeCursor), src.data)
                     && writeCursor == old(writeCursor) + |src.data|
                     && highWaterMark == Max(old(highWaterMark), writeCursor)
                     && hasData == (old(hasData) || old(SpaceRemaining()) < |src.data|)
      ensures !ok ==> unchanged(this)
    {
      if !src.Valid() {
        return false;
      }
      ghost var reserved, wc, space := Reserved(|src.data|), writeCursor, SpaceRemaining();
      ok := WriteBytes(src.data);
      assert ok ==> blob == Overwrite(reserved, wc, src.data) && hasData == (old(hasData) || space < |src.data|);
    }

    /**
     * `s2n_stuffer_writev_bytes`: claim `size` bytes with `RawWrite` (so the stuffer is tainted) and
     * fill them from the gather list `iov` read as one byte string, starting `offs` bytes in. When the
     * list holds fewer than `offs + size` bytes the rest of the window keeps its old bytes. The write
     * fails after tainting when the blob is still NULL (a zero-byte write to a freed stuffer).
     */
    method WritevBytes(iov: seq<seq<uint8>>, offs: uint32, size: uint32) returns (ok: bool)
      requires Valid()
      modifies this`blob, this`hasData, this`writeCursor, this`highWaterMark, this`tainted
      ensures Valid()
      ensures ok <==> old(CanReserve(size)) && (size > 0 || old(hasData))
      ensures old(CanReserve(size)) ==>
                writeCursor == old(writeCursor) + size && highWaterMark == Max(old(highWaterMark), writeCursor)
                && tainted && hasData == (old(hasData) || old(SpaceRemaining()) < size)
                && blob == Overwrite(old(Reserved(size)), old(writeCursor), Gathered(iov, offs, size))
      ensures !old(CanReserve(size)) ==> unchanged(this)
    {
      ok := RawWrite(size);
      if !ok {
        if size == 0 {
          assert Gathered(iov, offs, size) == [];
        }
        return;
      }
      blob := GatherInto(blob, writeCursor - size, iov, offs, size);
    }

    /**
     * `s2n_stuffer_extract_blob`: a copy of all data not yet read, which becomes the caller's blob;
     * the stuffer itself is not changed. Resizing the caller's blob to hold the copy fails when the
     * allocation fails or the blob is a static one that cannot be resized; `resizeOk` says whether
     * it succeeds, and on failure nothing is copied.
     */
    method ExtractBlob(resizeOk: bool) returns (ok: bool, out: seq<uint8>)
      requires Valid()
      ensures ok == resizeOk
      ensures ok ==> |out| == DataAvailable()
      ensures ok ==> forall i :: 0 <= i < |out| ==> out[i] == blob[readCursor + i]
      ensures !ok ==> out == []
    {
      if !resizeOk {
        return false, [];
      }
      ok, out := true, blob[readCursor..writeCursor];
    }
  }

  /** The first `k` entries of an iovec list read as one byte string. */
  function Joined(iov: seq<seq<uint8>>, k: nat): seq<uint8>
    requires k <= |iov|
  {
    if k == 0 then [] else Joined(iov, k - 1) + iov[k - 1]
  }

  /** An iovec list read as one byte string. */
  function Flatten(iov: seq<seq<uint8>>): seq<uint8>
  {
    Joined(iov, |iov|)
  }

  /** At most `size` bytes of `f` from offset `offs` on. */
  function Window(f: seq<uint8>, offs: nat, size: nat): (r: seq<uint8>)
    ensures |r| <= size
  {
    if offs >= |f| then [] else f[offs..Min(offs + size, |f|)]
  }

  /** What `s2n_stuffer_writev_bytes` copies: at most `size` bytes of `Flatten(iov)` from offset `offs`. */
  function Gathered(iov: seq<seq<uint8>>, offs: nat, size: nat): (r: seq<uint8>)
    ensures |r| <= size
  {
    Window(Flatten(iov), offs, size)
  }

  /** An entry `c` that lies wholly before offset `offs` adds nothing to the window. */
  lemma WindowSkip(f: seq<uint8>, c: seq<uint8>, offs: nat, size: nat, skip: nat)
    requires skip == Max(offs - |f|, 0) && skip >= |c|
    ensures Window(f + c, offs, size) == Window(f, offs, size)
    ensures offs < |f + c| ==> offs < |f|
  {
    if offs < |f| {
      assert c == [] && f + c == f;
    }
  }

  /** An entry `c` reaching past `offs`, while the window is not full, adds its part after `skip`. */
  lemma WindowTake(f: seq<uint8>, c: seq<uint8>, offs: nat, size: nat, skip: nat)
    requires skip == Max(offs - |f|, 0) && skip < |c|
    requires offs < |f| ==> |Window(f, offs, size)| < size
    ensures var g := Window(f, offs, size);
            Window(f + c, offs, size) == g + c[skip..skip + Min(|c| - skip, size - |g|)]
  {
    var f2 := f + c;
    var g := Window(f, offs, size);
    if offs >= |f| {
      var m := Min(offs + size, |f2|);
      assert m - |f| == skip + Min(|c| - skip, size);
      assert forall k :: offs <= k < m ==> f2[k] == c[k - |f|];
      assert f2[offs..m] == c[skip..skip + Min(|c| - skip, size)];
    } else {
      assert g == f[offs..];
      assert f2[offs..Min(offs + size, |f2|)] == f[offs..] + c[..Min(|c|, size - |g|)];
    }
  }

  /** Two back-to-back copies into a buffer are one copy of their concatenation. */
  lemma OverwriteAppend(buf: seq<uint8>, start: nat, g: seq<uint8>, piece: seq<uint8>)
    requires start + |g| + |piece| <= |buf|
    ensures Overwrite(Overwrite(buf, start, g), start + |g|, piece) == Overwrite(buf, start, g + piece)
  {
  }

  /** Joining fewer entries gives a prefix of joining more. */
  lemma {:induction false} JoinedPrefix(iov: seq<seq<uint8>>, k: nat, m: nat)
    requires k <= m <= |iov|
    ensures Joined(iov, k) <= Joined(iov, m)
    decreases m
  {
    if k < m {
      JoinedPrefix(iov, k, m - 1);
    }
  }

  /** Once the window of `f` is full, extending `f` does not change it. */
  lemma WindowFull(f: seq<uint8>, f': seq<uint8>, offs: nat, size: nat)
    requires f <= f' && |Window(f, offs, size)| == size
    ensures Window(f', offs, size) == Window(f, offs, size)
  {
    if size > 0 {
      assert f'[offs..offs + size] == f[offs..offs + size];
    }
  }

  /**
   * The copy loop of `s2n_stuffer_writev_bytes` over the claimed window `buf[start .. start + size)`:
   * each entry is skipped while `offs` still reaches past it, then copied in part or whole.
   */
  method GatherInto(buf: seq<uint8>, start: nat, iov: seq<seq<uint8>>, offs: uint32, size: uint32)
    returns (r: seq<uint8>)
    requires start + size <= |buf|
    ensures r == Overwrite(buf, start, Gathered(iov, offs, size))
  {
    r := buf;
    var sizeLeft: nat, toSkip: nat, i: nat := size, offs, 0;
    while i < |iov|
      invariant i <= |iov| && |r| == |buf|
      invariant GatherState(buf, start, iov, offs, size, i, toSkip, sizeLeft, r)
    {
      if toSkip >= |iov[i]| {
        WindowSkip(Joined(iov, i), iov[i], offs, size, toSkip);
        toSkip := toSkip - |iov[i]|;
        i := i + 1;
        continue;
      }
      var n := Min(|iov[i]| - toSkip, sizeLeft);
      ghost var r0 := r;
      r := Overwrite(r, start + (size - sizeLeft), iov[i][toSkip..toSkip + n]);
      CopyStep(buf, start, iov, offs, size, i, toSkip, sizeLeft, r0, r);
      sizeLeft := sizeLeft - n;
      if sizeLeft == 0 {
        JoinedPrefix(iov, i + 1, |iov|);
        WindowFull(Joined(iov, i + 1), Flatten(iov), offs, size);
        return;
      }
      toSkip := 0;
      i := i + 1;
    }
  }

  /** The invariant of the `GatherInto` loop after the first `i` entries. */
  ghost predicate GatherState(buf: seq<uint8>, start: nat, iov: seq<seq<uint8>>, offs: nat, size: nat,
                              i: nat, toSkip: nat, sizeLeft: nat, r: seq<uint8>)
  {
    i <= |iov| && start + size <= |buf|
    && var g := Window(Joined(iov, i), offs, size);
    sizeLeft == size - |g|
    && toSkip == Max(offs - |Joined(iov, i)|, 0)
    && (offs < |Joined(iov, i)| ==> sizeLeft > 0)
    && r == Overwrite(buf, start, g)
  }

  /** Copying the part of entry `i` after `toSkip` keeps the loop invariant, for entry `i + 1`. */
  lemma CopyStep(buf: seq<uint8>, start: nat, iov: seq<seq<uint8>>, offs: nat, size: nat,
                 i: nat, toSkip: nat, sizeLeft: nat, r: seq<uint8>, r': seq<uint8>)
    requires i < |iov| && GatherState(buf, start, iov, offs, size, i, toSkip, sizeLeft, r)
    requires toSkip < |iov[i]|
    requires var n := Min(|iov[i]| - toSkip, sizeLeft);
             start + (size - sizeLeft) + n <= |r|
             && r' == Overwrite(r, start + (size - sizeLeft), iov[i][toSkip..toSkip + n])
    ensures var n := Min(|iov[i]| - toSkip, sizeLeft);
            && |r'| == |r|
            && (sizeLeft - n > 0 ==> GatherState(buf, start, iov, offs, size, i + 1, 0, sizeLeft - n, r'))
            && (sizeLeft - n == 0 ==> |Window(Joined(iov, i + 1), offs, size)| == size
                                      && r' == Overwrite(buf, start, Window(Joined(iov, i + 1), offs, size)))
  {
    var n := Min(|iov[i]| - toSkip, sizeLeft);
    CopyWindow(buf, start, iov, offs, size, i, toSkip, sizeLeft, r, r');
    assert |Joined(iov, i + 1)| == |Joined(iov, i)| + |iov[i]|;
    assert Max(offs - |Joined(iov, i + 1)|, 0) == 0;
  }

  /** The window after entry `i` is the one before it plus the part of entry `i` that was copied. */
  lemma CopyWindow(buf: seq<uint8>, start: nat, iov: seq<seq<uint8>>, offs: nat, size: nat,
                   i: nat, toSkip: nat, sizeLeft: nat, r: seq<uint8>, r': seq<uint8>)
    requires i < |iov| && GatherState(buf, start, iov, offs, size, i, toSkip, sizeLeft, r)
    requires toSkip < |iov[i]|
    requires var n := Min(|iov[i]| - toSkip, sizeLeft);
             start + (size - sizeLeft) + n <= |r|
             && r' == Overwrite(r, start + (size - sizeLeft), iov[i][toSkip..toSkip + n])
    ensures var n := Min(|iov[i]| - toSkip, sizeLeft);
            var g' := Window(Joined(iov, i + 1), offs, size);
            |g'| == |Window(Joined(iov, i), offs, size)| + n && r' == Overwrite(buf, start, g')
  {
    var n := Min(|iov[i]| - toSkip, sizeLeft);
    var g := Window(Joined(iov, i), offs, size);
    var piece := iov[i][toSkip..toSkip + n];
    assert Window(Joined(iov, i + 1), offs, size) == g + piece by {
      WindowTake(Joined(iov, i), iov[i], offs, size, toSkip);
    }
    OverwriteAppend(buf, start, g, piece);
  }

  /**
   * `s2n_stuffer_copy`: move `len` bytes from `from`'s read cursor to `to`'s write cursor (growing
   * `to` if allowed). Fails, changing neither stuffer, when `from` has fewer than `len` bytes or
   * `to` cannot make room for them.
   */
  method Copy(from: Stuffer, to: Stuffer, len: uint32) returns (ok: bool)
    requires from != to && from.Valid() && to.Valid()
    modifies from`readCursor, to`blob, to`hasData, to`writeCursor, to`highWaterMark
    ensures from.Valid() && to.Valid()
    ensures ok <==> len <= old(from.DataAvailable()) && old(to.CanReserve(len))
    ensures ok ==> from.readCursor == old(from.readCursor) + len
                   && to.blob == Overwrite(old(to.Reserved(len)), old(to.writeCursor), old(from.blob)[old(from.readCursor)..from.readCursor])
                   && to.writeCursor == old(to.writeCursor) + len
                   && to.highWaterMark == Max(old(to.highWaterMark), to.writeCursor)
                   && to.hasData == (old(to.hasData) || old(to.SpaceRemaining()) < len)
    ensures !ok ==> unchanged(from) && unchanged(to)
  {
    if len > from.DataAvailable() {
      return false;
    }
    var moved := from.blob[from.readCursor..from.readCursor + len];
    assert |moved| == len as int;
    ok := to.WriteBytes(moved);
    if ok {
      var _ := from.SkipRead(len);
      assert from.readCursor == old(from.readCursor) + len && from.blob == old(from.blob);
    }
  }
}
