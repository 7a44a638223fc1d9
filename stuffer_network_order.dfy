/**
 * `s2n_stuffer_read_uintN` / `s2n_stuffer_write_uintN` (network byte order) and the
 * length-prefix reservations used for the variable-length vectors of section 3.4 of RFC 8446.
 */
module StufferNetworkOrder {
  import opened Common
  import opened NetworkOrder
  import opened Stuffers

  /** Read `width` bytes with `read_bytes` and combine them most significant byte first. */
  method ReadNetworkOrder(s: Stuffer, width: uint32) returns (ok: bool, v: nat)
    requires s.Valid()
    modifies s`readCursor
    ensures s.Valid()
    ensures ok <==> width <= old(s.DataAvailable()) && s.hasData
    ensures ok ==> v == FromBigEndian(old(s.Unread())[..width]) && s.readCursor == old(s.readCursor) + width
    ensures !ok ==> v == 0 && s.readCursor == old(s.readCursor)
    ensures v < Pow256(width)
  {
    var bytes;
    ok, bytes := s.ReadBytes(width);
    if !ok {
      return false, 0;
    }
    FromBigEndianBound(bytes);
    v := FromBigEndian(bytes);
  }

  /** `s2n_stuffer_write_network_order`: write the `width` low-order bytes of `v`, most significant first. */
  method WriteNetworkOrder(s: Stuffer, v: nat, width: uint32) returns (ok: bool)
    requires s.Valid()
    modifies s`blob, s`hasData, s`writeCursor, s`highWaterMark
    ensures s.Valid()
    ensures ok <==> old(s.CanReserve(width))
    ensures ok ==> s.blob == Overwrite(old(s.Reserved(width)), old(s.writeCursor), ToBigEndian(v, width))
                   && s.writeCursor == old(s.writeCursor) + width
                   && s.highWaterMark == Max(old(s.highWaterMark), s.writeCursor)
                   && s.hasData == (old(s.hasData) || old(s.SpaceRemaining()) < width)
    ensures !ok ==> unchanged(s)
  {
    ok := s.WriteBytes(ToBigEndian(v, width));
  }

  /** `s2n_stuffer_read_uint8` */
  method ReadUint8(s: Stuffer) returns (ok: bool, u: uint8)
    requires s.Valid()
    modifies s`readCursor
    ensures s.Valid()
    ensures ok <==> 1 <= old(s.DataAvailable())
    ensures ok ==> u == old(s.Unread())[0] && s.readCursor == old(s.readCursor) + 1
    ensures !ok ==> u == 0 && s.readCursor == old(s.readCursor)
  {
    var v;
    ghost var unread := s.Unread();
    ok, v := ReadNetworkOrder(s, 1);
    u := v as uint8;
    assert ok ==> unread[..1] == [unread[0]];
  }

  /** `s2n_stuffer_read_uint16` */
  method ReadUint16(s: Stuffer) returns (ok: bool, u: uint16)
    requires s.Valid()
    modifies s`readCursor
    ensures s.Valid()
    ensures ok <==> 2 <= old(s.DataAvailable())
    ensures ok ==> u == FromBigEndian(old(s.Unread())[..2]) && s.readCursor == old(s.readCursor) + 2
    ensures !ok ==> u == 0 && s.readCursor == old(s.readCursor)
  {
    var v;
    ok, v := ReadNetworkOrder(s, 2);
    u := v;
  }

  /** `s2n_stuffer_read_uint24`: three bytes into a `uint32_t`. */
  method ReadUint24(s: Stuffer) returns (ok: bool, u: uint32)
    requires s.Valid()
    modifies s`readCursor
    ensures s.Valid()
    ensures ok <==> SIZEOF_UINT24 <= old(s.DataAvailable())
    ensures ok ==> u == FromBigEndian(old(s.Unread())[..3]) && s.readCursor == old(s.readCursor) + 3
    ensures u < 0x100_0000
    ensures !ok ==> u == 0 && s.readCursor == old(s.readCursor)
  {
    var v;
    ok, v := ReadNetworkOrder(s, SIZEOF_UINT24);
    u := v;
  }

  /** `s2n_stuffer_read_uint32` */
  method ReadUint32(s: Stuffer) returns (ok: bool, u: uint32)
    requires s.Valid()
    modifies s`readCursor
    ensures s.Valid()
    ensures ok <==> 4 <= old(s.DataAvailable())
    ensures ok ==> u == FromBigEndian(old(s.Unread())[..4]) && s.readCursor == old(s.readCursor) + 4
    ensures !ok ==> u == 0 && s.readCursor == old(s.readCursor)
  {
    var v;
    ok, v := ReadNetworkOrder(s, 4);
    u := v;
  }

  /** `s2n_stuffer_read_uint64` */
  method ReadUint64(s: Stuffer) returns (ok: bool, u: uint64)
    requires s.Valid()
    modifies s`readCursor
    ensures s.Valid()
    ensures ok <==> 8 <= old(s.DataAvailable())
    ensures ok ==> u == FromBigEndian(old(s.Unread())[..8]) && s.readCursor == old(s.readCursor) + 8
    ensures !ok ==> u == 0 && s.readCursor == old(s.readCursor)
  {
    var v;
    ok, v := ReadNetworkOrder(s, 8);
    u := v;
  }

  /** `s2n_stuffer_write_uint8` */
  method WriteUint8(s: Stuffer, u: uint8) returns (ok: bool)
    requires s.Valid()
    modifies s`blob, s`hasData, s`writeCursor, s`highWaterMark
    ensures s.Valid()
    ensures ok <==> old(s.CanReserve(1))
    ensures ok ==> s.blob == Overwrite(old(s.Reserved(1)), old(s.writeCursor), [u])
                   && s.writeCursor == old(s.writeCursor) + 1
                   && s.highWaterMark == Max(old(s.highWaterMark), s.writeCursor)
                   && s.hasData
    ensures !ok ==> unchanged(s)
  {
    assert ToBigEndian(u as nat, 1) == [u];
    ok := WriteNetworkOrder(s, u as nat, 1);
  }

  /** `s2n_stuffer_write_uint16` */
  method WriteUint16(s: Stuffer, u: uint16) returns (ok: bool)
    requires s.Valid()
    modifies s`blob, s`hasData, s`writeCursor, s`highWaterMark
    ensures s.Valid()
    ensures ok <==> old(s.CanReserve(2))
    ensures ok ==> s.blob == Overwrite(old(s.Reserved(2)), old(s.writeCursor), ToBigEndian(u, 2))
                   && s.writeCursor == old(s.writeCursor) + 2
                   && s.highWaterMark == Max(old(s.highWaterMark), s.writeCursor)
                   && s.hasData
    ensures !ok ==> unchanged(s)
  {
    ok := WriteNetworkOrder(s, u, 2);
  }

  /** `s2n_stuffer_write_uint24`: the low three bytes of a `uint32_t`; a top byte is dropped. */
  method WriteUint24(s: Stuffer, u: uint32) returns (ok: bool)
    requires s.Valid()
    modifies s`blob, s`hasData, s`writeCursor, s`highWaterMark
    ensures s.Valid()
    ensures ok <==> old(s.CanReserve(SIZEOF_UINT24))
    ensures ok ==> s.blob == Overwrite(old(s.Reserved(3)), old(s.writeCursor), ToBigEndian(u % 0x100_0000, 3))
                   && s.writeCursor == old(s.writeCursor) + 3
                   && s.highWaterMark == Max(old(s.highWaterMark), s.writeCursor)
                   && s.hasData
    ensures !ok ==> unchanged(s)
  {
    ToBigEndianTruncates(u, 3);
    ok := WriteNetworkOrder(s, u, SIZEOF_UINT24);
  }

  /** `s2n_stuffer_write_uint32` */
  method WriteUint32(s: Stuffer, u: uint32) returns (ok: bool)
    requires s.Valid()
    modifies s`blob, s`hasData, s`writeCursor, s`highWaterMark
    ensures s.Valid()
    ensures ok <==> old(s.CanReserve(4))
    ensures ok ==> s.blob == Overwrite(old(s.Reserved(4)), old(s.writeCursor), ToBigEndian(u, 4))
                   && s.writeCursor == old(s.writeCursor) + 4
                   && s.highWaterMark == Max(old(s.highWaterMark), s.writeCursor)
                   && s.hasData
    ensures !ok ==> unchanged(s)
  {
    ok := WriteNetworkOrder(s, u, 4);
  }

  /** `s2n_stuffer_write_uint64` */
  method WriteUint64(s: Stuffer, u: uint64) returns (ok: bool)
    requires s.Valid()
    modifies s`blob, s`hasData, s`writeCursor, s`highWaterMark
    ensures s.Valid()
    ensures ok <==> old(s.CanReserve(8))
    ensures ok ==> s.blob == Overwrite(old(s.Reserved(8)), old(s.writeCursor), ToBigEndian(u, 8))
                   && s.writeCursor == old(s.writeCursor) + 8
                   && s.highWaterMark == Max(old(s.highWaterMark), s.writeCursor)
                   && s.hasData
    ensures !ok ==> unchanged(s)
  {
    ok := WriteNetworkOrder(s, u, 8);
  }

  /**
   * Writing an integer that fits `width` bytes and then reading `width` bytes at the same place
   * (the stuffer had nothing left to read) gives the integer back.
   */
  method WriteThenRead(s: Stuffer, v: nat, width: uint32) returns (ok: bool, got: nat)
    requires s.Valid() && s.IsConsumed() && v < Pow256(width)
    modifies s`blob, s`hasData, s`readCursor, s`writeCursor, s`highWaterMark
    ensures s.Valid()
    ensures ok <==> old(s.CanReserve(width)) && (width > 0 || old(s.hasData))
    ensures ok ==> got == v && s.IsConsumed() && s.readCursor == old(s.readCursor) + width
  {
    ok := WriteNetworkOrder(s, v, width);
    if !ok {
      return false, 0;
    }
    assert s.Unread() == ToBigEndian(v, width);
    assert width > 0 ==> s.hasData;
    ghost var written := s.Unread();
    ok, got := ReadNetworkOrder(s, width);
    assert ok ==> got == FromBigEndian(written[..width]) && written[..width] == written;
    assert s.Unread() == [] by {
      assert ok ==> s.readCursor == s.writeCursor;
    }
    RoundTrip(v, width);
  }

  /**
   * `struct s2n_stuffer_reservation`: `length` bytes at `writeCursor` of `stuffer` set aside for a
   * length prefix.
   */
  datatype Reservation = Reservation(stuffer: Stuffer, writeCursor: uint32, length: uint8)

  /**
   * `s2n_stuffer_reservation_validate`: beside a valid stuffer, the reserved bytes end within
   * `uint32_t` range and lie between the stuffer's read and write cursors.
   */
  predicate ReservationValid(r: Reservation)
    reads r.stuffer
  {
    r.stuffer.Valid()
    && r.writeCursor as int + r.length as int <= UINT32_MAX
    && r.stuffer.readCursor <= r.writeCursor
    && r.writeCursor as int + r.length as int <= r.stuffer.writeCursor
  }

  /**
   * `s2n_stuffer_reserve`: record the write cursor, skip `length` bytes and fill them with the
   * wipe pattern. The record is filled in even when the skip fails.
   */
  method Reserve(s: Stuffer, length: uint8) returns (ok: bool, r: Reservation)
    requires s.Valid()
    modifies s`blob, s`hasData, s`writeCursor, s`highWaterMark
    ensures s.Valid()
    ensures r == Reservation(s, old(s.writeCursor), length)
    ensures ok <==> old(s.CanReserve(length as nat))
    ensures ok ==> s.blob == Overwrite(old(s.Reserved(length as nat)), old(s.writeCursor), Fill(length as nat, WIPE_PATTERN))
                   && s.writeCursor == old(s.writeCursor) + length as nat
                   && s.highWaterMark == Max(old(s.highWaterMark), s.writeCursor)
                   && s.hasData == (old(s.hasData) || old(s.SpaceRemaining()) < length as nat)
                   && ReservationValid(r)
    ensures !ok ==> unchanged(s)
  {
    r := Reservation(s, s.writeCursor, length);
    ok := s.SkipWrite(length as uint32);
    if ok {
      s.blob := Overwrite(s.blob, r.writeCursor, Fill(length as nat, WIPE_PATTERN));
    }
  }

  /** `s2n_stuffer_reserve_uint16`: reserve two bytes for a 16-bit length prefix. */
  method ReserveUint16(s: Stuffer) returns (ok: bool, r: Reservation)
    requires s.Valid()
    modifies s`blob, s`hasData, s`writeCursor, s`highWaterMark
    ensures s.Valid()
    ensures r == Reservation(s, old(s.writeCursor), 2)
    ensures ok <==> old(s.CanReserve(2))
    ensures ok ==> s.blob == Overwrite(old(s.Reserved(2)), old(s.writeCursor), Fill(2, WIPE_PATTERN))
                   && s.writeCursor == old(s.writeCursor) + 2
                   && s.highWaterMark == Max(old(s.highWaterMark), s.writeCursor)
                   && s.hasData && ReservationValid(r)
    ensures !ok ==> unchanged(s)
  {
    ok, r := Reserve(s, 2);
  }

  /** `s2n_stuffer_reserve_uint24`: reserve three bytes for a 24-bit length prefix. */
  method ReserveUint24(s: Stuffer) returns (ok: bool, r: Reservation)
    requires s.Valid()
    modifies s`blob, s`hasData, s`writeCursor, s`highWaterMark
    ensures s.Valid()
    ensures r == Reservation(s, old(s.writeCursor), 3)
    ensures ok <==> old(s.CanReserve(SIZEOF_UINT24))
    ensures ok ==> s.blob == Overwrite(old(s.Reserved(3)), old(s.writeCursor), Fill(3, WIPE_PATTERN))
                   && s.writeCursor == old(s.writeCursor) + 3
                   && s.highWaterMark == Max(old(s.highWaterMark), s.writeCursor)
                   && s.hasData && ReservationValid(r)
    ensures !ok ==> unchanged(s)
  {
    ok, r := Reserve(s, SIZEOF_UINT24 as uint8);
  }

  /** The number of bytes written after a reservation: the vector's length. */
  function VectorSize(r: Reservation): (n: int)
    reads r.stuffer
    ensures ReservationValid(r) ==> 0 <= n && r.writeCursor + r.length as int + n == r.stuffer.writeCursor
  {
    r.stuffer.writeCursor - r.writeCursor - r.length as int
  }

  /**
   * `s2n_stuffer_length_matches_value_check`: a prefix is at most four bytes, and a shorter one
   * must hold the value.
   */
  predicate LengthFits(value: nat, length: uint8)
  {
    length <= 4 && (length < 4 ==> value < Pow256(length as nat))
  }

  /**
   * `s2n_stuffer_write_vector_size`: back-patch the reserved bytes with the number of bytes written
   * after them, big-endian. Fails, changing nothing, when the reservation is no longer valid or the
   * size does not fit its width. The cursors and the high-water mark do not move.
   */
  method WriteVectorSize(r: Reservation) returns (ok: bool)
    requires r.stuffer.Valid()
    modifies r.stuffer`blob
    ensures r.stuffer.Valid()
    ensures ok <==> old(ReservationValid(r)) && LengthFits(old(VectorSize(r)), r.length)
    ensures ok ==> r.stuffer.blob == Overwrite(old(r.stuffer.blob), r.writeCursor, ToBigEndian(old(VectorSize(r)), r.length as nat))
    ensures !ok ==> unchanged(r.stuffer)
  {
    if !ReservationValid(r) {
      return false;
    }
    var size := VectorSize(r);
    if !LengthFits(size, r.length) {
      return false;
    }
    r.stuffer.blob := Overwrite(r.stuffer.blob, r.writeCursor, ToBigEndian(size, r.length as nat));
    ok := true;
  }

  /** What `WriteVectorSize` leaves in the reserved bytes reads back as the vector's length. */
  lemma VectorSizeReadsBack(r: Reservation, blob: seq<uint8>)
    requires ReservationValid(r) && LengthFits(VectorSize(r), r.length)
    requires blob == Overwrite(r.stuffer.blob, r.writeCursor, ToBigEndian(VectorSize(r), r.length as nat))
    ensures blob[r.writeCursor..r.writeCursor + r.length as nat] == ToBigEndian(VectorSize(r), r.length as nat)
    ensures FromBigEndian(blob[r.writeCursor..r.writeCursor + r.length as nat]) == VectorSize(r)
  {
    var len := r.length as nat;
    var n := VectorSize(r);
    assert blob[r.writeCursor..r.writeCursor + len] == ToBigEndian(n, len);
    if len == 4 {
      assert Pow256(4) == 0x1_0000_0000;
    }
    RoundTrip(n, len);
  }
}
