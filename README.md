# s2n stuffer, modelled in Dafny

s2n-tls moves every byte it parses or produces through a *stuffer*. A stuffer is a blob of bytes
(`struct s2n_blob`) with three `uint32_t` cursors:

- `read_cursor`: where the next read starts;
- `write_cursor`: where the next write goes;
- `high_water_mark`: how far anything was ever written.

It also has three flags:

- `alloced`: it owns its blob;
- `growable`: a write that does not fit reallocates the blob;
- `tainted`: a raw pointer into the blob was handed out, so it may not move.

This project models `stuffer/s2n_stuffer.h` as a Dafny class, `Stuffers.Stuffer`, with those
fields. The blob is a `seq<uint8>`. `hasData` stands for "`blob.data` is not NULL". Every
operation of the header becomes a method that changes the fields as the C function does and fails
(`ok == false`) when the C function returns an error (or, for `raw_read` and `raw_write`, a NULL
pointer). The failures the model does not reproduce are listed under "Left out": a failing
`realloc` behind the growth of a stuffer, a `copy` that fails half-way, and the checks that
reject a NULL pointer argument. Around that class sit:

- `Common`: the byte and integer types, and `Fill` / `Overwrite` (what `memset` and `memcpy` leave
  in a buffer).
- `NetworkOrder`: big-endian encoding and decoding of unsigned integers of any width.
- `StufferNetworkOrder`: the `read_uintN` / `write_uintN` family, length reservations and
  `write_vector_size`.
- `TextScan`: pure definitions of the text searches (first index of a byte, whitespace runs,
  `skip_read_until`'s search).
- `StufferText`: the text operations on a stuffer (`peek_char`, `read_token`, `read_line`,
  `skip_*`, the read-only string stuffers).
- `Base64`: the `b64` / `b64_inverse` tables, the encoding and decoding as functions, and the
  round trip `Decode(Encode(b))`.
- `StufferBase64`: the loops of `read_base64` and `write_base64`, proved against `Base64.Decode`
  and `Base64.Encode`.

The header declares the operations; their bodies are in `s2n_stuffer.c`,
`s2n_stuffer_network_order.c`, `s2n_stuffer_text.c` and `s2n_stuffer_base64.c`, which are not part
of this model. Where the header leaves a branch open, the model follows those implementations.
The behaviours that come from there are listed under "Left out".

Every method that takes an existing stuffer requires `Valid()`, which is `s2n_stuffer_validate`
(the ones that (re)initialise one, such as `Init`, `Zero`, `Alloc`, `GrowableAlloc`, `Free`,
`InitRoFromString` and `AllocRoFromString`, take any stuffer):

- the blob is valid;
- `read_cursor <= write_cursor <= high_water_mark <= blob.size <= UINT32_MAX`.

Every method ensures `Valid()` afterwards. A growth by `reserve_space` adds
`max(n - space_remaining, S2N_MIN_STUFFER_GROWTH_IN_BYTES)` bytes (`Stuffer.Growth`). It succeeds
exactly when the stuffer is growable, untainted and stays within `UINT32_MAX` (`Stuffer.CanReserve`).

## Model

| member | source | states |
|---|---|---|
| Stuffers.Stuffer.DataAvailable | stuffer/s2n_stuffer.h:59 | On a valid stuffer the unsigned difference `write_cursor - read_cursor` does not wrap and is the number of unread bytes |
| Stuffers.Stuffer.SpaceRemaining | stuffer/s2n_stuffer.h:60 | On a valid stuffer `blob.size - write_cursor` does not wrap and is the room left after the write cursor |
| Stuffers.Stuffer.IsWiped | stuffer/s2n_stuffer.h:61 | A zero high-water mark on a valid stuffer means the write cursor is 0 and nothing is readable |
| Stuffers.Stuffer.IsFreed | stuffer/s2n_stuffer.h:62 | A NULL blob on a valid stuffer means size 0, no room and nothing readable |
| Stuffers.Stuffer.IsConsumed | stuffer/s2n_stuffer.h:78 | Consumed exactly when no data is available |
| Stuffers.Stuffer.Unread | stuffer/s2n_stuffer.h:59 | The unread bytes number `data_available` |
| Stuffers.Stuffer.Written | stuffer/s2n_stuffer.h:43-44 | The bytes before the write cursor number `write_cursor` |
| Stuffers.Stuffer.Growth | stuffer/s2n_stuffer.h:26 | A growth adds at least `S2N_MIN_STUFFER_GROWTH_IN_BYTES`, and enough to fit the requested bytes |
| Stuffers.Stuffer.Reserved | stuffer/s2n_stuffer.h:91-92 | Reserving keeps the old bytes as a prefix, leaves room for `n` bytes after the write cursor, and changes nothing when there was room |
| Stuffers.Stuffer.WriteAppends | stuffer/s2n_stuffer.h:86 | Copying `data` to the write cursor of the reserved blob appends it to the written bytes |
| Stuffers.Stuffer.constructor | stuffer/s2n_stuffer.h:38-57 | A zeroed stuffer is valid, freed and wiped, with no flag set |
| Stuffers.Stuffer.Init | stuffer/s2n_stuffer.h:67 | Succeeds exactly on a valid blob, which it wraps unowned with both cursors at 0; otherwise nothing changes |
| Stuffers.Stuffer.Zero | stuffer/s2n_stuffer.h:38-57 | Every field cleared: valid, freed, wiped |
| Stuffers.Stuffer.Alloc | stuffer/s2n_stuffer.h:68 | On success an owned zeroed blob of `size` bytes and cursors at 0; on allocation failure a freed stuffer |
| Stuffers.Stuffer.GrowableAlloc | stuffer/s2n_stuffer.h:69 | As `Alloc`, and the stuffer is growable when the allocation succeeds |
| Stuffers.Stuffer.Free | stuffer/s2n_stuffer.h:70 | Afterwards the stuffer is freed, wiped and has no flag set |
| Stuffers.Stuffer.Resize | stuffer/s2n_stuffer.h:71 | Succeeds exactly on a growable untainted stuffer; shrinking truncates the bytes and clamps the cursors (to 0 frees the blob), growing appends zero bytes, the same size changes nothing |
| Stuffers.Stuffer.ResizeIfEmpty | stuffer/s2n_stuffer.h:72 | A stuffer with a blob is left alone (success); a freed one gets `size` zero bytes when it may grow, and fails otherwise |
| Stuffers.Stuffer.RewindRead | stuffer/s2n_stuffer.h:73 | Steps the read cursor back by `n` exactly when at least `n` bytes were read |
| Stuffers.Stuffer.Reread | stuffer/s2n_stuffer.h:74 | The read cursor returns to 0, so every written byte is unread again |
| Stuffers.Stuffer.Rewrite | stuffer/s2n_stuffer.h:75 | Both cursors return to 0 and nothing is available |
| Stuffers.Stuffer.Wipe | stuffer/s2n_stuffer.h:76 | The bytes below the old high-water mark become the wipe pattern `'w'`, the rest is kept; cursors and high-water mark 0; untainted |
| Stuffers.Stuffer.WipeN | stuffer/s2n_stuffer.h:77 | Wiping at least the written bytes is a full wipe; otherwise the last `n` written bytes become `'w'` and the cursors step back by `n`, the read cursor clamped |
| Stuffers.Stuffer.SkipRead | stuffer/s2n_stuffer.h:88 | Advances the read cursor by `n` exactly when `n` bytes are available |
| Stuffers.Stuffer.ReserveSpace | stuffer/s2n_stuffer.h:92 | Succeeds exactly when there is room or the stuffer may grow enough; then the blob is the reserved one with room for `n` bytes |
| Stuffers.Stuffer.SkipWrite | stuffer/s2n_stuffer.h:89 | After a successful reservation the write cursor and high-water mark move past `n` bytes; on failure nothing changes |
| Stuffers.Stuffer.RawRead | stuffer/s2n_stuffer.h:98 | When `n` bytes are available, consumes them and taints the stuffer, succeeding exactly when the blob is not NULL (a zero-byte raw read of a freed stuffer yields NULL); otherwise nothing changes |
| Stuffers.Stuffer.RawWrite | stuffer/s2n_stuffer.h:97 | When `n` bytes can be reserved, as `SkipWrite` and the stuffer is tainted, succeeding unless the blob is still NULL (a zero-byte raw write to a freed stuffer yields NULL); otherwise nothing changes |
| Stuffers.Stuffer.ReadBytes | stuffer/s2n_stuffer.h:84 | Returns the first `n` unread bytes and advances the read cursor exactly when they are available; otherwise returns nothing and moves nothing |
| Stuffers.Stuffer.EraseAndReadBytes | stuffer/s2n_stuffer.h:85 | As `ReadBytes`, and the consumed bytes in the blob become zero |
| Stuffers.Stuffer.Read | stuffer/s2n_stuffer.h:81 | Fills the caller's blob with its size's worth of unread bytes; a NULL blob or too few bytes fail without moving the cursor |
| Stuffers.Stuffer.EraseAndRead | stuffer/s2n_stuffer.h:82 | As `Read`, and the consumed bytes in the stuffer's blob become zero |
| Stuffers.Stuffer.WriteBytes | stuffer/s2n_stuffer.h:86 | Succeeds exactly when `n` bytes can be reserved; then `data` is copied to the write cursor, which advances, with the high-water mark; on failure nothing changes |
| Stuffers.Stuffer.Write | stuffer/s2n_stuffer.h:83 | `WriteBytes` of a valid blob; an invalid blob fails and changes nothing |
| Stuffers.Stuffer.WritevBytes | stuffer/s2n_stuffer.h:87 | Reserves `size` bytes and taints the stuffer, then fills them with the window of the gather list from `offs` on; a zero-byte write to a freed stuffer fails after tainting |
| Stuffers.Stuffer.ExtractBlob | stuffer/s2n_stuffer.h:167-171 | Succeeds exactly when the caller's blob can be resized; then the result is a copy of exactly the unread bytes, otherwise nothing is copied |
| Stuffers.Window | stuffer/s2n_stuffer.h:87 | The gathered window is never longer than `size` |
| Stuffers.Gathered | stuffer/s2n_stuffer.h:87 | What `writev_bytes` copies is never longer than `size` |
| Stuffers.WindowSkip | stuffer/s2n_stuffer.h:87 | An iovec entry wholly before `offs` contributes nothing |
| Stuffers.WindowTake | stuffer/s2n_stuffer.h:87 | An iovec entry reaching past `offs` contributes its bytes after the skipped part, up to the remaining room |
| Stuffers.OverwriteAppend | stuffer/s2n_stuffer.h:87 | Two adjacent copies into the blob equal one copy of their concatenation |
| Stuffers.JoinedPrefix | stuffer/s2n_stuffer.h:87 | Joining fewer iovec entries gives a prefix of joining more |
| Stuffers.WindowFull | stuffer/s2n_stuffer.h:87 | Once the window is full, later iovec entries do not change it |
| Stuffers.GatherInto | stuffer/s2n_stuffer.h:87 | The copy loop over the iovec entries leaves the blob overwritten by exactly the gathered window |
| Stuffers.CopyStep | stuffer/s2n_stuffer.h:87 | Copying the part of one entry keeps the copy loop's invariant for the next entry |
| Stuffers.CopyWindow | stuffer/s2n_stuffer.h:87 | The window after an entry is the window before it plus the copied part |
| Stuffers.Copy | stuffer/s2n_stuffer.h:132 | Succeeds exactly when `from` has `len` bytes and `to` can reserve them; then those bytes are appended to `to` and consumed from `from`; on failure neither changes |
| NetworkOrder.Pow256 | stuffer/s2n_stuffer.h:105-115 | 256 to the power `n` is positive |
| NetworkOrder.ToBigEndian | stuffer/s2n_stuffer.h:111-115 | The encoding of a value has exactly `width` bytes |
| NetworkOrder.FromBigEndianBound | stuffer/s2n_stuffer.h:105-109 | `n` bytes decode to a value below 256^n |
| NetworkOrder.DecodeEncode | stuffer/s2n_stuffer.h:105-115 | Decoding the `width`-byte encoding of `v` gives `v mod 256^width` |
| NetworkOrder.EncodeDecode | stuffer/s2n_stuffer.h:105-115 | Encoding a decoded byte string gives the same bytes |
| NetworkOrder.ToBigEndianTruncates | stuffer/s2n_stuffer.h:113 | Only the low `width` bytes of a value are written, so `write_uint24` drops the top byte of its `uint32_t` |
| NetworkOrder.RoundTrip | stuffer/s2n_stuffer.h:105-115 | A value that fits in `width` bytes reads back as itself |
| NetworkOrder.Uint24Example | stuffer/s2n_stuffer.h:36 | 0x010203 in three bytes is 01 02 03 |
| StufferNetworkOrder.ReadNetworkOrder | stuffer/s2n_stuffer.h:105-109 | Reads `width` bytes most significant first exactly when they are available, giving a value below 256^width |
| StufferNetworkOrder.WriteNetworkOrder | stuffer/s2n_stuffer.h:111-115 | Appends the `width`-byte big-endian encoding exactly when it can be reserved; otherwise nothing changes |
| StufferNetworkOrder.ReadUint8 | stuffer/s2n_stuffer.h:105 | The next unread byte, when there is one |
| StufferNetworkOrder.ReadUint16 | stuffer/s2n_stuffer.h:106 | The next two bytes, big-endian, when available |
| StufferNetworkOrder.ReadUint24 | stuffer/s2n_stuffer.h:107 | The next three bytes, big-endian, into a `uint32_t` below 2^24 |
| StufferNetworkOrder.ReadUint32 | stuffer/s2n_stuffer.h:108 | The next four bytes, big-endian, when available |
| StufferNetworkOrder.ReadUint64 | stuffer/s2n_stuffer.h:109 | The next eight bytes, big-endian, when available |
| StufferNetworkOrder.WriteUint8 | stuffer/s2n_stuffer.h:111 | Appends the byte when one byte can be reserved |
| StufferNetworkOrder.WriteUint16 | stuffer/s2n_stuffer.h:112 | Appends the two-byte big-endian encoding |
| StufferNetworkOrder.WriteUint24 | stuffer/s2n_stuffer.h:113 | Appends the three low bytes of the `uint32_t`, big-endian |
| StufferNetworkOrder.WriteUint32 | stuffer/s2n_stuffer.h:114 | Appends the four-byte big-endian encoding |
| StufferNetworkOrder.WriteUint64 | stuffer/s2n_stuffer.h:115 | Appends the eight-byte big-endian encoding |
| StufferNetworkOrder.WriteThenRead | stuffer/s2n_stuffer.h:105-115 | On a consumed stuffer, writing a value that fits and reading the same width gives the value back and leaves the stuffer consumed |
| StufferNetworkOrder.Reserve | stuffer/s2n_stuffer.h:120-124 | Records the write cursor and length, and writes `length` placeholder bytes `'w'` when they can be reserved |
| StufferNetworkOrder.ReserveUint16 | stuffer/s2n_stuffer.h:127 | A reservation of two placeholder bytes at the write cursor |
| StufferNetworkOrder.ReserveUint24 | stuffer/s2n_stuffer.h:128 | A reservation of three placeholder bytes at the write cursor |
| StufferNetworkOrder.VectorSize | stuffer/s2n_stuffer.h:117-124 | For a valid reservation, the bytes written after the placeholder number `write_cursor - reservation.write_cursor - length` |
| StufferNetworkOrder.WriteVectorSize | stuffer/s2n_stuffer.h:129 | Succeeds exactly on a valid reservation whose vector length fits in `length` bytes; then the placeholder becomes that length, big-endian; otherwise nothing changes |
| StufferNetworkOrder.VectorSizeReadsBack | stuffer/s2n_stuffer.h:126-129 | The filled-in placeholder reads back as the vector's length |
| TextScan.IndexOf | stuffer/s2n_stuffer.h:146 | The first position holding `c`, or the length when there is none |
| TextScan.LeadingWhitespace | stuffer/s2n_stuffer.h:149 | The length of the leading run of space, tab, LF and CR |
| TextScan.LeadingRun | stuffer/s2n_stuffer.h:151 | The length of the leading run of `c`, at most `max`, stopping at the first other byte |
| TextScan.IndexFrom | stuffer/s2n_stuffer.h:150 | A position at or after `pos` holding `c`, or the end |
| TextScan.IndexFromSkips | stuffer/s2n_stuffer.h:150 | No `c` lies between `pos` and `IndexFrom` |
| TextScan.IndexFromIsFirst | stuffer/s2n_stuffer.h:150 | Any position holding `c` (or the end) with no `c` before it, from `pos` on, is `IndexFrom` |
| TextScan.IndexFromIsIndexOf | stuffer/s2n_stuffer.h:150 | Searching from `pos` is `IndexOf` on the bytes from `pos` on |
| TextScan.SearchRound | stuffer/s2n_stuffer.h:152 | One round of `skip_read_until` either stops with a result or moves forward within the text |
| TextScan.NoOccurrenceBefore | stuffer/s2n_stuffer.h:152 | The target occurs nowhere before the next place its first byte is seen |
| TextScan.FoundIsFirst | stuffer/s2n_stuffer.h:152 | A found target ends at the reported position and occurs nowhere earlier |
| TextScan.NotFoundIsAbsent | stuffer/s2n_stuffer.h:152 | A search that does not find the target means the target occurs nowhere from `pos` on |
| TextScan.SkipUntilFindsFirst | stuffer/s2n_stuffer.h:152 | The search succeeds just after the first occurrence of the target, and otherwise the target is absent |
| TextScan.SkipUntilOccurrence | stuffer/s2n_stuffer.h:152 | If the target occurs at `k`, the search succeeds no later than just after `k` |
| TextScan.SkipUntilBounds | stuffer/s2n_stuffer.h:152 | The search stops inside the text, never before where it began |
| StufferText.PeekChar | stuffer/s2n_stuffer.h:145 | The next unread byte without consuming it; fails when nothing is unread |
| StufferText.ReadExpectedStr | stuffer/s2n_stuffer.h:144 | Consumes `expected` exactly when the unread bytes begin with it; otherwise nothing moves |
| StufferText.PeekCheckForStr | stuffer/s2n_stuffer.h:148 | Whether the unread bytes begin with `expected`; nothing is consumed |
| StufferText.SkipWhitespace | stuffer/s2n_stuffer.h:149 | Consumes and counts exactly the leading whitespace |
| StufferText.SkipToChar | stuffer/s2n_stuffer.h:150 | Stops at the first `target` in the unread bytes, or at their end |
| StufferText.SkipExpectedChar | stuffer/s2n_stuffer.h:151 | Consumes the run of `expected` (at most `max`); succeeds exactly when `min <= max` and the run is at least `min` |
| StufferText.SkipReadUntilRound | stuffer/s2n_stuffer.h:152 | One pass of the `skip_read_until` loop moves the read cursor as `SearchRound` says |
| StufferText.SkipReadUntil | stuffer/s2n_stuffer.h:152 | The read cursor ends where the search of the written bytes stops; success exactly when the search does not fail; an empty target succeeds at once |
| StufferText.TokenLength | stuffer/s2n_stuffer.h:146 | The scan counts the unread bytes before the first delimiter |
| StufferText.ReadToken | stuffer/s2n_stuffer.h:146 | Copies the bytes before the first delimiter to `token` and consumes them and the delimiter, when `token` can take them; otherwise changes nothing |
| StufferText.ReadLine | stuffer/s2n_stuffer.h:147 | `ReadToken` up to LF, and a CR ending the token's unread bytes is dropped |
| StufferText.SnipCR | stuffer/s2n_stuffer.h:147 | Steps the token's write cursor back over a final CR that is still unread |
| StufferText.InitRoFromString | stuffer/s2n_stuffer.h:154 | The stuffer wraps the bytes unowned, all written, none read, with no room left |
| StufferText.AllocRoFromString | stuffer/s2n_stuffer.h:153 | On success an owned blob of `strlen + 1` bytes holding the string, which is written and unread; the extra byte is never written (it is 0 here only because new memory is modelled as zero bytes); fails when the allocation fails or `strlen + 1` overflows |
| Base64.Inverse | stuffer/s2n_stuffer.h:165 | The inverse table gives a 6-bit value, 64 for `=`, or the invalid mark |
| Base64.InverseAlphabet | stuffer/s2n_stuffer.h:135-136 | The inverse table undoes the alphabet |
| Base64.AlphabetInverse | stuffer/s2n_stuffer.h:135-136 | The alphabet undoes the inverse table on alphabet characters |
| Base64.IsBase64CharIff | stuffer/s2n_stuffer.h:165 | A character is base64 exactly when it is `=` or one of the 64 alphabet characters |
| Base64.EncodeGroup | stuffer/s2n_stuffer.h:136 | Three bytes encode to four base64 characters, none of them the pad `=` |
| Base64.EncodeLength | stuffer/s2n_stuffer.h:136 | The encoding has four characters for every started group of three bytes |
| Base64.EncodeIsBase64 | stuffer/s2n_stuffer.h:136 | Every character of an encoding is a base64 character |
| Base64.AlphabetCharIsBase64 | stuffer/s2n_stuffer.h:165 | Every alphabet character is base64 and not the pad |
| Base64.Assemble | stuffer/s2n_stuffer.h:135 | Four 6-bit values make three bytes |
| Base64.AssembleGroup | stuffer/s2n_stuffer.h:135-136 | Reassembling the four 6-bit values of three bytes gives those bytes |
| Base64.DecodeQuantum | stuffer/s2n_stuffer.h:135 | A decoded group of four characters gives one to three bytes |
| Base64.Decode | stuffer/s2n_stuffer.h:135 | The decoder consumes whole groups within the text and yields at most three bytes per four characters |
| Base64.DecodeGroup | stuffer/s2n_stuffer.h:135-136 | A full group decodes to the three bytes it encodes |
| Base64.DecodePair | stuffer/s2n_stuffer.h:135-136 | A group `xxx=` built from two bytes decodes to them |
| Base64.DecodeSingle | stuffer/s2n_stuffer.h:135-136 | A group `xx==` built from one byte decodes to it |
| Base64.DecodeTail | stuffer/s2n_stuffer.h:135-136 | The padded final group decodes to the one or two bytes it encodes |
| Base64.DecodeTailPair | stuffer/s2n_stuffer.h:135-136 | The final group for two bytes decodes to them |
| Base64.DecodeTailSingle | stuffer/s2n_stuffer.h:135-136 | The final group for one byte decodes to it |
| Base64.DecodeEncode | stuffer/s2n_stuffer.h:135-136 | Decoding the encoding of any bytes succeeds, consumes the whole encoding and gives the bytes back |
| Base64.DecodeEncodeThenMore | stuffer/s2n_stuffer.h:135-136 | After a padded encoding, any following text is not read |
| StufferBase64.ReadBase64 | stuffer/s2n_stuffer.h:135 | On success the decoding of the unread text is appended to `out` and its characters consumed. A bad group fails. On failure `out` holds a prefix of the decoding and the cursor stays within it. A non-growing `out` fails exactly when the decoding does not fit |
| StufferBase64.ProgressStart | stuffer/s2n_stuffer.h:135 | Before the first group, decoding the rest is decoding the whole |
| StufferBase64.ProgressDone | stuffer/s2n_stuffer.h:135 | With fewer than four characters left the decoding has succeeded with everything written |
| StufferBase64.ProgressStep | stuffer/s2n_stuffer.h:135 | One group of the loop either ends the decoding (error or padding) or keeps the rest-of-text invariant |
| StufferBase64.ReadQuantum | stuffer/s2n_stuffer.h:135 | One loop round keeps the invariant, or ends as `ReadBase64` promises |
| StufferBase64.ReadGroup | stuffer/s2n_stuffer.h:135 | Reads four characters; a first character that is not base64 is unread again; decoded bytes are appended when they fit |
| StufferBase64.WriteBase64 | stuffer/s2n_stuffer.h:136 | On success the encoding of all unread input is appended and the input is consumed. On failure the output holds a prefix of the encoding. A non-growing output fails exactly when the encoding does not fit |
| StufferBase64.PendingGroup | stuffer/s2n_stuffer.h:136 | Writing the group for the next three bytes leaves the encoding of the rest to finish the encoding |
| StufferBase64.PrefixOfAppend | stuffer/s2n_stuffer.h:136 | Prefixes survive appending |
| StufferBase64.PendingTail | stuffer/s2n_stuffer.h:136 | The encoding of the last bytes finishes the encoding |
| StufferBase64.WriteGroup | stuffer/s2n_stuffer.h:136 | Consumes three bytes and appends their group when it fits |
| StufferBase64.WriteTail | stuffer/s2n_stuffer.h:136 | Consumes the last one or two bytes and appends their padded group when it fits |
| StufferBase64.TailGroup | stuffer/s2n_stuffer.h:136 | The padded group built for the last one or two bytes is their encoding |

## Left out

- `s2n_stuffer_recv_from_fd` and `s2n_stuffer_send_to_fd` (lines 101-102): file-descriptor I/O is
  outside the model.
- The PEM readers (lines 157-163) and the hash module: they are built on the operations modelled
  here and are not part of this model.
- The text macros `write_char`, `read_char`, `write_str`, `write_text` and `read_text`
  (lines 139-143) are aliases. They are covered by `WriteUint8`, `ReadUint8`, `WriteBytes` and
  `ReadBytes`.
- Memory: allocation failure is an explicit parameter (`allocOk`) of `Alloc`, `GrowableAlloc` and
  `AllocRoFromString`, and the failure to resize the caller's blob is the parameter `resizeOk` of
  `ExtractBlob` (the caller's old blob itself is not modelled). The `realloc` behind the growth of a growable stuffer always succeeds.
  New memory is modelled as zero bytes.
- Aliasing: two stuffers passed together must be distinct objects (`from != to`, `s != out`).
  The blob is a value, so two stuffers sharing one buffer are not modelled.
- Pointers: `raw_read` and `raw_write` return a pointer into the blob. The model moves the cursor
  and sets `tainted`, but returns no pointer; `ok` says whether that pointer would be non-NULL.
  `read_bytes` and friends return the bytes as a value.
- Characters: a C `char` is taken as its byte value. `skip_to_char`, `skip_expected_char`,
  `read_token` and `skip_read_until` compare a `uint8_t` byte with a `char`; where
  `char` is signed, a target byte of 0x80 or above never matches in C, while the model matches
  it. Strings longer than `UINT32_MAX` are not accepted (the C code cannot hold their length in a
  `uint32_t`).
- NULL pointer arguments: byte strings, iovec lists and output buffers are values, which cannot be
  NULL. The implementation's checks that fail on a NULL `expected`, `target` or `str`, a NULL `data`
  for `init_ro_from_string`, a NULL `iov`, or a NULL destination for `read_bytes` are not modelled.
  `ReadExpectedStr`, `PeekCheckForStr`, `SkipReadUntil`, `AllocRoFromString`, `WritevBytes` and
  `ReadBytes` never fail for that reason, and `InitRoFromString` never fails.
- Checked C annotations (`itype`, `_Ptr`, `_Nt_array_ptr`) and the `S2N_RESULT` error codes: a
  failing call is `ok == false`, without the error kind.
- `s2n_stuffer_validate` and `s2n_stuffer_reservation_validate` are the predicates
  `Stuffer.Valid` and `ReservationValid`. The stuffer operations take a valid stuffer as a
  precondition instead of checking it.
- StufferBase64.ReadBase64: on a growable, untainted output the contract does not state the
  failure when the output's blob would grow past `UINT32_MAX`. It states only the prefix bounds
  and that a fitting decoding succeeds.
- StufferBase64.WriteBase64: on a growable, untainted output the contract does not state the
  failure when the output's blob would grow past `UINT32_MAX`. It states only the prefix bounds
  and that a fitting encoding succeeds.
- Stuffers.Copy: modelled as one atomic step, so a failed copy changes neither stuffer.
- Helper methods (`GatherInto`, `SkipReadUntilRound`, `TokenLength`, `SnipCR`, `ReadQuantum`,
  `ReadGroup`, `WriteGroup`, `WriteTail`, `TailGroup`) split one C function's loop or body into
  parts, each with its own contract.

Behaviours that come from the implementation files rather than from the header:

- `resize` to a smaller size clamps the cursors and the high-water mark to the new size.
- `resize_if_empty` acts on a stuffer whose blob is NULL, not on one whose write cursor is 0.
- `read(out)` reads exactly `out.size` bytes, not everything available.
- The placeholder bytes of `reserve_uint16` / `reserve_uint24` are the wipe pattern `'w'`.
- `skip_to_char` never fails; without the target it stops at the end of the data.
- `skip_expected_char` leaves the cursor after the run when it fails because the run is shorter
  than `min`.
- `erase_and_read` and `erase_and_read_bytes` zero the consumed bytes of the blob.
- `wipe_n` wipes the last `n` written bytes and steps the write cursor back over them; it does not
  wipe the first `n` bytes and move the rest down.
- `skip_read_until` succeeds, with the cursor where the search left it, when fewer bytes than the
  target remain at the start of a round. It fails only when `skip_read` runs out of bytes right
  after `skip_to_char` has found the target's first byte near the end.
- `read_base64` fails when a group's first character is not a base64 character, and puts that
  group back as unread; it does not stop there with success.
