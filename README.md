# inotify_simple in Dafny

This project models the logic of `inotify_simple`, a small Python wrapper around the
Linux inotify interface, and proves properties of it. The model covers four parts.

- **`parse_events`:** it turns the bytes read from an inotify descriptor into
  `Event(wd, mask, cookie, name)` tuples.
  - Each record is a 16-byte header of struct format `iIII`, followed by a name field
    of `namesize` NUL-padded bytes.
  - Three versions are modelled, one per module:
    - `inotify_simple.py` cuts the name with `split(b'\x00', 1)[0]` and then applies `os.fsdecode`;
    - the older `inotify_simple/inotify_simple.py` reads the name back through `ctypes.c_buffer(...).value`;
    - the stripped copy `doc/fullsource.py` decodes the name as strict UTF-8.
- **The `flags` enumeration:** `flags.from_mask`, and the three `masks` combinations.
- **`_libc_call`:** its EINTR retry loop, in the current module and in `doc/fullsource.py`.
- **The `inotify_init1` flag word:** the one computed in `INotify.__init__`.

Each `parse_events` loop is an imperative method. It is proved equal to one
specification function, `EventCodec.DecodeFrom`, which is parameterised by the name
transform. A real encoder, `EventCodec.Encode`, writes what the kernel writes: the
header, the name and any number of NUL padding bytes. The round trip
`Decode(Encode(evs)) == evs` is then proved once and specialised to each module.

Modules and files:

- `results.dfy` (Results): Option and Result.
- `wire.dfy` (Wire): bytes, 32-bit words, little-endian reads, Python slicing, cutting at a NUL.
- `ctypes.dfy` (CTypes): `c_buffer(init, size).value`.
- `utf8.dfy` (Utf8): strict UTF-8, with both round trips.
- `event_codec.dfy` (EventCodec): the record layout, the decoding specification, the encoder and the round trip.
- `inotify_simple.dfy` (InotifySimple): the current module.
- `legacy_inotify_simple.dfy` (LegacyInotifySimple): the older package module.
- `fullsource.dfy` (FullSource): the documentation copy.
- `flags.dfy` (Flags): the flag table, `from_mask` and the masks.
- `syscall.dfy` (Syscall): the retry policy.

Modelling choices:

- **Byte order.** Native byte order is taken to be little-endian.
- **Names in the byte modules.** `os.fsdecode` is the identity on bytes. An event's name is therefore the raw bytes before the first NUL.
- **Errors.** A Python exception becomes an `Err` value:
  - `struct.error` from a short header becomes `ShortHeader(remaining)`;
  - `UnicodeDecodeError` becomes `UndecodableName(raw)`.
- **Masks.** A Python int mask is reduced modulo 2^32 before it is tested against the flags. Python's `&` on a negative int acts on its two's complement, so `from_mask(-1)` lists every flag.
- **Malformed input.** On malformed input the code behaves as follows, and so does the model:
  - In the two byte-name modules the only decoding error is a header with fewer than 16 bytes left at a record boundary. `doc/fullsource.py` also fails on a name that is not UTF-8.
  - A `namesize` that runs past the end of the buffer is not an error. The name is cut from whatever bytes remain, and that record is the last one.
  - In `doc/fullsource.py`, a name that is not UTF-8 raises. It is not escaped.

## Model

| member | source | states |
|---|---|---|
| EventCodec.UnpackHeader | inotify_simple.py:248 | `unpack_from` succeeds exactly when 16 bytes remain at the offset; otherwise it fails with the number of bytes left |
| EventCodec.UnpackPackHeader | inotify_simple.py:50-51 | a header packed as `iIII` (signed wd, little-endian) reads back as itself wherever it sits in the buffer |
| EventCodec.PackUnpackHeader | inotify_simple.py:248 | unpacking loses nothing: re-packing the header read at an offset gives the 16 bytes there |
| EventCodec.NameBytesCut | inotify_simple.py:250 | the name holds no NUL, is at most namesize bytes, is what the buffer holds after the header, ends only at a NUL, at the end of the field or at the end of the buffer, and is empty when namesize is 0 |
| EventCodec.DecodeFromBounds | inotify_simple.py:245-252 | every decoded event takes at least 16 bytes of the buffer; a short-header error reports between 1 and 15 remaining bytes |
| EventCodec.DecodeEncode | inotify_simple.py:234-252 | decoding an encoded run of records gives back exactly its events, in order, one per record, whatever the NUL padding |
| EventCodec.DecodeEmpty | inotify_simple.py:245-247 | an empty buffer gives no events |
| EventCodec.DecodeShortHeader | inotify_simple.py:247-248 | fewer than 16 bytes at a record boundary raise, and the events before are lost |
| EventCodec.DecodeOverrun | inotify_simple.py:249-250 | a namesize past the end of the buffer is not checked: the name is cut from the remaining bytes and the record is the last one |
| EventCodec.Advance | inotify_simple.py:248-251 | one turn of any of the three loops: appending the event made of the header at pos and of the name field cut at its first NUL, then moving to pos + 16 + namesize, keeps the overall outcome |
| EventCodec.Refuse | doc/fullsource.py:74 | a name the transform refuses ends decoding with that error, whatever was decoded before it |
| InotifySimple.ParseEvents | inotify_simple.py:234-252 | the `while` loop (pos jumps past the name field, then the name is sliced back from before pos) returns exactly the decoding specification's outcome, events or error |
| InotifySimple.ParseEncode | inotify_simple.py:234-252 | records with NUL-free byte names, padded with any number of NULs, decode to the same events in the same order |
| InotifySimple.InitFlags | inotify_simple.py:95-96 | the word has the O_CLOEXEC bit (0x80000) exactly when not inheritable, the O_NONBLOCK bit (0x800) exactly when nonblocking, and no other bit |
| LegacyInotifySimple.ParseEvents | inotify_simple/inotify_simple.py:172-192 | the `while` loop (offset += 16, name through a char buffer, offset += namesize) returns exactly the decoding specification's outcome. That is the outcome of the current module's loop, so the round trip of InotifySimple.ParseEncode holds for this loop too |
| LegacyInotifySimple.Masks | inotify_simple/inotify_simple.py:229-242 | CLOSE is 0x18, MOVE is 0xC0, and ALL_EVENTS is 0xFFF even with DELETE written before CREATE; all three equal the current module's masks |
| CTypes.CBufferValueCut | inotify_simple/inotify_simple.py:189 | the value of a zero-filled char buffer that starts with init is init up to its first NUL |
| CTypes.CBuffer | inotify_simple/inotify_simple.py:189 | `c_buffer(init, size).value` is init cut at its first NUL |
| FullSource.ParseEvents | doc/fullsource.py:67-77 | the `while` loop, decoding each name as strict UTF-8 and raising on a name that is not UTF-8, returns exactly the decoding specification's outcome |
| FullSource.ParseEncode | doc/fullsource.py:67-77 | records whose names are NUL-free text, UTF-8 encoded and NUL padded, decode to the same events in the same order |
| FullSource.InvalidName | doc/fullsource.py:74 | a record whose name field is 0xFF and three NULs fails to decode, with the single byte 0xFF |
| FullSource.LibcCall | doc/fullsource.py:16-25 | this copy's loop, which tests for -1 first and uses `continue` on EINTR, has the same outcome as the retry policy and stops at the first call that does not fail with EINTR |
| FullSource.Masks | doc/fullsource.py:110-117 | CLOSE is 0x18, MOVE is 0xC0, ALL_EVENTS is 0xFFF, and from_mask takes each apart into the flags it was built from |
| Flags.FromWord | inotify_simple.py:286 | the comprehension over a 32-bit word lists a flag exactly when its bit is set, in definition order |
| Flags.FromMask | inotify_simple.py:283-286 | `from_mask(mask)` lists a flag exactly when `flag & mask` is non-zero, in definition order, so without duplicates |
| Flags.FromMaskUnique | inotify_simple/inotify_simple.py:223-226 | from_mask is the only list in definition order of exactly the flags set in the mask |
| Flags.FromMaskZero | doc/fullsource.py:105-107 | `from_mask(0)` is empty |
| Flags.FromMaskMinusOne | inotify_simple.py:283-286 | `from_mask(-1)` lists every flag, in definition order |
| Flags.FromMaskOrOf | inotify_simple.py:283-286 | ORing flags listed in definition order and taking the word apart gives back those flags |
| Flags.FromMaskUnusedBits | inotify_simple.py:259-281 | adding any bits that no flag uses (0x1000, 0x0800_0000, 0x1000_0000 and the bits from 0x1_0000 to 0x80_0000) leaves from_mask unchanged |
| Flags.FromMaskIgnoresUnused | inotify_simple.py:259-281 | from_mask ignores all unused bits at once |
| Flags.SingleBit | inotify_simple.py:259-281 | every flag is a single bit |
| Flags.DisjointBits | inotify_simple.py:259-281 | two flags share a bit exactly when they are the same flag, so the values are distinct |
| Flags.ValueIncreasing | inotify_simple/inotify_simple.py:199-221 | definition order is ascending bit order |
| Flags.AllFlagsInOrder | doc/fullsource.py:81-103 | the member table lists all 21 flags, each once, in definition order |
| Flags.OrOfHas | inotify_simple.py:291-300 | a flag's bit is in an OR of flags exactly when it is one of them |
| Flags.MaskClose | inotify_simple.py:292 | `masks.CLOSE` is 0x18 and takes apart into CLOSE_WRITE and CLOSE_NOWRITE |
| Flags.MaskMove | inotify_simple.py:294 | `masks.MOVE` is 0xC0 and takes apart into MOVED_FROM and MOVED_TO |
| Flags.MaskAllEvents | inotify_simple.py:298-300 | `masks.ALL_EVENTS` is 0xFFF and takes apart into ACCESS through MOVE_SELF |
| Flags.WatchEvents | inotify_simple.py:296-300 | the events a watch can ask for are the first twelve flags, exactly those with a bit in 0xFFF |
| Syscall.LibcCall | inotify_simple.py:34-42 | the `while True` loop returns the first return code other than -1, retries on -1 with EINTR, raises with any other errno, and stops at the first call that settles |
| Syscall.RetryFirst | inotify_simple.py:36-42 | the outcome is decided by the first call that is not an EINTR failure |
| Syscall.RetryExhausted | inotify_simple.py:36-41 | the loop goes on for ever exactly when every call fails with EINTR |
| Syscall.RetryOutcome | inotify_simple.py:38-42 | a returned code is never -1, a raised errno is never EINTR, and each comes from the first settling call |
| Syscall.RetryExtend | inotify_simple.py:36-39 | a call that settles makes later outcomes irrelevant |
| Wire.ToSigned | inotify_simple.py:248 | format code `i` reads a word as two's complement: negative exactly when the top bit is set, and congruent to the word modulo 2^32 |
| Wire.FromSigned | inotify_simple.py:50 | the bit pattern of a C int reads back as that int |
| Wire.TakeUntilNulCut | inotify_simple.py:250 | `split(b'\x00', 1)[0]` is a NUL-free prefix that ends at the first NUL or at the end |
| Wire.TakeUntilNulPadded | inotify_simple.py:250 | NUL padding after a NUL-free name is cut off again |
| Wire.SliceBytes | inotify_simple/inotify_simple.py:189 | `data[offset:offset + namesize]` is exactly the bytes from offset to offset + namesize, both clamped to the buffer's length as Python clamps them, and so at most namesize bytes |
| Utf8.DecodeEncode | doc/fullsource.py:74 | every string survives UTF-8 encoding followed by strict decoding |
| Utf8.EncodeDecode | doc/fullsource.py:74 | strict decoding accepts only shortest forms: a decoded string re-encodes to the very bytes it came from |
| Utf8.EncodeHasNul | doc/fullsource.py:74 | the UTF-8 encoding holds a NUL byte exactly when the string holds U+0000 |

## Left out

- `INotify.read` and `_readall`: they rest on a lock, `poll`, `sleep`, a monotonic clock, `ioctl(FIONREAD)` and `fstat` on a live descriptor. Only the `parse_events` they end in is modelled.
- `add_watch` and `rm_watch`: thin wrappers over libc calls that retry through `_libc_call` (`inotify_simple.py:133`, `inotify_simple.py:148`). `_libc_call` is modelled.
- `close`: in `inotify_simple.py` it is the inherited `io.FileIO.close`; in `inotify_simple/inotify_simple.py:151` and `doc/fullsource.py:52` it calls `os.close` directly. None of them goes through `_libc_call` or retries on EINTR, and none is modelled.
- The rest of `INotify.__init__` is not modelled: locating libc, `inotify_init1`, `FileIO` and `os.set_inheritable`. Only the flag word of lines 95-96 is modelled.
- Kernel behaviour of watches is not modelled: mask replacement, `MASK_ADD`, `IGNORED` after removal and `ONESHOT`. No code in the library implements it.
- `_get_libc`, `_libc_call` and `INotify` in `inotify_simple/inotify_simple.py`: they do not run as written. `_get_libc` returns nothing, and `_libc_call` uses `function` and `self`, which it never binds.
- The `INotify` class in `doc/fullsource.py`: descriptor plumbing only.
- The Python 2, pathlib and `fsencode` shims, the `LongEnum` substitute and the `PY2` branch: platform selection with no logic of its own.
- `os.strerror`: the message of the `OSError` is not modelled, only its errno.
- The foreign function of `_libc_call`: it is replaced by the finite sequence of (return code, errno) outcomes its calls produce.
- Syscall.LibcCall: when every one of those outcomes is an EINTR failure, the result is `Exhausted`. It stands for the loop still running, which the Python code would keep doing for ever.
- EventCodec.FsDecode: `os.fsdecode` is taken as the identity on bytes. Decoding to `str` with surrogate escapes on Python 3 is not modelled.
- CTypes.CBuffer: `c_buffer` raises `ValueError` when init is longer than size. Its precondition excludes that case. The call site at `inotify_simple/inotify_simple.py:189` never passes a longer slice (Wire.SliceBytes).
- CTypes.CBuffer: `c_buffer` allocates `namesize` bytes, up to 4 GiB, even when a `namesize` that overruns the buffer leaves only a few bytes. A corrupt `namesize` can therefore raise `MemoryError` in `inotify_simple/inotify_simple.py:189` and `doc/fullsource.py:74`; the clamped slice of `inotify_simple.py:250` cannot. Memory is not modelled.
- EventCodec.UnpackHeader: the `struct.error` message is not kept, only the number of bytes that remained.
- Native byte order and struct alignment are fixed: little-endian, with no padding in `iIII`.
