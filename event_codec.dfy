/**
 * The binary layout of the event stream read from an inotify descriptor
 * (`struct inotify_event` of the Linux inotify(7) interface) and the decoding
 * loop shared by every version of `parse_events`: a 16-byte header of struct
 * format `iIII` (wd, mask, cookie, namesize) in native, here little-endian,
 * byte order, followed by a name field of namesize bytes padded with NULs.
 */
module EventCodec {
  import opened Wire
  import opened Results

  /** A decoded event: the namedtuple (wd, mask, cookie, name). */
  datatype Event<Name> = Event(wd: i32, mask: u32, cookie: u32, name: Name)

  /** The fixed-size part of one record. */
  datatype Header = Header(wd: i32, mask: u32, cookie: u32, namesize: u32)

  datatype DecodeError =
    /** struct.error from `unpack_from`: fewer than 16 bytes left at a record boundary. */
    | ShortHeader(remaining: nat)
    /** The name transform refused the name bytes (UnicodeDecodeError for strict UTF-8). */
    | UndecodableName(raw: seq<byte>)

  /** `struct.calcsize('iIII')`. */
  const EVENT_SIZE: nat := 16

  /** The path-text transform for byte names: `os.fsdecode`, taken as the identity on bytes. */
  function FsDecode(raw: seq<byte>): Option<seq<byte>> {
    Some(raw)
  }

  function FsEncode(name: seq<byte>): seq<byte> {
    name
  }

  /** The fields of the 16-byte header at offset: an int, then three unsigned ints. */
  function HeaderAt(data: seq<byte>, offset: nat): Header
    requires offset + EVENT_SIZE <= |data|
  {
    Header(ToSigned(U32At(data, offset)), U32At(data, offset + 4),
           U32At(data, offset + 8), U32At(data, offset + 12))
  }

  /** `unpack_from('iIII', data, offset)`. */
  function UnpackHeader(data: seq<byte>, offset: nat): (r: Result<Header, DecodeError>)
    requires offset <= |data|
    ensures r.Ok? <==> offset + EVENT_SIZE <= |data|
    ensures r.Err? ==> r.error == ShortHeader(|data| - offset)
  {
    if |data| < offset + EVENT_SIZE then
      Err(ShortHeader(|data| - offset))
    else
      Ok(HeaderAt(data, offset))
  }

  /** `struct.pack('iIII', wd, mask, cookie, namesize)`. */
  function PackHeader(h: Header): (r: seq<byte>)
    ensures |r| == EVENT_SIZE
  {
    Le32(FromSigned(h.wd)) + Le32(h.mask) + Le32(h.cookie) + Le32(h.namesize)
  }

  /** The four bytes at k of a header that sits at offset in data. */
  lemma HeaderWord(data: seq<byte>, offset: nat, bytes: seq<byte>, k: nat, w: seq<byte>)
    requires offset + |bytes| <= |data| && data[offset..offset + |bytes|] == bytes
    requires k + 4 <= |bytes| && bytes[k..k + 4] == w
    ensures data[offset + k..offset + k + 4] == w
  {
    forall i | 0 <= i < 4
      ensures data[offset + k..offset + k + 4][i] == w[i]
    {
      assert w[i] == bytes[k + i] == data[offset..offset + |bytes|][k + i];
    }
  }

  /** A packed header unpacks to itself wherever it sits in the buffer. */
  lemma UnpackPackHeader(h: Header, data: seq<byte>, offset: nat)
    requires offset + EVENT_SIZE <= |data| && data[offset..offset + EVENT_SIZE] == PackHeader(h)
    ensures UnpackHeader(data, offset) == Ok(h)
  {
    var bytes := PackHeader(h);
    HeaderWord(data, offset, bytes, 0, Le32(FromSigned(h.wd)));
    HeaderWord(data, offset, bytes, 4, Le32(h.mask));
    HeaderWord(data, offset, bytes, 8, Le32(h.cookie));
    HeaderWord(data, offset, bytes, 12, Le32(h.namesize));
    U32AtLe32(FromSigned(h.wd), data, offset);
    U32AtLe32(h.mask, data, offset + 4);
    U32AtLe32(h.cookie, data, offset + 8);
    U32AtLe32(h.namesize, data, offset + 12);
  }

  /** Unpacking loses nothing: packing the header read at offset gives the 16 bytes there. */
  lemma PackUnpackHeader(data: seq<byte>, offset: nat)
    requires offset + EVENT_SIZE <= |data|
    ensures PackHeader(UnpackHeader(data, offset).value) == data[offset..offset + EVENT_SIZE]
  {
    var h := HeaderAt(data, offset);
    Le32U32At(data, offset);
    Le32U32At(data, offset + 4);
    Le32U32At(data, offset + 8);
    Le32U32At(data, offset + 12);
    assert FromSigned(h.wd) == U32At(data, offset);
    assert data[offset..offset + EVENT_SIZE]
        == data[offset..offset + 4] + data[offset + 4..offset + 8]
         + data[offset + 8..offset + 12] + data[offset + 12..offset + 16];
  }

  /**
   * The logical name of the record whose name field starts at start: the
   * namesize bytes there (fewer if the buffer ends first) cut at the first NUL.
   */
  function NameBytes(data: seq<byte>, start: nat, namesize: nat): seq<byte> {
    TakeUntilNul(Slice(data, start, start + namesize))
  }

  /**
   * The name holds no NUL, is at most namesize long, is what the buffer holds
   * from start on, and stops only at a NUL, at the end of the field or at the
   * end of the buffer. An empty field gives an empty name.
   */
  lemma NameBytesCut(data: seq<byte>, start: nat, namesize: nat)
    requires start <= |data|
    ensures var r := NameBytes(data, start, namesize);
      && 0 !in r && |r| <= namesize
      && r <= data[start..]
      && (start + |r| < |data| && |r| < namesize ==> data[start + |r|] == 0)
      && (namesize == 0 ==> r == [])
  {
    var field := Slice(data, start, start + namesize);
    TakeUntilNulCut(field);
    if start + namesize <= |data| {
      assert field == data[start..start + namesize];
    } else {
      assert field == data[start..];
    }
  }

  /** The events decoded so far followed by the outcome of decoding the rest. */
  function Prepend<N>(done: seq<Event<N>>, rest: Result<seq<Event<N>>, DecodeError>)
    : Result<seq<Event<N>>, DecodeError>
  {
    match rest
    case Ok(evs) => Ok(done + evs)
    case Err(e) => Err(e)
  }

  /**
   * The events of the records from offset pos on, in buffer order: the
   * specification of the decoding loop. A record is read at each boundary
   * below the end of the buffer; the next boundary is 16 + namesize further
   * on, even past the end. Errors surface in buffer order.
   */
  function DecodeFrom<N>(data: seq<byte>, pos: nat, conv: seq<byte> -> Option<N>)
    : Result<seq<Event<N>>, DecodeError>
    decreases |data| - pos
  {
    if |data| <= pos then
      Ok([])
    else if |data| < pos + EVENT_SIZE then
      Err(ShortHeader(|data| - pos))
    else
      var h := UnpackHeader(data, pos).value;
      var raw := NameBytes(data, pos + EVENT_SIZE, h.namesize);
      if conv(raw).None? then
        Err(UndecodableName(raw))
      else
        Prepend([Event(h.wd, h.mask, h.cookie, conv(raw).value)],
                DecodeFrom(data, pos + EVENT_SIZE + h.namesize, conv))
  }

  /**
   * Every event takes at least its 16-byte header of the buffer, and a short
   * header error reports between 1 and 15 remaining bytes.
   */
  lemma {:induction false} DecodeFromBounds<N>(data: seq<byte>, pos: nat, conv: seq<byte> -> Option<N>)
    ensures var r := DecodeFrom(data, pos, conv);
      && (r.Ok? && r.value != [] ==> EVENT_SIZE * |r.value| <= |data| - pos)
      && (r.Err? && r.error.ShortHeader? ==> 0 < r.error.remaining < EVENT_SIZE)
    decreases |data| - pos
  {
    if pos + EVENT_SIZE <= |data| {
      var h := UnpackHeader(data, pos).value;
      var raw := NameBytes(data, pos + EVENT_SIZE, h.namesize);
      if conv(raw).Some? {
        var next := pos + EVENT_SIZE + h.namesize;
        var rest := DecodeFrom(data, next, conv);
        DecodeFromStep(data, pos, conv);
        DecodeFromBounds(data, next, conv);
        PrependBounds(Event(h.wd, h.mask, h.cookie, conv(raw).value), rest, |data| - next, |data| - pos);
      }
    }
  }

  /** The step of DecodeFromBounds: one more event, and at least 16 more bytes, in front of the rest. */
  lemma PrependBounds<N>(e: Event<N>, rest: Result<seq<Event<N>>, DecodeError>, left: int, room: int)
    requires EVENT_SIZE <= room && left + EVENT_SIZE <= room
    requires rest.Ok? && rest.value != [] ==> EVENT_SIZE * |rest.value| <= left
    requires rest.Err? && rest.error.ShortHeader? ==> 0 < rest.error.remaining < EVENT_SIZE
    ensures var r := Prepend([e], rest);
      && (r.Ok? && r.value != [] ==> EVENT_SIZE * |r.value| <= room)
      && (r.Err? && r.error.ShortHeader? ==> 0 < r.error.remaining < EVENT_SIZE)
  {
  }

  /** `parse_events(data)` with name transform conv. */
  function Decode<N>(data: seq<byte>, conv: seq<byte> -> Option<N>): Result<seq<Event<N>>, DecodeError> {
    DecodeFrom(data, 0, conv)
  }

  /** Nothing decoded yet: the outcome is that of the rest. */
  lemma PrependNothing<N>(rest: Result<seq<Event<N>>, DecodeError>)
    ensures Prepend([], rest) == rest
  {
    if rest.Ok? {
      assert [] + rest.value == rest.value;
    }
  }

  lemma PrependAssoc<N>(a: seq<Event<N>>, b: seq<Event<N>>, rest: Result<seq<Event<N>>, DecodeError>)
    ensures Prepend(a, Prepend(b, rest)) == Prepend(a + b, rest)
  {
    if rest.Ok? {
      assert a + (b + rest.value) == (a + b) + rest.value;
    }
  }

  // ----- Encoding: what the kernel writes -------------------------------------------------

  /** One record: header, the encoded name, and pad NUL bytes; namesize counts name and padding. */
  function EncodeEvent<N>(e: Event<N>, pad: nat, enc: N -> seq<byte>): (r: seq<byte>)
    requires |enc(e.name)| + pad < 0x1_0000_0000
    ensures |r| == EVENT_SIZE + |enc(e.name)| + pad
  {
    PackHeader(Header(e.wd, e.mask, e.cookie, |enc(e.name)| + pad)) + enc(e.name) + Zeros(pad)
  }

  /** Every name, with its padding, has a length that fits the 32-bit namesize field. */
  predicate Encodable<N>(evs: seq<Event<N>>, pads: seq<nat>, enc: N -> seq<byte>) {
    |pads| == |evs| && forall i :: 0 <= i < |evs| ==> |enc(evs[i].name)| + pads[i] < 0x1_0000_0000
  }

  /** The buffer the kernel hands out for evs, record i padded with pads[i] NULs. */
  function Encode<N>(evs: seq<Event<N>>, pads: seq<nat>, enc: N -> seq<byte>): seq<byte>
    requires Encodable(evs, pads, enc)
  {
    if evs == [] then [] else EncodeEvent(evs[0], pads[0], enc) + Encode(evs[1..], pads[1..], enc)
  }

  /** Names that encode without a NUL and that conv turns back into themselves. */
  ghost predicate RoundTrips<N>(evs: seq<Event<N>>, enc: N -> seq<byte>, conv: seq<byte> -> Option<N>) {
    forall i :: 0 <= i < |evs| ==> 0 !in enc(evs[i].name) && conv(enc(evs[i].name)) == Some(evs[i].name)
  }

  /** One turn of the decoding loop over a complete header whose name conv accepts. */
  lemma DecodeFromStep<N>(data: seq<byte>, pos: nat, conv: seq<byte> -> Option<N>)
    requires pos + EVENT_SIZE <= |data|
    requires conv(NameBytes(data, pos + EVENT_SIZE, UnpackHeader(data, pos).value.namesize)).Some?
    ensures var h := UnpackHeader(data, pos).value;
      var raw := NameBytes(data, pos + EVENT_SIZE, h.namesize);
      DecodeFrom(data, pos, conv)
        == Prepend([Event(h.wd, h.mask, h.cookie, conv(raw).value)], DecodeFrom(data, pos + EVENT_SIZE + h.namesize, conv))
  {
  }

  /** The header of a record at pos reads back as the header the record was packed from. */
  lemma RecordHeader<N>(data: seq<byte>, pos: nat, e: Event<N>, pad: nat, enc: N -> seq<byte>)
    requires |enc(e.name)| + pad < 0x1_0000_0000
    requires pos + |EncodeEvent(e, pad, enc)| <= |data|
    requires data[pos..pos + |EncodeEvent(e, pad, enc)|] == EncodeEvent(e, pad, enc)
    ensures UnpackHeader(data, pos) == Ok(Header(e.wd, e.mask, e.cookie, |enc(e.name)| + pad))
  {
    var rec := EncodeEvent(e, pad, enc);
    var h := Header(e.wd, e.mask, e.cookie, |enc(e.name)| + pad);
    assert data[pos..pos + EVENT_SIZE] == rec[..EVENT_SIZE] == PackHeader(h);
    UnpackPackHeader(h, data, pos);
  }

  /** The name field of a record at pos gives back the encoded name, whatever the padding. */
  lemma RecordName<N>(data: seq<byte>, pos: nat, e: Event<N>, pad: nat, enc: N -> seq<byte>)
    requires |enc(e.name)| + pad < 0x1_0000_0000 && 0 !in enc(e.name)
    requires pos + |EncodeEvent(e, pad, enc)| <= |data|
    requires data[pos..pos + |EncodeEvent(e, pad, enc)|] == EncodeEvent(e, pad, enc)
    ensures NameBytes(data, pos + EVENT_SIZE, |enc(e.name)| + pad) == enc(e.name)
  {
    var rec := EncodeEvent(e, pad, enc);
    var start := pos + EVENT_SIZE;
    assert data[start..start + |enc(e.name)| + pad] == rec[EVENT_SIZE..] == enc(e.name) + Zeros(pad);
    TakeUntilNulPadded(enc(e.name), pad);
  }

  /** A record at pos whose header and name read back as e's yields e; decoding carries on after the name field. */
  lemma DecodeRecord<N>(data: seq<byte>, pos: nat, next: nat, e: Event<N>, namesize: u32, conv: seq<byte> -> Option<N>)
    requires pos + EVENT_SIZE <= |data| && next == pos + EVENT_SIZE + namesize
    requires UnpackHeader(data, pos) == Ok(Header(e.wd, e.mask, e.cookie, namesize))
    requires conv(NameBytes(data, pos + EVENT_SIZE, namesize)) == Some(e.name)
    ensures DecodeFrom(data, pos, conv) == Prepend([e], DecodeFrom(data, next, conv))
  {
    DecodeFromStep(data, pos, conv);
  }

  /**
   * One turn of a decoding loop: the header h read at pos, and the name that conv
   * makes of raw, the name field from field to next cut at its first NUL. Appending
   * that event to the events decoded so far and moving on to next keeps the
   * overall outcome.
   */
  lemma Advance<N>(data: seq<byte>, pos: nat, field: nat, next: nat, events: seq<Event<N>>, h: Header, raw: seq<byte>, name: N, conv: seq<byte> -> Option<N>)
    requires pos + EVENT_SIZE <= |data| && UnpackHeader(data, pos) == Ok(h)
    requires field == pos + EVENT_SIZE && next == field + h.namesize
    requires raw == TakeUntilNul(Slice(data, field, next))
    requires conv(raw) == Some(name)
    ensures Prepend(events, DecodeFrom(data, pos, conv))
         == Prepend(events + [Event(h.wd, h.mask, h.cookie, name)], DecodeFrom(data, next, conv))
  {
    var e := Event(h.wd, h.mask, h.cookie, name);
    assert raw == NameBytes(data, pos + EVENT_SIZE, h.namesize);
    DecodeRecord(data, pos, next, e, h.namesize, conv);
    PrependAssoc(events, [e], DecodeFrom(data, next, conv));
  }

  /**
   * A name that conv refuses, raw being the name field after the header h read
   * at pos cut at its first NUL, ends decoding with that error; the events
   * decoded before it are lost with it.
   */
  lemma Refuse<N>(data: seq<byte>, pos: nat, field: nat, events: seq<Event<N>>, h: Header, raw: seq<byte>, conv: seq<byte> -> Option<N>)
    requires pos + EVENT_SIZE <= |data| && UnpackHeader(data, pos) == Ok(h)
    requires field == pos + EVENT_SIZE
    requires raw == TakeUntilNul(Slice(data, field, field + h.namesize))
    requires conv(raw).None?
    ensures Prepend(events, DecodeFrom(data, pos, conv)) == Err(UndecodableName(raw))
  {
    assert raw == NameBytes(data, pos + EVENT_SIZE, h.namesize);
  }

  /** The header and the name of an encoded record at pos read back as its event's. */
  lemma RecordFields<N>(data: seq<byte>, pos: nat, e: Event<N>, pad: nat,
                        enc: N -> seq<byte>, conv: seq<byte> -> Option<N>)
    requires |enc(e.name)| + pad < 0x1_0000_0000 && 0 !in enc(e.name) && conv(enc(e.name)) == Some(e.name)
    requires pos + |EncodeEvent(e, pad, enc)| <= |data|
    requires data[pos..pos + |EncodeEvent(e, pad, enc)|] == EncodeEvent(e, pad, enc)
    ensures UnpackHeader(data, pos) == Ok(Header(e.wd, e.mask, e.cookie, |enc(e.name)| + pad))
    ensures conv(NameBytes(data, pos + EVENT_SIZE, |enc(e.name)| + pad)) == Some(e.name)
  {
    RecordHeader(data, pos, e, pad, enc);
    RecordName(data, pos, e, pad, enc);
  }

  /** An encoded record at pos decodes to its event, and decoding carries on at next, right after it. */
  lemma DecodeEncodedRecord<N>(data: seq<byte>, pos: nat, next: nat, e: Event<N>, pad: nat,
                               enc: N -> seq<byte>, conv: seq<byte> -> Option<N>)
    requires |enc(e.name)| + pad < 0x1_0000_0000 && 0 !in enc(e.name) && conv(enc(e.name)) == Some(e.name)
    requires pos + |EncodeEvent(e, pad, enc)| <= |data| && next == pos + |EncodeEvent(e, pad, enc)|
    requires data[pos..pos + |EncodeEvent(e, pad, enc)|] == EncodeEvent(e, pad, enc)
    ensures DecodeFrom(data, pos, conv) == Prepend([e], DecodeFrom(data, next, conv))
  {
    RecordFields(data, pos, e, pad, enc, conv);
    DecodeRecord(data, pos, next, e, |enc(e.name)| + pad, conv);
  }

  /** A buffer that holds an encoded run from pos holds its first record there and the rest of the run after it. */
  lemma SplitRun<N>(data: seq<byte>, pos: nat, next: nat, evs: seq<Event<N>>, pads: seq<nat>, enc: N -> seq<byte>)
    requires Encodable(evs, pads, enc) && evs != []
    requires pos <= |data| && data[pos..] == Encode(evs, pads, enc)
    requires next == pos + |EncodeEvent(evs[0], pads[0], enc)|
    ensures next <= |data|
    ensures data[pos..pos + |EncodeEvent(evs[0], pads[0], enc)|] == EncodeEvent(evs[0], pads[0], enc)
    ensures data[next..] == Encode(evs[1..], pads[1..], enc)
  {
    var rec := EncodeEvent(evs[0], pads[0], enc);
    assert data[pos..] == rec + Encode(evs[1..], pads[1..], enc);
    assert data[pos..next] == data[pos..][..|rec|];
    assert data[next..] == data[pos..][|rec|..];
  }

  /** The first record of an encoded run decodes to its event; the rest of the run follows it. */
  lemma DecodeEncodeHead<N>(data: seq<byte>, pos: nat, next: nat, evs: seq<Event<N>>, pads: seq<nat>,
                           enc: N -> seq<byte>, conv: seq<byte> -> Option<N>)
    requires Encodable(evs, pads, enc) && RoundTrips(evs, enc, conv) && evs != []
    requires pos <= |data| && data[pos..] == Encode(evs, pads, enc)
    requires next == pos + |EncodeEvent(evs[0], pads[0], enc)|
    ensures next <= |data| && data[next..] == Encode(evs[1..], pads[1..], enc)
    ensures Encodable(evs[1..], pads[1..], enc) && RoundTrips(evs[1..], enc, conv)
    ensures DecodeFrom(data, pos, conv) == Prepend([evs[0]], DecodeFrom(data, next, conv))
  {
    SplitRun(data, pos, next, evs, pads, enc);
    RoundTripsTail(evs, pads, enc, conv);
    DecodeEncodedRecord(data, pos, next, evs[0], pads[0], enc, conv);
  }

  /** The conditions of the round trip hold for the events after the first. */
  lemma RoundTripsTail<N>(evs: seq<Event<N>>, pads: seq<nat>, enc: N -> seq<byte>, conv: seq<byte> -> Option<N>)
    requires Encodable(evs, pads, enc) && RoundTrips(evs, enc, conv) && evs != []
    ensures |enc(evs[0].name)| + pads[0] < 0x1_0000_0000
    ensures 0 !in enc(evs[0].name) && conv(enc(evs[0].name)) == Some(evs[0].name)
    ensures Encodable(evs[1..], pads[1..], enc) && RoundTrips(evs[1..], enc, conv)
  {
    forall i | 0 <= i < |evs| - 1
      ensures 0 !in enc(evs[1..][i].name) && conv(enc(evs[1..][i].name)) == Some(evs[1..][i].name)
    {
      assert evs[1..][i] == evs[i + 1];
    }
  }

  /** Decoding from the start of an encoded run of records that ends the buffer gives back its events. */
  lemma {:induction false} DecodeEncodeFrom<N>(data: seq<byte>, pos: nat, evs: seq<Event<N>>, pads: seq<nat>,
                                               enc: N -> seq<byte>, conv: seq<byte> -> Option<N>)
    requires Encodable(evs, pads, enc) && RoundTrips(evs, enc, conv)
    requires pos <= |data| && data[pos..] == Encode(evs, pads, enc)
    ensures DecodeFrom(data, pos, conv) == Ok(evs)
    decreases |evs|
  {
    if evs == [] {
      assert |data[pos..]| == 0;
      DecodeAtEnd(data, pos, conv);
    } else {
      var next := pos + |EncodeEvent(evs[0], pads[0], enc)|;
      DecodeEncodeHead(data, pos, next, evs, pads, enc, conv);
      DecodeEncodeFrom(data, next, evs[1..], pads[1..], enc, conv);
      PrependOne(DecodeFrom(data, pos, conv), DecodeFrom(data, next, conv), evs);
    }
  }

  /** The last step of DecodeEncodeFrom: the first event in front of the rest of them. */
  lemma PrependOne<N>(whole: Result<seq<Event<N>>, DecodeError>, rest: Result<seq<Event<N>>, DecodeError>, evs: seq<Event<N>>)
    requires evs != [] && whole == Prepend([evs[0]], rest) && rest == Ok(evs[1..])
    ensures whole == Ok(evs)
  {
    assert [evs[0]] + evs[1..] == evs;
  }

  /** Decoding inverts encoding: the events come back exactly, in order, whatever the padding. */
  lemma DecodeEncode<N>(evs: seq<Event<N>>, pads: seq<nat>, enc: N -> seq<byte>, conv: seq<byte> -> Option<N>)
    requires Encodable(evs, pads, enc) && RoundTrips(evs, enc, conv)
    ensures Decode(Encode(evs, pads, enc), conv) == Ok(evs)
  {
    var data := Encode(evs, pads, enc);
    assert data[0..] == data;
    DecodeEncodeFrom(data, 0, evs, pads, enc, conv);
  }

  /** At or past the end of the buffer the loop stops with nothing more. */
  lemma DecodeAtEnd<N>(data: seq<byte>, pos: nat, conv: seq<byte> -> Option<N>)
    requires |data| <= pos
    ensures DecodeFrom(data, pos, conv) == Ok([])
  {
  }

  /** An empty buffer holds no events. */
  lemma DecodeEmpty<N>(conv: seq<byte> -> Option<N>)
    ensures Decode([], conv) == Ok([])
  {
  }

  /**
   * Fewer than 16 bytes left at a record boundary: unpack_from raises and the
   * events decoded before are lost.
   */
  lemma DecodeShortHeader<N>(data: seq<byte>, pos: nat, conv: seq<byte> -> Option<N>)
    requires pos < |data| < pos + EVENT_SIZE
    ensures DecodeFrom(data, pos, conv) == Err(ShortHeader(|data| - pos))
  {
  }

  /**
   * A namesize that runs past the end of the buffer is not checked: the name
   * is cut from the remaining bytes and the record is the last one.
   */
  lemma DecodeOverrun<N>(data: seq<byte>, pos: nat, conv: seq<byte> -> Option<N>)
    requires pos + EVENT_SIZE <= |data|
    requires |data| <= pos + EVENT_SIZE + UnpackHeader(data, pos).value.namesize
    ensures var h := UnpackHeader(data, pos).value;
      var raw := TakeUntilNul(data[pos + EVENT_SIZE..]);
      DecodeFrom(data, pos, conv)
        == if conv(raw).Some? then Ok([Event(h.wd, h.mask, h.cookie, conv(raw).value)]) else Err(UndecodableName(raw))
  {
    var h := UnpackHeader(data, pos).value;
    var start := pos + EVENT_SIZE;
    OverrunField(data, start, h.namesize);
    var raw := TakeUntilNul(data[start..]);
    if conv(raw).Some? {
      var e := Event(h.wd, h.mask, h.cookie, conv(raw).value);
      DecodeFromStep(data, pos, conv);
      assert DecodeFrom(data, start + h.namesize, conv) == Ok([]);
      assert [e] + [] == [e];
    }
  }

  /** A name field that runs past the end of the buffer is everything after the header. */
  lemma OverrunField(data: seq<byte>, start: nat, namesize: nat)
    requires start <= |data| <= start + namesize
    ensures NameBytes(data, start, namesize) == TakeUntilNul(data[start..])
  {
    if start + namesize == |data| {
      assert data[start..start + namesize] == data[start..];
    }
  }
}
