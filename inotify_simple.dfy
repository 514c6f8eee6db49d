/**
 * The current module `inotify_simple.py`: its `parse_events` loop, the flag word
 * `INotify.__init__` hands to `inotify_init1`, and the byte-name round trip.
 */
module InotifySimple {
  import opened Wire
  import opened Results
  import opened EventCodec

  /** An event as this module yields it: the name is `fsdecode` of the raw bytes. */
  type ByteEvent = Event<seq<byte>>

  /**
   * `parse_events(data)`: the cursor pos first jumps past the header and the
   * name field, and the name is then read back from the namesize bytes before pos.
   */
  method ParseEvents(data: seq<byte>) returns (r: Result<seq<ByteEvent>, DecodeError>)
    ensures r == Decode(data, FsDecode)
  {
    var pos: nat := 0;
    var events: seq<ByteEvent> := [];
    PrependNothing(Decode(data, FsDecode));
    while pos < |data|
      invariant Decode(data, FsDecode) == Prepend(events, DecodeFrom(data, pos, FsDecode))
      decreases |data| - pos
    {
      var h :- UnpackHeader(data, pos);
      ghost var start := pos;
      pos := pos + EVENT_SIZE + h.namesize;
      var name := TakeUntilNul(Slice(data, pos - h.namesize, pos));
      Advance(data, start, pos - h.namesize, pos, events, h, name, FsDecode(name).value, FsDecode);
      events := events + [Event(h.wd, h.mask, h.cookie, FsDecode(name).value)];
    }
    assert events + [] == events;
    return Ok(events);
  }

  /**
   * Records whose names hold no NUL, each padded with any number of NULs, come
   * back as the same events in the same order, one per record.
   */
  lemma ParseEncode(evs: seq<ByteEvent>, pads: seq<nat>)
    requires Encodable(evs, pads, FsEncode)
    requires forall i :: 0 <= i < |evs| ==> 0 !in evs[i].name
    ensures Decode(Encode(evs, pads, FsEncode), FsDecode) == Ok(evs)
  {
    DecodeEncode(evs, pads, FsEncode, FsDecode);
  }

  /** `os.O_CLOEXEC`, or 524288 where `os` lacks it. */
  const O_CLOEXEC: bv32 := 0x8_0000

  /** `os.O_NONBLOCK` on Linux. */
  const O_NONBLOCK: bv32 := 0x800

  /** `(not inheritable) * O_CLOEXEC | bool(nonblocking) * os.O_NONBLOCK`. */
  function InitFlags(inheritable: bool, nonblocking: bool): (r: bv32)
    ensures r & O_CLOEXEC != 0 <==> !inheritable
    ensures r & O_NONBLOCK != 0 <==> nonblocking
    ensures r & !(O_CLOEXEC | O_NONBLOCK) == 0
  {
    (if inheritable then 0 else O_CLOEXEC) | (if nonblocking then O_NONBLOCK else 0)
  }
}
