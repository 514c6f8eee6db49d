/**
 * The older package module `inotify_simple/inotify_simple.py`: its
 * `parse_events` loop, which cuts each name with a ctypes char buffer, and its
 * `masks` constants, whose ALL_EVENTS lists DELETE before CREATE.
 */
module LegacyInotifySimple {
  import opened Wire
  import opened Results
  import opened EventCodec
  import Flags
  import opened CTypes

  /**
   * `parse_events(data)`: offset moves past the header, the name is read from the
   * namesize bytes there, and offset then moves past the name field.
   */
  method ParseEvents(data: seq<byte>) returns (r: Result<seq<Event<seq<byte>>>, DecodeError>)
    ensures r == Decode(data, FsDecode)
  {
    var events: seq<Event<seq<byte>>> := [];
    var offset: nat := 0;
    var bufferSize := |data|;
    PrependNothing(Decode(data, FsDecode));
    while offset < bufferSize
      invariant Decode(data, FsDecode) == Prepend(events, DecodeFrom(data, offset, FsDecode))
      decreases bufferSize - offset
    {
      var h :- UnpackHeader(data, offset);
      ghost var start := offset;
      offset := offset + EVENT_SIZE;
      ghost var field := offset;
      SliceBytes(data, offset, offset + h.namesize);
      var value := CBuffer(Slice(data, offset, offset + h.namesize), h.namesize);
      var name := FsDecode(value).value;
      offset := offset + h.namesize;
      Advance(data, start, field, offset, events, h, value, name, FsDecode);
      events := events + [Event(h.wd, h.mask, h.cookie, name)];
    }
    assert events + [] == events;
    return Ok(events);
  }

  /** `masks.CLOSE`. */
  const CLOSE: bv32 := Flags.Value(Flags.CloseWrite) | Flags.Value(Flags.CloseNowrite)

  /** `masks.MOVE`. */
  const MOVE: bv32 := Flags.Value(Flags.MovedFrom) | Flags.Value(Flags.MovedTo)

  /** `masks.ALL_EVENTS`, its operands in the order written here: DELETE before CREATE. */
  const ALL_EVENTS: bv32 :=
    Flags.Value(Flags.Access) | Flags.Value(Flags.Modify) | Flags.Value(Flags.Attrib)
    | Flags.Value(Flags.CloseWrite) | Flags.Value(Flags.CloseNowrite) | Flags.Value(Flags.Open)
    | Flags.Value(Flags.MovedFrom) | Flags.Value(Flags.MovedTo) | Flags.Value(Flags.Delete)
    | Flags.Value(Flags.Create) | Flags.Value(Flags.DeleteSelf) | Flags.Value(Flags.MoveSelf)

  /** The masks agree with the current module's: 0x18, 0xC0 and, despite the operand order, 0xFFF. */
  lemma Masks()
    ensures CLOSE == Flags.CLOSE == 0x18
    ensures MOVE == Flags.MOVE == 0xC0
    ensures ALL_EVENTS == Flags.ALL_EVENTS == 0xFFF
  {
    Flags.MaskClose();
    Flags.MaskMove();
    Flags.MaskAllEvents();
  }
}
