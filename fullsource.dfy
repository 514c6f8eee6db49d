/**
 * The stripped documentation copy `doc/fullsource.py`: its `parse_events` loop,
 * which decodes each name as strict UTF-8, and its `masks` constants.
 */
module FullSource {
  import opened Wire
  import opened Results
  import opened EventCodec
  import opened CTypes
  import Utf8
  import Flags
  import Syscall

  /** An event as this copy yields it: the name is text. */
  type TextEvent = Event<string>

  /**
   * `parse_events(data)`: offset moves past the header, the name field is read
   * through a char buffer and decoded as UTF-8, and offset then moves past it.
   */
  method ParseEvents(data: seq<byte>) returns (r: Result<seq<TextEvent>, DecodeError>)
    ensures r == Decode(data, Utf8.Decode)
  {
    var events: seq<TextEvent> := [];
    var offset: nat := 0;
    var bufferSize := |data|;
    PrependNothing(Decode(data, Utf8.Decode));
    while offset < bufferSize
      invariant Decode(data, Utf8.Decode) == Prepend(events, DecodeFrom(data, offset, Utf8.Decode))
      decreases bufferSize - offset
    {
      var h :- UnpackHeader(data, offset);
      ghost var start := offset;
      offset := offset + EVENT_SIZE;
      ghost var field := offset;
      SliceBytes(data, offset, offset + h.namesize);
      var value := CBuffer(Slice(data, offset, offset + h.namesize), h.namesize);
      var name := Utf8.Decode(value);
      if name.None? {
        Refuse(data, start, field, events, h, value, Utf8.Decode);
        return Err(UndecodableName(value));
      }
      offset := offset + h.namesize;
      Advance(data, start, field, offset, events, h, value, name.value, Utf8.Decode);
      events := events + [Event(h.wd, h.mask, h.cookie, name.value)];
    }
    assert events + [] == events;
    return Ok(events);
  }

  /**
   * Records whose names are text without a NUL, encoded as UTF-8 and padded with
   * any number of NULs, come back as the same events in the same order.
   */
  lemma ParseEncode(evs: seq<TextEvent>, pads: seq<nat>)
    requires Encodable(evs, pads, Utf8.Encode)
    requires forall i :: 0 <= i < |evs| ==> '\0' !in evs[i].name
    ensures Decode(Encode(evs, pads, Utf8.Encode), Utf8.Decode) == Ok(evs)
  {
    forall i | 0 <= i < |evs|
      ensures 0 !in Utf8.Encode(evs[i].name) && Utf8.Decode(Utf8.Encode(evs[i].name)) == Some(evs[i].name)
    {
      Utf8.EncodeHasNul(evs[i].name);
      Utf8.DecodeEncode(evs[i].name);
    }
    DecodeEncode(evs, pads, Utf8.Encode, Utf8.Decode);
  }

  /**
   * A record whose name field is 0xFF and three NULs: the name cut at the first
   * NUL is the single byte 0xFF, which is not UTF-8, so `decode` raises.
   */
  lemma InvalidName(wd: i32, mask: u32, cookie: u32)
    ensures Decode(PackHeader(Header(wd, mask, cookie, 4)) + [0xFF, 0, 0, 0], Utf8.Decode)
         == Err(UndecodableName([0xFF]))
  {
    var data := PackHeader(Header(wd, mask, cookie, 4)) + [0xFF, 0, 0, 0];
    UnpackPackHeader(Header(wd, mask, cookie, 4), data, 0);
    assert Slice(data, EVENT_SIZE, EVENT_SIZE + 4) == [0xFF, 0, 0, 0];
    assert TakeUntilNul([0xFF, 0, 0, 0]) == [0xFF];
    assert Utf8.Decode([0xFF]) == None;
  }

  /**
   * `_libc_call` as written here: a return code of -1 is looked at first; an
   * EINTR errno goes round the loop again, any other raises, and any other
   * return code is handed back.
   */
  method LibcCall(outcomes: seq<Syscall.Outcome>) returns (r: Syscall.CallResult, calls: nat)
    ensures r == Syscall.Retry(outcomes)
    ensures r != Syscall.Exhausted ==> 0 < calls && Syscall.FirstSettled(outcomes, calls - 1)
    ensures r == Syscall.Exhausted ==> calls == |outcomes|
  {
    calls := 0;
    while calls < |outcomes|
      invariant calls <= |outcomes|
      invariant forall j :: 0 <= j < calls ==> !Syscall.Settles(outcomes[j])
      invariant Syscall.Retry(outcomes[calls..]) == Syscall.Retry(outcomes)
    {
      var rc := outcomes[calls].rc;
      assert outcomes[calls..][1..] == outcomes[calls + 1..];
      calls := calls + 1;
      if rc == -1 {
        var errno := outcomes[calls - 1].errno;
        if errno == Syscall.EINTR {
          continue;
        } else {
          return Syscall.Raised(errno), calls;
        }
      }
      return Syscall.Returned(rc), calls;
    }
    assert outcomes[calls..] == [];
    return Syscall.Exhausted, calls;
  }

  /** `masks.CLOSE`. */
  const CLOSE: bv32 := Flags.Value(Flags.CloseWrite) | Flags.Value(Flags.CloseNowrite)

  /** `masks.MOVE`. */
  const MOVE: bv32 := Flags.Value(Flags.MovedFrom) | Flags.Value(Flags.MovedTo)

  /** `masks.ALL_EVENTS`, its operands in the order written here: DELETE before CREATE. */
  const ALL_EVENTS: bv32 :=
    Flags.Value(Flags.Access) | Flags.Value(Flags.Modify) | Flags.Value(Flags.Attrib)
    | Flags.Value(Flags.CloseWrite) | Flags.Value(Flags.CloseNowrite) | Flags.Value(Flags.Open)
    | Flags.Value(Flags.MovedFrom) | Flags.Value(Flags.MovedTo) | Flags.Value(Flags.Delete)
    | Flags.Value(Flags.Create) | Flags.Value(Flags.DeleteSelf) | Flags.Value(Flags.MoveSelf)

  /** The masks are 0x18, 0xC0 and 0xFFF, and `from_mask` takes each apart into the flags it was built from. */
  lemma Masks()
    ensures CLOSE == 0x18 && MOVE == 0xC0 && ALL_EVENTS == 0xFFF
    ensures Flags.FromMask(CLOSE as int) == [Flags.CloseWrite, Flags.CloseNowrite]
    ensures Flags.FromMask(MOVE as int) == [Flags.MovedFrom, Flags.MovedTo]
    ensures Flags.FromMask(ALL_EVENTS as int) == Flags.WATCH_EVENTS
  {
    Flags.MaskClose();
    Flags.MaskMove();
    Flags.MaskAllEvents();
  }
}
