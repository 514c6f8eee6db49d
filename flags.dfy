/**
 * The inotify flag vocabulary: the `flags` enumeration (the `IN_*` constants of
 * `inotify.h` without their prefix), `flags.from_mask`, and the `masks`
 * combinations. Flags are 32-bit words; a mask is any Python int.
 */
module Flags {

  datatype Flag =
    | Access | Modify | Attrib | CloseWrite | CloseNowrite | Open
    | MovedFrom | MovedTo | Create | Delete | DeleteSelf | MoveSelf
    | Unmount | QOverflow | Ignored
    | OnlyDir | DontFollow | ExclUnlink | MaskAdd | IsDir | Oneshot

  /** The value of each enumeration member. */
  function Value(f: Flag): bv32 {
    match f
    case Access => 0x0000_0001
    case Modify => 0x0000_0002
    case Attrib => 0x0000_0004
    case CloseWrite => 0x0000_0008
    case CloseNowrite => 0x0000_0010
    case Open => 0x0000_0020
    case MovedFrom => 0x0000_0040
    case MovedTo => 0x0000_0080
    case Create => 0x0000_0100
    case Delete => 0x0000_0200
    case DeleteSelf => 0x0000_0400
    case MoveSelf => 0x0000_0800
    case Unmount => 0x0000_2000
    case QOverflow => 0x0000_4000
    case Ignored => 0x0000_8000
    case OnlyDir => 0x0100_0000
    case DontFollow => 0x0200_0000
    case ExclUnlink => 0x0400_0000
    case MaskAdd => 0x2000_0000
    case IsDir => 0x4000_0000
    case Oneshot => 0x8000_0000
  }

  /** `cls.__members__.values()`: every member, in definition order. */
  const AllFlags: seq<Flag> := [
    Access, Modify, Attrib, CloseWrite, CloseNowrite, Open,
    MovedFrom, MovedTo, Create, Delete, DeleteSelf, MoveSelf,
    Unmount, QOverflow, Ignored,
    OnlyDir, DontFollow, ExclUnlink, MaskAdd, IsDir, Oneshot]

  /** The position of each member in the table. */
  function Index(f: Flag): nat {
    match f
    case Access => 0
    case Modify => 1
    case Attrib => 2
    case CloseWrite => 3
    case CloseNowrite => 4
    case Open => 5
    case MovedFrom => 6
    case MovedTo => 7
    case Create => 8
    case Delete => 9
    case DeleteSelf => 10
    case MoveSelf => 11
    case Unmount => 12
    case QOverflow => 13
    case Ignored => 14
    case OnlyDir => 15
    case DontFollow => 16
    case ExclUnlink => 17
    case MaskAdd => 18
    case IsDir => 19
    case Oneshot => 20
  }

  /** Flags listed in definition order, each at most once. */
  predicate InOrder(fs: seq<Flag>) {
    forall i, j :: 0 <= i < j < |fs| ==> Index(fs[i]) < Index(fs[j])
  }

  /** The bits of a bitwise OR of flags. */
  function OrOf(fs: seq<Flag>): bv32 {
    if fs == [] then 0 else Value(fs[0]) | OrOf(fs[1..])
  }

  /**
   * The low 32 bits of a Python int in two's complement. Every flag is below
   * 2^32, so `flag & mask` only ever sees these bits of mask.
   */
  function Low32(mask: int): bv32 {
    (mask % 0x1_0000_0000) as bv32
  }

  lemma Low32Word(x: bv32)
    ensures Low32(x as int) == x
  {
    assert x as int % 0x1_0000_0000 == x as int;
  }

  lemma Low32Small()
    ensures Low32(0) == 0 && Low32(-1) == 0xFFFF_FFFF
  {
    assert -1 % 0x1_0000_0000 == 0xFFFF_FFFF;
  }

  /** Bit identities used below, stated on plain words. */
  lemma AndOr(a: bv32, b: bv32, m: bv32)
    ensures m & (a | b) == (m & a) | (m & b)
    ensures (a | b) & m == (a & m) | (b & m)
    ensures (a | b) != 0 <==> a != 0 || b != 0
  {
  }

  /** Every flag is a single bit. */
  lemma SingleBit(f: Flag)
    ensures Value(f) != 0 && Value(f) & (Value(f) - 1) == 0
  {
  }

  /** Distinct flags have disjoint bits; in particular the values are distinct. */
  lemma DisjointBits(f: Flag, g: Flag)
    ensures f != g <==> Value(f) & Value(g) == 0
  {
  }

  /** Index tells the members apart. */
  lemma IndexInjective(f: Flag, g: Flag)
    ensures Index(f) == Index(g) <==> f == g
  {
  }

  /** Definition order is ascending bit order. */
  lemma ValueIncreasing(f: Flag, g: Flag)
    ensures Index(f) < Index(g) <==> Value(f) < Value(g)
  {
  }

  /** The table lists every member once, in definition order. */
  lemma AllFlagsInOrder()
    ensures InOrder(AllFlags)
    ensures forall f: Flag :: f in AllFlags
  {
    forall i | 0 <= i < |AllFlags| ensures Index(AllFlags[i]) == i {
    }
    forall f: Flag ensures f in AllFlags {
      assert AllFlags[Index(f)] == f;
    }
  }

  /** Putting a flag that comes first in front of a list in definition order keeps it in order. */
  lemma Cons(f: Flag, rest: seq<Flag>)
    ensures InOrder(rest) && (forall g :: g in rest ==> Index(f) < Index(g)) ==> InOrder([f] + rest)
  {
    if InOrder(rest) && (forall g :: g in rest ==> Index(f) < Index(g)) {
      forall i, j | 0 <= i < j < |[f] + rest| ensures Index(([f] + rest)[i]) < Index(([f] + rest)[j]) {
        if i == 0 {
          assert ([f] + rest)[j] == rest[j - 1];
          assert rest[j - 1] in rest;
        } else {
          assert ([f] + rest)[i] == rest[i - 1] && ([f] + rest)[j] == rest[j - 1];
        }
      }
    }
  }

  /** In a list in definition order, everything after the head comes after it. */
  lemma Head(fs: seq<Flag>)
    requires fs != []
    ensures InOrder(fs) ==> InOrder(fs[1..]) && forall g :: g in fs[1..] ==> Index(fs[0]) < Index(g)
  {
    if InOrder(fs) {
      forall g | g in fs[1..] ensures Index(fs[0]) < Index(g) {
        var k :| 0 <= k < |fs[1..]| && fs[1..][k] == g;
        assert fs[k + 1] == g;
      }
    }
  }

  /** `flag & m` is non-zero: the flag's bit is set in m. */
  predicate Has(m: bv32, f: Flag) {
    Value(f) & m != 0
  }

  /** The comprehension `[flag for flag in fs if flag & m]`. */
  function Select(fs: seq<Flag>, m: bv32): seq<Flag> {
    if fs == [] then []
    else if Has(m, fs[0]) then [fs[0]] + Select(fs[1..], m)
    else Select(fs[1..], m)
  }

  /** The comprehension keeps exactly the flags of fs whose bit is in m. */
  lemma {:induction false} SelectMembers(fs: seq<Flag>, m: bv32)
    ensures forall f :: f in Select(fs, m) <==> f in fs && Has(m, f)
  {
    if fs != [] {
      SelectMembers(fs[1..], m);
      assert forall f :: f in fs <==> f == fs[0] || f in fs[1..];
    }
  }

  /** The comprehension keeps the order of fs. */
  lemma {:induction false} SelectInOrder(fs: seq<Flag>, m: bv32)
    requires InOrder(fs)
    ensures InOrder(Select(fs, m))
  {
    if fs != [] {
      Head(fs);
      SelectInOrder(fs[1..], m);
      SelectMembers(fs[1..], m);
      Cons(fs[0], Select(fs[1..], m));
    }
  }

  /** `from_mask` on the 32 bits a mask can meet: the members whose bit is in m, in definition order. */
  function FromWord(m: bv32): (r: seq<Flag>)
    ensures forall f :: f in r <==> Has(m, f)
    ensures InOrder(r)
  {
    AllFlagsInOrder();
    SelectMembers(AllFlags, m);
    SelectInOrder(AllFlags, m);
    Select(AllFlags, m)
  }

  /** `flags.from_mask(mask)`: the members whose bit is set in mask, in definition order. */
  function FromMask(mask: int): (r: seq<Flag>)
    ensures forall f :: f in r <==> Has(Low32(mask), f)
    ensures InOrder(r)
  {
    FromWord(Low32(mask))
  }

  /** A mask that is already a 32-bit word is taken as it is. */
  lemma FromMaskWord(x: bv32)
    ensures FromMask(x as int) == FromWord(x)
  {
    Low32Word(x);
  }

  /** A list is empty exactly when nothing is in it. */
  lemma Empty(fs: seq<Flag>)
    ensures fs == [] <==> forall f :: f !in fs
  {
    if fs != [] {
      assert fs[0] in fs;
    }
  }

  /** The head of a list in definition order comes no later than any of its members. */
  lemma First(fs: seq<Flag>, f: Flag)
    requires InOrder(fs) && f in fs
    ensures Index(fs[0]) <= Index(f)
  {
    var k :| 0 <= k < |fs| && fs[k] == f;
    assert k == 0 || Index(fs[0]) < Index(fs[k]);
  }

  /** Two lists in definition order with the same members and the same head have the same members after it. */
  lemma SameTail(a: seq<Flag>, b: seq<Flag>)
    requires a != [] && b != [] && a[0] == b[0]
    requires InOrder(a) && InOrder(b)
    requires forall f :: f in a <==> f in b
    ensures InOrder(a[1..]) && InOrder(b[1..])
    ensures forall f :: f in a[1..] <==> f in b[1..]
  {
    Head(a);
    Head(b);
    forall f ensures f in a[1..] <==> f in b[1..] {
      assert f in a <==> f == a[0] || f in a[1..];
      assert f in b <==> f == b[0] || f in b[1..];
    }
  }

  /** Two lists in definition order with the same members are the same list. */
  lemma {:induction false} InOrderUnique(a: seq<Flag>, b: seq<Flag>)
    requires InOrder(a) && InOrder(b)
    requires forall f :: f in a <==> f in b
    ensures a == b
  {
    if a == [] || b == [] {
      Empty(a);
      Empty(b);
    } else {
      First(a, b[0]);
      First(b, a[0]);
      IndexInjective(a[0], b[0]);
      SameTail(a, b);
      InOrderUnique(a[1..], b[1..]);
      assert a == [a[0]] + a[1..] && b == [b[0]] + b[1..];
    }
  }

  /** fs holds exactly the flags whose bit is in m. */
  predicate Meets(fs: seq<Flag>, m: bv32) {
    forall f :: f in fs <==> Has(m, f)
  }

  /** FromWord is determined by membership alone. */
  lemma FromWordUnique(m: bv32, fs: seq<Flag>)
    requires InOrder(fs)
    requires Meets(fs, m)
    ensures fs == FromWord(m)
  {
    InOrderUnique(fs, FromWord(m));
  }

  /**
   * `from_mask` is determined by membership alone: the only list in definition order of
   * exactly the flags set in mask.
   */
  lemma FromMaskUnique(mask: int, fs: seq<Flag>)
    requires InOrder(fs)
    requires forall f :: f in fs <==> Has(Low32(mask), f)
    ensures fs == FromMask(mask)
  {
    FromWordUnique(Low32(mask), fs);
  }

  /** `from_mask(0) == []`. */
  lemma FromMaskZero()
    ensures FromMask(0) == []
  {
    Low32Small();
    Empty(FromMask(0));
  }

  /** A negative mask is read in two's complement: `from_mask(-1)` lists every flag. */
  lemma FromMaskMinusOne()
    ensures FromMask(-1) == AllFlags
  {
    Low32Small();
    AllFlagsInOrder();
    forall f ensures f in AllFlags <==> Has(Low32(-1), f) {
      SingleBit(f);
    }
    FromMaskUnique(-1, AllFlags);
  }

  /** A word meets an OR exactly when it meets one of its operands. */
  lemma MeetOr(v: bv32, a: bv32, b: bv32)
    ensures v & (a | b) != 0 <==> v & a != 0 || v & b != 0
  {
    AndOr(a, b, v);
  }

  /** What Has means, as an equation to hand to the solver. */
  lemma HasWord(f: Flag, m: bv32)
    ensures Has(m, f) == (Value(f) & m != 0)
  {
  }

  /** A flag is set in a | b exactly when it is set in a or in b. */
  lemma HasEither(f: Flag, a: bv32, b: bv32)
    ensures Has(a | b, f) <==> Has(a, f) || Has(b, f)
  {
    HasWord(f, a | b);
    HasWord(f, a);
    HasWord(f, b);
    MeetOr(Value(f), a, b);
  }

  /** HasEither for a word w known to be a | b. */
  lemma HasOr(f: Flag, a: bv32, b: bv32, w: bv32)
    requires w == a | b
    ensures Has(w, f) <==> Has(a, f) || Has(b, f)
  {
    HasEither(f, a, b);
  }

  /** The only flag set in a flag's value is that flag. */
  lemma HasValue(f: Flag, g: Flag)
    ensures Has(Value(g), f) <==> f == g
  {
    DisjointBits(f, g);
  }

  /** A flag is set in the OR of a non-empty list when it is set in its head's value or in the OR of the rest. */
  lemma HasOrOf(fs: seq<Flag>, f: Flag)
    requires fs != []
    ensures Has(OrOf(fs), f) <==> Has(Value(fs[0]), f) || Has(OrOf(fs[1..]), f)
  {
    HasOr(f, Value(fs[0]), OrOf(fs[1..]), OrOf(fs));
  }

  /** A flag's bit is in an OR of flags exactly when the flag is one of them. */
  lemma {:induction false} OrOfHas(fs: seq<Flag>, f: Flag)
    ensures Has(OrOf(fs), f) <==> f in fs
  {
    if fs != [] {
      OrOfHas(fs[1..], f);
      OrOfHasStep(fs, f);
    }
  }

  /** The step of OrOfHas: the head of fs is set in its OR, and so is whatever is set in the OR of the rest. */
  lemma OrOfHasStep(fs: seq<Flag>, f: Flag)
    requires fs != []
    requires Has(OrOf(fs[1..]), f) <==> f in fs[1..]
    ensures Has(OrOf(fs), f) <==> f in fs
  {
    HasValue(f, fs[0]);
    HasOrOf(fs, f);
    assert f in fs <==> f == fs[0] || f in fs[1..];
  }

  /** The flags meeting an OR of flags are those flags. */
  lemma OrOfMeets(fs: seq<Flag>)
    ensures Meets(fs, OrOf(fs))
  {
    forall f ensures f in fs <==> Has(OrOf(fs), f) {
      OrOfHas(fs, f);
    }
  }

  /** Setting the bits of some flags and asking for them back gives those flags, in order. */
  lemma FromMaskOrOf(fs: seq<Flag>)
    requires InOrder(fs)
    ensures FromMask(OrOf(fs) as int) == fs
  {
    OrOfMeets(fs);
    FromWordUnique(OrOf(fs), fs);
    FromMaskWord(OrOf(fs));
  }

  /** The bits of a 32-bit word that no flag uses. */
  const UNUSED_BITS: bv32 := 0x18FF_1000

  /** No flag has a bit among UNUSED_BITS. */
  lemma UnusedBits(f: Flag)
    ensures Value(f) & UNUSED_BITS == 0
  {
  }

  /** Two words meet the same flags. */
  predicate SameFlags(m1: bv32, m2: bv32) {
    forall f :: Has(m1, f) <==> Has(m2, f)
  }

  /** Words that meet the same flags take apart into the same list. */
  lemma FromWordSameMembers(m1: bv32, m2: bv32)
    requires SameFlags(m1, m2)
    ensures FromWord(m1) == FromWord(m2)
  {
    FromWordUnique(m2, FromWord(m1));
  }

  /** A bit pattern v that misses u misses every part of u. */
  lemma MissesPart(v: bv32, extra: bv32, u: bv32)
    requires v & u == 0 && extra & u == extra
    ensures v & extra == 0
  {
    calc {
      v & extra;
      v & (extra & u);
      (v & u) & extra;
    }
  }

  /** A bit pattern v that misses u sees the same bits of w with some bits of u added. */
  lemma MeetUnused(v: bv32, w: bv32, extra: bv32, u: bv32)
    requires v & u == 0 && extra & u == extra
    ensures v & w == v & (w | extra)
  {
    MissesPart(v, extra, u);
    AndOr(w, extra, v);
  }

  /** One flag is set in w exactly when it is set in w with some unused bits added. */
  lemma FlagMeetUnused(f: Flag, w: bv32, extra: bv32)
    requires extra & UNUSED_BITS == extra
    ensures Has(w, f) <==> Has(w | extra, f)
  {
    UnusedBits(f);
    MeetUnused(Value(f), w, extra, UNUSED_BITS);
    HasSame(f, w, w | extra);
  }

  /** Words that agree on a flag's bit agree on whether it is set. */
  lemma HasSame(f: Flag, w1: bv32, w2: bv32)
    requires Value(f) & w1 == Value(f) & w2
    ensures Has(w1, f) <==> Has(w2, f)
  {
    HasWord(f, w1);
    HasWord(f, w2);
  }

  /** Adding bits that no flag has to a word keeps which flags meet it. */
  lemma ExtraBits(w: bv32, extra: bv32)
    requires extra & UNUSED_BITS == extra
    ensures SameFlags(w, w | extra)
  {
    forall f ensures Has(w, f) <==> Has(w | extra, f) {
      FlagMeetUnused(f, w, extra);
    }
  }

  /** Adding bits that no flag has to a word does not change how it takes apart. */
  lemma FromWordUnusedBits(w: bv32, extra: bv32)
    requires extra & UNUSED_BITS == extra
    ensures FromWord(w | extra) == FromWord(w)
  {
    ExtraBits(w, extra);
    FromWordSameMembers(w, w | extra);
  }

  /** Bits that no flag uses (any of 0x1000, 0x0800_0000, 0x1000_0000, ...) do not change the result. */
  lemma FromMaskUnusedBits(mask: int, extra: bv32)
    requires extra & UNUSED_BITS == extra
    ensures FromMask((Low32(mask) | extra) as int) == FromMask(mask)
  {
    FromWordUnusedBits(Low32(mask), extra);
    FromMaskWord(Low32(mask) | extra);
  }

  /** `from_mask` ignores every bit among UNUSED_BITS. */
  lemma FromMaskIgnoresUnused(mask: int)
    ensures FromMask((Low32(mask) | UNUSED_BITS) as int) == FromMask(mask)
  {
    FromMaskUnusedBits(mask, UNUSED_BITS);
  }

  // ----- masks -----------------------------------------------------------------------------

  /** `masks.CLOSE`. */
  const CLOSE: bv32 := Value(CloseWrite) | Value(CloseNowrite)

  /** `masks.MOVE`. */
  const MOVE: bv32 := Value(MovedFrom) | Value(MovedTo)

  /** `masks.ALL_EVENTS`, its operands in the order written. */
  const ALL_EVENTS: bv32 :=
    Value(Access) | Value(Modify) | Value(Attrib) | Value(CloseWrite)
    | Value(CloseNowrite) | Value(Open) | Value(MovedFrom) | Value(MovedTo)
    | Value(Create) | Value(Delete) | Value(DeleteSelf) | Value(MoveSelf)

  /** The events a watch can ask for: the first twelve flags, ACCESS to MOVE_SELF. */
  const WATCH_EVENTS: seq<Flag> := AllFlags[..12]

  /** `masks.CLOSE` is 0x18 and takes apart into CLOSE_WRITE and CLOSE_NOWRITE. */
  lemma MaskClose()
    ensures CLOSE == 0x18
    ensures FromMask(CLOSE as int) == [CloseWrite, CloseNowrite]
  {
    forall f ensures f in [CloseWrite, CloseNowrite] <==> Has(CLOSE, f) {
    }
    MaskOf(CLOSE, [CloseWrite, CloseNowrite]);
  }

  /** `masks.MOVE` is 0xC0 and takes apart into MOVED_FROM and MOVED_TO. */
  lemma MaskMove()
    ensures MOVE == 0xC0
    ensures FromMask(MOVE as int) == [MovedFrom, MovedTo]
  {
    forall f ensures f in [MovedFrom, MovedTo] <==> Has(MOVE, f) {
    }
    MaskOf(MOVE, [MovedFrom, MovedTo]);
  }

  /** The watchable events are the members before UNMOUNT, the ones with a bit in 0xFFF. */
  lemma WatchEvents()
    ensures InOrder(WATCH_EVENTS)
    ensures forall f :: f in WATCH_EVENTS <==> Has(0xFFF, f)
  {
    AllFlagsInOrder();
    forall f ensures f in WATCH_EVENTS <==> Index(f) < 12 {
      IndexOf(f);
      if f in WATCH_EVENTS {
        var k :| 0 <= k < 12 && WATCH_EVENTS[k] == f;
        IndexOf(AllFlags[k]);
        IndexInjective(f, AllFlags[k]);
      }
    }
    forall f ensures Index(f) < 12 <==> Has(0xFFF, f) {
    }
  }

  /** Each member sits at its index in the table. */
  lemma IndexOf(f: Flag)
    ensures Index(f) < |AllFlags| && AllFlags[Index(f)] == f
  {
  }

  /** `masks.ALL_EVENTS` is 0xFFF and takes apart into the twelve watchable events. */
  lemma MaskAllEvents()
    ensures ALL_EVENTS == 0xFFF
    ensures FromMask(ALL_EVENTS as int) == WATCH_EVENTS
  {
    WatchEvents();
    MaskOf(ALL_EVENTS, WATCH_EVENTS);
  }

  /** A word whose flag bits are exactly those of fs, listed in order, takes apart into fs. */
  lemma MaskOf(m: bv32, fs: seq<Flag>)
    requires InOrder(fs)
    requires Meets(fs, m)
    ensures FromMask(m as int) == fs
  {
    FromWordUnique(m, fs);
    FromMaskWord(m);
  }
}
