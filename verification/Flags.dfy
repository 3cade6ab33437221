/** The byte of event flags of a button: one mask per event, and what setting and testing
    a mask means for the set of events it stands for. */
module Flags {

  datatype Event = Change | Falling | Rising | Hold | Multi | Delete

  function Mask(e: Event): bv8
  {
    match e
    case Change => 0x01
    case Falling => 0x02
    case Rising => 0x04
    case Hold => 0x08
    case Multi => 0x10
    case Delete => 0x80
  }

  function SetFlag(flags: bv8, mask: bv8, value: bool): bv8
  {
    if value then flags | mask else flags & !mask
  }

  predicate GetFlag(flags: bv8, mask: bv8)
  {
    flags & mask == mask
  }

  function Events(flags: bv8): set<Event>
  {
    set e: Event | GetFlag(flags, Mask(e))
  }

  lemma OtherMask(flags: bv8, m: bv8, k: bv8, value: bool)
    requires m & k == 0
    ensures GetFlag(SetFlag(flags, m, value), k) == GetFlag(flags, k)
  {
  }

  lemma SameMask(flags: bv8, m: bv8, value: bool)
    requires m != 0
    ensures GetFlag(SetFlag(flags, m, value), m) == value
  {
  }

  lemma MasksAreApart(e: Event, d: Event)
    requires e != d
    ensures Mask(e) & Mask(d) == 0
  {
  }

  /** Masks do not disturb each other: the byte is a faithful set of events. */
  lemma SettingAFlag(flags: bv8, e: Event, value: bool)
    ensures Events(SetFlag(flags, Mask(e), value)) == if value then Events(flags) + {e} else Events(flags) - {e}
  {
    forall d: Event
      ensures GetFlag(SetFlag(flags, Mask(e), value), Mask(d)) == if d == e then value else GetFlag(flags, Mask(d))
    {
      if d == e {
        SameMask(flags, Mask(e), value);
      } else {
        MasksAreApart(e, d);
        OtherMask(flags, Mask(e), Mask(d), value);
      }
    }
  }

  lemma NoFlags()
    ensures Events(0) == {}
  {
    forall d: Event
      ensures !GetFlag(0, Mask(d))
    {
      match d { case Change => case Falling => case Rising => case Hold => case Multi => case Delete => }
    }
  }
}
