/**
 The style-flag word of a TextView (`m_uStyleFlags`): a 32-bit ULONG in which
 every TXS_* style is one bit. The window updates and queries it only through
 masks, so all of its logic is the three rules below.

 Contracts are stated as bitwise inclusions: `x & !y == 0` says every style
 that is on in `x` is also on in `y`. (The inclusion is written out rather
 than named by a predicate, which keeps the bit-vector proofs cheap.)
 */
module StyleFlags {

  /** A ULONG on Win32 is 32 bits wide. */
  type Flags = bv32

  /** The new flag word written by SetStyle: the bits of `mask` are cleared,
      then the bits of `styles` are set. Bits of `styles` outside `mask` are
      set as well; the update does not confine `styles` to `mask`. */
  function Update(flags: Flags, mask: Flags, styles: Flags): (r: Flags)
    // every requested style is on afterwards
    ensures styles & !r == 0
    // styles outside the mask that were on stay on
    ensures (flags & !mask) & !r == 0
    // nothing is on that was neither on before nor requested
    ensures r & !(flags | styles) == 0
    // inside the mask only requested styles are on
    ensures (r & mask) & !styles == 0
  {
    (flags & !mask) | styles
  }

  /** The styles among `mask` that are currently on. */
  function GetStyleMask(flags: Flags, mask: Flags): (r: Flags)
    // only styles of the mask that are on are reported
    ensures r & !mask == 0 && r & !flags == 0
    // every style of the mask that is on is reported
    ensures (flags & mask) & !r == 0
  {
    flags & mask
  }

  /** Some style of `mask` is on. */
  predicate CheckStyle(flags: Flags, mask: Flags)
  {
    flags & mask != 0
  }

  /** CheckStyle agrees with GetStyleMask and is false for an empty mask or
      an empty flag word. */
  lemma CheckStyleMeaning(flags: Flags, mask: Flags)
    ensures CheckStyle(flags, mask) <==> GetStyleMask(flags, mask) != 0
    ensures mask == 0 || flags == 0 ==> !CheckStyle(flags, mask)
  {
  }

  /** Widening the mask can only turn a CheckStyle answer from false to true. */
  lemma CheckStyleMonotone(flags: Flags, mask: Flags, wider: Flags)
    requires mask & !wider == 0
    ensures CheckStyle(flags, mask) ==> CheckStyle(flags, wider)
  {
  }

  /** The update is fully determined by its contract: any word meeting the
      four inclusions of Update is the word Update writes. */
  lemma UpdateUnique(flags: Flags, mask: Flags, styles: Flags, r: Flags)
    requires styles & !r == 0 && (flags & !mask) & !r == 0
    requires r & !(flags | styles) == 0 && (r & mask) & !styles == 0
    ensures r == Update(flags, mask, styles)
  {
  }

  /** Repeating a SetStyle call changes nothing more. */
  lemma UpdateIdempotent(flags: Flags, mask: Flags, styles: Flags)
    ensures Update(Update(flags, mask, styles), mask, styles) == Update(flags, mask, styles)
  {
  }

  /** When `styles` lies within `mask`, the styles of `mask` become exactly
      `styles` and every style outside `mask` keeps its value. */
  lemma UpdateWithinMask(flags: Flags, mask: Flags, styles: Flags)
    requires styles & !mask == 0
    ensures GetStyleMask(Update(flags, mask, styles), mask) == styles
    ensures GetStyleMask(Update(flags, mask, styles), !mask) == GetStyleMask(flags, !mask)
  {
  }

  /** Of two successive updates of the same mask, the second decides, as long
      as the first stays within the mask. */
  lemma UpdateLastWins(flags: Flags, mask: Flags, first: Flags, second: Flags)
    requires first & !mask == 0
    ensures Update(Update(flags, mask, first), mask, second) == Update(flags, mask, second)
  {
  }

  /** After an update, every style it names reports as on. */
  lemma UpdateThenCheck(flags: Flags, mask: Flags, styles: Flags)
    requires styles != 0
    ensures GetStyleMask(Update(flags, mask, styles), styles) == styles
    ensures CheckStyle(Update(flags, mask, styles), styles)
  {
  }
}
