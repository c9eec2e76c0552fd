/** The 64-bit words the mapping tables hold: a physical slot number whose top bit says
    that the slot is private to the current round. */
module SlotWords {

  const TAG: nat := 0x8000_0000_0000_0000
  const WORDS: nat := 0x1_0000_0000_0000_0000
  const INVALID_SLOT: nat := WORDS - 1

  /** Slot numbers stay below this bound, so that neither a slot nor a tagged slot is INVALID_SLOT
      and a run of slots never crosses the tag bit. */
  const SLOT_BOUND: nat := TAG - 1

  type Word = w: nat | w < 0x1_0000_0000_0000_0000

  /** Invalid words count as shared. */
  predicate IsShared(w: Word)
    ensures IsShared(w) <==> w == INVALID_SLOT || w < TAG
  {
    w == INVALID_SLOT || (w / TAG) % 2 == 0
  }

  /** The slot number without its tag. */
  function SlotOf(w: nat): (s: nat)
    ensures s < TAG
    ensures w < WORDS ==> s == if w < TAG then w else w - TAG
  {
    w % TAG
  }

  /** Sets the top bit of a 64-bit word. */
  function MarkPrivate(w: nat): (r: Word)
    ensures SlotOf(r) == SlotOf(w)
    ensures SlotOf(w) < SLOT_BOUND ==> !IsShared(r) && r != INVALID_SLOT
  {
    TAG + w % TAG
  }

  /** What freezing a round does to one word: a private word loses its tag. */
  function Share(w: Word): (r: Word)
    ensures IsShared(r)
    ensures w != INVALID_SLOT ==> SlotOf(r) == SlotOf(w) && r < TAG
  {
    if IsShared(w) then w else w % TAG
  }
}
