/** Page table entries.

  The kernel keeps an entry in one 64-bit word: the low twelve bits are attributes, the rest is the
  page-aligned physical address.  The `Word` functions are those of the kernel.  The page table model
  works with entries of two fields, the frame number and the attributes.  The lemmas below say that the
  kernel's operations on words are independent updates of these two fields, and that the operations of
  the model on entries are the kernel's on the words they stand for.
 */
module Pte {
  const MASK_PRESENT: bv64 := 0x1
  const MASK_FRAME: bv64 := 0xFFFF_FFFF_FFFF_F000

  function WordAddAttrib(w: bv64, attrib: bv64): bv64 {
    w | attrib
  }

  function WordDelAttrib(w: bv64, attrib: bv64): bv64 {
    w & !attrib
  }

  function WordSetFrame(w: bv64, physAddr: bv64): bv64 {
    (w & !MASK_FRAME) | (physAddr & MASK_FRAME)
  }

  predicate WordIsPresent(w: bv64) {
    w & MASK_PRESENT != 0
  }

  function WordPfn(w: bv64): bv64 {
    w & MASK_FRAME
  }

  /** The attribute bits: the kernel's masks (present, writeable, user, ...) all lie below bit 12. */
  type Attributes = a: bv64 | a & MASK_FRAME == 0 witness 0

  datatype Fields = Fields(number: bv64, attrs: bv64)

  function FieldsOf(w: bv64): Fields {
    Fields(w >> 12, w & !MASK_FRAME)
  }

  function WordWith(f: Fields): bv64 {
    (f.number << 12) | f.attrs
  }

  /** Nothing else is in a word. */
  lemma FieldsDetermineWord(w: bv64)
    ensures WordWith(FieldsOf(w)) == w
  {
  }

  /** Attributes never disturb the frame. */
  lemma AddAttribFields(w: bv64, attrib: bv64)
    requires attrib & MASK_FRAME == 0
    ensures FieldsOf(WordAddAttrib(w, attrib)) == FieldsOf(w).(attrs := FieldsOf(w).attrs | attrib)
  {
  }

  lemma DelAttribFields(w: bv64, attrib: bv64)
    requires attrib & MASK_FRAME == 0
    ensures FieldsOf(WordDelAttrib(w, attrib)) == FieldsOf(w).(attrs := FieldsOf(w).attrs & !attrib)
  {
  }

  /** Setting the frame keeps the attributes and drops the offset bits of the address. */
  lemma SetFrameFields(w: bv64, physAddr: bv64)
    ensures FieldsOf(WordSetFrame(w, physAddr)) == FieldsOf(w).(number := physAddr >> 12)
    ensures WordPfn(WordSetFrame(w, physAddr)) == physAddr & MASK_FRAME
  {
  }

  /** An entry of the page table model. */
  datatype Entry = Entry(frame: nat, attrs: Attributes)

  predicate Present(e: Entry) {
    e.attrs & MASK_PRESENT != 0
  }

  /** The three writes with which the kernel points an entry at a frame: the frame, present, attributes. */
  function PointTo(e: Entry, frame: nat, attributes: Attributes): (r: Entry)
    ensures r.frame == frame && Present(r)
  {
    Entry(frame, e.attrs | MASK_PRESENT | attributes)
  }

  /** The write with which the kernel frees a page: the frame stays in the entry. */
  function MarkAbsent(e: Entry): (r: Entry)
    ensures r.frame == e.frame && !Present(r)
  {
    e.(attrs := e.attrs & !MASK_PRESENT)
  }

  // ---------------------------------------------------------------- entries are words

  /** The number that a word stands for. */
  ghost function Nr(w: bv64): nat {
    w as nat
  }

  /** The entry that a word is. */
  ghost function EntryOf(w: bv64): Entry {
    LowBits(w);
    Entry(Nr(FieldsOf(w).number), FieldsOf(w).attrs)
  }

  lemma LowBits(w: bv64)
    ensures w & !MASK_FRAME & MASK_FRAME == 0
  {
  }

  lemma PresentBit(w: bv64)
    ensures w & !MASK_FRAME & MASK_PRESENT == w & MASK_PRESENT && MASK_PRESENT & MASK_FRAME == 0
  {
  }

  lemma PresentIsWordPresent(w: bv64)
    ensures Present(EntryOf(w)) <==> WordIsPresent(w)
  {
    hide Nr;
    PresentBit(w);
  }

  /** Pointing an entry at a frame is the kernel's three writes to its word. */
  lemma PointToIsWordWrites(w: bv64, physAddr: bv64, attributes: Attributes)
    ensures EntryOf(WordAddAttrib(WordAddAttrib(WordSetFrame(w, physAddr), MASK_PRESENT), attributes))
            == PointTo(EntryOf(w), Nr(physAddr >> 12), attributes)
  {
    hide Nr, FieldsOf, WordSetFrame, WordAddAttrib;
    PresentBit(0);
    var set_ := WordSetFrame(w, physAddr);
    var present := WordAddAttrib(set_, MASK_PRESENT);
    SetFrameFields(w, physAddr);
    AddAttribFields(set_, MASK_PRESENT);
    AddAttribFields(present, attributes);
  }

  /** Marking an entry absent is the kernel's write to its word. */
  lemma MarkAbsentIsWordWrite(w: bv64)
    ensures EntryOf(WordDelAttrib(w, MASK_PRESENT)) == MarkAbsent(EntryOf(w))
  {
    hide Nr, FieldsOf, WordDelAttrib;
    PresentBit(0);
    DelAttribFields(w, MASK_PRESENT);
  }

  /** The entries of the first tables: attributes on an empty word, then the frame. */
  lemma NewEntryIsWordWrites(physAddr: bv64, attributes: Attributes)
    ensures EntryOf(WordSetFrame(WordAddAttrib(0, attributes), physAddr)) == Entry(Nr(physAddr >> 12), attributes)
  {
    hide Nr, FieldsOf, WordSetFrame, WordAddAttrib;
    AddAttribFields(0, attributes);
    SetFrameFields(WordAddAttrib(0, attributes), physAddr);
    EmptyWord();
  }

  lemma EmptyWord()
    ensures FieldsOf(0) == Fields(0, 0)
  {
  }

  /** The frame that a walk follows from an entry is the one in its word. */
  lemma FrameIsWordPfn(w: bv64)
    ensures EntryOf(w).frame == Nr(WordPfn(w) >> 12)
  {
    hide Nr;
    PfnNumber(w);
  }

  lemma PfnNumber(w: bv64)
    ensures WordPfn(w) >> 12 == w >> 12
  {
  }
}
