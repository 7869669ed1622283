/** The kernel's loader walking through the module section in memory. */
module ModuleLoader {
  import opened Bytes
  import opened Common
  import opened ModuleImage

  /** What the loader reports of a module. */
  class ModuleEntry {
    var start: nat
    var size: nat
    var name: seq<byte>

    constructor ()
    {
      start, size, name := 0, 0, [];
    }
  }

  function BytesAt(mem: seq<byte>, at: nat, n: nat): (r: seq<byte>)
    ensures |r| == n && forall i :: 0 <= i < n ==> r[i] == At(mem, at + i)
    decreases n
  {
    if n == 0 then [] else [At(mem, at)] + BytesAt(mem, at + 1, n - 1)
  }

  /** Sums of 32 bits may be cut at every addition or once at the end. */
  lemma CutSum(a: nat, b: nat)
    ensures (a % 0x1_0000_0000 + b) % 0x1_0000_0000 == (a + b) % 0x1_0000_0000
  {
    var q := a / 0x1_0000_0000;
    assert a + b == (a % 0x1_0000_0000 + b) + q * 0x1_0000_0000;
  }

  /** The number that the kernel copies at boot, accumulated in 32 bits. */
  method ModuleSectionSize(mem: seq<byte>, section: nat) returns (size: nat)
    ensures size == SectionSize(mem, section)
  {
    hide ReadU32;
    size := 1;
    var current: nat := section + 4;
    var count := ReadU32(mem, section);
    var i := 0;
    while i < count
      invariant 0 <= i <= count && size < TWO32
      invariant (size + SectionSizeFrom(mem, current, count - i)) % TWO32 == SectionSize(mem, section)
    {
      var moduleSize := ReadU32(mem, current);
      ghost var rest := SectionSizeFrom(mem, current + 4 + (moduleSize + NAME_SIZE) % TWO32, count - i - 1);
      CutSum(size + moduleSize + NAME_SIZE + 4, rest);
      current := current + 4 + (moduleSize + NAME_SIZE) % TWO32;
      size := (size + moduleSize + NAME_SIZE + 4) % TWO32;
      i := i + 1;
    }
  }

  /** The module found first is returned and reported; without one the report is left alone. */
  method ModuleLoad(mem: seq<byte>, section: nat, name: seq<byte>, entry: ModuleEntry) returns (found: Option<nat>)
    modifies entry
    ensures match Load(mem, section, name)
            case None => found == None && unchanged(entry)
            case Some((start, size)) =>
              && found == Some(start) && entry.start == start && entry.size == size
              && entry.name == BytesAt(mem, start + size, NAME_SIZE)
  {
    hide ReadU32, CString, BytesAt;
    var current: nat := section + 4;
    var count := ReadU32(mem, section);
    var i := 0;
    while i < count
      invariant 0 <= i <= count && unchanged(entry)
      invariant LoadFrom(mem, current, count - i, name) == Load(mem, section, name)
    {
      var moduleSize := ReadU32(mem, current);
      current := current + 4;
      if CString(mem, current + moduleSize, NAME_SIZE) == name {
        entry.start := current;
        entry.size := moduleSize;
        entry.name := BytesAt(mem, current + moduleSize, NAME_SIZE);
        return Some(current);
      }
      current := current + NAME_SIZE;
      current := current + moduleSize;
      i := i + 1;
    }
    return None;
  }
}
