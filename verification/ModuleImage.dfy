/** The image of the module packer and the loader that finds modules in it.

  An image is the number of modules, then for every module its size, its bytes and 128 bytes of name.  Memory is a
  sequence of bytes; the loader's cursor is a position in it.
 */
module ModuleImage {
  import opened Bytes
  import opened Common

  const NAME_SIZE: nat := 128
  const SLASH: byte := 47

  /** A file on the packer's command line, and the bytes that lie behind the packer's name buffer while it writes the name. */
  datatype Module = Module(path: seq<byte>, content: seq<byte>, behind: seq<byte>)

  // ---------------------------------------------------------------- the packer

  /** A 32-bit number as it lies in memory. */
  function U32(n: nat): (r: seq<byte>)
    ensures |r| == 4
  {
    [n % 256, n / 256 % 256, n / 65536 % 256, n / 16777216 % 256]
  }

  lemma Bytewise(n: nat)
    ensures n < TWO32 ==> n % 256 + 256 * (n / 256 % 256) + 65536 * (n / 65536 % 256) + 16777216 * (n / 16777216 % 256) == n
  {
    assert n == 256 * (n / 256) + n % 256;
    assert n / 256 == 256 * (n / 65536) + n / 256 % 256;
    assert n / 65536 == 256 * (n / 16777216) + n / 65536 % 256;
  }

  /** Where `basename` points into a path. */
  function Base(path: seq<byte>): (k: nat)
    ensures k <= |path|
    ensures SLASH !in path[k..]
  {
    if path == [] then 0
    else if path[|path| - 1] == SLASH then |path|
    else Base(path[..|path| - 1])
  }

  /** The base name starts the path, or right behind a slash. */
  lemma {:induction false} BaseBehindSlash(path: seq<byte>)
    ensures Base(path) == 0 || path[Base(path) - 1] == SLASH
  {
    if path != [] && path[|path| - 1] != SLASH {
      BaseBehindSlash(path[..|path| - 1]);
    }
  }

  function Name(m: Module): seq<byte> {
    m.path[Base(m.path)..]
  }

  function Zeros(n: nat): seq<byte> {
    seq(n, _ => 0 as byte)
  }

  /** A module that the packer can take: a size of 32 bits and a path of under 128 bytes without zeros, which names a file, so
    it does not end in a slash. */
  predicate Packable(m: Module) {
    && 0 < |m.path| < NAME_SIZE && 0 !in m.path && m.path[|m.path| - 1] != SLASH
    && |m.content| < TWO32
    && |m.behind| == Base(m.path)
  }

  /** The 128 bytes written for a name: they start at the base name inside a zero-padded buffer, so that as many bytes from
    behind the buffer are written as the directory part of the path is long. */
  function NameField(m: Module): (r: seq<byte>)
    requires Packable(m)
    ensures |r| == NAME_SIZE
  {
    Name(m) + Zeros(NAME_SIZE - |m.path|) + m.behind
  }

  function Encode(m: Module): (r: seq<byte>)
    requires Packable(m)
    ensures |r| == 4 + |m.content| + NAME_SIZE
  {
    U32(|m.content|) + m.content + NameField(m)
  }

  /** The bytes of an entry: the size of the content, low byte first, the content, and the base name with a zero behind it. */
  lemma EntryLayout(m: Module, i: nat)
    requires Packable(m)
    ensures var r, n, k := Encode(m), |m.content|, |m.path| - Base(m.path);
            && |r| == 4 + n + 128
            && (r[0] as int) + 256 * (r[1] as int) + 65536 * (r[2] as int) + 16777216 * (r[3] as int) == n
            && (i < n ==> r[4 + i] == m.content[i])
            && (i < k ==> r[4 + n + i] == m.path[Base(m.path) + i])
            && r[4 + n + k] == 0
  {
    Bytewise(|m.content|);
    var u := U32(|m.content|);
    assert Encode(m)[..4] == u;
    hide U32;
    assert forall j :: 0 <= j < 4 ==> Encode(m)[j] == u[j];
  }

  ghost predicate Input(ms: seq<Module>) {
    |ms| < TWO32 && forall i :: 0 <= i < |ms| ==> Packable(ms[i])
  }

  function EncodeAll(ms: seq<Module>): seq<byte>
    requires Input(ms)
  {
    if ms == [] then [] else Encode(ms[0]) + EncodeAll(ms[1..])
  }

  function Image(ms: seq<Module>): seq<byte>
    requires Input(ms)
  {
    U32(|ms|) + EncodeAll(ms)
  }

  // ---------------------------------------------------------------- the loader

  function Value(a: int, b: int, c: int, d: int): int {
    a + 256 * b + 65536 * c + 16777216 * d
  }

  function ReadU32(mem: seq<byte>, i: nat): nat {
    Value(At(mem, i), At(mem, i + 1), At(mem, i + 2), At(mem, i + 3))
  }

  /** The loader's loop from the entry at `pos` on, with `count` modules to go: where the module starts and its size. */
  function LoadFrom(mem: seq<byte>, pos: nat, count: nat, name: seq<byte>): Option<(nat, nat)>
    decreases count
  {
    if count == 0 then None
    else
      var size := ReadU32(mem, pos);
      var start := pos + 4;
      if CString(mem, start + size, NAME_SIZE) == name then Some((start, size))
      else LoadFrom(mem, start + NAME_SIZE + size, count - 1, name)
  }

  function Load(mem: seq<byte>, section: nat, name: seq<byte>): Option<(nat, nat)> {
    LoadFrom(mem, section + 4, ReadU32(mem, section), name)
  }

  function SectionSizeFrom(mem: seq<byte>, pos: nat, count: nat): nat
    decreases count
  {
    if count == 0 then 0
    else
      var size := ReadU32(mem, pos);
      size + NAME_SIZE + 4 + SectionSizeFrom(mem, pos + 4 + (size + NAME_SIZE) % TWO32, count - 1)
  }

  /** The size that the kernel copies at boot, in 32 bits: it starts from 1, the size of a byte, not of the count.  The step
    over a module is a 32-bit sum too. */
  function SectionSize(mem: seq<byte>, section: nat): nat {
    (1 + SectionSizeFrom(mem, section + 4, ReadU32(mem, section))) % TWO32
  }

  // ---------------------------------------------------------------- reading back

  lemma U32RoundTrip(n: nat)
    requires n < TWO32
    ensures Value(U32(n)[0], U32(n)[1], U32(n)[2], U32(n)[3]) == n
  {
    Bytewise(n);
  }

  lemma ReadsU32(mem: seq<byte>, at: nat, n: nat)
    requires n < TWO32 && Holds(mem, at, U32(n))
    ensures ReadU32(mem, at) == n
  {
    U32RoundTrip(n);
    hide U32;
    assert At(mem, at) == U32(n)[0] && At(mem, at + 1) == U32(n)[1];
    assert At(mem, at + 2) == U32(n)[2] && At(mem, at + 3) == U32(n)[3];
  }

  /** All of a name field but its last `cut` bytes is enough to read the name back, if the name is that much shorter. */
  lemma ReadsName(mem: seq<byte>, at: nat, m: Module, cut: nat)
    requires Packable(m) && |Name(m)| + cut < NAME_SIZE && Holds(mem, at, NameField(m)[..NAME_SIZE - cut])
    ensures CString(mem, at, NAME_SIZE) == Name(m)
  {
    var name := Name(m);
    var field := NameField(m);
    assert field[|name|] == 0;
    assert field[..NAME_SIZE - cut] == (name + [0]) + field[|name| + 1..NAME_SIZE - cut];
    HoldsParts(mem, at, name + [0], field[|name| + 1..NAME_SIZE - cut]);
    assert forall i :: 0 <= i < |name| ==> name[i] == m.path[Base(m.path) + i];
    ReadsCString(mem, at, name, NAME_SIZE);
  }

  lemma ShortName(m: Module)
    requires Packable(m)
    ensures |Name(m)| < NAME_SIZE
  {
  }

  // ---------------------------------------------------------------- the round trip

  /** The size of an entry. */
  function Step(m: Module): nat {
    4 + |m.content| + NAME_SIZE
  }

  /** Position of entry `i` behind the position of the first. */
  function Offset(ms: seq<Module>, i: nat): nat
    requires i <= |ms|
  {
    if i == 0 then 0 else Step(ms[0]) + Offset(ms[1..], i - 1)
  }

  /** The first module with the name, or the number of modules. */
  function FirstNamed(ms: seq<Module>, name: seq<byte>): (k: nat)
    ensures k <= |ms| && (k < |ms| ==> Name(ms[k]) == name)
    ensures forall i :: 0 <= i < k ==> Name(ms[i]) != name
  {
    if ms == [] then 0 else if Name(ms[0]) == name then 0 else 1 + FirstNamed(ms[1..], name)
  }

  /** The entry of a module can be read at `pos`. */
  ghost predicate EntryAt(mem: seq<byte>, pos: nat, m: Module) {
    && ReadU32(mem, pos) == |m.content|
    && Holds(mem, pos + 4, m.content)
    && CString(mem, pos + 4 + |m.content|, NAME_SIZE) == Name(m)
  }

  ghost predicate Entries(mem: seq<byte>, pos: nat, ms: seq<Module>)
    decreases |ms|
  {
    ms == [] || (EntryAt(mem, pos, ms[0]) && Entries(mem, pos + Step(ms[0]), ms[1..]))
  }

  lemma TakeOfSum(a: seq<byte>, b: seq<byte>, cut: nat)
    requires cut <= |b|
    ensures (a + b)[..|a + b| - cut] == a + b[..|b| - cut]
  {
  }

  lemma EncodeParts(m: Module, cut: nat)
    requires Packable(m) && cut < NAME_SIZE
    ensures |m.content| < TWO32
    ensures Encode(m)[..|Encode(m)| - cut] == (U32(|m.content|) + m.content) + NameField(m)[..NAME_SIZE - cut]
  {
    hide U32, NameField;
    TakeOfSum(U32(|m.content|) + m.content, NameField(m), cut);
  }

  /** One entry in memory, but for the last `cut` bytes of its name field. */
  lemma ReadEntry(mem: seq<byte>, pos: nat, m: Module, cut: nat)
    requires Packable(m) && |Name(m)| + cut < NAME_SIZE
    requires Holds(mem, pos, Encode(m)[..|Encode(m)| - cut])
    ensures EntryAt(mem, pos, m)
  {
    hide U32, NameField, Encode, Name, Packable, Holds, CString, ReadU32;
    EncodeParts(m, cut);
    var size, kept := U32(|m.content|), NameField(m)[..NAME_SIZE - cut];
    HoldsParts(mem, pos, size + m.content, kept);
    HoldsParts(mem, pos, size, m.content);
    ReadsU32(mem, pos, |m.content|);
    ReadsName(mem, pos + 4 + |m.content|, m, cut);
  }

  lemma SubInput(ms: seq<Module>)
    requires Input(ms) && ms != []
    ensures Packable(ms[0]) && Packable(ms[|ms| - 1]) && Input(ms[1..])
    ensures |ms| > 1 ==> ms[1..] != [] && ms[1..][|ms[1..]| - 1] == ms[|ms| - 1]
  {
    hide Packable;
  }

  lemma EncodeStep(ms: seq<Module>)
    requires Input(ms) && ms != []
    ensures Packable(ms[0]) && Input(ms[1..]) && EncodeAll(ms) == Encode(ms[0]) + EncodeAll(ms[1..])
    ensures |EncodeAll(ms)| == Step(ms[0]) + |EncodeAll(ms[1..])|
  {
    SubInput(ms);
    hide Encode, Packable, Input;
  }

  lemma EntriesStep(mem: seq<byte>, pos: nat, ms: seq<Module>)
    requires ms != []
    ensures Entries(mem, pos, ms) == (EntryAt(mem, pos, ms[0]) && Entries(mem, pos + Step(ms[0]), ms[1..]))
  {
    hide EntryAt, Step;
  }

  /** Memory that holds the encoded modules but for the last `cut` bytes has all entries, if the last name is that much shorter. */
  lemma {:induction false} EncodedEntries(mem: seq<byte>, pos: nat, ms: seq<Module>, cut: nat)
    requires Input(ms) && ms != [] && |Name(ms[|ms| - 1])| + cut < NAME_SIZE
    requires cut <= |EncodeAll(ms)| && Holds(mem, pos, EncodeAll(ms)[..|EncodeAll(ms)| - cut])
    ensures Entries(mem, pos, ms)
    decreases |ms|
  {
    hide *;
    if |ms| == 1 {
      LastEntry(mem, pos, ms, cut);
    } else {
      FirstEntry(mem, pos, ms, cut);
      SubInput(ms);
      EncodedEntries(mem, pos + Step(ms[0]), ms[1..], cut);
      EntriesStep(mem, pos, ms);
    }
  }

  lemma FirstEntry(mem: seq<byte>, pos: nat, ms: seq<Module>, cut: nat)
    requires Input(ms) && |ms| > 1 && cut < NAME_SIZE
    requires cut <= |EncodeAll(ms)| && Holds(mem, pos, EncodeAll(ms)[..|EncodeAll(ms)| - cut])
    ensures EntryAt(mem, pos, ms[0]) && Input(ms[1..]) && cut <= |EncodeAll(ms[1..])|
    ensures Holds(mem, pos + Step(ms[0]), EncodeAll(ms[1..])[..|EncodeAll(ms[1..])| - cut])
  {
    hide Packable, Input, Encode, EncodeAll, Holds, EntryAt;
    EncodeStep(ms);
    EncodeStep(ms[1..]);
    ShortName(ms[0]);
    var first, rest := Encode(ms[0]), EncodeAll(ms[1..]);
    assert |first| == Step(ms[0]);
    hide Step;
    TakeOfSum(first, rest, cut);
    HoldsParts(mem, pos, first, rest[..|rest| - cut]);
    assert first[..|first| - 0] == first;
    ReadEntry(mem, pos, ms[0], 0);
  }

  lemma LastEntry(mem: seq<byte>, pos: nat, ms: seq<Module>, cut: nat)
    requires Input(ms) && |ms| == 1 && |Name(ms[0])| + cut < NAME_SIZE
    requires cut <= |EncodeAll(ms)| && Holds(mem, pos, EncodeAll(ms)[..|EncodeAll(ms)| - cut])
    ensures Entries(mem, pos, ms)
  {
    EntriesStep(mem, pos, ms);
    SubInput(ms);
    assert ms[1..] == [] && Entries(mem, pos + Step(ms[0]), []);
    assert EncodeAll(ms) == Encode(ms[0]) + [] == Encode(ms[0]);
    hide *;
    ReadEntry(mem, pos, ms[0], cut);
  }

  lemma LoadStep(mem: seq<byte>, pos: nat, m: Module, count: nat, name: seq<byte>)
    requires EntryAt(mem, pos, m) && count > 0
    ensures LoadFrom(mem, pos, count, name) ==
            if Name(m) == name then Some((pos + 4, |m.content|)) else LoadFrom(mem, pos + Step(m), count - 1, name)
  {
    hide Name, CString, ReadU32, Holds;
  }

  lemma FirstStep(ms: seq<Module>, name: seq<byte>)
    requires ms != []
    ensures FirstNamed(ms, name) == if Name(ms[0]) == name then 0 else 1 + FirstNamed(ms[1..], name)
  {
    hide Name;
  }

  /** What a loader that has found entry `k` of the modules starting at `pos`, or none, answers. */
  ghost predicate Answers(r: Option<(nat, nat)>, mem: seq<byte>, pos: nat, ms: seq<Module>, k: nat)
    requires k <= |ms|
  {
    if k == |ms| then r == None
    else r == Some((pos + Offset(ms, k) + 4, |ms[k].content|)) && Holds(mem, pos + Offset(ms, k) + 4, ms[k].content)
  }

  lemma AnswersStep(r: Option<(nat, nat)>, mem: seq<byte>, pos: nat, ms: seq<Module>, k: nat)
    requires ms != [] && k < |ms| && Answers(r, mem, pos + Step(ms[0]), ms[1..], k)
    ensures Answers(r, mem, pos, ms, k + 1)
  {
    hide Holds, Step;
    if k < |ms[1..]| {
      assert Offset(ms, k + 1) == Step(ms[0]) + Offset(ms[1..], k);
      assert ms[1..][k] == ms[k + 1];
    }
  }

  lemma AnswersHere(mem: seq<byte>, pos: nat, ms: seq<Module>, name: seq<byte>)
    requires ms != [] ==> EntryAt(mem, pos, ms[0]) && Name(ms[0]) == name
    ensures Answers(LoadFrom(mem, pos, |ms|, name), mem, pos, ms, 0)
  {
    if ms != [] {
      LoadStep(mem, pos, ms[0], |ms|, name);
      assert Offset(ms, 0) == 0;
      hide Name, CString, ReadU32, LoadFrom, Offset;
    }
  }

  /** Over entries that can be read, the loader answers with the first module of the name. */
  lemma {:induction false} LoadFindsFirst(mem: seq<byte>, pos: nat, ms: seq<Module>, name: seq<byte>)
    requires Entries(mem, pos, ms)
    ensures Answers(LoadFrom(mem, pos, |ms|, name), mem, pos, ms, FirstNamed(ms, name))
    decreases |ms|
  {
    hide *;
    if ms == [] {
      AnswersHere(mem, pos, ms, name);
    } else {
      EntriesStep(mem, pos, ms);
      FirstStep(ms, name);
      if Name(ms[0]) == name {
        AnswersHere(mem, pos, ms, name);
      } else {
        LoadStep(mem, pos, ms[0], |ms|, name);
        LoadFindsFirst(mem, pos + Step(ms[0]), ms[1..], name);
        AnswersStep(LoadFrom(mem, pos, |ms|, name), mem, pos, ms, FirstNamed(ms[1..], name));
      }
    }
  }

  lemma SizeStep(mem: seq<byte>, pos: nat, m: Module, count: nat)
    requires EntryAt(mem, pos, m) && count > 0 && Step(m) < TWO32
    ensures SectionSizeFrom(mem, pos, count) == Step(m) + SectionSizeFrom(mem, pos + Step(m), count - 1)
  {
    hide Name, CString, ReadU32, Holds;
  }

  lemma {:induction false} SectionSizeIs(mem: seq<byte>, pos: nat, ms: seq<Module>)
    requires Input(ms) && Entries(mem, pos, ms) && |EncodeAll(ms)| < TWO32
    ensures SectionSizeFrom(mem, pos, |ms|) == |EncodeAll(ms)|
    decreases |ms|
  {
    hide *;
    if ms == [] {
      SizeOfNone(mem, pos);
    } else {
      EncodeStep(ms);
      EntriesStep(mem, pos, ms);
      SizeStep(mem, pos, ms[0], |ms|);
      SectionSizeIs(mem, pos + Step(ms[0]), ms[1..]);
    }
  }

  lemma SizeOfNone(mem: seq<byte>, pos: nat)
    ensures Input([]) && SectionSizeFrom(mem, pos, 0) == |EncodeAll([])| == 0
  {
  }

  lemma EntriesAfterPack(mem: seq<byte>, section: nat, ms: seq<Module>, cut: nat)
    requires Input(ms) && cut <= 3
    requires Holds(mem, section, Image(ms)[..|Image(ms)| - cut])
    requires if ms == [] then cut == 0 else |Name(ms[|ms| - 1])| + cut < NAME_SIZE
    ensures ReadU32(mem, section) == |ms| && Entries(mem, section + 4, ms)
  {
    var count, all := U32(|ms|), EncodeAll(ms);
    if ms != [] { EncodeStep(ms); }
    TakeOfSum(count, all, cut);
    hide U32, EncodeAll, Holds, ReadU32, Packable, Encode;
    HoldsParts(mem, section, count, all[..|all| - cut]);
    ReadsU32(mem, section, |ms|);
    if ms != [] {
      EncodedEntries(mem, section + 4, ms, cut);
    }
  }

  /** Packing and loading: memory that holds an image, but for its last `cut` bytes, gives for every name the bytes and the
    size of the first module of that name, or nothing if there is none. */
  lemma LoadAfterPack(mem: seq<byte>, section: nat, ms: seq<Module>, cut: nat, name: seq<byte>)
    requires Input(ms) && cut <= 3 && Holds(mem, section, Image(ms)[..|Image(ms)| - cut])
    requires if ms == [] then cut == 0 else |Name(ms[|ms| - 1])| + cut < NAME_SIZE
    ensures Answers(Load(mem, section, name), mem, section + 4, ms, FirstNamed(ms, name))
  {
    EntriesAfterPack(mem, section, ms, cut);
    assert Load(mem, section, name) == LoadFrom(mem, section + 4, |ms|, name);
    hide *;
    LoadFindsFirst(mem, section + 4, ms, name);
  }

  lemma WholeImage(mem: seq<byte>, section: nat, ms: seq<Module>)
    requires Input(ms) && Holds(mem, section, Image(ms))
    ensures |Image(ms)| == 4 + |EncodeAll(ms)|
    ensures ReadU32(mem, section) == |ms| && Entries(mem, section + 4, ms)
  {
    var img := Image(ms);
    assert img[..|img| - 0] == img;
    assert |img| == 4 + |EncodeAll(ms)|;
    if ms != [] {
      SubInput(ms);
      ShortName(ms[|ms| - 1]);
    }
    hide *;
    EntriesAfterPack(mem, section, ms, 0);
  }

  lemma SectionSizeFits(mem: seq<byte>, section: nat)
    requires 1 + SectionSizeFrom(mem, section + 4, ReadU32(mem, section)) < TWO32
    ensures SectionSize(mem, section) == 1 + SectionSizeFrom(mem, section + 4, ReadU32(mem, section))
  {
    hide SectionSizeFrom, ReadU32;
  }

  /** The size the kernel computes is three bytes less than the image, if the image fits in 32 bits. */
  lemma SectionSizeOfImage(mem: seq<byte>, section: nat, ms: seq<Module>)
    requires Input(ms) && Holds(mem, section, Image(ms)) && |Image(ms)| < TWO32
    ensures SectionSize(mem, section) == |Image(ms)| - 3
  {
    hide *;
    WholeImage(mem, section, ms);
    SectionSizeIs(mem, section + 4, ms);
    SectionSizeFits(mem, section);
  }
}
