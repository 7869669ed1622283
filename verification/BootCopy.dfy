/** The copy of the module section that the kernel makes at boot lacks the last three bytes of the image.  When does loading
  from it still work? */
module BootCopy {
  import opened Bytes
  import opened Common
  import opened ModuleImage

  /** So the copy that the kernel makes at boot lacks the last three bytes of the image; whatever bytes are behind it, loading
    from it works as from the image, provided that the last name is at most 124 bytes long. */
  lemma BootCopyLoads(mem: seq<byte>, section: nat, copy: seq<byte>, zone: nat, ms: seq<Module>, name: seq<byte>)
    requires Input(ms) && Holds(mem, section, Image(ms)) && |Image(ms)| < TWO32
    requires SectionSize(mem, section) <= |Image(ms)| && Holds(copy, zone, Image(ms)[..SectionSize(mem, section)])
    requires ms != [] && |Name(ms[|ms| - 1])| <= 124
    ensures Answers(Load(copy, zone, name), copy, zone + 4, ms, FirstNamed(ms, name))
  {
    SectionSizeOfImage(mem, section, ms);
    hide *;
    LoadAfterPack(copy, zone, ms, 3, name);
  }

  // ---------------------------------------------------------------- reading a damaged last name

  /** The last name field without its last three bytes reads as a string that agrees with the name in the first 125 bytes, if
    the name is that long. */
  lemma DamagedName(mem: seq<byte>, at: nat, m: Module)
    requires Packable(m) && |Name(m)| >= 125 && Holds(mem, at, NameField(m)[..125])
    ensures var r := CString(mem, at, NAME_SIZE); 125 <= |r| <= NAME_SIZE && r[..125] == Name(m)[..125] && 0 !in r
  {
    LongEnough(m);
    FieldStart(m);
    CStringBytes(mem, at, NAME_SIZE);
    hide CString, Packable, NameField, Name, Holds;
    SameStart(mem, at, Name(m), CString(mem, at, NAME_SIZE));
  }

  lemma SameStart(mem: seq<byte>, at: nat, name: seq<byte>, r: seq<byte>)
    requires |name| >= 125 && 0 !in name && Holds(mem, at, name[..125])
    requires Holds(mem, at, r) && (|r| < NAME_SIZE ==> At(mem, at + |r|) == 0)
    ensures |r| >= 125 && r[..125] == name[..125]
  {
    forall i: nat | i < 125 ensures At(mem, at + i) == name[i] != 0 {
      assert At(mem, at + i) == name[..125][at + i - at] && name[i] in name;
    }
    assert |r| >= 125;
    forall i: nat | i < 125 ensures r[i] == name[i] {
      assert At(mem, at + i) == r[at + i - at];
    }
  }

  lemma LongEnough(m: Module)
    requires Packable(m)
    ensures |Name(m)| < NAME_SIZE && 0 !in Name(m)
  {
    assert forall i :: 0 <= i < |Name(m)| ==> Name(m)[i] == m.path[Base(m.path) + i];
  }

  lemma FieldStart(m: Module)
    requires Packable(m) && |Name(m)| >= 125
    ensures NameField(m)[..125] == Name(m)[..125]
  {
  }

  /** A name of at least 125 bytes is not read back if the byte behind its first 125 is wrong. */
  lemma NameLost(mem: seq<byte>, at: nat, name: seq<byte>)
    requires 125 <= |name| < NAME_SIZE && At(mem, at + 125) != if |name| > 125 then name[125] else 0
    ensures CString(mem, at, NAME_SIZE) != name
  {
    hide CString;
    CStringBytes(mem, at, NAME_SIZE);
  }

  lemma OnlyStep(mem: seq<byte>, pos: nat, count: nat, name: seq<byte>)
    requires count == 1
    ensures LoadFrom(mem, pos, count, name).Some? <==> CString(mem, pos + 4 + ReadU32(mem, pos), NAME_SIZE) == name
  {
    hide CString, ReadU32;
  }

  lemma LastSize(mem: seq<byte>, pos: nat, ms: seq<Module>)
    requires Input(ms) && |ms| == 1
    requires 3 <= |EncodeAll(ms)| && Holds(mem, pos, EncodeAll(ms)[..|EncodeAll(ms)| - 3])
    ensures ReadU32(mem, pos) == |ms[0].content| && |EncodeAll(ms)| == Step(ms[0])
  {
    EncodeStep(ms);
    var m := ms[0];
    assert EncodeAll(ms) == Encode(m);
    hide U32, Name, NameField, EncodeAll, Encode, Holds, ReadU32, Packable, Input;
    EncodeParts(m, 3);
    HoldsParts(mem, pos, U32(|m.content|) + m.content, NameField(m)[..NAME_SIZE - 3]);
    HoldsParts(mem, pos, U32(|m.content|), m.content);
    ReadsU32(mem, pos, |m.content|);
  }

  /** From the damaged copy every module but the last is found as from the image; a name of none of these is found exactly if
    the last name field reads as it. */
  lemma {:induction false} LoadDamaged(mem: seq<byte>, pos: nat, ms: seq<Module>, name: seq<byte>)
    requires Input(ms) && ms != [] && 3 <= |EncodeAll(ms)| && Holds(mem, pos, EncodeAll(ms)[..|EncodeAll(ms)| - 3])
    requires NAME_SIZE <= |EncodeAll(ms)|
    ensures if FirstNamed(ms, name) < |ms| - 1 then Answers(LoadFrom(mem, pos, |ms|, name), mem, pos, ms, FirstNamed(ms, name))
            else LoadFrom(mem, pos, |ms|, name).Some? <==> CString(mem, pos + |EncodeAll(ms)| - NAME_SIZE, NAME_SIZE) == name
    decreases |ms|
  {
    hide *;
    if |ms| == 1 {
      OnlyDamaged(mem, pos, ms, name);
    } else {
      NameSize();
      FirstEntry(mem, pos, ms, 3);
      FirstStep(ms, name);
      EncodeStep(ms);
      LoadStep(mem, pos, ms[0], |ms|, name);
      SubInput(ms);
      AtLeastAName(ms[1..]);
      if Name(ms[0]) == name {
        AnswersHere(mem, pos, ms, name);
      } else {
        LoadDamaged(mem, pos + Step(ms[0]), ms[1..], name);
        if FirstNamed(ms[1..], name) < |ms[1..]| - 1 {
          AnswersStep(LoadFrom(mem, pos, |ms|, name), mem, pos, ms, FirstNamed(ms[1..], name));
        }
      }
    }
  }

  lemma StepIs(m: Module)
    ensures Step(m) == 4 + |m.content| + NAME_SIZE
  {
  }

  lemma OnlyDamaged(mem: seq<byte>, pos: nat, ms: seq<Module>, name: seq<byte>)
    requires Input(ms) && |ms| == 1
    requires NAME_SIZE <= |EncodeAll(ms)| && Holds(mem, pos, EncodeAll(ms)[..|EncodeAll(ms)| - 3])
    ensures LoadFrom(mem, pos, |ms|, name).Some? <==> CString(mem, pos + |EncodeAll(ms)| - NAME_SIZE, NAME_SIZE) == name
  {
    hide *;
    NameSize();
    LastSize(mem, pos, ms);
    StepIs(ms[0]);
    OnlyStep(mem, pos, |ms|, name);
  }

  lemma AtLeastAName(ms: seq<Module>)
    requires Input(ms) && ms != []
    ensures |EncodeAll(ms)| >= NAME_SIZE + 4
  {
    EncodeStep(ms);
  }

  lemma NameSize()
    ensures NAME_SIZE == 128
  {
  }

  lemma CutImage(ms: seq<Module>)
    requires Input(ms) && 3 <= |EncodeAll(ms)|
    ensures |ms| < TWO32 && |Image(ms)| == 4 + |EncodeAll(ms)|
    ensures Image(ms)[..|Image(ms)| - 3] == U32(|ms|) + EncodeAll(ms)[..|EncodeAll(ms)| - 3]
  {
    hide U32, EncodeAll;
    assert |U32(|ms|)| == 4;
    TakeOfSum(U32(|ms|), EncodeAll(ms), 3);
  }

  lemma LoadIs(mem: seq<byte>, section: nat, name: seq<byte>)
    ensures Load(mem, section, name) == LoadFrom(mem, section + 4, ReadU32(mem, section), name)
  {
    hide LoadFrom, ReadU32;
  }

  // ---------------------------------------------------------------- when it works

  /** Every name that fits its field can be loaded from the copy, whatever bytes lie behind it. */
  ghost predicate BootCopyWorks(ms: seq<Module>, size: nat)
    requires Input(ms) && size <= |Image(ms)|
  {
    forall copy: seq<byte>, zone: nat, name: seq<byte> | |name| < NAME_SIZE && Holds(copy, zone, Image(ms)[..size]) ::
      Answers(Load(copy, zone, name), copy, zone + 4, ms, FirstNamed(ms, name))
  }

  /** A name that the damaged field of the last module, whose name is long, can read as. */
  ghost predicate MayRead(last: seq<byte>, name: seq<byte>) {
    |last| >= 125 && 125 <= |name| < NAME_SIZE && name[..125] == last[..125] && 0 !in name
  }

  /** Whatever it reads as, an earlier module has that name. */
  ghost predicate Shadowed(ms: seq<Module>)
    requires ms != [] && |Name(ms[|ms| - 1])| >= 125
  {
    forall name: seq<byte> :: MayRead(Name(ms[|ms| - 1]), name) ==> FirstNamed(ms, name) < |ms| - 1
  }

  /** The parts of the copy. */
  lemma CopyHeld(ms: seq<Module>, copy: seq<byte>, zone: nat)
    requires Input(ms) && ms != [] && |Image(ms)| >= 3 && Holds(copy, zone, Image(ms)[..|Image(ms)| - 3])
    ensures |Image(ms)| == 4 + |EncodeAll(ms)| && NAME_SIZE + 4 <= |EncodeAll(ms)|
    ensures ReadU32(copy, zone) == |ms|
    ensures Holds(copy, zone + 4, EncodeAll(ms)[..|EncodeAll(ms)| - 3])
  {
    hide *;
    NameSize();
    AtLeastAName(ms);
    CutImage(ms);
    HoldsParts(copy, zone, U32(|ms|), EncodeAll(ms)[..|EncodeAll(ms)| - 3]);
    ReadsU32(copy, zone, |ms|);
    CountSize(|ms|);
  }

  lemma CountSize(n: nat)
    ensures |U32(n)| == 4
  {
  }

  /** The last name field, without its last three bytes, is at the end of the copy. */
  lemma {:induction false} LastField(mem: seq<byte>, pos: nat, ms: seq<Module>)
    requires Input(ms) && ms != [] && 3 <= |EncodeAll(ms)| && Holds(mem, pos, EncodeAll(ms)[..|EncodeAll(ms)| - 3])
    requires NAME_SIZE + 4 <= |EncodeAll(ms)|
    ensures Packable(ms[|ms| - 1])
    ensures Holds(mem, pos + |EncodeAll(ms)| - NAME_SIZE, NameField(ms[|ms| - 1])[..125])
    decreases |ms|
  {
    hide *;
    SubInput(ms);
    if |ms| == 1 {
      OnlyField(mem, pos, ms);
    } else {
      NameSize();
      FirstEntry(mem, pos, ms, 3);
      EncodeStep(ms);
      AtLeastAName(ms[1..]);
      LastField(mem, pos + Step(ms[0]), ms[1..]);
    }
  }

  lemma OnlyField(mem: seq<byte>, pos: nat, ms: seq<Module>)
    requires Input(ms) && |ms| == 1 && Packable(ms[0])
    requires 3 <= |EncodeAll(ms)| && Holds(mem, pos, EncodeAll(ms)[..|EncodeAll(ms)| - 3])
    ensures NAME_SIZE <= |EncodeAll(ms)| && Holds(mem, pos + |EncodeAll(ms)| - NAME_SIZE, NameField(ms[0])[..125])
  {
    EncodeStep(ms);
    var m := ms[0];
    assert EncodeAll(ms) == Encode(m) + [] == Encode(m);
    hide U32, Name, NameField, EncodeAll, Encode, Holds, Packable, Input;
    EncodeParts(m, 3);
    HoldsParts(mem, pos, U32(|m.content|) + m.content, NameField(m)[..NAME_SIZE - 3]);
  }

  /** With a shadowed last name the copy works. */
  lemma ShadowedWorks(ms: seq<Module>, copy: seq<byte>, zone: nat, name: seq<byte>)
    requires Input(ms) && ms != [] && |Name(ms[|ms| - 1])| >= 125 && Shadowed(ms) && |name| < NAME_SIZE
    requires |Image(ms)| >= 3 && Holds(copy, zone, Image(ms)[..|Image(ms)| - 3])
    ensures Answers(Load(copy, zone, name), copy, zone + 4, ms, FirstNamed(ms, name))
  {
    hide *;
    NameSize();
    CopyHeld(ms, copy, zone);
    LastField(copy, zone + 4, ms);
    LoadDamaged(copy, zone + 4, ms, name);
    LoadIs(copy, zone, name);
    if FirstNamed(ms, name) >= |ms| - 1 {
      var at := zone + 4 + |EncodeAll(ms)| - NAME_SIZE;
      DamagedName(copy, at, ms[|ms| - 1]);
      LongEnough(ms[|ms| - 1]);
      OwnReading(Name(ms[|ms| - 1]));
      NotShadowed(ms, name, CString(copy, at, NAME_SIZE));
      FoundNone(copy, zone + 4, ms, name);
    }
  }

  lemma OwnReading(last: seq<byte>)
    requires 125 <= |last| < NAME_SIZE && 0 !in last
    ensures MayRead(last, last)
  {
  }

  lemma NotShadowed(ms: seq<Module>, name: seq<byte>, read: seq<byte>)
    requires ms != [] && |Name(ms[|ms| - 1])| >= 125 && Shadowed(ms) && |name| < NAME_SIZE && FirstNamed(ms, name) >= |ms| - 1
    requires MayRead(Name(ms[|ms| - 1]), Name(ms[|ms| - 1]))
    requires 125 <= |read| && read[..125] == Name(ms[|ms| - 1])[..125] && 0 !in read
    ensures read != name && FirstNamed(ms, name) == |ms|
  {
    hide Name, FirstNamed;
    var last := Name(ms[|ms| - 1]);
    assert MayRead(last, name) ==> FirstNamed(ms, name) < |ms| - 1;
    assert MayRead(last, last) ==> FirstNamed(ms, last) < |ms| - 1;
  }

  lemma FoundNone(mem: seq<byte>, pos: nat, ms: seq<Module>, name: seq<byte>)
    requires FirstNamed(ms, name) == |ms| && LoadFrom(mem, pos, |ms|, name) == None
    ensures Answers(LoadFrom(mem, pos, |ms|, name), mem, pos, ms, FirstNamed(ms, name))
  {
    hide LoadFrom, FirstNamed;
  }

  /** If the last name is not shadowed, some bytes behind the copy make a load fail. */
  lemma UnshadowedFails(ms: seq<Module>, name: seq<byte>)
    requires Input(ms) && ms != [] && |Name(ms[|ms| - 1])| >= 125 && |Image(ms)| >= 3
    requires MayRead(Name(ms[|ms| - 1]), name) && FirstNamed(ms, name) >= |ms| - 1
    ensures !BootCopyWorks(ms, |Image(ms)| - 3)
  {
    hide *;
    var img := Image(ms);
    NameSize();
    LongName(Name(ms[|ms| - 1]), name);
    if FirstNamed(ms, name) == |ms| {
      var copy := img[..|img| - 3] + (ReadingAs(name) + [0]);
      FalselyFound(ms, copy, name);
      WrongAnswer(ms, copy, name);
    } else {
      var copy := img[..|img| - 3] + [OtherByte(name)];
      Lost(ms, copy, name);
      WrongAnswer(ms, copy, name);
    }
  }

  function ReadingAs(name: seq<byte>): seq<byte> {
    if |name| >= 125 then name[125..] else []
  }

  /** A byte that is not the one behind the first 125 of the name. */
  function OtherByte(name: seq<byte>): (x: byte)
    ensures 125 <= |name| ==> x != if |name| > 125 then name[125] else 0
  {
    if |name| > 125 && name[125] == 1 then 2 else 1
  }

  /** The field reads as a name that no module has. */
  lemma FalselyFound(ms: seq<Module>, copy: seq<byte>, name: seq<byte>)
    requires Input(ms) && ms != [] && |Name(ms[|ms| - 1])| >= 125 && |Image(ms)| >= 3
    requires MayRead(Name(ms[|ms| - 1]), name) && FirstNamed(ms, name) == |ms|
    requires copy == Image(ms)[..|Image(ms)| - 3] + (ReadingAs(name) + [0])
    ensures Holds(copy, 0, Image(ms)[..|Image(ms)| - 3]) && Load(copy, 0, name).Some?
  {
    hide *;
    var img := Image(ms);
    NameSize();
    HoldsItself(copy);
    HoldsParts(copy, 0, img[..|img| - 3], ReadingAs(name) + [0]);
    CopyHeld(ms, copy, 0);
    LastField(copy, 4, ms);
    LongEnough(ms[|ms| - 1]);
    var at := 4 + |EncodeAll(ms)| - NAME_SIZE;
    FieldStart(ms[|ms| - 1]);
    ReadsThrough(copy, at, Name(ms[|ms| - 1]), name);
    LoadDamaged(copy, 4, ms, name);
    LoadIs(copy, 0, name);
  }

  lemma HoldsItself(mem: seq<byte>)
    ensures Holds(mem, 0, mem)
  {
  }

  lemma ReadsThrough(mem: seq<byte>, at: nat, last: seq<byte>, name: seq<byte>)
    requires |last| >= 125 && MayRead(last, name)
    requires Holds(mem, at, last[..125]) && Holds(mem, at + 125, ReadingAs(name) + [0])
    ensures CString(mem, at, NAME_SIZE) == name
  {
    hide CString, Holds;
    assert name + [0] == last[..125] + (ReadingAs(name) + [0]);
    HoldsParts(mem, at, last[..125], ReadingAs(name) + [0]);
    ReadsCString(mem, at, name, NAME_SIZE);
  }

  /** The field does not read as the last name, which only the last module has. */
  lemma Lost(ms: seq<Module>, copy: seq<byte>, name: seq<byte>)
    requires Input(ms) && ms != [] && |Name(ms[|ms| - 1])| >= 125 && |Image(ms)| >= 3
    requires MayRead(Name(ms[|ms| - 1]), name) && FirstNamed(ms, name) == |ms| - 1
    requires copy == Image(ms)[..|Image(ms)| - 3] + [OtherByte(name)]
    ensures Holds(copy, 0, Image(ms)[..|Image(ms)| - 3]) && Load(copy, 0, name) == None
  {
    hide *;
    var img := Image(ms);
    NameSize();
    HoldsItself(copy);
    HoldsParts(copy, 0, img[..|img| - 3], [OtherByte(name)]);
    CopyHeld(ms, copy, 0);
    var at := 4 + |EncodeAll(ms)| - NAME_SIZE;
    LastByte(copy, img[..|img| - 3], OtherByte(name));
    LongName(Name(ms[|ms| - 1]), name);
    NameLost(copy, at, name);
    LoadDamaged(copy, 4, ms, name);
    LoadIs(copy, 0, name);
  }

  lemma LongName(last: seq<byte>, name: seq<byte>)
    requires |last| >= 125 && MayRead(last, name)
    ensures 125 <= |name| < NAME_SIZE
  {
  }

  lemma LastByte(copy: seq<byte>, kept: seq<byte>, x: byte)
    requires copy == kept + [x]
    ensures At(copy, |kept|) == x
  {
  }

  /** The boot copy of no modules lacks three bytes of the count. */
  lemma NoModulesLost(ms: seq<Module>, copy: seq<byte>, name: seq<byte>)
    requires Input(ms) && ms == [] && copy == [0, 1] && name == []
    ensures |Image(ms)| == 4 && !BootCopyWorks(ms, |Image(ms)| - 3)
  {
    hide *;
    NameSize();
    EmptyCopy(ms, copy);
    LoadHit(copy, 4, ReadU32(copy, 0), name);
    LoadIs(copy, 0, name);
    WrongAnswer(ms, copy, name);
  }

  lemma EmptyCopy(ms: seq<Module>, copy: seq<byte>)
    requires Input(ms) && ms == [] && copy == [0, 1]
    ensures |Image(ms)| == 4 && Holds(copy, 0, Image(ms)[..1]) && FirstNamed(ms, []) == 0
    ensures ReadU32(copy, 0) == 256 && ReadU32(copy, 4) == 0 && CString(copy, 8, NAME_SIZE) == []
  {
    assert |Image(ms)| == 4 && Image(ms)[0] == 0;
    assert Image(ms)[..1] == [0 as byte];
    CStringEmpty(copy, 8, NAME_SIZE);
    hide CString, Image, U32;
  }

  lemma CStringEmpty(mem: seq<byte>, at: nat, n: nat)
    requires At(mem, at) == 0
    ensures CString(mem, at, n) == []
  {
  }

  lemma LoadHit(mem: seq<byte>, pos: nat, count: nat, name: seq<byte>)
    requires count > 0 && CString(mem, pos + 4 + ReadU32(mem, pos), NAME_SIZE) == name
    ensures LoadFrom(mem, pos, count, name) == Some((pos + 4, ReadU32(mem, pos)))
  {
    hide CString, ReadU32;
  }

  lemma WrongAnswer(ms: seq<Module>, copy: seq<byte>, name: seq<byte>)
    requires Input(ms) && |Image(ms)| >= 3 && |name| < NAME_SIZE && (FirstNamed(ms, name) < |ms| <==> Load(copy, 0, name) == None)
    requires Holds(copy, 0, Image(ms)[..|Image(ms)| - 3])
    ensures !BootCopyWorks(ms, |Image(ms)| - 3)
  {
    hide Name, Image, Input, FirstNamed, Holds, Load, Offset;
    assert !Answers(Load(copy, 0, name), copy, 4, ms, FirstNamed(ms, name));
  }

  lemma FewerThanThree(ms: seq<Module>)
    requires Input(ms)
    ensures |Image(ms)| >= 4
  {
    hide EncodeAll, Input;
  }

  /** The boot copy works exactly if there is a module, and the last name has at most 124 bytes or whatever its damaged field can
    read as is the name of an earlier module. */
  lemma BootCopyWorksIff(mem: seq<byte>, section: nat, ms: seq<Module>)
    requires Input(ms) && Holds(mem, section, Image(ms)) && |Image(ms)| < TWO32
    ensures SectionSize(mem, section) <= |Image(ms)|
    ensures BootCopyWorks(ms, SectionSize(mem, section)) <==>
            ms != [] && (|Name(ms[|ms| - 1])| <= 124 || Shadowed(ms))
  {
    hide Image, Holds, SectionSize, Load, Name, Answers, Input, FirstNamed, Shadowed, BootCopyWorks;
    SectionSizeOfImage(mem, section, ms);
    FewerThanThree(ms);
    if ms == [] {
      NoModulesLost(ms, [0, 1], []);
    } else if |Name(ms[|ms| - 1])| <= 124 {
      ShortWorks(mem, section, ms);
    } else if Shadowed(ms) {
      LongWorks(ms);
    } else {
      var name := Unshadowed(ms);
      UnshadowedFails(ms, name);
    }
  }

  lemma Unshadowed(ms: seq<Module>) returns (name: seq<byte>)
    requires ms != [] && |Name(ms[|ms| - 1])| >= 125 && !Shadowed(ms)
    ensures MayRead(Name(ms[|ms| - 1]), name) && FirstNamed(ms, name) >= |ms| - 1
  {
    hide Name, FirstNamed, MayRead;
    name :| MayRead(Name(ms[|ms| - 1]), name) && FirstNamed(ms, name) >= |ms| - 1;
  }

  lemma ShortWorks(mem: seq<byte>, section: nat, ms: seq<Module>)
    requires Input(ms) && Holds(mem, section, Image(ms)) && 4 <= |Image(ms)| < TWO32
    requires ms != [] && |Name(ms[|ms| - 1])| <= 124
    ensures BootCopyWorks(ms, |Image(ms)| - 3)
  {
    hide Image, Holds, SectionSize, Load, Name, Answers, Input, FirstNamed;
    SectionSizeOfImage(mem, section, ms);
    forall copy: seq<byte>, zone: nat, name: seq<byte> | |name| < NAME_SIZE && Holds(copy, zone, Image(ms)[..|Image(ms)| - 3])
      ensures Answers(Load(copy, zone, name), copy, zone + 4, ms, FirstNamed(ms, name))
    {
      BootCopyLoads(mem, section, copy, zone, ms, name);
    }
  }

  lemma LongWorks(ms: seq<Module>)
    requires Input(ms) && ms != [] && |Name(ms[|ms| - 1])| >= 125 && Shadowed(ms) && 4 <= |Image(ms)|
    ensures BootCopyWorks(ms, |Image(ms)| - 3)
  {
    hide Image, Holds, Load, Name, Answers, Input, FirstNamed, Shadowed;
    forall copy: seq<byte>, zone: nat, name: seq<byte> | |name| < NAME_SIZE && Holds(copy, zone, Image(ms)[..|Image(ms)| - 3])
      ensures Answers(Load(copy, zone, name), copy, zone + 4, ms, FirstNamed(ms, name))
    {
      ShadowedWorks(ms, copy, zone, name);
    }
  }

  /** A long last name that no other module has is not shadowed: then the copy works exactly for names of at most 124 bytes. */
  lemma UniqueLastName(ms: seq<Module>)
    requires Input(ms) && ms != [] && |Name(ms[|ms| - 1])| >= 125 && FirstNamed(ms, Name(ms[|ms| - 1])) == |ms| - 1
    ensures !Shadowed(ms)
  {
    SubInput(ms);
    LongEnough(ms[|ms| - 1]);
    OwnReading(Name(ms[|ms| - 1]));
    hide Name, FirstNamed, Input, Packable, MayRead;
  }
}
