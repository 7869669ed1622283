/** Four-level page tables as values (Intel SDM Vol. 3A, section 4.5).

  Physical memory gives 512 entries for every frame.  A table is identified by its place in the tree:
  the level (3 for the PML4, 0 for a page table) and the number of tables of that level before it.  A
  `Tree` maps the places in use to their frames, so a well-formed tree has one frame for every place and
  one place for every frame: no table is shared and none is lost.
 */
module PageTables {
  import opened Common
  import opened Pte

  const ENTRIES: nat := 512
  const PAGES: nat := 68719476736   // 512^4 pages of virtual memory

  type Table = t: seq<Entry> | |t| == ENTRIES witness seq(ENTRIES, _ => Entry(0, 0))

  function ZeroTable(): Table {
    seq(ENTRIES, _ => Entry(0, 0))
  }

  /** How many pages one entry of a table of this level spans. */
  function Span(level: nat): nat
    requires level <= 4
  {
    match level
    case 0 => 1
    case 1 => 512
    case 2 => 262144
    case 3 => 134217728
    case 4 => PAGES
  }

  /** The position of a page in the table of a level: nine bits of its address. */
  function Index(page: nat, level: nat): (i: nat)
    requires level <= 3
    ensures i < ENTRIES
  {
    page / Span(level) % ENTRIES
  }

  datatype Place = Place(level: nat, number: nat)

  /** The place of the table that a walk to `page` consults at `level`. */
  function On(page: nat, level: nat): Place
    requires level <= 3
  {
    Place(level, page / Span(level + 1))
  }

  function Child(p: Place, i: nat): Place
    requires p.level > 0
  {
    Place(p.level - 1, p.number * ENTRIES + i)
  }

  function Parent(p: Place): Place {
    Place(p.level + 1, p.number / ENTRIES)
  }

  /** The first page of the `n`-th block of 512^level pages. */
  function At(level: nat, n: nat): nat
    requires level <= 4
  {
    match level
    case 0 => n
    case 1 => n * 512
    case 2 => n * 262144
    case 3 => n * 134217728
    case 4 => n * 68719476736
  }

  function First(p: Place): nat
    requires p.level <= 3
  {
    At(p.level + 1, p.number)
  }

  type Memory = seq<Table>
  type Tree = map<Place, nat>

  const ROOT := Place(3, 0)

  ghost predicate Injective(t: Tree) {
    forall p, q :: p in t && q in t && p != q ==> t[p] != t[q]
  }

  /** The entry of table `p` that leads to child `i` is present exactly if the child is in the tree. */
  ghost predicate Linked(mem: Memory, t: Tree, p: Place, i: nat)
    requires p in t && t[p] < |mem| && 0 < p.level && i < ENTRIES
  {
    && (Present(mem[t[p]][i]) <==> Child(p, i) in t)
    && (Child(p, i) in t ==> mem[t[p]][i].frame == t[Child(p, i)])
  }

  /** The tables of `mem` reached from frame `root` form the tree `t`. */
  ghost predicate WellFormed(mem: Memory, root: nat, t: Tree) {
    && ROOT in t && t[ROOT] == root
    && (forall p :: p in t ==> p.level <= 3 && 0 < t[p] < |mem|)
    && (forall p :: p in t && p.level == 3 ==> p == ROOT)
    && (forall p :: p in t && p.level < 3 ==> Parent(p) in t)
    && Injective(t)
    && (forall p, i :: p in t && 0 < p.level && 0 <= i < ENTRIES ==> Linked(mem, t, p, i))
  }

  lemma AddValue(t: Tree, c: Place, frame: nat)
    requires c !in t
    ensures t[c := frame].Values == t.Values + {frame}
  {
    var t' := t[c := frame];
    assert c in t'.Keys;
    forall p | p in t ensures t[p] in t'.Values {
      assert p in t' && t'[p] == t[p];
    }
  }

  lemma WellFormedFacts(mem: Memory, root: nat, t: Tree, p: Place)
    requires WellFormed(mem, root, t)
    ensures ROOT in t && t[ROOT] == root
    ensures p in t ==> 0 < t[p] < |mem|
    ensures p in t && 0 < p.level ==> forall i :: 0 <= i < ENTRIES ==> Linked(mem, t, p, i)
  {
  }

  /** The walk of the kernel: the last-level entry, or None if a table on the way is missing. */
  function Walk(mem: Memory, table: nat, page: nat, level: nat): Option<Entry>
    requires level <= 3
    decreases level
  {
    if table == 0 || table >= |mem| then None
    else
      var e := mem[table][Index(page, level)];
      if level == 0 then Some(e)
      else if Present(e) then Walk(mem, e.frame, page, level - 1)
      else None
  }

  /** The frame a page is mapped to. */
  function Translate(mem: Memory, root: nat, page: nat): Option<nat> {
    match Walk(mem, root, page, 3)
    case None => None
    case Some(e) => if Present(e) then Some(e.frame) else None
  }

  /** The frame that the page's entry names, whether the entry is present or not; none if the page has no table. */
  function NamedFrame(mem: Memory, root: nat, page: nat): Option<nat> {
    match Walk(mem, root, page, 3)
    case None => None
    case Some(e) => Some(e.frame)
  }

  /** A page keeps the frame that its entry names; with a new table for it the entry names frame 0. */
  predicate NameKept(before: Option<nat>, after: Option<nat>) {
    after == before || (before == None && after == Some(0))
  }

  lemma OnIsChild(page: nat, level: nat)
    requires 0 < level <= 3
    ensures Child(On(page, level), Index(page, level)) == On(page, level - 1)
    ensures Parent(On(page, level - 1)) == On(page, level)
  {
  }

  /** A walk from any table of the tree on the way to `page` finds the entry of its page table. */
  lemma {:induction false} WalkFollowsTree(mem: Memory, root: nat, t: Tree, page: nat, level: nat)
    requires WellFormed(mem, root, t) && level <= 3 && On(page, level) in t
    ensures Walk(mem, t[On(page, level)], page, level)
            == if On(page, 0) in t then Some(mem[t[On(page, 0)]][Index(page, 0)]) else None
    decreases level
  {
    if level > 0 {
      var p, i := On(page, level), Index(page, level);
      OnIsChild(page, level);
      assert Linked(mem, t, p, i);
      if On(page, level - 1) in t {
        WalkFollowsTree(mem, root, t, page, level - 1);
      } else if On(page, 0) in t {
        UpwardClosed(mem, root, t, page, level - 1);
      }
    }
  }

  /** A page table is in the tree only if every table above it is. */
  lemma {:induction false} UpwardClosed(mem: Memory, root: nat, t: Tree, page: nat, level: nat)
    requires WellFormed(mem, root, t) && level <= 3 && On(page, 0) in t
    ensures On(page, level) in t
    decreases level
  {
    if level > 0 {
      UpwardClosed(mem, root, t, page, level - 1);
      OnIsChild(page, level);
    }
  }

  /** The entry that leads on from a table on the way: present exactly if the next table is there, and if it is not, then the
    page has no page table. */
  lemma EntryOnWay(mem: Memory, root: nat, t: Tree, page: nat, level: nat)
    requires WellFormed(mem, root, t) && 0 < level <= 3 && On(page, level) in t
    ensures 0 < t[On(page, level)] < |mem|
    ensures var e := mem[t[On(page, level)]][Index(page, level)];
            && (Present(e) <==> On(page, level - 1) in t)
            && (Present(e) ==> e.frame == t[On(page, level - 1)])
            && (!Present(e) ==> On(page, 0) !in t)
  {
    WellFormedFacts(mem, root, t, On(page, level));
    OnIsChild(page, level);
    assert Linked(mem, t, On(page, level), Index(page, level));
    hide WellFormed, On, Index;
    if On(page, 0) in t {
      UpwardClosed(mem, root, t, page, level - 1);
    }
  }

  /** Translation in a well-formed tree is decided by the page table of the page alone. */
  lemma TranslateMeans(mem: Memory, root: nat, t: Tree, page: nat)
    requires WellFormed(mem, root, t) && page < PAGES
    ensures Walk(mem, root, page, 3)
            == if On(page, 0) in t then Some(mem[t[On(page, 0)]][page % ENTRIES]) else None
  {
    assert On(page, 3) == ROOT;
    WalkFollowsTree(mem, root, t, page, 3);
  }

  function WriteEntry(mem: Memory, table: nat, i: nat, e: Entry): Memory
    requires table < |mem| && i < ENTRIES
  {
    mem[table := mem[table][i := e]]
  }

  /** Read over write: changing one entry of a page table changes the walk to one page only. */
  lemma WriteLeafWalks(mem: Memory, root: nat, t: Tree, page: nat, e: Entry)
    requires WellFormed(mem, root, t) && page < PAGES && On(page, 0) in t
    ensures var mem' := WriteEntry(mem, t[On(page, 0)], page % ENTRIES, e);
            && WellFormed(mem', root, t)
            && Walk(mem', root, page, 3) == Some(e)
            && forall q :: 0 <= q < PAGES && q != page ==> Walk(mem', root, q, 3) == Walk(mem, root, q, 3)
  {
    var leaf := On(page, 0);
    var mem' := WriteEntry(mem, t[leaf], page % ENTRIES, e);
    forall p, i | p in t && 0 < p.level && 0 <= i < ENTRIES ensures Linked(mem', t, p, i) {
      assert Linked(mem, t, p, i);
    }
    assert WellFormed(mem', root, t);
    TranslateMeans(mem', root, t, page);
    forall q | 0 <= q < PAGES && q != page ensures Walk(mem', root, q, 3) == Walk(mem, root, q, 3) {
      TranslateMeans(mem, root, t, q);
      TranslateMeans(mem', root, t, q);
    }
  }

  /** So it changes the translation of that page only, and the frame that its entry names. */
  lemma WriteLeaf(mem: Memory, root: nat, t: Tree, page: nat, e: Entry)
    requires WellFormed(mem, root, t) && page < PAGES && On(page, 0) in t
    ensures var mem' := WriteEntry(mem, t[On(page, 0)], page % ENTRIES, e);
            && WellFormed(mem', root, t)
            && Translate(mem', root, page) == (if Present(e) then Some(e.frame) else None)
            && NamedFrame(mem', root, page) == Some(e.frame)
            && (forall q :: 0 <= q < PAGES && q != page ==> Translate(mem', root, q) == Translate(mem, root, q))
            && (forall q :: 0 <= q < PAGES && q != page ==> NamedFrame(mem', root, q) == NamedFrame(mem, root, q))
  {
    WriteLeafWalks(mem, root, t, page, e);
    hide WellFormed, Walk, WriteEntry;
  }

  function LinkedMemory(mem: Memory, t: Tree, p: Place, i: nat, frame: nat, e: Entry): Memory
    requires p in t && t[p] < |mem| && i < ENTRIES && frame < |mem|
  {
    WriteEntry(mem[frame := ZeroTable()], t[p], i, e)
  }

  lemma LinkKeepsLinks(mem: Memory, root: nat, t: Tree, p: Place, i: nat, frame: nat, e: Entry, q: Place, j: nat)
    requires WellFormed(mem, root, t) && p in t && 0 < p.level && i < ENTRIES
    requires !Present(mem[t[p]][i])
    requires 0 < frame < |mem| && frame !in t.Values
    requires Present(e) && e.frame == frame
    requires q in t || q == Child(p, i)
    requires 0 < q.level && j < ENTRIES
    ensures Linked(LinkedMemory(mem, t, p, i, frame, e), t[Child(p, i) := frame], q, j)
  {
    assert Linked(mem, t, p, i);
    assert Parent(Child(p, i)) == p && Parent(Child(q, j)) == q;
    assert !Present(ZeroTable()[j]);
    if q in t {
      assert Linked(mem, t, q, j);
      assert t[q] in t.Values && t[p] in t.Values;
    } else {
      assert Child(q, j) !in t;
    }
  }

  /** Hanging a zeroed frame under an absent entry grows the tree by one table and maps nothing. */
  lemma LinkTable(mem: Memory, root: nat, t: Tree, p: Place, i: nat, frame: nat, e: Entry)
    requires WellFormed(mem, root, t) && p in t && 0 < p.level && i < ENTRIES
    requires !Present(mem[t[p]][i])
    requires 0 < frame < |mem| && frame !in t.Values
    requires Present(e) && e.frame == frame
    ensures var mem' := LinkedMemory(mem, t, p, i, frame, e);
            && Child(p, i) !in t
            && WellFormed(mem', root, t[Child(p, i) := frame])
            && (forall q :: 0 <= q < PAGES ==> Translate(mem', root, q) == Translate(mem, root, q))
            && (forall q :: 0 <= q < PAGES ==> NameKept(NamedFrame(mem, root, q), NamedFrame(mem', root, q)))
  {
    var c := Child(p, i);
    var mem' := LinkedMemory(mem, t, p, i, frame, e);
    var t' := t[c := frame];
    assert Linked(mem, t, p, i);
    assert Parent(c) == p;
    assert c !in t;
    forall q, j | q in t' && 0 < q.level && 0 <= j < ENTRIES ensures Linked(mem', t', q, j) {
      LinkKeepsLinks(mem, root, t, p, i, frame, e, q, j);
    }
    forall q | q in t ensures t[q] != frame {
      assert t[q] in t.Values;
    }
    assert Injective(t');
    assert WellFormed(mem', root, t');
    forall q | 0 <= q < PAGES
      ensures Translate(mem', root, q) == Translate(mem, root, q) && NameKept(NamedFrame(mem, root, q), NamedFrame(mem', root, q))
    {
      LinkKeepsTranslation(mem, mem', root, t, t', c, frame, q);
    }
  }

  lemma LinkKeepsTranslation(mem: Memory, mem': Memory, root: nat, t: Tree, t': Tree, c: Place, frame: nat, page: nat)
    requires WellFormed(mem, root, t) && WellFormed(mem', root, t') && page < PAGES
    requires c !in t && t' == t[c := frame]
    requires frame < |mem'| && mem'[frame] == ZeroTable()
    requires forall q :: q in t && q.level == 0 ==> t[q] < |mem'| && mem'[t[q]] == mem[t[q]]
    ensures Translate(mem', root, page) == Translate(mem, root, page)
    ensures NameKept(NamedFrame(mem, root, page), NamedFrame(mem', root, page))
  {
    TranslateMeans(mem, root, t, page);
    TranslateMeans(mem', root, t', page);
    assert !Present(ZeroTable()[page % ENTRIES]);
  }
}
