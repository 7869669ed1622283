/** Giving back the tables of a process: a recursion over the present entries of every table above level 0. */
module Teardown {
  import opened Pte
  import opened PageTables
  import opened Ranges
  import PMM = Pmm
  import VMM = Vmm

  /** The place at `level` on the way from the root to `q`. */
  function Ancestor(q: Place, level: nat): (r: Place)
    requires q.level <= level
    ensures r.level == level
    decreases level - q.level
  {
    if q.level == level then q else Ancestor(Parent(q), level)
  }

  predicate IsBelow(q: Place, p: Place) {
    q.level < p.level && Ancestor(q, p.level) == p
  }

  /** The frames of all tables strictly below `p`. */
  ghost function Below(t: Tree, p: Place): set<nat> {
    set q | q in t && IsBelow(q, p) :: t[q]
  }

  /** Those of them that are reached through the first `n` entries of `p`. */
  ghost function BelowFirst(t: Tree, p: Place, n: nat): set<nat>
    requires p.level > 0
  {
    set q | q in t && IsBelow(q, p) && Ancestor(q, p.level - 1).number % ENTRIES < n :: t[q]
  }

  lemma {:induction false} AncestorStep(q: Place, level: nat)
    requires q.level <= level
    ensures Ancestor(q, level + 1) == Parent(Ancestor(q, level))
    decreases level - q.level
  {
    if q.level < level {
      AncestorStep(Parent(q), level);
    }
  }

  /** With a table, the tables above it are in the tree. */
  lemma {:induction false} AncestorsInTree(mem: Memory, root: nat, t: Tree, q: Place, level: nat)
    requires WellFormed(mem, root, t) && q in t && q.level <= level <= 3
    ensures Ancestor(q, level) in t
    decreases level - q.level
  {
    if q.level < level {
      AncestorsInTree(mem, root, t, Parent(q), level);
    }
  }

  /** A table below `p` is below exactly one child of `p`, or is that child. */
  lemma BelowChild(q: Place, p: Place)
    requires IsBelow(q, p)
    ensures var c := Ancestor(q, p.level - 1);
            && c == Child(p, c.number % ENTRIES)
            && (q == c || IsBelow(q, c))
  {
    AncestorStep(q, p.level - 1);
  }

  lemma ChildBelow(q: Place, p: Place, i: nat)
    requires p.level > 0 && i < ENTRIES
    requires q == Child(p, i) || IsBelow(q, Child(p, i))
    ensures IsBelow(q, p) && Ancestor(q, p.level - 1) == Child(p, i)
  {
    AncestorStep(q, p.level - 1);
  }

  /** Entry `n` contributes its child and what is below it, or nothing if it is absent. */
  lemma NextEntry(mem: Memory, root: nat, t: Tree, p: Place, n: nat)
    requires WellFormed(mem, root, t) && p in t && 0 < p.level && n < ENTRIES
    ensures Child(p, n) in t ==> BelowFirst(t, p, n + 1) == BelowFirst(t, p, n) + Below(t, Child(p, n)) + {t[Child(p, n)]}
    ensures Child(p, n) in t ==> t[Child(p, n)] !in BelowFirst(t, p, n) + Below(t, Child(p, n))
    ensures Child(p, n) !in t ==> BelowFirst(t, p, n + 1) == BelowFirst(t, p, n)
    ensures BelowFirst(t, p, n) !! Below(t, Child(p, n))
  {
    var c := Child(p, n);
    var first, below := PlacesFirst(t, p, n), PlacesBelow(t, c);
    NextPlaces(mem, root, t, p, n);
    assert Injective(t) by { hide Linked; }
    assert BelowFirst(t, p, n) == Image(t, first) && BelowFirst(t, p, n + 1) == Image(t, PlacesFirst(t, p, n + 1)) by { hide IsBelow; }
    assert Below(t, c) == Image(t, below) by { hide IsBelow; }
    hide BelowFirst, Below, PlacesFirst, PlacesBelow, WellFormed, Child;
    ImageApart(t, first, below);
    if c in t {
      ImagePlus(t, first, below);
      ImagePlus(t, first + below, {c});
      ImageApart(t, first + below, {c});
      assert Image(t, {c}) == {t[c]};
    }
  }

  /** The frames of the tables at these places. */
  ghost function Image(t: Tree, at: set<Place>): set<nat> {
    set q | q in at && q in t :: t[q]
  }

  lemma ImagePlus(t: Tree, a: set<Place>, b: set<Place>)
    ensures Image(t, a + b) == Image(t, a) + Image(t, b)
  {
  }

  lemma ImageApart(t: Tree, a: set<Place>, b: set<Place>)
    requires Injective(t) && a !! b
    ensures Image(t, a) !! Image(t, b)
  {
  }

  ghost function PlacesFirst(t: Tree, p: Place, n: nat): set<Place>
    requires 0 < p.level
  {
    set q | q in t && IsBelow(q, p) && Ancestor(q, p.level - 1).number % ENTRIES < n
  }

  ghost function PlacesBelow(t: Tree, c: Place): set<Place> {
    set q | q in t && IsBelow(q, c)
  }

  lemma NextPlaces(mem: Memory, root: nat, t: Tree, p: Place, n: nat)
    requires WellFormed(mem, root, t) && p in t && 0 < p.level && n < ENTRIES
    ensures PlacesFirst(t, p, n + 1) == if Child(p, n) in t then PlacesFirst(t, p, n) + PlacesBelow(t, Child(p, n)) + {Child(p, n)}
                                        else PlacesFirst(t, p, n)
    ensures PlacesFirst(t, p, n) !! PlacesBelow(t, Child(p, n))
    ensures Child(p, n) !in PlacesFirst(t, p, n) + PlacesBelow(t, Child(p, n))
  {
    var c := Child(p, n);
    forall q | q in t
      ensures q in PlacesFirst(t, p, n + 1) <==> q in PlacesFirst(t, p, n) || Through(q, p, n)
      ensures Through(q, p, n) <==> c in t && (q == c || q in PlacesBelow(t, c))
      ensures q in PlacesFirst(t, p, n) ==> !Through(q, p, n)
    {
      ThroughChild(mem, root, t, p, n, q);
    }
    assert c !in PlacesBelow(t, c);
    hide IsBelow, Ancestor, Child, WellFormed, Through;
    assert forall q :: q in PlacesBelow(t, c) ==> q in t;
    if c !in t {
      NothingWithout(mem, root, t, c);
    }
  }

  /** Without a table there is none below it. */
  lemma NothingWithout(mem: Memory, root: nat, t: Tree, c: Place)
    requires WellFormed(mem, root, t) && c !in t && c.level <= 3
    ensures PlacesBelow(t, c) == {}
  {
    forall q | q in t ensures !IsBelow(q, c) {
      if IsBelow(q, c) {
        AncestorsInTree(mem, root, t, q, c.level);
      }
    }
  }

  /** Reached through entry `n` of `p`. */
  predicate Through(q: Place, p: Place, n: nat)
    requires 0 < p.level
  {
    IsBelow(q, p) && Ancestor(q, p.level - 1).number % ENTRIES == n
  }

  lemma ThroughChild(mem: Memory, root: nat, t: Tree, p: Place, n: nat, q: Place)
    requires WellFormed(mem, root, t) && p in t && 0 < p.level && n < ENTRIES && q in t
    ensures Through(q, p, n) <==> Child(p, n) in t && (q == Child(p, n) || IsBelow(q, Child(p, n)))
  {
    var c := Child(p, n);
    assert c.number % ENTRIES == n && p.level <= 3;
    if Through(q, p, n) {
      BelowChild(q, p);
      AncestorsInTree(mem, root, t, q, p.level - 1);
    }
    if q == c || IsBelow(q, c) {
      ChildBelow(q, p, n);
    }
  }

  lemma AllEntries(t: Tree, p: Place)
    requires 0 < p.level
    ensures BelowFirst(t, p, ENTRIES) == Below(t, p) && BelowFirst(t, p, 0) == {}
  {
  }

  /** Below the root is everything but the root. */
  lemma BelowRoot(mem: Memory, root: nat, t: Tree)
    requires WellFormed(mem, root, t)
    ensures Below(t, ROOT) == t.Values - {root}
    ensures |Below(t, ROOT)| == |t| - 1
  {
    forall q | q in t && q != ROOT ensures IsBelow(q, ROOT) {
      AncestorsInTree(mem, root, t, q, 3);
    }
    ValuesCount(t);
  }

  lemma {:induction false} ValuesCount(t: Tree)
    requires Injective(t)
    ensures |t.Values| == |t|
    decreases |t|
  {
    if |t| == 0 {
      assert t.Values == {};
    } else {
      var p :| p in t;
      var rest := map q | q in t && q != p :: t[q];
      assert rest.Keys == t.Keys - {p};
      ValuesCount(rest);
      assert t == rest[p := t[p]];
      AddValue(rest, p, t[p]);
      assert t[p] !in rest.Values;
    }
  }

  /** Frees every table strictly below the one at `p`.  If none of them is free already, each `FreeBlock` finds its frame
    occupied. */
  method RecursivelyDestroyTables(v: VMM.Vmm, table: nat, level: nat, ghost root: nat, ghost t: Tree, ghost p: Place)
    requires v.pmm.Sound() && |v.mem| == v.pmm.total && WellFormed(v.mem, root, t)
    requires level <= 3 && p in t && p.level == level && t[p] == table
    requires Freeable(Below(t, p), v.pmm.FreeSet(), v.pmm.total)
    modifies v.pmm`free, v.pmm`frames, v.pmm.map_, v.pmm.stack
    ensures v.pmm.Sound() && v.pmm.FreeSet() == old(v.pmm.FreeSet()) + Below(t, p)
    decreases level, 1
  {
    hide PMM.Inv, PMM.FreeFrames, WellFormed, Below, BelowFirst, Freeable;
    if level == 0 {
      NothingBelow(t, p);
      return;
    }
    WellFormedFacts(v.mem, root, t, p);
    AllEntries(t, p);
    var curEntry := 0;
    while curEntry < ENTRIES
      invariant curEntry <= ENTRIES && v.pmm.Sound()
      invariant v.pmm.FreeSet() == old(v.pmm.FreeSet()) + BelowFirst(t, p, curEntry)
    {
      DestroyEntry(v, table, level, curEntry, root, t, p, old(v.pmm.FreeSet()));
      curEntry := curEntry + 1;
    }
  }

  /** One round of that loop. */
  method DestroyEntry(v: VMM.Vmm, table: nat, level: nat, entry: nat, ghost root: nat, ghost t: Tree, ghost p: Place, ghost free0: set<nat>)
    requires v.pmm.Sound() && |v.mem| == v.pmm.total && WellFormed(v.mem, root, t)
    requires 0 < level <= 3 && p in t && p.level == level && t[p] == table && table < |v.mem| && entry < ENTRIES
    requires Freeable(Below(t, p), free0, v.pmm.total) && v.pmm.FreeSet() == free0 + BelowFirst(t, p, entry)
    modifies v.pmm`free, v.pmm`frames, v.pmm.map_, v.pmm.stack
    ensures v.pmm.Sound() && v.pmm.FreeSet() == free0 + BelowFirst(t, p, entry + 1)
    decreases level, 0
  {
    hide PMM.Inv, PMM.FreeFrames, WellFormed, Below, BelowFirst, Freeable, Child;
    ghost var free, c := v.pmm.FreeSet(), Child(p, entry);
    var e := v.mem[table][entry];
    EntryLeads(v.mem, root, t, p, entry);
    if Present(e) {
      ChildMayGo(v.mem, root, t, p, entry, free0, v.pmm.total);
      RecursivelyDestroyTables(v, e.frame, level - 1, root, t, c);
      var r := v.pmm.FreeBlock(e.frame * PMM.BLOCK_SIZE);
      assert t[c] !in free ==> r == 1;
    }
  }

  /** Where an entry leads. */
  lemma EntryLeads(mem: Memory, root: nat, t: Tree, p: Place, n: nat)
    requires WellFormed(mem, root, t) && p in t && 0 < p.level && n < ENTRIES
    ensures t[p] < |mem| && Child(p, n).level == p.level - 1
    ensures var e, c := mem[t[p]][n], Child(p, n);
            && (Present(e) <==> c in t) && (c in t ==> e.frame == t[c])
            && (c !in t ==> BelowFirst(t, p, n + 1) == BelowFirst(t, p, n))
            && (c in t ==> t[c] !in BelowFirst(t, p, n) + Below(t, c))
  {
    WellFormedFacts(mem, root, t, p);
    assert Linked(mem, t, p, n);
    NextEntry(mem, root, t, p, n);
    hide WellFormed, Below, BelowFirst;
  }

  /** What is below an entry may be freed if all below the table may. */
  lemma ChildMayGo(mem: Memory, root: nat, t: Tree, p: Place, n: nat, free: set<nat>, total: nat)
    requires WellFormed(mem, root, t) && p in t && 0 < p.level && n < ENTRIES && Child(p, n) in t
    requires Freeable(Below(t, p), free, total)
    ensures var c, done := Child(p, n), BelowFirst(t, p, n);
            && Freeable(Below(t, c), free + done, total)
            && t[c] < total && |free + done + Below(t, c) + {t[c]}| < total
            && free + done + Below(t, c) + {t[c]} == free + BelowFirst(t, p, n + 1)
  {
    var c, done := Child(p, n), BelowFirst(t, p, n);
    NextEntry(mem, root, t, p, n);
    PartOfBelow(t, p, n + 1);
    hide WellFormed, Below, BelowFirst, Child;
    NextFreeable(Below(t, p), done, Below(t, c), free, total);
    NextFreeable(Below(t, p), done + Below(t, c), {t[c]}, free, total);
    Regrouped(free, done, Below(t, c), t[c]);
  }

  lemma Regrouped(free: set<nat>, done: set<nat>, below: set<nat>, f: nat)
    ensures free + done + below + {f} == free + (done + below) + {f} == free + (done + below + {f})
  {
  }

  lemma NothingBelow(t: Tree, p: Place)
    requires p.level == 0
    ensures Below(t, p) == {}
  {
  }

  lemma PartOfBelow(t: Tree, p: Place, n: nat)
    requires p.level > 0
    ensures BelowFirst(t, p, n) <= Below(t, p)
  {
  }

  /** The tables of a process: all but the root come back, whatever is free already, and no page frame does. */
  method ShutdownTables(v: VMM.Vmm)
    requires v.Sound() && Freeable(v.tree.Values - {v.cr3}, v.pmm.FreeSet(), v.pmm.total)
    modifies v.pmm`free, v.pmm`frames, v.pmm.map_, v.pmm.stack
    ensures v.pmm.Sound() && (v.pmm.Valid() <==> old(v.pmm.Valid()) && forall f :: f in v.tree.Values - {v.cr3} ==> v.pmm.reserved <= f)
    ensures v.pmm.FreeSet() == old(v.pmm.FreeSet()) + (v.tree.Values - {v.cr3})
    ensures old(v.pmm.FreeSet()) !! v.tree.Values ==> |v.pmm.FreeSet()| == |old(v.pmm.FreeSet())| + |v.tree| - 1
  {
    hide PMM.Inv, PMM.FreeFrames, WellFormed, Below, Freeable;
    v.pmm.ValidIff();
    BelowRoot(v.mem, v.cr3, v.tree);
    WellFormedFacts(v.mem, v.cr3, v.tree, ROOT);
    RecursivelyDestroyTables(v, v.cr3, 3, v.cr3, v.tree, ROOT);
    v.pmm.ValidIff();
    if old(v.pmm.FreeSet()) !! v.tree.Values { Counts(old(v.pmm.FreeSet()), v.tree.Values - {v.cr3}); }
  }

  lemma Counts(free: set<nat>, tables: set<nat>)
    requires free !! tables
    ensures |free + tables| == |free| + |tables|
  {
  }
}
