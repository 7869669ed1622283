/** How many frames a mapping takes: one for every page, and one for every table on the way that is not there yet. */
module Budget {
  import opened PageTables

  /** How many of the tables on the way to `page` below `level` are still missing. */
  function Missing(t: Tree, page: nat, level: nat): (n: nat)
    requires level <= 3
    ensures n <= level
  {
    if level == 0 then 0
    else Missing(t, page, level - 1) + (if On(page, level - 1) in t then 0 else 1)
  }

  lemma {:induction false} MissingIgnoresAbove(t: Tree, p: Place, frame: nat, page: nat, level: nat)
    requires level <= 3 && p.level >= level
    ensures Missing(t[p := frame], page, level) == Missing(t, page, level)
  {
    if level > 0 {
      MissingIgnoresAbove(t, p, frame, page, level - 1);
    }
  }

  /** The tables below `level` on the way to a page. */
  function OnWay(page: nat, level: nat): (r: set<Place>)
    requires level <= 3
    ensures |r| == level && forall p :: p in r ==> p.level < level
  {
    if level == 0 then {} else OnWay(page, level - 1) + {On(page, level - 1)}
  }

  /** The tables below the root on the way to the pages of [lo, hi). */
  function Way(lo: nat, hi: nat): set<Place>
    decreases hi - lo
  {
    if lo >= hi then {} else OnWay(lo, 3) + Way(lo + 1, hi)
  }

  /** The frames that mapping [lo, hi) takes, when the tables at `places` are there already: one for every page and one for
    every table that is missing. */
  function Needed(places: set<Place>, lo: nat, hi: nat): nat
    requires lo <= hi
  {
    hi - lo + |Way(lo, hi) - places|
  }

  lemma WayStep(page: nat, level: nat)
    requires level <= 3
    ensures OnWay(page, level) == if level == 0 then {} else OnWay(page, level - 1) + {On(page, level - 1)}
  {
  }

  lemma MissingStep(t: Tree, page: nat, level: nat)
    requires 0 < level <= 3
    ensures Missing(t, page, level) == Missing(t, page, level - 1) + if On(page, level - 1) in t.Keys then 0 else 1
  {
  }

  lemma NoneMissing(t: Tree, page: nat)
    ensures Missing(t, page, 0) == 0 && OnWay(page, 0) == {}
  {
  }

  lemma {:induction false} MissingCounts(t: Tree, page: nat, level: nat)
    requires level <= 3
    ensures Missing(t, page, level) == |OnWay(page, level) - t.Keys|
  {
    hide Missing, OnWay, On;
    if level == 0 {
      NoneMissing(t, page);
    } else {
      MissingCounts(t, page, level - 1);
      MissingStep(t, page, level);
      WayStep(page, level);
      PlaceOf(page, level - 1);
      CountOne(OnWay(page, level - 1), On(page, level - 1), t.Keys);
    }
  }

  lemma CountOne<T>(rest: set<T>, p: T, known: set<T>)
    requires p !in rest
    ensures |rest + {p} - known| == |rest - known| + if p in known then 0 else 1
  {
    if p in known {
      assert rest + {p} - known == rest - known;
    } else {
      assert rest + {p} - known == (rest - known) + {p};
    }
  }

  /** The first page of a range needs its frame and the tables that the other pages did not bring. */
  lemma NeededStep(places: set<Place>, t: Tree, lo: nat, hi: nat)
    requires lo < hi
    ensures Needed(places, lo + 1, hi) < Needed(places, lo, hi)
    ensures t.Keys == places + Way(lo + 1, hi) ==> Needed(places, lo, hi) == Needed(places, lo + 1, hi) + 1 + Missing(t, lo, 3)
  {
    MissingCounts(t, lo, 3);
    RangeWay(lo, hi);
    hide OnWay, Way, Missing;
    CountMore(OnWay(lo, 3), Way(lo + 1, hi), places);
  }

  lemma CountMore<T>(first: set<T>, rest: set<T>, known: set<T>)
    ensures |first + rest - known| == |rest - known| + |first - (known + rest)|
  {
    var more := first - (known + rest);
    assert first + rest - known == (rest - known) + more;
    assert |(rest - known) + more| == |rest - known| + |more|;
  }

  lemma RangeWay(lo: nat, hi: nat)
    requires lo < hi
    ensures Way(lo, hi) == OnWay(lo, 3) + Way(lo + 1, hi)
  {
    hide OnWay;
  }

  lemma NothingNeeded(places: set<Place>, lo: nat)
    ensures Way(lo, lo) == {} && Needed(places, lo, lo) == 0
  {
  }

  /** Four frames a page are always enough. */
  lemma {:induction false} FourSuffice(places: set<Place>, lo: nat, hi: nat)
    requires lo <= hi
    ensures Needed(places, lo, hi) <= 4 * (hi - lo)
    decreases hi - lo
  {
    if lo < hi {
      FourSuffice(places, lo + 1, hi);
      RangeWay(lo, hi);
      assert |OnWay(lo, 3)| == 3;
      hide OnWay, Way;
      Sizes(OnWay(lo, 3), Way(lo + 1, hi), places);
    } else {
      NothingNeeded(places, lo);
    }
  }

  lemma Sizes<T>(a: set<T>, b: set<T>, c: set<T>)
    ensures |a + b - c| <= |a| + |b - c|
  {
    var x := a - b - c;
    assert a + b - c == x + (b - c);
    assert |x + (b - c)| == |x| + |b - c|;
    SubsetSize(x, a);
  }

  lemma SubsetSize<T>(a: set<T>, b: set<T>)
    requires a <= b
    ensures |a| <= |b|
  {
    assert b == a + (b - a);
    assert |a + (b - a)| == |a| + |b - a|;
  }

  // ---------------------------------------------------------------- making the tables for a page

  /** The tables on the way to the page are there down to `level`; what that took was free before. */
  ghost predicate MadeDownTo(t0: Tree, t: Tree, free0: set<nat>, free: set<nat>, page: nat, level: nat)
    requires level <= 3
  {
    && free <= free0 && |free| == |free0| - Missing(t0, page, 3) + Missing(t, page, level)
    && t.Keys + OnWay(page, level) == t0.Keys + OnWay(page, 3)
    && t.Values == t0.Values + (free0 - free)
  }

  /** All tables of the page are there, and each that was missing took one frame. */
  ghost predicate TablesMade(t0: Tree, t: Tree, free0: set<nat>, free: set<nat>, page: nat) {
    && free <= free0 && |free| == |free0| - Missing(t0, page, 3)
    && t.Keys == t0.Keys + OnWay(page, 3)
    && t.Values == t0.Values + (free0 - free)
  }

  /** One table, if it was missing. */
  ghost predicate OneMade(t: Tree, t': Tree, free: set<nat>, free': set<nat>, page: nat, level: nat)
    requires 0 < level <= 3
  {
    && free' <= free && |free'| == |free| - Missing(t, page, level) + Missing(t', page, level - 1)
    && t'.Keys == t.Keys + {On(page, level - 1)}
    && t'.Values == t.Values + (free - free')
  }

  lemma MadeNone(t: Tree, free: set<nat>, page: nat)
    ensures MadeDownTo(t, t, free, free, page, 3)
  {
    hide Missing, OnWay;
  }

  lemma MadeOneMore(t0: Tree, t: Tree, t': Tree, free0: set<nat>, free: set<nat>, free': set<nat>, page: nat, level: nat)
    requires 0 < level <= 3
    requires MadeDownTo(t0, t, free0, free, page, level) && OneMade(t, t', free, free', page, level)
    ensures MadeDownTo(t0, t', free0, free', page, level - 1)
  {
    hide Missing, OnWay, On;
    WayStep(page, level);
    TakenInTwo(t0.Values, t.Values, t'.Values, free0, free, free');
    AddedInTwo(t.Keys, OnWay(page, level - 1), On(page, level - 1));
  }

  lemma TakenInTwo<T>(used0: set<T>, used: set<T>, used': set<T>, free0: set<T>, free: set<T>, free': set<T>)
    requires free' <= free <= free0 && used == used0 + (free0 - free) && used' == used + (free - free')
    ensures used' == used0 + (free0 - free')
  {
  }

  lemma AddedInTwo<T>(a: set<T>, b: set<T>, x: T)
    ensures a + {x} + b == a + (b + {x})
  {
  }

  lemma MadeAll(t0: Tree, t: Tree, free0: set<nat>, free: set<nat>, page: nat)
    requires MadeDownTo(t0, t, free0, free, page, 0)
    ensures TablesMade(t0, t, free0, free, page)
  {
    WayStep(page, 0);
    assert Missing(t, page, 0) == 0;
    hide Missing, OnWay;
  }

  lemma MadeEnough(t0: Tree, t: Tree, free0: set<nat>, free: set<nat>, page: nat, level: nat)
    requires level <= 3 && MadeDownTo(t0, t, free0, free, page, level) && Missing(t0, page, 3) <= |free0|
    ensures Missing(t, page, level) <= |free|
  {
    hide Missing, OnWay;
  }

  /** The frame of a table that is already there: nothing is made. */
  lemma MadeBefore(t: Tree, free: set<nat>, page: nat, level: nat)
    requires 0 < level <= 3 && On(page, level - 1) in t
    ensures OneMade(t, t, free, free, page, level)
  {
    MissingStep(t, page, level);
    hide Missing, OnWay, On;
  }

  lemma MadeNow(t: Tree, free: set<nat>, page: nat, level: nat, frame: nat)
    requires 0 < level <= 3 && On(page, level - 1) !in t && frame in free
    ensures OneMade(t, t[On(page, level - 1) := frame], free, free - {frame}, page, level)
  {
    hide *;
    var c, t' := On(page, level - 1), t[On(page, level - 1) := frame];
    MissingStep(t, page, level);
    PlaceOf(page, level - 1);
    MissingIgnoresAbove(t, c, frame, page, level - 1);
    AddValue(t, c, frame);
    KeyAdded(t, c, frame);
    MadeIf(t, t', free, page, level, frame);
  }

  lemma PlaceOf(page: nat, level: nat)
    requires level <= 3
    ensures On(page, level).level == level
  {
  }

  lemma KeyAdded(t: Tree, c: Place, frame: nat)
    ensures t[c := frame].Keys == t.Keys + {c}
  {
  }

  lemma MadeIf(t: Tree, t': Tree, free: set<nat>, page: nat, level: nat, frame: nat)
    requires 0 < level <= 3 && frame in free
    requires Missing(t, page, level) == Missing(t', page, level - 1) + 1
    requires t'.Keys == t.Keys + {On(page, level - 1)} && t'.Values == t.Values + {frame}
    ensures OneMade(t, t', free, free - {frame}, page, level)
  {
    OneTaken(free, frame);
    hide Missing, On;
  }

  lemma OneTaken<T>(free: set<T>, x: T)
    requires x in free
    ensures |free - {x}| == |free| - 1 && free - (free - {x}) == {x}
  {
  }
}
