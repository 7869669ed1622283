/** The search for a run of absent pages: where it looks, and what it may answer. */
module Search {
  import opened Common
  import opened Pte
  import opened PageTables
  import opened Budget
  import opened Ranges

  /** `c` is the lowest absent page at or after `from` among the tables that the search looks at. */
  ghost predicate FirstAbsent(mem: Memory, root: nat, from: nat, c: nat) {
    from <= c < LIMIT && Translate(mem, root, c) == None && Mapped(mem, root, from, c)
  }

  /** A present page within the searched tables cuts the absent run at `c` short of `n` pages. */
  ghost predicate Blocks(mem: Memory, root: nat, c: nat, n: nat) {
    !Absent(mem, root, c, if c + n <= LIMIT then c + n else LIMIT + 1)
  }

  /** The run at the lowest absent page is cut short. */
  ghost predicate Blocked(mem: Memory, root: nat, from: nat, n: nat) {
    exists c: nat :: FirstAbsent(mem, root, from, c) && Blocks(mem, root, c, n)
  }

  /** There is no absent page, or the run at the lowest one leaves the searched tables and is cut short there. */
  ghost predicate NoRoom(mem: Memory, root: nat, from: nat, n: nat) {
    || Mapped(mem, root, from, LIMIT)
    || exists c: nat :: FirstAbsent(mem, root, from, c) && !Absent(mem, root, c, c + n) && !Blocks(mem, root, c, n)
  }

  /** The frames suffice for the run at the lowest absent page, if that is long enough. */
  ghost predicate Enough(mem: Memory, root: nat, places: set<Place>, from: nat, n: nat, frames: nat) {
    forall c: nat :: FirstAbsent(mem, root, from, c) && Absent(mem, root, c, c + n) ==> Needed(places, c, c + n) <= frames
  }

  lemma FourAreEnough(mem: Memory, root: nat, places: set<Place>, from: nat, n: nat, frames: nat)
    requires 4 * n <= frames
    ensures Enough(mem, root, places, from, n, frames)
  {
    hide FirstAbsent, Absent, Needed;
    forall c: nat | FirstAbsent(mem, root, from, c) && Absent(mem, root, c, c + n) ensures Needed(places, c, c + n) <= frames {
      FourSuffice(places, c, c + n);
    }
  }

  lemma EnoughAt(mem: Memory, root: nat, places: set<Place>, from: nat, n: nat, frames: nat, c: nat)
    requires Enough(mem, root, places, from, n, frames) && FirstAbsent(mem, root, from, c) && Absent(mem, root, c, c + n)
    ensures Needed(places, c, c + n) <= frames
  {
    hide FirstAbsent, Absent, Needed;
  }

  lemma EnoughAfterSkip(mem: Memory, root: nat, places: set<Place>, from: nat, mid: nat, n: nat, frames: nat)
    requires from <= mid <= LIMIT && Mapped(mem, root, from, mid) && Enough(mem, root, places, from, n, frames)
    ensures Enough(mem, root, places, mid, n, frames)
  {
    SkipMapped(mem, root, from, mid, n);
    hide FirstAbsent, Absent, Needed, Mapped;
  }

  lemma EnoughForNothing(mem: Memory, root: nat, places: set<Place>, from: nat, n: nat, frames: nat)
    requires from >= LIMIT || (Translate(mem, root, from) == None && !Absent(mem, root, from, from + n))
    ensures Enough(mem, root, places, from, n, frames)
  {
    hide Translate, Absent, Needed;
  }

  /** Whether a search from a page leaves the bitmap right: everything before that page in its table is mapped, or what is
    found starts in a later table, or does not cross the end of its own. */
  ghost predicate BitmapStaysRight(mem: Memory, root: nat, from: nat, n: nat) {
    || Mapped(mem, root, TableStart(from), from)
    || forall c: nat :: FirstAbsent(mem, root, from, c) ==> c / ENTRIES != from / ENTRIES || (c + n) / ENTRIES == c / ENTRIES
  }

  /** What the table of the page found was like is decided by what the table of the start was like. */
  lemma StartDecides(mem: Memory, root: nat, from: nat, c: nat, n: nat)
    requires FirstAbsent(mem, root, from, c)
    ensures BitmapStaysRight(mem, root, from, n) <==>
            c / ENTRIES == (c + n) / ENTRIES || Mapped(mem, root, TableStart(c), c)
  {
    hide Translate;
    forall d: nat | FirstAbsent(mem, root, from, d) ensures d == c {
      FirstAbsentUnique(mem, root, from, c, d);
    }
    assert c / ENTRIES == from / ENTRIES ==> TableStart(c) == TableStart(from);
  }

  lemma NothingBeforeStart(mem: Memory, root: nat, from: nat, n: nat)
    requires from % ENTRIES == 0
    ensures BitmapStaysRight(mem, root, from, n)
  {
    hide Translate, FirstAbsent;
  }

  lemma NothingLeftInTable(mem: Memory, root: nat, from: nat, next: nat, n: nat)
    requires next == TableStart(from) + ENTRIES && Mapped(mem, root, from, next)
    ensures BitmapStaysRight(mem, root, from, n)
  {
    hide Translate;
  }

  lemma FirstAbsentUnique(mem: Memory, root: nat, from: nat, c: nat, d: nat)
    requires FirstAbsent(mem, root, from, c) && FirstAbsent(mem, root, from, d)
    ensures c == d
  {
    hide Translate;
  }

  /** Skipping mapped pages does not change what is searched for. */
  lemma SkipMapped(mem: Memory, root: nat, from: nat, mid: nat, n: nat)
    requires from <= mid <= LIMIT && Mapped(mem, root, from, mid)
    ensures forall c: nat :: FirstAbsent(mem, root, from, c) <==> FirstAbsent(mem, root, mid, c)
    ensures Blocked(mem, root, from, n) <==> Blocked(mem, root, mid, n)
    ensures NoRoom(mem, root, from, n) <==> NoRoom(mem, root, mid, n)
  {
    hide Translate, Blocks, Absent;
  }

  lemma PastLimit(mem: Memory, root: nat, from: nat, n: nat)
    requires from >= LIMIT
    ensures NoRoom(mem, root, from, n) && !Blocked(mem, root, from, n)
    ensures forall c: nat :: !FirstAbsent(mem, root, from, c)
  {
  }

  /** The three outcomes exclude each other. */
  lemma FirstAbsentDecides(mem: Memory, root: nat, from: nat, c: nat, n: nat)
    requires FirstAbsent(mem, root, from, c)
    ensures Blocked(mem, root, from, n) <==> Blocks(mem, root, c, n)
    ensures NoRoom(mem, root, from, n) <==> !Absent(mem, root, c, c + n) && !Blocks(mem, root, c, n)
    ensures Blocks(mem, root, c, n) ==> !Absent(mem, root, c, c + n)
  {
    hide Translate;
    forall d: nat | FirstAbsent(mem, root, from, d) ensures d == c {
      FirstAbsentUnique(mem, root, from, c, d);
    }
  }

  lemma FirstAbsentFrom(mem: Memory, root: nat, from: nat, c: nat, n: nat)
    requires from <= c < LIMIT && Translate(mem, root, c) == None && Mapped(mem, root, from, c)
    ensures FirstAbsent(mem, root, from, c)
    ensures Blocked(mem, root, from, n) <==> Blocks(mem, root, c, n)
    ensures NoRoom(mem, root, from, n) <==> !Absent(mem, root, c, c + n) && !Blocks(mem, root, c, n)
    ensures Blocks(mem, root, c, n) ==> !Absent(mem, root, c, c + n)
  {
    hide Translate, Absent, Mapped, Blocks;
    FirstAbsentDecides(mem, root, from, c, n);
  }

  /** The present page that cut the run short decides between the two failures. */
  lemma CutShort(mem: Memory, root: nat, c: nat, n: nat, last: nat)
    requires c <= last < c + n - 1 && Absent(mem, root, c, last + 1) && Translate(mem, root, last + 1).Some?
    ensures !Absent(mem, root, c, c + n)
    ensures Blocks(mem, root, c, n) <==> last < LIMIT
    ensures Translate(mem, root, last) == None && Mapped(mem, root, last, last)
    ensures !Absent(mem, root, last, last + n)
    ensures last < LIMIT ==> Blocks(mem, root, last, n)
  {
    hide Translate;
  }

  lemma FullTable(mem: Memory, root: nat, bits: set<nat>, pt: nat, from: nat)
    requires Agreement(mem, root, bits) && pt in bits && pt < TABLES && pt * ENTRIES <= from
    ensures Mapped(mem, root, from, (pt + 1) * ENTRIES)
  {
    hide Translate;
    assert Full(mem, root, pt);
  }

  lemma StartsAt(mem: Memory, root: nat, from: nat, page: nat)
    requires Translate(mem, root, from) == None && from <= page && Mapped(mem, root, from, page)
    ensures page == from
  {
    hide Translate;
  }

  datatype Outcome = NoSpace | Found(page: nat) | Spinning

  /** What the search from a page answers: the lowest absent page if its run is long enough, or that there is no room.  It must
    not do either if that run is cut short. */
  ghost predicate Answers(mem: Memory, root: nat, from: nat, n: nat, out: Outcome) {
    && (out.Found? ==> FirstAbsent(mem, root, from, out.page) && Absent(mem, root, out.page, out.page + n))
    && (out.NoSpace? ==> NoRoom(mem, root, from, n))
    && (Blocked(mem, root, from, n) ==> out.Spinning?)
  }

  lemma NothingThere(mem: Memory, root: nat, from: nat, n: nat)
    requires from >= LIMIT
    ensures Answers(mem, root, from, n, NoSpace)
  {
    PastLimit(mem, root, from, n);
    hide Translate;
  }

  lemma SpinningAnswers(mem: Memory, root: nat, from: nat, n: nat)
    ensures Answers(mem, root, from, n, Spinning)
  {
  }

  /** What is known of a candidate: before the first failure it is the lowest absent page, and its run either fits the frames
    or fails; after one it is cut short again. */
  lemma Candidate(mem: Memory, root: nat, places: set<Place>, from: nat, c: nat, n: nat, frames: nat, failed: bool)
    requires from <= c < LIMIT && Translate(mem, root, c) == None && Enough(mem, root, places, from, n, frames)
    requires if failed then Blocked(mem, root, from, n) && Blocks(mem, root, c, n) && !Absent(mem, root, c, c + n)
             else Mapped(mem, root, from, c)
    ensures Absent(mem, root, c, c + n) ==> !failed && FirstAbsent(mem, root, from, c) && Needed(places, c, c + n) <= frames
    ensures !Absent(mem, root, c, c + n) ==>
            if Blocks(mem, root, c, n) then Blocked(mem, root, from, n)
            else NoRoom(mem, root, from, n) && !Blocked(mem, root, from, n)
  {
    hide Translate, Absent, Mapped, Blocks, Blocked, NoRoom, Needed, Enough;
    if !failed {
      FirstAbsentFrom(mem, root, from, c, n);
      if Absent(mem, root, c, c + n) { EnoughAt(mem, root, places, from, n, frames, c); }
    }
  }

  lemma AnswersFound(mem: Memory, root: nat, from: nat, n: nat, c: nat)
    requires FirstAbsent(mem, root, from, c) && Absent(mem, root, c, c + n)
    ensures Answers(mem, root, from, n, Found(c))
  {
    hide FirstAbsent, Absent, Blocks, NoRoom, Blocked;
    FirstAbsentDecides(mem, root, from, c, n);
  }

  /** The candidate fits: it is the answer, and what the bitmap is worth afterwards is decided by the start. */
  lemma FoundAtCandidate(root: nat, s: Space, s': Space, bits0: set<nat>, bits: set<nat>, from: nat, c: nat, n: nat)
    requires FirstAbsent(s.mem, root, from, c) && Taken(root, s, s', c, c + n) && n <= MAX_REQUEST
    requires Agreement(s.mem, root, bits0) && Updated(s'.mem, root, bits0, bits, c / ENTRIES, (c + n) / ENTRIES, false)
    ensures Agreement(s'.mem, root, bits) <==> BitmapStaysRight(s.mem, root, from, n)
    ensures Answers(s.mem, root, from, n, Found(c))
  {
    hide *;
    TakenFacts(root, s, s', c, c + n);
    RangeInTables(s.mem, root, from, c, n);
    AgreementAfterMapping(s.mem, s'.mem, root, bits0, bits, c, c + n);
    StartDecides(s.mem, root, from, c, n);
    AnswersFound(s.mem, root, from, n, c);
  }

  lemma RangeInTables(mem: Memory, root: nat, from: nat, c: nat, n: nat)
    requires FirstAbsent(mem, root, from, c) && n <= MAX_REQUEST
    ensures (c + n) / ENTRIES < TABLES
  {
    hide Translate, Mapped;
  }

  lemma AnswersAfterSkip(mem: Memory, root: nat, from: nat, mid: nat, n: nat, out: Outcome)
    requires from <= mid <= LIMIT && Mapped(mem, root, from, mid) && Answers(mem, root, mid, n, out)
    ensures Answers(mem, root, from, n, out)
    ensures Blocked(mem, root, mid, n) <==> Blocked(mem, root, from, n)
  {
    SkipMapped(mem, root, from, mid, n);
    hide FirstAbsent, Absent, NoRoom, Blocked, Mapped;
  }

  /** Where the search goes on after a run was cut short it finds the same: no room for the run. */
  lemma AnswersAfterCut(mem: Memory, root: nat, from: nat, n: nat, last: nat, out: Outcome)
    requires Translate(mem, root, last) == None && !Absent(mem, root, last, last + n)
    requires last < LIMIT ==> Blocked(mem, root, from, n) && Blocks(mem, root, last, n)
    requires last >= LIMIT ==> NoRoom(mem, root, from, n) && !Blocked(mem, root, from, n)
    requires Answers(mem, root, last, n, out)
    ensures Answers(mem, root, from, n, out) && !out.Found?
    ensures Blocked(mem, root, last, n) ==> Blocked(mem, root, from, n)
  {
    hide Translate, Absent, Blocks, Blocked, NoRoom;
    if last < LIMIT {
      FirstAbsentFrom(mem, root, last, last, n);
    } else {
      PastLimit(mem, root, last, n);
    }
  }

  /** A request of one page is always answered: its first candidate fits. */
  lemma ShortRequestNeverBlocked(mem: Memory, root: nat, from: nat, n: nat)
    ensures n <= 1 ==> !Blocked(mem, root, from, n)
    ensures n <= 1 ==> forall c: nat :: FirstAbsent(mem, root, from, c) ==> Absent(mem, root, c, c + n)
  {
    hide Translate;
  }
}
