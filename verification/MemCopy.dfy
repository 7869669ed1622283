/** Filling and copying memory.  Memory is one array of bytes and an address an index into it. */
module MemCopy {
  import opened Common
  import opened Bytes

  const INT_LENGTH: int := 0x8000_0000

  // ---------------------------------------------------------------- what a copy should do

  predicate Fits(size: nat, at: int, n: nat) {
    0 <= at && at + n <= size
  }

  /** Memory after the `n` bytes at `s` have been moved to `d`: the old bytes, however the two overlap. */
  function Moved(mem: seq<byte>, d: int, s: int, n: nat): (r: seq<byte>)
    requires Fits(|mem|, d, n) && Fits(|mem|, s, n)
    ensures |r| == |mem|
  {
    mem[..d] + mem[s..s + n] + mem[d + n..]
  }

  lemma MovedAt(mem: seq<byte>, d: int, s: int, n: nat, k: nat)
    requires Fits(|mem|, d, n) && Fits(|mem|, s, n) && k < |mem|
    ensures Moved(mem, d, s, n)[k] == if d <= k < d + n then mem[s + (k - d)] else mem[k]
  {
  }

  // ---------------------------------------------------------------- memcpy

  /** Which byte of the source ends up at distance `k` when copying forwards to a place `gap` bytes behind the source: the first
    `gap` bytes over and over. */
  function Origin(k: nat, gap: nat): (r: nat)
    requires gap > 0
    ensures r < gap && r <= k && (k < gap ==> r == k)
    decreases k
  {
    if k < gap then k else Origin(k - gap, gap)
  }

  /** The byte of the old memory that a forward copy puts at distance `k`. */
  function Forward(d: nat, s: nat, k: nat): (r: nat)
    ensures s <= r <= s + k
  {
    if d <= s then s + k else s + Origin(k, d - s)
  }

  /** The first `n` bytes have been copied forwards from `s` to `d`; everything else is as before. */
  ghost predicate CopiedForward(old_: seq<byte>, mem: seq<byte>, d: nat, s: nat, n: nat)
    requires Fits(|old_|, d, n) && Fits(|old_|, s, n)
  {
    && |mem| == |old_|
    && (forall k: nat :: k < n ==> mem[d + k] == old_[Forward(d, s, k)])
    && (forall a: nat :: a < |mem| && !(d <= a < d + n) ==> mem[a] == old_[a])
  }

  /** What a forward copy reads `ahead` bytes before they are due is what it would read in time, if the two places are further
    apart than that. */
  lemma ForwardReads(old_: seq<byte>, mem: seq<byte>, d: nat, s: nat, n: nat, ahead: nat)
    requires Fits(|old_|, d, n + ahead + 1) && Fits(|old_|, s, n + ahead + 1) && CopiedForward(old_, mem, d, s, n)
    requires d <= s || ahead < d - s
    ensures mem[s + n + ahead] == old_[Forward(d, s, n + ahead)]
  {
    var m := n + ahead;
    if d > s && m >= d - s {
      var k := m - (d - s);
      assert mem[d + k] == old_[Forward(d, s, k)];
      assert Origin(m, d - s) == Origin(k, d - s);
    } else {
      assert !(d <= s + m < d + n);
    }
  }

  /** A forward copy moves the bytes of every memory of a size exactly if it does not run into what it has yet to read. */
  lemma ForwardMovesIff(size: nat, d: nat, s: nat, n: nat)
    requires Fits(size, d, n) && Fits(size, s, n)
    ensures (forall m: seq<byte>, r: seq<byte> :: |m| == size && CopiedForward(m, r, d, s, n) ==> r == Moved(m, d, s, n))
            <==> d <= s || s + n <= d
  {
    if d <= s || s + n <= d {
      forall m: seq<byte>, r: seq<byte> | |m| == size && CopiedForward(m, r, d, s, n)
        ensures r == Moved(m, d, s, n)
      {
        ForwardMoves(m, r, d, s, n);
      }
    } else {
      ForwardSmears(size, d, s, n);
    }
  }

  lemma ForwardMoves(m: seq<byte>, r: seq<byte>, d: nat, s: nat, n: nat)
    requires Fits(|m|, d, n) && Fits(|m|, s, n) && CopiedForward(m, r, d, s, n) && (d <= s || s + n <= d)
    ensures r == Moved(m, d, s, n)
  {
    forall a: nat | a < |r| ensures r[a] == Moved(m, d, s, n)[a] {
      MovedAt(m, d, s, n, a);
      if d <= a < d + n {
        var k := a - d;
        assert r[d + k] == m[Forward(d, s, k)];
      }
    }
  }

  /** Memory in which a single byte is set. */
  function Single(size: nat, at: nat): (m: seq<byte>)
    requires at < size
    ensures |m| == size && m[at] == 1 && forall k: nat :: k < size && k != at ==> m[k] == 0
  {
    seq(size, k => if k == at then 1 else 0)
  }

  function ForwardMem(m: seq<byte>, d: nat, s: nat, n: nat): (r: seq<byte>)
    requires Fits(|m|, d, n) && Fits(|m|, s, n)
    ensures CopiedForward(m, r, d, s, n)
  {
    seq(|m|, a requires 0 <= a < |m| => if d <= a < d + n then m[Forward(d, s, a - d)] else m[a])
  }

  lemma ForwardSmears(size: nat, d: nat, s: nat, n: nat)
    requires Fits(size, d, n) && Fits(size, s, n) && s < d < s + n
    ensures exists m: seq<byte>, r: seq<byte> :: |m| == size && CopiedForward(m, r, d, s, n) && r != Moved(m, d, s, n)
  {
    var m, gap := Single(size, d), d - s;
    var r := ForwardMem(m, d, s, n);
    assert Origin(gap, gap) == 0;
    assert r[d + gap] == m[s];
    MovedAt(m, d, s, n, d + gap);
    assert CopiedForward(m, r, d, s, n) && r != Moved(m, d, s, n);
  }

  /** Copying forwards: by words of four bytes if both addresses and the length allow it, else by bytes.  Either way memory is
    left the same. */
  method Memcpy(mem: array<byte>, d: nat, s: nat, n: nat)
    requires Fits(mem.Length, d, n) && Fits(mem.Length, s, n)
    modifies mem
    ensures CopiedForward(old(mem[..]), mem[..], d, s, n)
  {
    if d % 4 == 0 && s % 4 == 0 && n % 4 == 0 {
      CopyWords(mem, d, s, n / 4);
    } else {
      CopyBytes(mem, d, s, n);
    }
  }

  method CopyBytes(mem: array<byte>, d: nat, s: nat, n: nat)
    requires Fits(mem.Length, d, n) && Fits(mem.Length, s, n)
    modifies mem
    ensures CopiedForward(old(mem[..]), mem[..], d, s, n)
  {
    var i := 0;
    while i < n
      invariant 0 <= i <= n && CopiedForward(old(mem[..]), mem[..], d, s, i)
    {
      ForwardReads(old(mem[..]), mem[..], d, s, i, 0);
      ghost var was := mem[..];
      mem[d + i] := mem[s + i];
      CopyExtends(old(mem[..]), was, mem[..], d, s, i);
      i := i + 1;
    }
  }

  lemma CopyExtends(old_: seq<byte>, was: seq<byte>, mem: seq<byte>, d: nat, s: nat, n: nat)
    requires Fits(|old_|, d, n + 1) && Fits(|old_|, s, n + 1) && CopiedForward(old_, was, d, s, n)
    requires mem == was[d + n := old_[Forward(d, s, n)]]
    ensures CopiedForward(old_, mem, d, s, n + 1)
  {
  }

  method CopyWords(mem: array<byte>, d: nat, s: nat, words: nat)
    requires d % 4 == 0 && s % 4 == 0 && Fits(mem.Length, d, 4 * words) && Fits(mem.Length, s, 4 * words)
    modifies mem
    ensures CopiedForward(old(mem[..]), mem[..], d, s, 4 * words)
  {
    var i := 0;
    while i < words
      invariant 0 <= i <= words && CopiedForward(old(mem[..]), mem[..], d, s, 4 * i)
    {
      ghost var was := mem[..];
      var from, to := s + 4 * i, d + 4 * i;
      mem[to], mem[to + 1], mem[to + 2], mem[to + 3] := mem[from], mem[from + 1], mem[from + 2], mem[from + 3];
      WordCopied(old(mem[..]), was, mem[..], d, s, 4 * i);
      i := i + 1;
    }
  }

  /** The four bytes of a word, read at once, are what four byte copies read: places that overlap are a word apart or more. */
  lemma WordCopied(old_: seq<byte>, was: seq<byte>, mem: seq<byte>, d: nat, s: nat, n: nat)
    requires d % 4 == 0 && s % 4 == 0
    requires Fits(|old_|, d, n + 4) && Fits(|old_|, s, n + 4) && CopiedForward(old_, was, d, s, n)
    requires mem == was[d + n := was[s + n]][d + n + 1 := was[s + n + 1]]
                       [d + n + 2 := was[s + n + 2]][d + n + 3 := was[s + n + 3]]
    ensures CopiedForward(old_, mem, d, s, n + 4)
  {
    WordReads(old_, was, d, s, n);
    WordExtends(old_, was, mem, d, s, n);
  }

  lemma WordReads(old_: seq<byte>, was: seq<byte>, d: nat, s: nat, n: nat)
    requires d % 4 == 0 && s % 4 == 0
    requires Fits(|old_|, d, n + 4) && Fits(|old_|, s, n + 4) && CopiedForward(old_, was, d, s, n)
    ensures |was| == |old_|
    ensures was[s + n] == old_[Forward(d, s, n)] && was[s + n + 1] == old_[Forward(d, s, n + 1)]
    ensures was[s + n + 2] == old_[Forward(d, s, n + 2)] && was[s + n + 3] == old_[Forward(d, s, n + 3)]
  {
    assert |was| == |old_|;
    hide Forward, CopiedForward;
    assert d > s ==> d - s >= 4;
    ForwardReads(old_, was, d, s, n, 0);
    ForwardReads(old_, was, d, s, n, 1);
    ForwardReads(old_, was, d, s, n, 2);
    ForwardReads(old_, was, d, s, n, 3);
  }

  lemma WordExtends(old_: seq<byte>, was: seq<byte>, mem: seq<byte>, d: nat, s: nat, n: nat)
    requires Fits(|old_|, d, n + 4) && Fits(|old_|, s, n + 4) && CopiedForward(old_, was, d, s, n) && |was| == |old_|
    requires was[s + n] == old_[Forward(d, s, n)] && was[s + n + 1] == old_[Forward(d, s, n + 1)]
    requires was[s + n + 2] == old_[Forward(d, s, n + 2)] && was[s + n + 3] == old_[Forward(d, s, n + 3)]
    requires mem == was[d + n := was[s + n]][d + n + 1 := was[s + n + 1]]
                       [d + n + 2 := was[s + n + 2]][d + n + 3 := was[s + n + 3]]
    ensures CopiedForward(old_, mem, d, s, n + 4)
  {
    hide Forward, CopiedForward;
    var one: seq<byte> := was[d + n := was[s + n]];
    CopyExtends(old_, was, one, d, s, n);
    var two: seq<byte> := one[d + n + 1 := was[s + n + 1]];
    CopyExtends(old_, one, two, d, s, n + 1);
    var three: seq<byte> := two[d + n + 2 := was[s + n + 2]];
    CopyExtends(old_, two, three, d, s, n + 2);
    CopyExtends(old_, three, mem, d, s, n + 3);
  }

  // ---------------------------------------------------------------- memmove

  /** The lowest distance from the two addresses that a backward copy touches.  It counts down from the length less one, kept in
    an `int`. */
  function Lowest(n: nat): (r: int)
    ensures r % TWO32 == 0 && -INT_LENGTH <= r + n - 1 < INT_LENGTH
  {
    (n - 1 + INT_LENGTH) % TWO32 - INT_LENGTH - (n - 1)
  }

  /** For lengths of up to 2^31 the backward copy starts at the last byte. */
  lemma LowestIsZeroIff(n: nat)
    ensures Lowest(n) == 0 <==> n <= INT_LENGTH
    ensures n > INT_LENGTH ==> Lowest(n) <= -TWO32
  {
  }

  /** Where a move of `n` bytes starts, counted from the addresses it is given. */
  function Shift(d: int, s: int, n: nat): int {
    if s > d then 0 else Lowest(n)
  }

  /** Forwards when the source is behind the destination, else backwards: the bytes moved are the old ones for every overlap. */
  method Memmove(mem: array<byte>, d: nat, s: nat, n: nat)
    requires var z := Shift(d, s, n); Fits(mem.Length, d + z, n) && Fits(mem.Length, s + z, n)
    modifies mem
    ensures var z := Shift(d, s, n); mem[..] == Moved(old(mem[..]), d + z, s + z, n)
  {
    hide Moved, CopiedForward;
    if s > d {
      CopyBytes(mem, d, s, n);
      ForwardMoves(old(mem[..]), mem[..], d, s, n);
    } else {
      var base := (n - 1 + INT_LENGTH) % TWO32 - INT_LENGTH;
      assert base == Lowest(n) + n - 1;
      hide Lowest;
      CopyDown(mem, d + base, s + base, n);
    }
  }

  /** The last `n` bytes up to two last addresses have been copied. */
  ghost predicate CopiedDown(old_: seq<byte>, mem: seq<byte>, d: int, s: int, n: nat)
    requires Fits(|old_|, d + 1 - n, n) && Fits(|old_|, s + 1 - n, n)
  {
    && |mem| == |old_|
    && (forall a :: d - n < a <= d ==> mem[a] == old_[a - (d - s)])
    && (forall a :: 0 <= a < |mem| && !(d - n < a <= d) ==> mem[a] == old_[a])
  }

  lemma DownExtends(old_: seq<byte>, was: seq<byte>, mem: seq<byte>, d: int, s: int, n: nat)
    requires s <= d && Fits(|old_|, d - n, n + 1) && Fits(|old_|, s - n, n + 1) && CopiedDown(old_, was, d, s, n)
    requires mem == was[d - n := was[s - n]]
    ensures CopiedDown(old_, mem, d, s, n + 1)
  {
  }

  lemma DownMoves(old_: seq<byte>, mem: seq<byte>, d: int, s: int, n: nat)
    requires Fits(|old_|, d + 1 - n, n) && Fits(|old_|, s + 1 - n, n) && CopiedDown(old_, mem, d, s, n)
    ensures mem == Moved(old_, d + 1 - n, s + 1 - n, n)
  {
    hide Moved;
    forall a: nat | a < |mem| ensures mem[a] == Moved(old_, d + 1 - n, s + 1 - n, n)[a] {
      MovedAt(old_, d + 1 - n, s + 1 - n, n, a);
    }
  }

  /** The bytes up to two last addresses, copied from the last to the first. */
  method CopyDown(mem: array<byte>, d: int, s: int, n: nat)
    requires s <= d && Fits(mem.Length, d + 1 - n, n) && Fits(mem.Length, s + 1 - n, n)
    modifies mem
    ensures mem[..] == Moved(old(mem[..]), d + 1 - n, s + 1 - n, n)
  {
    hide Moved;
    var i := 0;
    while i < n
      invariant 0 <= i <= n && CopiedDown(old(mem[..]), mem[..], d, s, i)
    {
      hide CopiedDown;
      ghost var was := mem[..];
      mem[d - i] := mem[s - i];
      DownExtends(old(mem[..]), was, mem[..], d, s, i);
      i := i + 1;
    }
    DownMoves(old(mem[..]), mem[..], d, s, n);
  }

  /** A move is right for every memory of a size exactly if it goes forwards, or goes nowhere, or is at most 2^31 bytes long. */
  lemma MoveIsRightIff(size: nat, d: nat, s: nat, n: nat)
    requires Fits(size, d, n) && Fits(size, s, n)
    requires var z := Shift(d, s, n); Fits(size, d + z, n) && Fits(size, s + z, n)
    ensures (forall m: seq<byte> :: |m| == size ==> MoveIsRight(m, d, s, n)) <==> s >= d || n <= INT_LENGTH
  {
    hide Lowest, Moved;
    LowestIsZeroIff(n);
    if s == d {
      forall m: seq<byte> | |m| == size ensures MoveIsRight(m, d, s, n) {
        StandingMove(m, d, n);
        StandingMove(m, d + Lowest(n), n);
      }
    } else if s < d && n > INT_LENGTH {
      LongMoveFails(Single(size, s + n - 1), d, s, n);
    }
  }

  lemma LongMoveFails(m: seq<byte>, d: nat, s: nat, n: nat)
    requires Fits(|m|, d, n) && Fits(|m|, s, n) && s < d && n > INT_LENGTH && Lowest(n) <= -TWO32
    requires Fits(|m|, d + Lowest(n), n) && Fits(|m|, s + Lowest(n), n)
    requires m[s + n - 1] == 1 && m[d + n - 1] == 0
    ensures !MoveIsRight(m, d, s, n)
  {
    hide Lowest, Moved;
    var z, last := Lowest(n), d + n - 1;
    MovedAt(m, d, s, n, last);
    MovedAt(m, d + z, s + z, n, last);
  }

  ghost predicate MoveIsRight(m: seq<byte>, d: int, s: int, n: nat)
    requires Fits(|m|, d, n) && Fits(|m|, s, n)
    requires var z := Shift(d, s, n); Fits(|m|, d + z, n) && Fits(|m|, s + z, n)
  {
    var z := Shift(d, s, n);
    Moved(m, d + z, s + z, n) == Moved(m, d, s, n)
  }

  lemma StandingMove(m: seq<byte>, d: int, n: nat)
    requires Fits(|m|, d, n)
    ensures Moved(m, d, d, n) == m
  {
    assert m == m[..d] + m[d..d + n] + m[d + n..];
  }

  // ---------------------------------------------------------------- memset

  /** The value is cut to a byte; the bytes are written from the last to the first. */
  method Memset(mem: array<byte>, d: nat, c: int, n: nat)
    requires Fits(mem.Length, d, n)
    modifies mem
    ensures forall a :: 0 <= a < mem.Length ==> mem[a] == if d <= a < d + n then c % 256 else old(mem[a])
  {
    var length := n;
    while length > 0
      invariant 0 <= length <= n
      invariant forall a :: 0 <= a < mem.Length ==> mem[a] == if d + length <= a < d + n then c % 256 else old(mem[a])
    {
      length := length - 1;
      mem[d + length] := c % 256;
    }
  }
}
