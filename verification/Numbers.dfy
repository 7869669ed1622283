/** Printing numbers into a buffer and reading them back.  Characters are bytes. */
module Numbers {
  import opened Bytes

  const MAX64: nat := 0xFFFF_FFFF_FFFF_FFFF
  const TEN19: nat := 10_000_000_000_000_000_000
  const ZERO: byte := 48
  const MINUS: byte := 45

  predicate ValidBase(base: nat) {
    2 <= base <= 16
  }

  // ---------------------------------------------------------------- numerals

  function Digit(d: nat): (c: byte)
    requires d < 16
    ensures c == "0123456789ABCDEF"[d] as int
  {
    if d < 10 then 48 + d else 55 + d
  }

  function DigitValue(c: byte): (d: int)
    ensures -1 <= d < 16 && (d >= 0 ==> Digit(d) == c)
  {
    if 48 <= c <= 57 then c - 48 else if 65 <= c <= 70 then c - 55 else -1
  }

  function Quot(v: nat, base: nat): (q: nat)
    requires ValidBase(base)
  {
    v / base
  }

  function Rem(v: nat, base: nat): (d: nat)
    requires ValidBase(base)
    ensures d < base
  {
    v % base
  }

  /** The digits of a number, the lowest first. */
  function Digits(v: nat, base: nat): (r: seq<byte>)
    requires ValidBase(base)
    ensures |r| > 0
  {
    [Digit(Rem(v, base))] + if Quot(v, base) == 0 then [] else Smaller(v, base); Digits(Quot(v, base), base)
  }

  lemma Smaller(v: nat, base: nat)
    requires ValidBase(base) && Quot(v, base) != 0
    ensures Quot(v, base) < v
  {
  }

  function Reversed(s: seq<byte>): (r: seq<byte>)
    ensures |r| == |s|
  {
    if s == [] then [] else Reversed(s[1..]) + [s[0]]
  }

  function Text(v: nat, base: nat): (r: seq<byte>)
    requires ValidBase(base)
  {
    Reversed(Digits(v, base))
  }

  /** A numeral of the base, perhaps with leading zeros. */
  ghost predicate Numeral(s: seq<byte>, base: nat) {
    s != [] && forall i :: 0 <= i < |s| ==> 0 <= DigitValue(s[i]) < base
  }

  /** The number a numeral stands for. */
  ghost function Number(s: seq<byte>, base: nat): int {
    if s == [] then 0 else base * Number(s[..|s| - 1], base) + DigitValue(s[|s| - 1])
  }

  ghost function Pow(base: nat, n: nat): (r: nat)
    ensures base > 0 ==> r > 0
  {
    if n == 0 then 1 else base * Pow(base, n - 1)
  }

  lemma Division(v: nat, base: nat)
    requires ValidBase(base)
    ensures v == base * Quot(v, base) + Rem(v, base)
  {
  }

  lemma TextStep(v: nat, base: nat)
    requires ValidBase(base)
    ensures Text(v, base) == (if Quot(v, base) == 0 then [] else Text(Quot(v, base), base)) + [Digit(Rem(v, base))]
  {
    hide Quot, Rem;
    if Quot(v, base) != 0 {
      var d := Digits(v, base);
      assert d[1..] == Digits(Quot(v, base), base);
    } else {
      assert Digits(v, base)[1..] == [];
    }
  }

  /** What is printed is a numeral of the number, without a redundant leading zero. */
  lemma {:induction false} TextIsNumeral(v: nat, base: nat)
    requires ValidBase(base)
    ensures Numeral(Text(v, base), base) && Number(Text(v, base), base) == v
    ensures Text(v, base)[0] == ZERO <==> v == 0
    ensures v == 0 ==> |Text(v, base)| == 1
    decreases v
  {
    hide Quot, Rem;
    TextStep(v, base);
    Division(v, base);
    var last := Digit(Rem(v, base));
    assert DigitValue(last) == Rem(v, base);
    hide Text, Digits, Digit, DigitValue;
    if Quot(v, base) == 0 {
      assert Text(v, base) == [last];
      OneDigit(last, base);
    } else {
      Smaller(v, base);
      TextIsNumeral(Quot(v, base), base);
      AppendDigit(Text(Quot(v, base), base), last, base);
    }
  }

  lemma OneDigit(c: byte, base: nat)
    requires 0 <= DigitValue(c) < base
    ensures Numeral([c], base) && Number([c], base) == DigitValue(c) && (c == ZERO <==> DigitValue(c) == 0)
  {
    assert [c][..0] == [];
    assert Number([], base) == 0;
  }

  lemma AppendDigit(s: seq<byte>, c: byte, base: nat)
    requires Numeral(s, base) && 0 <= DigitValue(c) < base
    ensures Numeral(s + [c], base) && Number(s + [c], base) == base * Number(s, base) + DigitValue(c)
  {
    assert (s + [c])[..|s|] == s;
  }

  /** A numeral without a redundant leading zero is what is printed for its number. */
  lemma {:induction false} NumeralIsText(s: seq<byte>, base: nat)
    requires ValidBase(base) && Numeral(s, base) && (s[0] == ZERO ==> |s| == 1)
    ensures Number(s, base) >= 0 && Text(Number(s, base), base) == s
    ensures Number(s, base) == 0 <==> s == [ZERO]
    decreases |s|
  {
    hide Text, Quot, Rem;
    var front, last := s[..|s| - 1], s[|s| - 1];
    var d := DigitValue(last);
    assert s == front + [last] && Digit(d) == last;
    if front == [] {
      assert Number(front, base) == 0;
      assert Number(s, base) == d;
      OneDigitNumber(d, base);
      TextStep(d, base);
    } else {
      assert s[0] == front[0];
      NumeralIsText(front, base);
      var q := Number(front, base);
      assert front != [ZERO];
      Quotient(q, d, base);
      TextStep(base * q + d, base);
    }
  }

  lemma OneDigitNumber(d: nat, base: nat)
    requires ValidBase(base) && d < base
    ensures Quot(d, base) == 0 && Rem(d, base) == d
  {
  }

  lemma Quotient(q: nat, d: nat, base: nat)
    requires ValidBase(base) && d < base
    ensures base * q + d >= 0 && Quot(base * q + d, base) == q && Rem(base * q + d, base) == d
    ensures q > 0 ==> base * q + d > 0
  {
    var v := base * q + d;
    Division(v, base);
    hide Quot, Rem;
    SameQuotient(base, q, d, Quot(v, base), Rem(v, base));
  }

  lemma SameQuotient(base: nat, q: nat, d: nat, q': nat, d': nat)
    requires d < base && d' < base && base * q + d == base * q' + d'
    ensures q == q' && d == d'
  {
    if q < q' {
      NextMultiple(base, q, q');
    } else if q' < q {
      NextMultiple(base, q', q);
    }
  }

  lemma NextMultiple(base: nat, a: nat, b: nat)
    requires a < b
    ensures base * a + base <= base * b
  {
    assert base * (a + 1) <= base * b;
  }

  /** A number has `n` digits if it lies between the powers. */
  lemma {:induction false} DigitCount(v: nat, base: nat)
    requires ValidBase(base)
    ensures var n := |Text(v, base)|; n > 0 && v < Pow(base, n) && (if v > 0 then Pow(base, n - 1) <= v else n == 1)
    decreases v
  {
    hide Text, Quot, Rem;
    TextStep(v, base);
    Division(v, base);
    if Quot(v, base) == 0 {
      assert Pow(base, 0) == 1 && Pow(base, 1) == base * Pow(base, 0);
    } else {
      Smaller(v, base);
      DigitCount(Quot(v, base), base);
      var n := |Text(Quot(v, base), base)|;
      Bounds(v, Quot(v, base), Rem(v, base), base, Pow(base, n), Pow(base, n - 1));
      assert Pow(base, n + 1) == base * Pow(base, n) && Pow(base, n) == base * Pow(base, n - 1);
    }
  }

  lemma Bounds(v: nat, q: nat, d: nat, base: nat, high: nat, low: nat)
    requires v == base * q + d && d < base && low <= q < high
    ensures base * low <= v < base * high
  {
    assert base * low <= base * q;
    assert base * (q + 1) <= base * high;
    assert base * (q + 1) == base * q + base;
  }

  lemma {:induction false} PowMonotone(base: nat, m: nat, n: nat)
    requires base > 0 && m <= n
    ensures Pow(base, m) <= Pow(base, n)
    decreases n
  {
    if m < n {
      PowMonotone(base, m, n - 1);
      assert 1 * Pow(base, n - 1) <= base * Pow(base, n - 1);
    }
  }

  // ---------------------------------------------------------------- printing into a buffer

  /** The first `n` bytes of the buffer are as given and those from `keep` on as before. */
  twostate predicate Holds(a: array<byte>, s: seq<byte>, keep: nat)
    reads a
  {
    && |s| <= a.Length && a[..|s|] == s
    && forall k :: keep <= k < a.Length ==> a[k] == old(a[k])
  }

  /** The first `n` of the bytes are in the buffer, and the rest of it is as before. */
  ghost predicate Partly(before: seq<byte>, now: seq<byte>, all: seq<byte>, n: nat) {
    && |now| == |before| && n <= |all| && n <= |now| && now[..n] == all[..n]
    && forall k :: n <= k < |now| ==> now[k] == before[k]
  }

  lemma PartlyStep(before: seq<byte>, was: seq<byte>, now: seq<byte>, all: seq<byte>, n: nat)
    requires Partly(before, was, all, n) && n < |all| && n < |was| && now == was[n := all[n]]
    ensures Partly(before, now, all, n + 1)
  {
    assert now[..n] == was[..n];
    assert all[..n + 1] == all[..n] + [all[n]];
  }

  /** The digits go into the buffer, the lowest first. */
  method WriteDigits(value: nat, buffer: array<byte>, base: nat) returns (digits: nat)
    requires ValidBase(base) && |Digits(value, base)| <= buffer.Length
    modifies buffer
    ensures digits == |Digits(value, base)| && Holds(buffer, Digits(value, base), digits)
  {
    hide Quot, Rem, Digit, Digits;
    ghost var all := Digits(value, base);
    var v := value;
    var more := true;
    digits := 0;
    while more
      invariant Partly(old(buffer[..]), buffer[..], all, digits)
      invariant all[digits..] == if more then Digits(v, base) else []
      decreases more, v
    {
      DigitsStep(v, base);
      ghost var was := buffer[..];
      assert all[digits] == all[digits..][0] && all[digits + 1..] == all[digits..][1..];
      buffer[digits] := Digit(Rem(v, base));
      PartlyStep(old(buffer[..]), was, buffer[..], all, digits);
      digits := digits + 1;
      v := Quot(v, base);
      more := v != 0;
    }
    assert all[..digits] == all;
  }

  lemma DigitsStep(v: nat, base: nat)
    requires ValidBase(base)
    ensures Digits(v, base)[0] == Digit(Rem(v, base))
    ensures Digits(v, base)[1..] == if Quot(v, base) == 0 then [] else Digits(Quot(v, base), base)
    ensures Quot(v, base) != 0 ==> Quot(v, base) < v
  {
    if Quot(v, base) != 0 { Smaller(v, base); }
    hide Quot, Rem, Digit;
  }

  lemma {:induction false} ReversedAt(s: seq<byte>, k: nat)
    requires k < |s|
    ensures Reversed(s)[k] == s[|s| - 1 - k]
    decreases |s|
  {
    if k < |s| - 1 {
      ReversedAt(s[1..], k);
    }
  }

  /** The first `n` bytes are turned round where they are. */
  method ReverseInPlace(a: array<byte>, n: nat)
    requires n <= a.Length
    modifies a
    ensures Holds(a, Reversed(old(a[..n])), n)
  {
    var i, j := 0, n - 1;
    while i < j
      invariant 0 <= i <= n && i + j == n - 1 && i <= j + 1
      invariant forall k :: 0 <= k < i ==> a[k] == old(a[n - 1 - k])
      invariant forall k :: j < k < n ==> a[k] == old(a[n - 1 - k])
      invariant forall k :: i <= k <= j ==> a[k] == old(a[k])
      invariant forall k :: n <= k < a.Length ==> a[k] == old(a[k])
      decreases j
    {
      var tmp := a[i];
      a[i] := a[j];
      a[j] := tmp;
      i, j := i + 1, j - 1;
    }
    IsReversed(old(a[..n]), a[..n]);
  }

  lemma IsReversed(s: seq<byte>, t: seq<byte>)
    requires |s| == |t| && forall k :: 0 <= k < |s| ==> t[k] == s[|s| - 1 - k]
    ensures t == Reversed(s)
  {
    forall k | 0 <= k < |s| ensures t[k] == Reversed(s)[k] {
      ReversedAt(s, k);
    }
  }

  /** The buffer ends up with the numeral and a zero behind it. */
  method PrintToBase(value: nat, buffer: array<byte>, base: nat) returns (digits: nat)
    requires value <= MAX64 && ValidBase(base) && |Text(value, base)| < buffer.Length
    modifies buffer
    ensures digits == |Text(value, base)| && Holds(buffer, Text(value, base) + [0], digits + 1)
  {
    hide Digits;
    digits := WriteDigits(value, buffer, base);
    assert buffer[..digits] == Digits(value, base);
    buffer[digits] := 0;
    assert buffer[..digits] == Digits(value, base);
    ReverseInPlace(buffer, digits);
    assert buffer[..digits + 1] == buffer[..digits] + [0];
  }

  // ---------------------------------------------------------------- reading numbers

  /** The C string at the start of some memory with a zero in it. */
  ghost function Str(mem: seq<byte>): (s: seq<byte>)
    requires 0 in mem
    ensures |s| < |mem| && mem[..|s|] == s && mem[|s|] == 0 && 0 !in s
  {
    var n :| 0 <= n < |mem| && mem[n] == 0;
    StrIsPrefix(mem, n);
    CString(mem, 0, |mem|)
  }

  lemma StrIsPrefix(mem: seq<byte>, n: nat)
    requires n < |mem| && mem[n] == 0
    ensures var s := CString(mem, 0, |mem|); |s| <= n && mem[..|s|] == s && mem[|s|] == 0 && 0 !in s
  {
    var s := CString(mem, 0, |mem|);
    CStringBytes(mem, 0, |mem|);
    hide CString;
    forall k: nat | k < |s| ensures mem[k] == s[k] && s[k] in s {
      assert At(mem, k) == s[k - 0];
    }
  }

  lemma StrEnd(mem: seq<byte>, n: nat)
    requires n < |mem| && mem[n] == 0 && 0 !in mem[..n]
    ensures 0 in mem && Str(mem) == mem[..n]
  {
    assert mem[n] in mem;
    var s := Str(mem);
    StrIsPrefix(mem, n);
    forall k | 0 <= k < n ensures mem[k] != 0 {
      assert mem[k] == mem[..n][k];
    }
  }

  method Strlen(mem: seq<byte>) returns (res: nat)
    requires 0 in mem
    ensures res == |Str(mem)|
  {
    res := 0;
    while mem[res] != 0
      invariant 0 <= res <= |Str(mem)| && 0 !in mem[..res]
      decreases |mem| - res
    {
      assert mem[..res + 1] == mem[..res] + [mem[res]];
      res := res + 1;
    }
    StrEnd(mem, res);
  }

  /** What `s_to_i` answers: the largest number for anything but a decimal numeral of at most 19 digits. */
  ghost function Parsed(s: seq<byte>): (r: int) {
    if 1 <= |s| <= 19 && Numeral(s, 10) then Number(s, 10) else MAX64
  }

  lemma {:induction false} FrontDigit(s: seq<byte>, base: nat)
    requires s != []
    ensures Number(s, base) == DigitValue(s[0]) * Pow(base, |s| - 1) + Number(s[1..], base)
    decreases |s|
  {
    hide DigitValue;
    var d, n := DigitValue(s[0]), |s| - 1;
    if n == 0 {
      assert Number(s[1..], base) == 0 && s[..0] == [] && Number(s[..0], base) == 0;
      assert Pow(base, 0) == 1;
    } else {
      var front, last := s[..n], DigitValue(s[n]);
      FrontDigit(front, base);
      assert s[1..][..n - 1] == front[1..] && s[1..][n - 1] == s[n];
      var p, x := Pow(base, n - 1), Number(front[1..], base);
      assert Pow(base, n) == base * p;
      Distribute(base, d, p, x);
    }
  }

  lemma Distribute(base: int, d: int, p: int, x: int)
    ensures base * (d * p + x) == d * (base * p) + base * x
  {
  }

  lemma {:induction false} NumberBounds(s: seq<byte>, base: nat)
    requires base > 0 && (s == [] || Numeral(s, base))
    ensures 0 <= Number(s, base) < Pow(base, |s|)
    decreases |s|
  {
    hide DigitValue;
    if s != [] {
      var n := |s| - 1;
      NumberBounds(s[..n], base);
      assert 0 <= DigitValue(s[n]) < base;
      Unfold(s, base);
      hide Number, Numeral, Pow;
      Carry(base, Number(s[..n], base), Pow(base, n), DigitValue(s[n]));
    }
  }

  lemma Unfold(s: seq<byte>, base: nat)
    requires s != []
    ensures Number(s, base) == base * Number(s[..|s| - 1], base) + DigitValue(s[|s| - 1])
    ensures Pow(base, |s|) == base * Pow(base, |s| - 1)
  {
    hide DigitValue;
  }

  lemma Carry(base: nat, x: nat, p: nat, d: nat)
    requires x < p && d < base
    ensures 0 <= base * x + d < base * p
  {
    assert base * (x + 1) <= base * p;
    assert base * (x + 1) == base * x + base;
  }

  lemma Pow19()
    ensures Pow(10, 19) == TEN19
  {
    assert Pow(10, 5) == 100_000;
    assert Pow(10, 10) == 10_000_000_000;
    assert Pow(10, 15) == 1_000_000_000_000_000;
  }

  /** Digits are read from the last to the first; neither the sum nor the weight of the next digit leaves 64 bits. */
  method SToI(mem: seq<byte>) returns (resp: nat)
    requires 0 in mem && |mem| <= 0x8000_0000
    ensures resp == Parsed(Str(mem))
  {
    var aux := Strlen(mem);
    ghost var s := Str(mem);
    assert mem[..|s|] == s;
    var multiplier := 1;
    resp := 0;
    if aux == 0 || aux > 19 {
      return MAX64;
    }
    hide Str, Number, Pow, Parsed, Numeral, DigitValue;
    EmptySum(s);
    while aux > 0
      invariant 0 <= aux <= |s| <= 19
      invariant Read(s, aux, resp, multiplier)
    {
      assert s[aux - 1] == mem[aux - 1];
      if mem[aux - 1] < 48 || mem[aux - 1] > 57 {
        NotANumeral(s, aux - 1);
        return MAX64;
      }
      ReadDigit(s, aux, resp, multiplier);
      assert resp + (mem[aux - 1] - 48) * multiplier <= MAX64 && multiplier * 10 <= MAX64;
      resp := resp + (mem[aux - 1] - 48) * multiplier;
      multiplier := multiplier * 10;
      aux := aux - 1;
    }
    AllRead(s, resp, multiplier);
  }

  /** The characters from `aux` on are digits that stand for `resp`, and `multiplier` is the weight of the next. */
  ghost predicate Read(s: seq<byte>, aux: nat, resp: int, multiplier: int)
    requires aux <= |s|
  {
    && (forall k :: aux <= k < |s| ==> 48 <= s[k] <= 57)
    && multiplier == Pow(10, |s| - aux) && 0 <= resp == Number(s[aux..], 10)
  }

  lemma NotANumeral(s: seq<byte>, k: nat)
    requires k < |s| && !(48 <= s[k] <= 57)
    ensures Parsed(s) == MAX64
  {
    assert !(0 <= DigitValue(s[k]) < 10);
  }

  lemma AllRead(s: seq<byte>, resp: int, multiplier: int)
    requires 1 <= |s| <= 19 && Read(s, 0, resp, multiplier)
    ensures resp == Parsed(s)
  {
    assert s[0..] == s;
    hide Pow, Number;
  }

  lemma EmptySum(s: seq<byte>)
    ensures Read(s, |s|, 0, 1)
  {
  }

  /** One more digit, and why nothing overflows. */
  lemma ReadDigit(s: seq<byte>, aux: nat, resp: int, multiplier: int)
    requires 0 < aux <= |s| <= 19 && Read(s, aux, resp, multiplier) && 48 <= s[aux - 1] <= 57
    ensures Read(s, aux - 1, resp + (s[aux - 1] - 48) * multiplier, multiplier * 10)
    ensures resp + (s[aux - 1] - 48) * multiplier <= TEN19 && multiplier * 10 <= TEN19
  {
    var t := s[aux - 1..];
    FrontDigit(t, 10);
    assert t[1..] == s[aux..];
    assert Pow(10, |t|) == 10 * Pow(10, |t| - 1);
    hide Number, Pow;
    NumberBounds(t, 10);
    PowMonotone(10, |t|, 19);
    Pow19();
  }

  // ---------------------------------------------------------------- the round trips

  lemma CountAtMost(v: nat, base: nat, n: nat)
    requires ValidBase(base) && n > 0 && v < Pow(base, n)
    ensures |Text(v, base)| <= n
  {
    hide Text, Pow;
    DigitCount(v, base);
    if |Text(v, base)| > n {
      PowMonotone(base, n, |Text(v, base)| - 1);
    }
  }

  lemma TenDigits(n: nat)
    ensures |Text(n, 10)| <= 19 <==> n < TEN19
  {
    hide Text, Pow;
    DigitCount(n, 10);
    Pow19();
    if n < TEN19 {
      CountAtMost(n, 10, 19);
    } else if |Text(n, 10)| <= 19 {
      PowMonotone(10, |Text(n, 10)|, 19);
    }
  }

  /** A 64-bit number that is printed and read comes back, if it is below 10^19; any other reads as the largest number. */
  lemma PrintThenRead(n: nat)
    requires n <= MAX64
    ensures Parsed(Text(n, 10)) == if n < TEN19 then n else MAX64
    ensures Parsed(Text(n, 10)) == n <==> n < TEN19 || n == MAX64
  {
    hide Text, Pow;
    TextIsNumeral(n, 10);
    TenDigits(n);
  }

  /** What is read as a number, and not as a failure, prints as it was, unless it had a redundant leading zero. */
  lemma ReadThenPrint(s: seq<byte>)
    requires 1 <= |s| <= 19 && Numeral(s, 10)
    ensures 0 <= Parsed(s) < TEN19
    ensures Text(Parsed(s), 10) == s <==> s[0] != ZERO || |s| == 1
  {
    hide Text, Pow, Number;
    NumberBounds(s, 10);
    PowMonotone(10, |s|, 19);
    Pow19();
    TextIsNumeral(Parsed(s), 10);
    if s[0] != ZERO || |s| == 1 {
      NumeralIsText(s, 10);
    }
  }

  /** The callers' buffers of 128 bytes are large enough for every 64-bit number in every base. */
  lemma BufferSuffices(value: nat, base: nat)
    requires value <= MAX64 && ValidBase(base)
    ensures |Text(value, base)| <= 64
  {
    hide Text, Pow;
    PowGrows(2, base, 64);
    Pow64();
    CountAtMost(value, base, 64);
  }

  lemma {:induction false} PowGrows(a: nat, b: nat, n: nat)
    requires 0 < a <= b
    ensures Pow(a, n) <= Pow(b, n)
    decreases n
  {
    if n > 0 {
      PowGrows(a, b, n - 1);
      Products(a, Pow(a, n - 1), b, Pow(b, n - 1));
    }
  }

  lemma Products(a: nat, x: nat, b: nat, y: nat)
    requires a <= b && x <= y
    ensures a * x <= b * y
  {
    assert a * x <= b * x;
    assert b * x <= b * y;
  }

  lemma {:induction false} PowSum(b: nat, m: nat, n: nat)
    ensures Pow(b, m + n) == Pow(b, m) * Pow(b, n)
    decreases n
  {
    if n == 0 {
      assert Pow(b, 0) == 1;
    } else {
      PowSum(b, m, n - 1);
      assert Pow(b, m + n) == b * Pow(b, m + n - 1);
      Commute(b, Pow(b, m), Pow(b, n - 1));
    }
  }

  lemma Commute(b: int, x: int, y: int)
    ensures b * (x * y) == x * (b * y)
  {
  }

  lemma Pow64()
    ensures Pow(2, 64) == MAX64 + 1
  {
    assert Pow(2, 4) == 16;
    hide Pow;
    Doubled(4, 16);
    Doubled(8, 0x100);
    Doubled(16, 0x1_0000);
    Doubled(32, 0x1_0000_0000);
  }

  lemma Doubled(n: nat, v: nat)
    requires Pow(2, n) == v
    ensures Pow(2, 2 * n) == v * v
  {
    PowSum(2, n, n);
    hide Pow;
  }

  // ---------------------------------------------------------------- signed numbers

  /** The decimal text of an `int`. */
  ghost function SignedText(n: int): seq<byte> {
    (if n < 0 then [MINUS] else []) + Text(if n < 0 then -n else n, 10)
  }

  /** It is a minus sign exactly for numbers below 0, and then the numeral of the number without its sign. */
  lemma SignedTextMeans(n: int)
    ensures var s := SignedText(n);
            && s != [] && (s[0] == '-' as int <==> n < 0)
            && var digits := if n < 0 then s[1..] else s;
               && Numeral(digits, 10) && (digits[0] == '0' as int ==> |digits| == 1)
               && Number(digits, 10) == if n < 0 then -n else n
  {
    var v: nat := if n < 0 then -n else n;
    TextIsNumeral(v, 10);
    hide Text, Number;
    assert 0 <= DigitValue(Text(v, 10)[0]);
    assert n < 0 ==> SignedText(n)[1..] == Text(v, 10);
    assert n >= 0 ==> SignedText(n) == Text(v, 10);
  }

  lemma ReversedSnoc(s: seq<byte>, c: byte)
    ensures Reversed(s + [c]) == [c] + Reversed(s)
  {
    if s != [] {
      ReversedSnoc(s[1..], c);
      assert (s + [c])[1..] == s[1..] + [c];
    }
  }

  lemma {:induction false} NoZeroByte(v: nat, base: nat)
    requires ValidBase(base)
    ensures 0 !in Digits(v, base)
    decreases v
  {
    hide Quot, Rem;
    DigitsStep(v, base);
    var d := Digits(v, base);
    assert d == [d[0]] + d[1..];
    if Quot(v, base) != 0 {
      NoZeroByte(Quot(v, base), base);
    }
  }

  /** The digits, the sign behind them and a zero are written, and then all of it is turned round. */
  method Itoa(n: int, s: array<byte>)
    requires -0x8000_0000 < n < 0x8000_0000 && |SignedText(n)| < s.Length
    modifies s
    ensures Holds(s, SignedText(n) + [0], |SignedText(n)| + 1)
  {
    hide Digits;
    var v: nat := if n < 0 then -n else n;
    NoZeroByte(v, 10);
    var i := WriteDigits(v, s, 10);
    assert s[..i] == Digits(v, 10);
    ghost var text := Digits(v, 10);
    if n < 0 {
      s[i] := MINUS;
      ReversedSnoc(Digits(v, 10), MINUS);
      text := text + [MINUS];
      i := i + 1;
      assert s[..i] == s[..i - 1] + [MINUS];
    }
    s[i] := 0;
    assert s[..i] == text;
    StrEnd(s[..], i);
    var l := Strlen(s[..]);
    ReverseInPlace(s, l);
    assert s[..i + 1] == s[..i] + [0];
  }
}
