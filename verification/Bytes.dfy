/** Bytes in memory, and the C strings among them. */
module Bytes {
  type byte = b: int | 0 <= b < 256

  /** A byte of memory; nothing is claimed about bytes outside. */
  function At(mem: seq<byte>, i: nat): (b: byte)
    ensures i < |mem| ==> b == mem[i]
  {
    if i < |mem| then mem[i] else 0
  }

  /** The C string in the `n` bytes at `i`. */
  function CString(mem: seq<byte>, i: nat, n: nat): seq<byte>
    decreases n
  {
    if n == 0 || At(mem, i) == 0 then [] else [At(mem, i)] + CString(mem, i + 1, n - 1)
  }

  /** The bytes lie in memory at `at`. */
  ghost predicate Holds(mem: seq<byte>, at: nat, bytes: seq<byte>) {
    forall a: nat :: at <= a < at + |bytes| ==> At(mem, a) == bytes[a - at]
  }

  lemma HoldsParts(mem: seq<byte>, at: nat, x: seq<byte>, y: seq<byte>)
    ensures Holds(mem, at, x + y) <==> Holds(mem, at, x) && Holds(mem, at + |x|, y)
  {
    var xy := x + y;
    if Holds(mem, at, xy) {
      forall a: nat | at <= a < at + |x| ensures At(mem, a) == x[a - at] {
        assert At(mem, a) == xy[a - at];
      }
      forall a: nat | at + |x| <= a < at + |x| + |y| ensures At(mem, a) == y[a - (at + |x|)] {
        assert At(mem, a) == xy[a - at];
      }
    }
  }

  lemma {:induction false} ReadsCString(mem: seq<byte>, at: nat, s: seq<byte>, n: nat)
    requires |s| < n && 0 !in s && Holds(mem, at, s + [0])
    ensures CString(mem, at, n) == s
    decreases |s|
  {
    HoldsParts(mem, at, s, [0]);
    if s == [] {
      assert At(mem, at) == [0 as byte][0];
    } else {
      assert At(mem, at) == s[0] && s[0] in s;
      assert s + [0] == [s[0]] + (s[1..] + [0]);
      HoldsParts(mem, at, [s[0]], s[1..] + [0]);
      ReadsCString(mem, at + 1, s[1..], n - 1);
    }
  }

  lemma {:induction false} CStringBytes(mem: seq<byte>, at: nat, n: nat)
    ensures var s := CString(mem, at, n);
            |s| <= n && 0 !in s && Holds(mem, at, s) && (|s| < n ==> At(mem, at + |s|) == 0)
    decreases n
  {
    if n > 0 && At(mem, at) != 0 {
      CStringBytes(mem, at + 1, n - 1);
      var tail := CString(mem, at + 1, n - 1);
      HoldsParts(mem, at, [At(mem, at)], tail);
    }
  }
}
