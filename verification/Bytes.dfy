/** Bytes, and the fixed-width integers that travel as little-endian bytes. */
module Bytes {

  type byte = x: int | 0 <= x < 256
  type bytes = seq<byte>

  lemma Regroup(a: bytes, b: bytes, c: bytes)
    ensures a + b + c == a + (b + c)
  {
  }

  /** Byte order of a host's memory. */
  datatype Endian = Little | Big

  datatype Option<+T> = None | Some(value: T)

  function Pow256(w: nat): (p: nat)
    ensures p > 0
  {
    if w == 0 then 1 else 256 * Pow256(w - 1)
  }

  /** The `w` low bytes of `n`, least significant first. */
  function Le(n: nat, w: nat): (s: bytes)
    ensures |s| == w
  {
    if w == 0 then [] else [n % 256] + Le(n / 256, w - 1)
  }

  lemma LeHead(rest: nat, low: byte, w: nat)
    requires w > 0
    ensures Le(256 * rest + low, w) == [low] + Le(rest, w - 1)
  {
    var n := 256 * rest + low;
    assert n / 256 == rest && n % 256 == low;
  }

  function UnLe(s: bytes): nat {
    if s == [] then 0 else s[0] + 256 * UnLe(s[1..])
  }

  function Reverse(s: bytes): (r: bytes)
    ensures |r| == |s|
  {
    if s == [] then [] else Reverse(s[1..]) + [s[0]]
  }

  /** How a host lays out a `w`-byte integer, and how it reads one back. */
  function ToMemory(e: Endian, n: nat, w: nat): (s: bytes)
    ensures |s| == w
  {
    if e.Little? then Le(n, w) else Reverse(Le(n, w))
  }

  function FromMemory(e: Endian, s: bytes): nat {
    if e.Little? then UnLe(s) else UnLe(Reverse(s))
  }

  /** Two's complement pattern of a signed integer of `w` bytes, and back. */
  predicate FitsSigned(i: int, w: nat) {
    0 <= 2 * i + Pow256(w) && 2 * i < Pow256(w)
  }

  function Pattern(i: int, w: nat): nat
    requires FitsSigned(i, w)
  {
    if i < 0 then i + Pow256(w) else i
  }

  function Signed(u: nat, w: nat): int {
    if 2 * u < Pow256(w) then u else u - Pow256(w)
  }

  lemma PatternRoundTrip(i: int, w: nat)
    requires FitsSigned(i, w)
    ensures Pattern(i, w) < Pow256(w)
    ensures Signed(Pattern(i, w), w) == i
  {
  }

  lemma SignedRoundTrip(u: nat, w: nat)
    requires w > 0 && u < Pow256(w)
    ensures FitsSigned(Signed(u, w), w)
    ensures Pattern(Signed(u, w), w) == u
  {
  }

  lemma ProductNonNegative(a: nat, b: nat)
    ensures a * b >= 0
  {
  }

  lemma MultipleIsLarge(k: int, d: int)
    requires d > 0 && k != 0
    ensures k * d >= d || k * d <= -d
  {
    if k > 0 {
      ProductNonNegative(k - 1, d);
      assert k * d == (k - 1) * d + d;
    } else {
      ProductNonNegative(-k - 1, d);
      assert k * d == -((-k - 1) * d) - d;
    }
  }

  lemma RemainderUnique(n: nat, d: nat, q: nat, r: nat)
    requires d > 0 && r < d && n == q * d + r
    ensures n % d == r
  {
    var k := n / d - q;
    assert k * d == r - n % d;
    if k != 0 {
      MultipleIsLarge(k, d);
      assert false;
    }
  }

  lemma Rescale(q: nat, p: nat, r: nat, low: nat)
    ensures 256 * (q * p + r) + low == q * (256 * p) + (256 * r + low)
  {
  }

  lemma DivMod(n: nat, d: nat)
    requires d > 0
    ensures n == (n / d) * d + n % d
  {
  }

  lemma SameQuotient(n: nat, c: nat, q: nat, r: nat)
    requires c > 0 && r < c && n == q * c + r
    ensures n / c == q && n % c == r
  {
    RemainderUnique(n, c, q, r);
    DivMod(n, c);
    var k := n / c - q;
    assert k * c == 0;
    if k != 0 {
      MultipleIsLarge(k, c);
      assert false;
    }
  }

  lemma RemainderStep(n: nat, p: nat)
    requires p > 0
    ensures n % (256 * p) == 256 * ((n / 256) % p) + n % 256
  {
    var h := n / 256;
    DivMod(h, p);
    Rescale(h / p, p, h % p, n % 256);
    RemainderUnique(n, 256 * p, h / p, 256 * (h % p) + n % 256);
  }

  /** Byte `k` is the digit of weight 256^k. */
  lemma {:induction false} LeAt(n: nat, w: nat, k: nat)
    requires k < w
    ensures Le(n, w)[k] == n / Pow256(k) % 256
  {
    if k > 0 {
      LeAt(n / 256, w - 1, k - 1);
      QuotientStep(n, Pow256(k - 1));
    }
  }

  lemma QuotientStep(n: nat, p: nat)
    requires p > 0
    ensures n / (256 * p) == n / 256 / p
  {
    var h := n / 256;
    DivMod(h, p);
    Rescale(h / p, p, h % p, n % 256);
    SameQuotient(n, 256 * p, h / p, 256 * (h % p) + n % 256);
  }

  /** Writing `w` bytes and reading them back keeps the value modulo 256^w. */
  lemma {:induction false} LeTruncates(n: nat, w: nat)
    ensures UnLe(Le(n, w)) == n % Pow256(w)
  {
    if w > 0 {
      LeTruncates(n / 256, w - 1);
      RemainderStep(n, Pow256(w - 1));
      assert Le(n, w)[1..] == Le(n / 256, w - 1);
    }
  }

  lemma LeRoundTrip(n: nat, w: nat)
    requires n < Pow256(w)
    ensures UnLe(Le(n, w)) == n
  {
    LeTruncates(n, w);
  }

  lemma {:induction false} UnLeRoundTrip(s: bytes)
    ensures UnLe(s) < Pow256(|s|)
    ensures Le(UnLe(s), |s|) == s
  {
    if s != [] {
      UnLeRoundTrip(s[1..]);
      assert UnLe(s) / 256 == UnLe(s[1..]);
      assert s == [s[0]] + s[1..];
    }
  }

  lemma {:induction false} ReverseAt(s: bytes, k: nat)
    requires k < |s|
    ensures Reverse(s)[k] == s[|s| - 1 - k]
  {
    if k < |s| - 1 {
      ReverseAt(s[1..], k);
    }
  }

  lemma ReverseTwice(s: bytes)
    ensures Reverse(Reverse(s)) == s
  {
    forall k | 0 <= k < |s| ensures Reverse(Reverse(s))[k] == s[k] {
      ReverseAt(Reverse(s), k);
      ReverseAt(s, |s| - 1 - k);
    }
  }

  /** Reversing an array of bytes in place, as the sender does on a big-endian host. */
  method SwapBytes(data: array<byte>)
    modifies data
    ensures data[..] == Reverse(old(data[..]))
  {
    var size := data.Length;
    ghost var was := data[..];
    var i := 0;
    while i < size / 2
      invariant 0 <= i <= size / 2
      invariant forall k :: 0 <= k < i ==> data[k] == was[size - 1 - k] && data[size - 1 - k] == was[k]
      invariant forall k :: i <= k < size - i ==> data[k] == was[k]
    {
      var tmp := data[i];
      data[i] := data[size - 1 - i];
      data[size - 1 - i] := tmp;
      i := i + 1;
    }
    forall k | 0 <= k < size ensures data[..][k] == Reverse(was)[k] {
      ReverseAt(was, k);
    }
  }
}
