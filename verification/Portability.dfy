/** What a big-endian receiver makes of the wire format, where only the sender swaps bytes. */
module Portability {
  import opened Bytes
  import opened Wire
  import opened WireLaws

  // ---------------------------------------------------------------- integers

  /** i_int after o_int: the number itself on a little-endian receiver, its byte reversal on a
      big-endian one, whatever the sender is. */
  lemma IntegerTransfer(h: Host, n: nat, w: nat, rest: bytes)
    requires n < Pow256(w)
    ensures var p := DecInt(h, Le(n, w) + rest, w);
            && p.Got? && p.rest == rest && p.value < Pow256(w)
            && Le(p.value, w) == (if h.endian.Little? then Le(n, w) else Reverse(Le(n, w)))
            && (p.value == n <==> h.endian.Little? || Reverse(Le(n, w)) == Le(n, w))
  {
    DecFixConcat(Le(n, w), rest);
    LeRoundTrip(n, w);
    UnLeRoundTrip(Reverse(Le(n, w)));
  }

  lemma {:induction false} UnLeAtLeast(s: bytes, k: nat)
    requires k < |s| && s[k] > 0
    ensures UnLe(s) >= Pow256(k)
  {
    if k > 0 {
      UnLeAtLeast(s[1..], k - 1);
    }
  }

  lemma {:induction false} PowMonotonic(a: nat, b: nat)
    requires a <= b
    ensures Pow256(a) <= Pow256(b)
  {
    if a < b {
      PowMonotonic(a, b - 1);
    }
  }

  lemma {:induction false} SomeByteSet(n: nat, w: nat, w': nat) returns (k: nat)
    requires 0 < n < Pow256(w) && w <= w'
    ensures k < w && Le(n, w')[k] > 0
  {
    if n % 256 > 0 {
      k := 0;
    } else {
      k := SomeByteSet(n / 256, w - 1, w' - 1);
      k := k + 1;
    }
  }

  /** A count that fits four bytes, read with the wrong byte order, needs more than four. */
  lemma ReversedCountIsHuge(n: nat)
    requires 0 < n < Pow256(4)
    ensures FromMemory(Big, Le(n, 8)) >= Pow256(4)
  {
    var k := SomeByteSet(n, 4, 8);
    ReverseAt(Le(n, 8), 7 - k);
    UnLeAtLeast(Reverse(Le(n, 8)), 7 - k);
    PowMonotonic(4, 7 - k);
  }

  // ---------------------------------------------------------------- trees on a big-endian receiver

  lemma {:induction false} ItemsNeedBytes(h: Host, s: bytes, n: nat, acc: seq<Var>)
    requires n > |s|
    ensures DecItems(h, s, n, acc).Fail?
    decreases n
  {
    var p := DecVar(h, s);
    if p.Got? {
      ItemsNeedBytes(h, p.rest, n - 1, acc + [p.value]);
    }
  }

  lemma {:induction false} EntriesNeedBytes(h: Host, s: bytes, n: nat, acc: seq<Entry>)
    requires n > |s|
    ensures DecEntries(h, s, n, acc).Fail?
    decreases n
  {
    var p := DecEntry(h, s);
    if p.Got? {
      EntriesNeedBytes(h, p.rest, n - 1, Insert(acc, p.value));
    }
  }

  predicate Palindrome(n: nat) {
    Reverse(Le(n, 8)) == Le(n, 8)
  }

  /** The values without a multi-byte field whose byte order shows. */
  predicate OrderNeutral(t: Var)
    requires Representable(t)
  {
    match t
    case Str(s) => |s| <= 254
    case Float(bits) => Palindrome(bits)
    case Int(i) => Palindrome(Pattern(i, 8))
    case List(v) => v == []
    case Map(m) => m == []
    case _ => true
  }

  lemma {:induction false} ZeroBytes(w: nat, k: nat)
    requires k < w
    ensures Le(0, w)[k] == 0
  {
    if k > 0 {
      ZeroBytes(w - 1, k - 1);
    }
  }

  lemma ZeroIsPalindrome()
    ensures FromMemory(Big, Le(0, 8)) == 0
  {
    var z := Le(0, 8);
    forall k | 0 <= k < 8 ensures Reverse(z)[k] == z[k] {
      ReverseAt(z, k);
      ZeroBytes(8, k);
      ZeroBytes(8, 7 - k);
    }
    assert Reverse(z) == z;
    LeRoundTrip(0, 8);
  }

  lemma CountOnBigEndian(o: ArgOrder, n: nat, rest: bytes)
    requires n < Pow256(4)
    ensures var p := DecInt(Host(Big, o), Le(n, 8) + rest, 8);
            && p.Got? && p.rest == rest && p.value == FromMemory(Big, Le(n, 8))
            && (if n == 0 then p.value == 0 else p.value >= Pow256(4))
  {
    DecFixConcat(Le(n, 8), rest);
    if n == 0 {
      ZeroIsPalindrome();
    } else {
      ReversedCountIsHuge(n);
    }
  }

  /** The length of a long string, read with the wrong byte order, is more than will come. */
  lemma LongStrIsCutOff(s: bytes, rest: bytes)
    requires 254 < |s| && |s| + |rest| < Pow256(4)
    ensures FromMemory(Big, Le(|s|, 8)) > |s + rest|
  {
    ReversedCountIsHuge(|s|);
  }

  lemma StrOnBigEndian(o: ArgOrder, s: bytes, rest: bytes)
    requires |EncStr(s)| + |rest| < Pow256(4)
    ensures DecStr(Host(Big, o), EncStr(s) + rest) == Got(s, rest) <==> |s| <= 254
  {
    if |s| <= 254 {
      DecShortStr(Host(Big, o), s, rest);
    } else {
      LongStrIsCutOff(s, rest);
      PowMonotonic(4, 8);
      hide FromMemory, Le, Pow256;
      Regroup([255] + Le(|s|, 8), s, rest);
      DecLongStr(Host(Big, o), |s|, s + rest);
    }
  }

  lemma {:induction false} EachItemTakesBytes(v: seq<Var>)
    requires RepresentableItems(v)
    ensures |EncItems(v)| >= |v|
  {
    if v != [] {
      EachItemTakesBytes(v[1..]);
    }
  }

  lemma {:induction false} EachEntryTakesBytes(m: seq<Entry>)
    requires RepresentableEntries(m)
    ensures |EncEntries(m)| >= |m|
  {
    if m != [] {
      EachEntryTakesBytes(m[1..]);
    }
  }

  lemma ListCountOnBigEndian(o: ArgOrder, n: nat, s: bytes)
    requires n <= |s| < Pow256(4)
    ensures var p := DecBody(Host(Big, o), 6, Le(n, 8) + s);
            if n == 0 then p == Got(List([]), s) else p.Fail?
  {
    CountOnBigEndian(o, n, s);
    if n > 0 {
      ItemsNeedBytes(Host(Big, o), s, FromMemory(Big, Le(n, 8)), []);
    }
  }

  lemma MapCountOnBigEndian(o: ArgOrder, n: nat, s: bytes)
    requires n <= |s| < Pow256(4)
    ensures var p := DecBody(Host(Big, o), 7, Le(n, 8) + s);
            if n == 0 then p == Got(Map([]), s) else p.Fail?
  {
    CountOnBigEndian(o, n, s);
    if n > 0 {
      EntriesNeedBytes(Host(Big, o), s, FromMemory(Big, Le(n, 8)), []);
    }
  }

  lemma ListOnBigEndian(o: ArgOrder, v: seq<Var>, rest: bytes)
    requires RepresentableItems(v) && |EncItems(v)| + |rest| < Pow256(4)
    ensures DecBody(Host(Big, o), 6, Le(|v|, 8) + EncItems(v) + rest) == Got(List(v), rest) <==> v == []
  {
    var s := EncItems(v) + rest;
    assert Le(|v|, 8) + EncItems(v) + rest == Le(|v|, 8) + s;
    EachItemTakesBytes(v);
    ListCountOnBigEndian(o, |v|, s);
    assert v == [] ==> s == rest;
  }

  lemma MapOnBigEndian(o: ArgOrder, m: seq<Entry>, rest: bytes)
    requires RepresentableEntries(m) && |EncEntries(m)| + |rest| < Pow256(4)
    ensures DecBody(Host(Big, o), 7, Le(|m|, 8) + EncEntries(m) + rest) == Got(Map(m), rest) <==> m == []
  {
    var s := EncEntries(m) + rest;
    assert Le(|m|, 8) + EncEntries(m) + rest == Le(|m|, 8) + s;
    EachEntryTakesBytes(m);
    MapCountOnBigEndian(o, |m|, s);
    assert m == [] ==> s == rest;
  }

  lemma ScalarOnBigEndian(o: ArgOrder, t: Var, rest: bytes)
    requires !t.List? && !t.Map? && Representable(t) && |EncBody(t)| + |rest| < Pow256(4)
    ensures DecBody(Host(Big, o), Tag(t), EncBody(t) + rest) == Got(t, rest) <==> OrderNeutral(t)
  {
    var h := Host(Big, o);
    match t
    case Void => assert EncBody(t) + rest == rest;
    case Str(s) => StrOnBigEndian(o, s, rest);
    case Float(bits) => IntegerTransfer(h, bits, 8, rest);
    case Int(i) =>
      PatternRoundTrip(i, 8);
      IntegerTransfer(h, Pattern(i, 8), 8, rest);
      var p := DecInt(h, EncBody(t) + rest, 8);
      if Signed(p.value, 8) == i {
        SignedRoundTrip(p.value, 8);
      }
    case Char(c) => DecFixConcat([c], rest);
    case Bool(b) => DecBoolRoundTrip(b, rest);
  }

  /** On a big-endian receiver and a stream under 4 GiB, exactly the order-neutral values arrive. */
  lemma BigEndianExactly(o: ArgOrder, t: Var, rest: bytes)
    requires Representable(t) && |EncVar(t)| + |rest| < Pow256(4)
    ensures DecVar(Host(Big, o), EncVar(t) + rest) == Got(t, rest) <==> OrderNeutral(t)
  {
    TagFirst(Host(Big, o), t, rest);
    match t
    case List(v) => ListOnBigEndian(o, v, rest);
    case Map(m) => MapOnBigEndian(o, m, rest);
    case _ => ScalarOnBigEndian(o, t, rest);
  }

  /** Without the bound, every order-neutral value still arrives. */
  lemma OrderNeutralArrives(o: ArgOrder, t: Var, rest: bytes)
    requires Representable(t) && OrderNeutral(t)
    ensures DecVar(Host(Big, o), EncVar(t) + rest) == Got(t, rest)
  {
    var h := Host(Big, o);
    TagFirst(h, t, rest);
    match t
    case Void => assert EncBody(t) + rest == rest;
    case Str(s) => DecShortStr(h, s, rest);
    case Float(bits) => IntegerTransfer(h, bits, 8, rest);
    case Int(i) =>
      PatternRoundTrip(i, 8);
      IntegerTransfer(h, Pattern(i, 8), 8, rest);
    case Char(c) => DecFixConcat([c], rest);
    case Bool(b) => DecBoolRoundTrip(b, rest);
    case List(v) => EmptyArrives(o, rest);
    case Map(m) => EmptyArrives(o, rest);
  }

  lemma EmptyArrives(o: ArgOrder, rest: bytes)
    ensures DecBody(Host(Big, o), 6, Le(0, 8) + [] + rest) == Got(List([]), rest)
    ensures DecBody(Host(Big, o), 7, Le(0, 8) + [] + rest) == Got(Map([]), rest)
  {
    assert Le(0, 8) + [] == Le(0, 8);
    CountOnBigEndian(o, 0, rest);
  }

  /** 2^24 + 2^32, the smallest count above 0 that is its own byte reversal. */
  const PALINDROME_COUNT: nat := 0x1_0100_0000

  lemma CountBytes()
    ensures Le(PALINDROME_COUNT, 8) == [0, 0, 0, 1, 1, 0, 0, 0]
  {
    hide Le;
    assert PALINDROME_COUNT == 256 * (256 * (256 * 0x101));
    LeHead(256 * (256 * 0x101), 0, 8);
    LeHead(256 * 0x101, 0, 7);
    LeHead(0x101, 0, 6);
    LeHead(1, 1, 5);
    LeHead(0, 1, 4);
    LeHead(0, 0, 3);
    LeHead(0, 0, 2);
    LeHead(0, 0, 1);
  }

  lemma CountIsPalindrome()
    ensures PALINDROME_COUNT < Pow256(8)
    ensures FromMemory(Big, Le(PALINDROME_COUNT, 8)) == PALINDROME_COUNT
  {
    hide Le, UnLe, Reverse;
    var n := PALINDROME_COUNT;
    var s := Le(n, 8);
    CountBytes();
    forall k | 0 <= k < 8 ensures Reverse(s)[k] == s[k] {
      ReverseAt(s, k);
    }
    assert Reverse(s) == s;
    assert Pow256(5) == 256 * 256 * 256 * 256 * 256;
    PowMonotonic(5, 8);
    LeRoundTrip(n, 8);
  }

  function Voids(n: nat): (v: seq<Var>)
    ensures |v| == n && RepresentableItems(v)
  {
    if n == 0 then [] else [Void] + Voids(n - 1)
  }

  lemma VoidArrives(h: Host, rest: bytes)
    ensures DecVar(h, [0] + rest) == Got(Void, rest)
  {
    DecFixConcat([0], rest);
  }

  lemma {:induction false} VoidsArrive(h: Host, n: nat, acc: seq<Var>, rest: bytes)
    ensures DecItems(h, EncItems(Voids(n)) + rest, n, acc) == Got(acc + Voids(n), rest)
  {
    if n == 0 {
      assert EncItems(Voids(n)) + rest == rest && acc + Voids(n) == acc;
    } else {
      var v, tail := Voids(n), EncItems(Voids(n - 1)) + rest;
      assert v[0] == Void && v[1..] == Voids(n - 1);
      assert EncVar(Void) == [0];
      assert EncItems(v) + rest == [0] + tail;
      VoidArrives(h, tail);
      VoidsArrive(h, n - 1, acc + [Void], rest);
      assert acc + [Void] + Voids(n - 1) == acc + Voids(n);
    }
  }

  /** So the bound of BigEndianExactly is needed: a list of that many voids, over 4 GiB of them, is
      not order-neutral and arrives all the same. */
  lemma HugeListArrives(o: ArgOrder, rest: bytes)
    ensures var t := List(Voids(PALINDROME_COUNT));
            && Representable(t) && !OrderNeutral(t)
            && DecVar(Host(Big, o), EncVar(t) + rest) == Got(t, rest)
  {
    var h, n := Host(Big, o), PALINDROME_COUNT;
    CountIsPalindrome();
    HugeBodyArrives(h, n, rest);
    TagFirst(h, List(Voids(n)), rest);
  }

  lemma HugeBodyArrives(h: Host, n: nat, rest: bytes)
    requires h.endian.Big? && n < Pow256(8) && FromMemory(Big, Le(n, 8)) == n
    ensures DecBody(h, 6, EncBody(List(Voids(n))) + rest) == Got(List(Voids(n)), rest)
  {
    hide Le, FromMemory, Pow256, Voids;
    var s := EncItems(Voids(n));
    Regroup(Le(n, 8), s, rest);
    DecFixConcat(Le(n, 8), s + rest);
    VoidsArrive(h, n, [], rest);
    assert [] + Voids(n) == Voids(n);
  }
}
