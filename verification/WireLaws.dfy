/** What the wire format of simple_socket guarantees. */
module WireLaws {
  import opened Bytes
  import opened BaseIo
  import opened Wire

  // ---------------------------------------------------------------- order of map keys

  lemma {:induction false} LessIrreflexive(a: bytes)
    ensures !Less(a, a)
  {
    if a != [] {
      LessIrreflexive(a[1..]);
    }
  }

  lemma {:induction false} LessTransitive(a: bytes, b: bytes, c: bytes)
    requires Less(a, b) && Less(b, c)
    ensures Less(a, c)
  {
    if a != [] && a[0] == b[0] && b[0] == c[0] {
      LessTransitive(a[1..], b[1..], c[1..]);
    }
  }

  lemma {:induction false} LessTotal(a: bytes, b: bytes)
    requires a != b
    ensures Less(a, b) || Less(b, a)
  {
    if a != [] && b != [] && a[0] == b[0] {
      assert a == [a[0]] + a[1..] && b == [b[0]] + b[1..];
      LessTotal(a[1..], b[1..]);
    }
  }

  /** Which order it is. */
  lemma {:induction false} LessExactly(a: bytes, b: bytes)
    ensures Less(a, b) <==> Precedes(a, b)
  {
    if a == [] || b == [] || a[0] != b[0] {
      if Less(a, b) {
        assert PrecedesAt(a, b, 0);
      }
      assert forall k: nat :: 0 < k <= |a| && k <= |b| ==> a[..k][0] == a[0] && b[..k][0] == b[0];
    } else {
      LessExactly(a[1..], b[1..]);
      if Less(a, b) {
        var k: nat :| PrecedesAt(a[1..], b[1..], k);
        assert a[..k + 1] == [a[0]] + a[1..][..k] && b[..k + 1] == [b[0]] + b[1..][..k];
        assert PrecedesAt(a, b, k + 1);
      }
      if k: nat :| PrecedesAt(a, b, k) {
        assert k > 0;
        assert a[1..][..k - 1] == a[..k][1..] && b[1..][..k - 1] == b[..k][1..];
        assert PrecedesAt(a[1..], b[1..], k - 1);
      }
    }
  }

  lemma SortedAscends(m: seq<Entry>)
    requires Sorted(m)
    ensures Ascending(m)
  {
    hide Precedes, Less;
    forall i, j | 0 <= i < j < |m| ensures Precedes(m[i].key, m[j].key) {
      LessExactly(m[i].key, m[j].key);
    }
  }

  lemma SortedTail(m: seq<Entry>)
    requires m != [] && Sorted(m)
    ensures Sorted(m[1..])
  {
  }

  /** Inserting entries in key order appends them: a map is rebuilt from its own iteration. */
  lemma {:induction false} InsertAtEnd(m: seq<Entry>, e: Entry)
    requires Sorted(m + [e])
    ensures Insert(m, e) == m + [e]
  {
    if m != [] {
      assert Less((m + [e])[0].key, (m + [e])[|m|].key);
      if m[0].key == e.key {
        LessIrreflexive(e.key);
        assert false;
      }
      if Less(e.key, m[0].key) {
        LessTransitive(m[0].key, e.key, m[0].key);
        LessIrreflexive(m[0].key);
        assert false;
      }
      assert m[1..] + [e] == (m + [e])[1..];
      SortedTail(m + [e]);
      InsertAtEnd(m[1..], e);
      assert m == [m[0]] + m[1..];
    }
  }

  lemma InsertNext(acc: seq<Entry>, m: seq<Entry>)
    requires m != [] && Sorted(acc + m)
    ensures Insert(acc, m[0]) == acc + [m[0]]
    ensures acc + [m[0]] + m[1..] == acc + m
  {
    assert acc + [m[0]] == (acc + m)[..|acc| + 1];
    InsertAtEnd(acc, m[0]);
  }

  // ---------------------------------------------------------------- scalars

  lemma DecFixConcat(a: bytes, rest: bytes)
    ensures DecFix(a + rest, |a|) == Got(a, rest)
  {
    assert (a + rest)[..|a|] == a && (a + rest)[|a|..] == rest;
  }

  lemma DecIntRoundTrip(h: Host, n: nat, w: nat, rest: bytes)
    requires h.endian.Little? && n < Pow256(w)
    ensures DecInt(h, Le(n, w) + rest, w) == Got(n, rest)
  {
    DecFixConcat(Le(n, w), rest);
    LeRoundTrip(n, w);
  }

  lemma DecLongStr(h: Host, n: nat, tail: bytes)
    requires n < Pow256(8)
    ensures DecStr(h, [255] + Le(n, 8) + tail) == DecFix(tail, FromMemory(h.endian, Le(n, 8)))
  {
    assert [255] + Le(n, 8) + tail == [255] + (Le(n, 8) + tail);
    DecFixConcat([255], Le(n, 8) + tail);
    DecFixConcat(Le(n, 8), tail);
  }

  lemma DecShortStr(h: Host, s: bytes, rest: bytes)
    requires |s| <= 254
    ensures DecStr(h, EncStr(s) + rest) == Got(s, rest)
  {
    assert EncStr(s) + rest == [|s| as byte] + (s + rest);
    DecFixConcat([|s| as byte], s + rest);
    DecFixConcat(s, rest);
  }

  lemma DecStrRoundTrip(h: Host, s: bytes, rest: bytes)
    requires |s| <= 254 || (h.endian.Little? && |s| < Pow256(8))
    ensures DecStr(h, EncStr(s) + rest) == Got(s, rest)
  {
    if |s| <= 254 {
      DecShortStr(h, s, rest);
    } else {
      assert EncStr(s) + rest == [255] + Le(|s|, 8) + (s + rest);
      DecLongStr(h, |s|, s + rest);
      LeRoundTrip(|s|, 8);
      DecFixConcat(s, rest);
    }
  }

  lemma DecBoolRoundTrip(b: bool, rest: bytes)
    ensures DecBool(EncBool(b) + rest) == Got(b, rest)
  {
    DecFixConcat(EncBool(b), rest);
  }

  // ---------------------------------------------------------------- round trip

  lemma TagFirst(h: Host, t: Var, rest: bytes)
    requires Representable(t)
    ensures DecVar(h, EncVar(t) + rest) == DecBody(h, Tag(t), EncBody(t) + rest)
  {
    hide EncBody, DecBody, Tag;
    Regroup([Tag(t)], EncBody(t), rest);
    DecFixConcat([Tag(t)], EncBody(t) + rest);
  }

  /** i_var undoes o_var and leaves exactly the bytes behind the value: on a little-endian
      receiver, for every value when map entries are read key first. */
  lemma {:induction false} RoundTrip(h: Host, t: Var, rest: bytes)
    requires h.endian.Little? && Representable(t) && KeepsOrder(h, t)
    ensures DecVar(h, EncVar(t) + rest) == Got(t, rest)
    decreases t, 2
  {
    TagFirst(h, t, rest);
    match t
    case List(v) => ListRoundTrip(h, v, rest);
    case Map(m) => MapRoundTrip(h, m, rest);
    case _ => ScalarRoundTrip(h, t, rest);
  }

  lemma ScalarRoundTrip(h: Host, t: Var, rest: bytes)
    requires h.endian.Little? && !t.List? && !t.Map? && Representable(t)
    ensures DecBody(h, Tag(t), EncBody(t) + rest) == Got(t, rest)
  {
    match t
    case Void => assert EncBody(t) + rest == rest;
    case Str(s) => DecStrRoundTrip(h, s, rest);
    case Float(bits) => DecIntRoundTrip(h, bits, 8, rest);
    case Int(i) =>
      PatternRoundTrip(i, 8);
      DecIntRoundTrip(h, Pattern(i, 8), 8, rest);
    case Char(c) => DecFixConcat([c], rest);
    case Bool(b) => DecBoolRoundTrip(b, rest);
  }

  lemma {:induction false} ListRoundTrip(h: Host, v: seq<Var>, rest: bytes)
    requires h.endian.Little? && Representable(List(v)) && KeepsOrder(h, List(v))
    ensures DecBody(h, 6, EncBody(List(v)) + rest) == Got(List(v), rest)
    decreases v, 1
  {
    assert EncBody(List(v)) + rest == Le(|v|, 8) + (EncItems(v) + rest);
    DecIntRoundTrip(h, |v|, 8, EncItems(v) + rest);
    ItemsRoundTrip(h, v, [], rest);
    assert [] + v == v;
  }

  lemma {:induction false} ItemsRoundTrip(h: Host, v: seq<Var>, acc: seq<Var>, rest: bytes)
    requires h.endian.Little? && RepresentableItems(v) && forall x :: x in v ==> KeepsOrder(h, x)
    ensures DecItems(h, EncItems(v) + rest, |v|, acc) == Got(acc + v, rest)
    decreases v, 0
  {
    hide EncVar, DecVar, KeepsOrder;
    if v == [] {
      assert EncItems(v) + rest == rest && acc + v == acc;
    } else {
      var tail := EncItems(v[1..]) + rest;
      assert EncItems(v) + rest == EncVar(v[0]) + tail;
      RoundTrip(h, v[0], tail);
      ItemsRoundTrip(h, v[1..], acc + [v[0]], rest);
      assert acc + [v[0]] + v[1..] == acc + v;
    }
  }

  lemma {:induction false} MapRoundTrip(h: Host, m: seq<Entry>, rest: bytes)
    requires h.endian.Little? && Representable(Map(m)) && KeepsOrder(h, Map(m))
    ensures DecBody(h, 7, EncBody(Map(m)) + rest) == Got(Map(m), rest)
    decreases m, 1
  {
    assert EncBody(Map(m)) + rest == Le(|m|, 8) + (EncEntries(m) + rest);
    DecIntRoundTrip(h, |m|, 8, EncEntries(m) + rest);
    assert [] + m == m;
    EntriesRoundTrip(h, [], m, rest);
  }

  lemma {:induction false} EntryRoundTrip(h: Host, e: Entry, rest: bytes)
    requires h == PC && |e.key| < Pow256(8) && Representable(e.val)
    ensures DecEntry(h, EncEntry(e) + rest) == Got(e, rest)
    decreases e
  {
    assert EncEntry(e) + rest == EncStr(e.key) + (EncVar(e.val) + rest);
    DecStrRoundTrip(h, e.key, EncVar(e.val) + rest);
    RoundTrip(h, e.val, rest);
  }

  lemma {:induction false} EntriesRoundTrip(h: Host, acc: seq<Entry>, m: seq<Entry>, rest: bytes)
    requires (h == PC || m == []) && RepresentableEntries(m) && Sorted(acc + m)
    ensures DecEntries(h, EncEntries(m) + rest, |m|, acc) == Got(acc + m, rest)
    decreases m, 0
  {
    if m == [] {
      assert EncEntries(m) + rest == rest && acc + m == acc;
    } else {
      var tail := EncEntries(m[1..]) + rest;
      assert EncEntries(m) + rest == EncEntry(m[0]) + tail;
      EntryRoundTrip(h, m[0], tail);
      InsertNext(acc, m);
      EntriesRoundTrip(h, acc + [m[0]], m[1..], rest);
    }
  }

  // ---------------------------------------------------------------- truncation

  /** The same outcome on a longer stream. */
  function Extend<T>(p: Parse<T>, x: bytes): Parse<T> {
    match p
    case Got(v, r) => Got(v, r + x)
    case Fail(e, r) => Fail(e, r + x)
  }

  /** Decided before the end of the stream. */
  predicate Decided<T>(p: Parse<T>) {
    p.Got? || p.error != ReadError
  }

  lemma DecFixExtends(s: bytes, n: nat, x: bytes)
    requires n <= |s|
    ensures DecFix(s + x, n) == Extend(DecFix(s, n), x)
  {
    assert (s + x)[..n] == s[..n] && (s + x)[n..] == s[n..] + x;
  }

  lemma DecIntExtends(h: Host, s: bytes, w: nat, x: bytes)
    requires w <= |s|
    ensures DecInt(h, s + x, w) == Extend(DecInt(h, s, w), x)
  {
    DecFixExtends(s, w, x);
  }

  lemma DecStrExtends(h: Host, s: bytes, x: bytes)
    requires DecStr(h, s).Got?
    ensures DecStr(h, s + x) == Extend(DecStr(h, s), x)
  {
    DecFixExtends(s, 1, x);
    var r := s[1..];
    if s[0] == 255 {
      DecIntExtends(h, r, 8, x);
      var n := DecInt(h, r, 8);
      DecFixExtends(n.rest, n.value, x);
    } else {
      DecFixExtends(r, s[0], x);
    }
  }

  /** A decoder that has made up its mind does not look at what follows. */
  lemma {:induction false} DecVarExtends(h: Host, s: bytes, x: bytes)
    requires Decided(DecVar(h, s))
    ensures DecVar(h, s + x) == Extend(DecVar(h, s), x)
    decreases |s|, 1, 0
  {
    DecFixExtends(s, 1, x);
    DecBodyExtends(h, s[0], s[1..], x);
  }

  lemma {:induction false} DecBodyExtends(h: Host, tag: byte, r: bytes, x: bytes)
    requires Decided(DecBody(h, tag, r))
    ensures DecBody(h, tag, r + x) == Extend(DecBody(h, tag, r), x)
    decreases |r|, 4, 0
  {
    match tag
    case 1 => DecStrExtends(h, r, x);
    case 2 => DecIntExtends(h, r, 8, x);
    case 3 => DecIntExtends(h, r, 8, x);
    case 4 => DecFixExtends(r, 1, x);
    case 5 => DecFixExtends(r, 1, x);
    case 6 =>
      DecIntExtends(h, r, 8, x);
      DecItemsExtends(h, r[8..], DecInt(h, r, 8).value, [], x);
    case 7 =>
      DecIntExtends(h, r, 8, x);
      DecEntriesExtends(h, r[8..], DecInt(h, r, 8).value, [], x);
    case _ =>
  }

  lemma {:induction false} DecItemsExtends(h: Host, s: bytes, n: nat, acc: seq<Var>, x: bytes)
    requires Decided(DecItems(h, s, n, acc))
    ensures DecItems(h, s + x, n, acc) == Extend(DecItems(h, s, n, acc), x)
    decreases |s|, 2, n
  {
    if n != 0 {
      DecVarExtends(h, s, x);
      var p := DecVar(h, s);
      if p.Got? {
        DecItemsExtends(h, p.rest, n - 1, acc + [p.value], x);
      }
    }
  }

  lemma {:induction false} DecEntryExtends(h: Host, s: bytes, x: bytes)
    requires Decided(DecEntry(h, s))
    ensures DecEntry(h, s + x) == Extend(DecEntry(h, s), x)
    decreases |s|, 2, 0
  {
    match h.order
    case KeyFirst =>
      DecStrExtends(h, s, x);
      DecVarExtends(h, DecStr(h, s).rest, x);
    case ValueFirst =>
      DecVarExtends(h, s, x);
      var p := DecVar(h, s);
      if p.Got? {
        DecStrExtends(h, p.rest, x);
      }
  }

  lemma {:induction false} DecEntriesExtends(h: Host, s: bytes, n: nat, acc: seq<Entry>, x: bytes)
    requires Decided(DecEntries(h, s, n, acc))
    ensures DecEntries(h, s + x, n, acc) == Extend(DecEntries(h, s, n, acc), x)
    decreases |s|, 3, n
  {
    if n != 0 {
      DecEntryExtends(h, s, x);
      var p := DecEntry(h, s);
      if p.Got? {
        DecEntriesExtends(h, p.rest, n - 1, Insert(acc, p.value), x);
      }
    }
  }

  /** A cut-off encoding is always a read error, never a value. */
  lemma TruncationIsReadError(t: Var, cut: nat)
    requires Representable(t) && cut < |EncVar(t)|
    ensures DecVar(PC, EncVar(t)[..cut]) == Fail(ReadError, [])
  {
    var s, x := EncVar(t)[..cut], EncVar(t)[cut..];
    assert s + x == EncVar(t) == EncVar(t) + [];
    RoundTrip(PC, t, []);
    if Decided(DecVar(PC, s)) {
      DecVarExtends(PC, s, x);
      assert false;
    }
  }

  lemma SamePrefix(t: Var, u: Var)
    requires Representable(t) && Representable(u) && EncVar(t) <= EncVar(u)
    ensures t == u
  {
    hide Representable, EncVar, DecVar;
    var x := EncVar(u)[|EncVar(t)|..];
    assert EncVar(u) == EncVar(t) + x;
    assert EncVar(u) == EncVar(u) + [];
    RoundTrip(PC, t, x);
    RoundTrip(PC, u, []);
  }

  /** No encoding is a prefix of another, so equal streams hold equal values. */
  lemma PrefixFree(t: Var, u: Var)
    requires Representable(t) && Representable(u)
    ensures EncVar(t) <= EncVar(u) <==> t == u
  {
    if EncVar(t) <= EncVar(u) {
      SamePrefix(t, u);
    }
  }
}
