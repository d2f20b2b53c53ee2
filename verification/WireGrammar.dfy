/** The wire format as a grammar: which bytes are a form of a value. It shares nothing with the
    decoder, and the decoder accepts exactly its forms. */
module WireGrammar {
  import opened Bytes
  import opened Wire
  import opened WireLaws
  import opened WireCanonical

  // ---------------------------------------------------------------- forms

  /** A string is its length in one byte, up to 254, or in eight bytes behind 255, and its bytes. */
  predicate StrForm(h: Host, x: bytes, f: bytes) {
    || (|x| <= 254 && f == [|x| as byte] + x)
    || (|x| < Pow256(8) && f == [255] + ToMemory(h.endian, |x|, 8) + x)
  }

  ghost predicate VarForm(h: Host, t: Var, f: bytes)
    decreases |f|, 0
  {
    match t
    case Void => f == [0]
    case Str(x) => f != [] && f[0] == 1 && StrForm(h, x, f[1..])
    case Float(bits) => bits < Pow256(8) && f == [2] + ToMemory(h.endian, bits, 8)
    case Int(i) =>
      0 - Pow256(8) <= 2 * i < Pow256(8) && f == [3] + ToMemory(h.endian, if i < 0 then i + Pow256(8) else i, 8)
    case Char(c) => f == [4, c]
    case Bool(b) => f == [5, if b then 1 else 0]
    case List(v) => |v| < Pow256(8) && [6] + ToMemory(h.endian, |v|, 8) <= f && ItemsForm(h, v, f[9..])
    case Map(m) =>
      exists es: seq<Entry> ::
        && |es| < Pow256(8) && [7] + ToMemory(h.endian, |es|, 8) <= f
        && EntriesForm(h, es, f[9..]) && Collects(m, es)
  }

  /** The forms of the items, one behind the other. */
  ghost predicate ItemsForm(h: Host, v: seq<Var>, f: bytes)
    decreases |f|, 1
  {
    if v == [] then f == []
    else exists k :: 0 < k <= |f| && VarForm(h, v[0], f[..k]) && ItemsForm(h, v[1..], f[k..])
  }

  /** Key and value of an entry, in the order in which the build evaluates them. */
  ghost predicate EntryForm(h: Host, e: Entry, f: bytes)
    decreases |f|, 1
  {
    if h.order.KeyFirst? then exists k :: 0 <= k <= |f| && StrForm(h, e.key, f[..k]) && VarForm(h, e.val, f[k..])
    else exists k :: 0 <= k <= |f| && VarForm(h, e.val, f[..k]) && StrForm(h, e.key, f[k..])
  }

  ghost predicate EntriesForm(h: Host, es: seq<Entry>, f: bytes)
    decreases |f|, 2
  {
    if es == [] then f == []
    else exists k :: 0 < k <= |f| && EntryForm(h, es[0], f[..k]) && EntriesForm(h, es[1..], f[k..])
  }

  /** The map of a list of entries: the first one for each key, in ascending order of the keys. */
  ghost predicate Collects(m: seq<Entry>, es: seq<Entry>) {
    && Ascending(m)
    && forall e :: e in m <==> exists i :: 0 <= i < |es| && es[i] == e && forall j :: 0 <= j < i ==> es[j].key != e.key
  }

  // ---------------------------------------------------------------- numbers and strings

  lemma DecIntExactly(h: Host, s: bytes, w: nat, n: nat, rest: bytes)
    ensures DecInt(h, s, w) == Got(n, rest) <==> n < Pow256(w) && s == ToMemory(h.endian, n, w) + rest
  {
    if n < Pow256(w) && s == ToMemory(h.endian, n, w) + rest {
      DecFixConcat(ToMemory(h.endian, n, w), rest);
      ReverseTwice(Le(n, w));
      LeRoundTrip(n, w);
    }
    if DecInt(h, s, w) == Got(n, rest) {
      var b := s[..w];
      FromMemoryBound(h.endian, b);
      UnLeRoundTrip(b);
      UnLeRoundTrip(Reverse(b));
      ReverseTwice(b);
      assert s == b + rest;
    }
  }

  lemma StrIsForm(h: Host, s: bytes) returns (f: bytes)
    requires DecStr(h, s).Got?
    ensures s == f + DecStr(h, s).rest && StrForm(h, DecStr(h, s).value, f)
  {
    hide ToMemory, FromMemory, Pow256;
    var x, rest := DecStr(h, s).value, DecStr(h, s).rest;
    if s[0] == 255 {
      var n := DecInt(h, s[1..], 8);
      DecIntExactly(h, s[1..], 8, n.value, n.rest);
      var c := ToMemory(h.endian, |x|, 8);
      assert s == [255] + s[1..];
      assert n.rest == x + rest;
      f := [255] + c + x;
      Regroup([255], c, x + rest);
      Regroup([255] + c, x, rest);
    } else {
      f := [|x| as byte] + x;
      assert s == f + rest;
    }
  }

  lemma StrFormDecodes(h: Host, x: bytes, f: bytes, rest: bytes)
    requires StrForm(h, x, f)
    ensures DecStr(h, f + rest) == Got(x, rest)
  {
    DecFixConcat(x, rest);
    if |x| <= 254 && f == [|x| as byte] + x {
      Regroup([|x| as byte], x, rest);
      DecFixConcat([|x| as byte], x + rest);
    } else {
      var c := ToMemory(h.endian, |x|, 8);
      Regroup([255] + c, x, rest);
      Regroup([255], c, x + rest);
      DecFixConcat([255], c + (x + rest));
      DecIntExactly(h, c + (x + rest), 8, |x|, x + rest);
    }
  }

  // ---------------------------------------------------------------- maps

  /** What insertion after insertion makes of a list of entries. */
  function Inserted(acc: seq<Entry>, es: seq<Entry>): seq<Entry>
    decreases |es|
  {
    if es == [] then acc else Inserted(Insert(acc, es[0]), es[1..])
  }

  predicate HasKey(m: seq<Entry>, key: bytes) {
    exists e :: e in m && e.key == key
  }

  lemma {:induction false} InsertMembers(m: seq<Entry>, e: Entry, g: Entry)
    requires Sorted(m)
    ensures g in Insert(m, e) <==> g in m || (g == e && !HasKey(m, e.key))
  {
    InsertKeepsOrder(m, e);
    if g in m {
      var i :| 0 <= i < |m| && m[i] == g;
      FirstInsertWins(m, e, i);
    }
    if HasKey(m, e.key) {
      var o :| o in m && o.key == e.key;
      var i :| 0 <= i < |m| && m[i] == o;
      FirstInsertWins(m, e, i);
    } else {
      NewIsInserted(m, e);
    }
  }

  lemma {:induction false} NewIsInserted(m: seq<Entry>, e: Entry)
    requires !HasKey(m, e.key)
    ensures e in Insert(m, e)
  {
    if m != [] {
      assert m[0] in m;
      assert forall o :: o in m[1..] ==> o in m;
      NewIsInserted(m[1..], e);
    }
  }

  /** The first entry for its key in `es`, with no such key in `acc`. */
  predicate FirstFor(acc: seq<Entry>, es: seq<Entry>, e: Entry) {
    && !HasKey(acc, e.key)
    && exists i :: 0 <= i < |es| && es[i] == e && forall j :: 0 <= j < i ==> es[j].key != e.key
  }

  lemma FirstForStep(acc: seq<Entry>, es: seq<Entry>, e: Entry)
    requires Sorted(acc) && es != []
    ensures (e in acc || FirstFor(acc, es, e))
       <==> (e in Insert(acc, es[0]) || FirstFor(Insert(acc, es[0]), es[1..], e))
  {
    InsertMembers(acc, es[0], e);
    assert HasKey(Insert(acc, es[0]), e.key) <==> HasKey(acc, e.key) || es[0].key == e.key by {
      forall g ensures g in Insert(acc, es[0]) <==> g in acc || (g == es[0] && !HasKey(acc, es[0].key)) {
        InsertMembers(acc, es[0], g);
      }
    }
    if FirstFor(acc, es, e) {
      var i :| 0 <= i < |es| && es[i] == e && forall j :: 0 <= j < i ==> es[j].key != e.key;
      if i > 0 {
        assert es[0].key != e.key && es[1..][i - 1] == e;
        assert forall j :: 0 <= j < i - 1 ==> es[1..][j].key != e.key;
      }
    }
    if FirstFor(Insert(acc, es[0]), es[1..], e) {
      var i :| 0 <= i < |es[1..]| && es[1..][i] == e && forall j :: 0 <= j < i ==> es[1..][j].key != e.key;
      assert es[i + 1] == e;
      assert forall j :: 0 <= j < i + 1 ==> es[j].key != e.key by {
        assert forall j :: 1 <= j < i + 1 ==> es[j] == es[1..][j - 1];
      }
    }
  }

  lemma {:induction false} InsertedExactly(acc: seq<Entry>, es: seq<Entry>)
    requires Sorted(acc)
    ensures Sorted(Inserted(acc, es))
    ensures forall e :: e in Inserted(acc, es) <==> e in acc || FirstFor(acc, es, e)
    decreases |es|
  {
    if es != [] {
      InsertKeepsOrder(acc, es[0]);
      InsertedExactly(Insert(acc, es[0]), es[1..]);
      forall e ensures e in Inserted(acc, es) <==> e in acc || FirstFor(acc, es, e) {
        FirstForStep(acc, es, e);
      }
    }
  }

  lemma AscendsSorted(m: seq<Entry>)
    ensures Ascending(m) <==> Sorted(m)
  {
    hide Precedes, Less;
    forall i, j | 0 <= i < j < |m| ensures Precedes(m[i].key, m[j].key) <==> Less(m[i].key, m[j].key) {
      LessExactly(m[i].key, m[j].key);
    }
  }

  lemma LeastFirst(a: seq<Entry>, b: seq<Entry>)
    requires Sorted(a) && Sorted(b) && a != [] && b != [] && a[0] in b && b[0] in a
    ensures a[0] == b[0]
  {
    var i :| 0 <= i < |b| && b[i] == a[0];
    var j :| 0 <= j < |a| && a[j] == b[0];
    if i > 0 && j > 0 {
      assert Less(b[0].key, b[i].key) && Less(a[0].key, a[j].key);
      LessTransitive(a[0].key, b[0].key, a[0].key);
      LessIrreflexive(a[0].key);
      assert false;
    }
  }

  lemma {:induction false} SortedUnique(a: seq<Entry>, b: seq<Entry>)
    requires Sorted(a) && Sorted(b) && forall e :: e in a <==> e in b
    ensures a == b
  {
    if b != [] {
      assert b[0] in b;
    }
    if a != [] {
      assert a[0] in a;
      LeastFirst(a, b);
      forall e ensures e in a[1..] <==> e in b[1..] {
        TailMembers(a, e);
        TailMembers(b, e);
      }
      SortedTail(a);
      SortedTail(b);
      SortedUnique(a[1..], b[1..]);
      assert a == [a[0]] + a[1..] && b == [b[0]] + b[1..];
    }
  }

  lemma TailMembers(a: seq<Entry>, e: Entry)
    requires Sorted(a) && a != []
    ensures e in a[1..] <==> e in a && e != a[0]
  {
    LessIrreflexive(e.key);
    if e in a[1..] {
      var i :| 0 <= i < |a| - 1 && a[1..][i] == e;
      assert Less(a[0].key, a[i + 1].key);
    }
    if e in a && e != a[0] {
      var i :| 0 <= i < |a| && a[i] == e;
      assert a[1..][i - 1] == e;
    }
  }

  /** Counted insertions collect the list. */
  lemma CollectsExactly(m: seq<Entry>, es: seq<Entry>)
    ensures Collects(m, es) <==> m == Inserted([], es)
  {
    InsertedExactly([], es);
    AscendsSorted(m);
    AscendsSorted(Inserted([], es));
    assert forall e :: FirstFor([], es, e) <==>
      exists i :: 0 <= i < |es| && es[i] == e && forall j :: 0 <= j < i ==> es[j].key != e.key;
    if Collects(m, es) {
      SortedUnique(m, Inserted([], es));
    }
  }

  // ---------------------------------------------------------------- forms decode

  lemma TagDecodes(h: Host, tag: byte, body: bytes, rest: bytes)
    ensures DecVar(h, [tag] + body + rest) == DecBody(h, tag, body + rest)
  {
    hide DecBody;
    Regroup([tag], body, rest);
    DecFixConcat([tag], body + rest);
  }

  lemma CountSplits(tag: byte, c: bytes, f: bytes)
    requires |c| == 8 && [tag] + c <= f
    ensures f == [tag] + (c + f[9..])
  {
    assert f[..9] == [tag] + c;
    Regroup([tag], c, f[9..]);
  }

  lemma ScalarFormDecodes(h: Host, t: Var, f: bytes, rest: bytes)
    requires VarForm(h, t, f) && !t.List? && !t.Map?
    ensures DecVar(h, f + rest) == Got(t, rest)
  {
    hide ToMemory, FromMemory, Pow256, DecStr, DecInt, DecItems, DecEntries, StrForm, DecFix;
    var e := h.endian;
    match t
    case Void =>
      TagDecodes(h, 0, [], rest);
      assert [0] + [] == [0] && [] + rest == rest;
    case Str(x) =>
      TagDecodes(h, 1, f[1..], rest);
      assert f == [1] + f[1..];
      StrFormDecodes(h, x, f[1..], rest);
    case Float(bits) =>
      TagDecodes(h, 2, ToMemory(e, bits, 8), rest);
      DecIntExactly(h, ToMemory(e, bits, 8) + rest, 8, bits, rest);
    case Int(i) =>
      var u := if i < 0 then i + Pow256(8) else i;
      TagDecodes(h, 3, ToMemory(e, u, 8), rest);
      DecIntExactly(h, ToMemory(e, u, 8) + rest, 8, u, rest);
    case Char(c) =>
      TagDecodes(h, 4, [c], rest);
      assert f == [4] + [c];
      DecFixConcat([c], rest);
    case Bool(b) =>
      TagDecodes(h, 5, EncBool(b), rest);
      assert f == [5] + EncBool(b);
      DecBoolRoundTrip(b, rest);
  }

  lemma {:induction false} ListFormDecodes(h: Host, v: seq<Var>, f: bytes, rest: bytes)
    requires |v| < Pow256(8) && [6] + ToMemory(h.endian, |v|, 8) <= f && ItemsForm(h, v, f[9..])
    ensures DecVar(h, f + rest) == Got(List(v), rest)
    decreases |f|, 0
  {
    hide ToMemory, Pow256, DecInt, DecItems, ItemsForm;
    var c := ToMemory(h.endian, |v|, 8);
    CountSplits(6, c, f);
    TagDecodes(h, 6, c + f[9..], rest);
    Regroup(c, f[9..], rest);
    DecIntExactly(h, c + (f[9..] + rest), 8, |v|, f[9..] + rest);
    ItemsFormDecodes(h, v, f[9..], [], rest);
    assert [] + v == v;
  }

  lemma {:induction false} MapFormDecodes(h: Host, es: seq<Entry>, f: bytes, rest: bytes)
    requires |es| < Pow256(8) && [7] + ToMemory(h.endian, |es|, 8) <= f && EntriesForm(h, es, f[9..])
    ensures DecVar(h, f + rest) == Got(Map(Inserted([], es)), rest)
    decreases |f|, 0
  {
    hide ToMemory, Pow256, DecInt, DecEntries, EntriesForm;
    var c := ToMemory(h.endian, |es|, 8);
    CountSplits(7, c, f);
    TagDecodes(h, 7, c + f[9..], rest);
    Regroup(c, f[9..], rest);
    DecIntExactly(h, c + (f[9..] + rest), 8, |es|, f[9..] + rest);
    EntriesFormDecodes(h, es, f[9..], [], rest);
  }

  lemma {:induction false} VarFormDecodes(h: Host, t: Var, f: bytes, rest: bytes)
    requires VarForm(h, t, f)
    ensures DecVar(h, f + rest) == Got(t, rest)
    decreases |f|, 1
  {
    hide ToMemory, Pow256, DecVar, Collects, EntriesForm, ItemsForm, Inserted;
    match t
    case List(v) => ListFormDecodes(h, v, f, rest);
    case Map(m) =>
      var es: seq<Entry> :|
        |es| < Pow256(8) && [7] + ToMemory(h.endian, |es|, 8) <= f && EntriesForm(h, es, f[9..]) && Collects(m, es);
      MapFormDecodes(h, es, f, rest);
      CollectsExactly(m, es);
    case _ => ScalarFormDecodes(h, t, f, rest);
  }

  lemma {:induction false} ItemsFormDecodes(h: Host, v: seq<Var>, f: bytes, acc: seq<Var>, rest: bytes)
    requires ItemsForm(h, v, f)
    ensures DecItems(h, f + rest, |v|, acc) == Got(acc + v, rest)
    decreases |f|, 2
  {
    hide DecVar, VarForm;
    if v == [] {
      assert f + rest == rest && acc + v == acc;
    } else {
      var k :| 0 < k <= |f| && VarForm(h, v[0], f[..k]) && ItemsForm(h, v[1..], f[k..]);
      VarFormDecodes(h, v[0], f[..k], f[k..] + rest);
      Regroup(f[..k], f[k..], rest);
      assert f == f[..k] + f[k..];
      ItemsFormDecodes(h, v[1..], f[k..], acc + [v[0]], rest);
      assert acc + [v[0]] + v[1..] == acc + v;
    }
  }

  lemma {:induction false} EntryFormDecodes(h: Host, e: Entry, f: bytes, rest: bytes)
    requires EntryForm(h, e, f)
    ensures DecEntry(h, f + rest) == Got(e, rest)
    decreases |f|, 2
  {
    hide DecVar, VarForm, DecStr, StrForm;
    if h.order.KeyFirst? {
      var k :| 0 <= k <= |f| && StrForm(h, e.key, f[..k]) && VarForm(h, e.val, f[k..]);
      StrFormDecodes(h, e.key, f[..k], f[k..] + rest);
      VarFormDecodes(h, e.val, f[k..], rest);
      Regroup(f[..k], f[k..], rest);
      assert f == f[..k] + f[k..];
    } else {
      var k :| 0 <= k <= |f| && VarForm(h, e.val, f[..k]) && StrForm(h, e.key, f[k..]);
      VarFormDecodes(h, e.val, f[..k], f[k..] + rest);
      StrFormDecodes(h, e.key, f[k..], rest);
      Regroup(f[..k], f[k..], rest);
      assert f == f[..k] + f[k..];
    }
  }

  lemma {:induction false} EntriesFormDecodes(h: Host, es: seq<Entry>, f: bytes, acc: seq<Entry>, rest: bytes)
    requires EntriesForm(h, es, f)
    ensures DecEntries(h, f + rest, |es|, acc) == Got(Inserted(acc, es), rest)
    decreases |f|, 3
  {
    hide DecEntry, EntryForm, Insert;
    if es == [] {
      assert f + rest == rest;
    } else {
      var k :| 0 < k <= |f| && EntryForm(h, es[0], f[..k]) && EntriesForm(h, es[1..], f[k..]);
      EntryFormDecodes(h, es[0], f[..k], f[k..] + rest);
      Regroup(f[..k], f[k..], rest);
      assert f == f[..k] + f[k..];
      EntriesFormDecodes(h, es[1..], f[k..], Insert(acc, es[0]), rest);
    }
  }

  // ---------------------------------------------------------------- what decodes is a form

  lemma ScalarIsForm(h: Host, s: bytes) returns (f: bytes)
    requires DecVar(h, s).Got? && s[0] !in [6, 7]
    ensures s == f + DecVar(h, s).rest && VarForm(h, DecVar(h, s).value, f)
  {
    hide ToMemory, FromMemory, Pow256, DecStr, DecInt, DecItems, DecEntries, StrForm;
    var r := s[1..];
    assert s == [s[0]] + r;
    match s[0]
    case 0 => f := [0];
    case 1 =>
      var g := StrIsForm(h, r);
      f := [1] + g;
      Regroup([1], g, DecStr(h, r).rest);
    case 2 => f := NumberIsForm(h, 2, r);
    case 3 =>
      f := NumberIsForm(h, 3, r);
      SignedIsPattern(DecInt(h, r, 8).value);
    case 4 => f := [4, r[0]];
    case 5 => f := [5, r[0]];
    case _ =>
  }

  lemma SignedIsPattern(u: nat)
    requires u < Pow256(8)
    ensures var i := Signed(u, 8);
            0 - Pow256(8) <= 2 * i < Pow256(8) && u == if i < 0 then i + Pow256(8) else i
  {
  }

  lemma NumberIsForm(h: Host, tag: byte, r: bytes) returns (f: bytes)
    requires DecInt(h, r, 8).Got?
    ensures var n := DecInt(h, r, 8);
            && f == [tag] + ToMemory(h.endian, n.value, 8) && n.value < Pow256(8)
            && [tag] + r == f + n.rest
  {
    var n := DecInt(h, r, 8);
    DecIntExactly(h, r, 8, n.value, n.rest);
    f := [tag] + ToMemory(h.endian, n.value, 8);
    Regroup([tag], ToMemory(h.endian, n.value, 8), n.rest);
  }

  lemma {:induction false} VarIsForm(h: Host, s: bytes) returns (f: bytes)
    requires DecVar(h, s).Got?
    ensures s == f + DecVar(h, s).rest && VarForm(h, DecVar(h, s).value, f)
    decreases |s|, 1
  {
    hide ToMemory, FromMemory, Pow256, DecInt, DecItems, DecEntries, ItemsForm, EntriesForm, Collects, Inserted;
    var r := s[1..];
    assert s == [s[0]] + r;
    if s[0] == 6 {
      var n := DecInt(h, r, 8);
      var head := NumberIsForm(h, 6, r);
      var v, g := ItemsAreForm(h, n.rest, n.value, []);
      assert [] + v == v;
      f := head + g;
      Regroup(head, g, DecVar(h, s).rest);
      assert f[9..] == g;
    } else if s[0] == 7 {
      var n := DecInt(h, r, 8);
      var head := NumberIsForm(h, 7, r);
      var es, g := EntriesAreForm(h, n.rest, n.value, []);
      f := head + g;
      Regroup(head, g, DecVar(h, s).rest);
      assert f[9..] == g;
      CollectsExactly(Inserted([], es), es);
    } else {
      f := ScalarIsForm(h, s);
    }
  }

  lemma {:induction false} ItemsAreForm(h: Host, s: bytes, n: nat, acc: seq<Var>) returns (v: seq<Var>, f: bytes)
    requires DecItems(h, s, n, acc).Got?
    ensures |v| == n && DecItems(h, s, n, acc).value == acc + v
    ensures s == f + DecItems(h, s, n, acc).rest && ItemsForm(h, v, f)
    decreases |s|, 2, n
  {
    hide DecVar, VarForm;
    if n == 0 {
      v, f := [], [];
      assert acc + [] == acc;
    } else {
      var x := DecVar(h, s);
      var a := VarIsForm(h, s);
      var w, g := ItemsAreForm(h, x.rest, n - 1, acc + [x.value]);
      v, f := [x.value] + w, a + g;
      assert acc + [x.value] + w == acc + v;
      Regroup(a, g, DecItems(h, s, n, acc).rest);
      assert f[..|a|] == a && f[|a|..] == g && v[1..] == w;
      assert |a| > 0;
    }
  }

  lemma {:induction false} EntryIsForm(h: Host, s: bytes) returns (f: bytes)
    requires DecEntry(h, s).Got?
    ensures s == f + DecEntry(h, s).rest && EntryForm(h, DecEntry(h, s).value, f)
    decreases |s|, 2, 0
  {
    hide DecVar, VarForm, DecStr, StrForm;
    var a, b;
    if h.order.KeyFirst? {
      a := StrIsForm(h, s);
      b := VarIsForm(h, DecStr(h, s).rest);
    } else {
      a := VarIsForm(h, s);
      b := StrIsForm(h, DecVar(h, s).rest);
    }
    f := a + b;
    Regroup(a, b, DecEntry(h, s).rest);
    assert f[..|a|] == a && f[|a|..] == b;
  }

  lemma {:induction false} EntriesAreForm(h: Host, s: bytes, n: nat, acc: seq<Entry>) returns (es: seq<Entry>, f: bytes)
    requires DecEntries(h, s, n, acc).Got?
    ensures |es| == n && DecEntries(h, s, n, acc).value == Inserted(acc, es)
    ensures s == f + DecEntries(h, s, n, acc).rest && EntriesForm(h, es, f)
    decreases |s|, 3, n
  {
    hide DecEntry, EntryForm, Insert;
    if n == 0 {
      es, f := [], [];
    } else {
      var e := DecEntry(h, s);
      var a := EntryIsForm(h, s);
      var ds, g := EntriesAreForm(h, e.rest, n - 1, Insert(acc, e.value));
      es, f := [e.value] + ds, a + g;
      Regroup(a, g, DecEntries(h, s, n, acc).rest);
      assert f[..|a|] == a && f[|a|..] == g && es[1..] == ds;
      assert |a| > 0;
    }
  }

  // ---------------------------------------------------------------- the grammar

  /** Every build of the receiver, on every stream: i_var returns a value and leaves `rest` exactly
      when a form of that value is what stands in front of `rest`. */
  lemma DecodesExactly(h: Host, s: bytes, t: Var, rest: bytes)
    ensures DecVar(h, s) == Got(t, rest) <==> exists f :: VarForm(h, t, f) && s == f + rest
  {
    hide DecVar, VarForm;
    if DecVar(h, s) == Got(t, rest) {
      var f := VarIsForm(h, s);
    }
    if f :| VarForm(h, t, f) && s == f + rest {
      VarFormDecodes(h, t, f, rest);
    }
  }

  // ---------------------------------------------------------------- the sender's form

  /** The bytes o_var sends: of the forms of a string the shorter one, of the forms of a map the one
      with its entries in order. */
  lemma SenderBytes(t: Var)
    requires Representable(t)
    ensures match t
            case Void => EncVar(t) == [0]
            case Str(x) => EncVar(t) == if |x| <= 254 then [1, |x|] + x else [1, 255] + Le(|x|, 8) + x
            case Float(bits) => EncVar(t) == [2] + Le(bits, 8)
            case Int(i) => EncVar(t) == [3] + Le(if i < 0 then i + 0x1_0000_0000_0000_0000 else i, 8)
            case Char(c) => EncVar(t) == [4, c]
            case Bool(b) => EncVar(t) == [5, if b then 1 else 0]
            case List(v) => EncVar(t) == [6] + (Le(|v|, 8) + EncItems(v))
            case Map(m) => EncVar(t) == [7] + (Le(|m|, 8) + EncEntries(m))
  {
    hide Le;
    assert Pow256(8) == 0x1_0000_0000_0000_0000 by {
      assert Pow256(4) == 0x1_0000_0000;
    }
    match t
    case Void => assert [0] + [] == [0];
    case Str(x) =>
      Regroup([1], [255] + Le(|x|, 8), x);
      if |x| <= 254 {
        assert [1] + ([|x| as byte] + x) == [1, |x| as byte] + x;
      } else {
        assert [1] + ([255] + Le(|x|, 8)) == [1, 255] + Le(|x|, 8);
      }
    case _ =>
  }

  /** Each item between those before it and those behind it. */
  lemma {:induction false} ItemsInOrder(v: seq<Var>, i: nat)
    requires RepresentableItems(v) && i < |v|
    ensures RepresentableItems(v[..i]) && Representable(v[i]) && RepresentableItems(v[i + 1..])
    ensures EncItems(v) == EncItems(v[..i]) + (EncVar(v[i]) + EncItems(v[i + 1..]))
  {
    if i == 0 {
      assert EncItems([]) + EncItems(v) == EncItems(v);
    } else {
      ItemsInOrder(v[1..], i - 1);
      assert v[1..][..i - 1] == v[..i][1..] && v[1..][i..] == v[i + 1..];
      assert v[..i][0] == v[0];
      Regroup(EncVar(v[0]), EncItems(v[..i][1..]), EncVar(v[i]) + EncItems(v[i + 1..]));
    }
  }

  lemma {:induction false} EntriesInOrder(m: seq<Entry>, i: nat)
    requires RepresentableEntries(m) && i < |m|
    ensures RepresentableEntries(m[..i]) && Representable(m[i].val) && RepresentableEntries(m[i + 1..])
    ensures EncEntries(m) == EncEntries(m[..i]) + (EncStr(m[i].key) + EncVar(m[i].val) + EncEntries(m[i + 1..]))
  {
    hide EncVar, EncStr, Representable;
    if i == 0 {
      assert EncEntries([]) + EncEntries(m) == EncEntries(m);
    } else {
      EntriesInOrder(m[1..], i - 1);
      assert m[1..][..i - 1] == m[..i][1..] && m[1..][i..] == m[i + 1..];
      assert m[..i][0] == m[0];
      Regroup(EncEntry(m[0]), EncEntries(m[..i][1..]), EncStr(m[i].key) + EncVar(m[i].val) + EncEntries(m[i + 1..]));
    }
  }
}
