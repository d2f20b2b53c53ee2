/** Whatever a receiver accepts, the sender's form of it is the shortest one. */
module WireCanonical {
  import opened Bytes
  import opened Wire
  import opened WireLaws

  lemma FromMemoryBound(e: Endian, s: bytes)
    ensures FromMemory(e, s) < Pow256(|s|)
  {
    UnLeRoundTrip(s);
    UnLeRoundTrip(Reverse(s));
  }

  lemma DecStrCanonical(h: Host, s: bytes)
    requires DecStr(h, s).Got?
    ensures |DecStr(h, s).value| < Pow256(8)
    ensures |EncStr(DecStr(h, s).value)| <= |s| - |DecStr(h, s).rest|
  {
    if s[0] == 255 {
      FromMemoryBound(h.endian, s[1..][..8]);
    }
    assert Pow256(1) <= Pow256(8);
  }

  // ---------------------------------------------------------------- maps under insertion

  lemma {:induction false} InsertKeepsOrder(m: seq<Entry>, e: Entry)
    requires Sorted(m)
    ensures Sorted(Insert(m, e))
    ensures forall f :: f in Insert(m, e) ==> f in m || f == e
  {
    if m != [] && m[0].key != e.key {
      var r := Insert(m, e);
      if Less(e.key, m[0].key) {
        forall j | 0 < j < |r| ensures Less(e.key, r[j].key) {
          if j > 1 {
            assert Less(m[0].key, m[j - 1].key);
            LessTransitive(e.key, m[0].key, m[j - 1].key);
          }
        }
      } else {
        LessTotal(m[0].key, e.key);
        SortedTail(m);
        InsertKeepsOrder(m[1..], e);
        forall j | 0 < j < |r| ensures Less(m[0].key, r[j].key) {
          assert r[j] in Insert(m[1..], e);
        }
      }
      forall i, j | 0 <= i < j < |r| ensures Less(r[i].key, r[j].key) {
        if i > 0 {
          assert r[i] == r[1..][i - 1] && r[j] == r[1..][j - 1];
        }
      }
    }
  }

  predicate EntryRepresentable(e: Entry) {
    |e.key| < Pow256(8) && Representable(e.val)
  }

  /** An insertion costs the map at most the entry's own bytes, and nothing for a known key. */
  lemma {:induction false} InsertSize(m: seq<Entry>, e: Entry)
    requires RepresentableEntries(m) && EntryRepresentable(e)
    ensures RepresentableEntries(Insert(m, e)) && |Insert(m, e)| <= |m| + 1
    ensures |EncEntries(Insert(m, e))| <= |EncEntries(m)| + |EncEntry(e)|
  {
    if m == [] {
      assert Insert(m, e)[1..] == [];
    } else if m[0].key == e.key {
    } else if Less(e.key, m[0].key) {
      assert Insert(m, e)[1..] == m;
    } else {
      InsertSize(m[1..], e);
      assert Insert(m, e)[1..] == Insert(m[1..], e);
    }
  }

  lemma {:induction false} ItemsAppend(v: seq<Var>, x: Var)
    requires RepresentableItems(v) && Representable(x)
    ensures RepresentableItems(v + [x])
    ensures EncItems(v + [x]) == EncItems(v) + EncVar(x)
  {
    if v == [] {
      assert (v + [x])[1..] == [];
    } else {
      ItemsAppend(v[1..], x);
      assert (v + [x])[1..] == v[1..] + [x];
    }
  }

  // ---------------------------------------------------------------- the decoders

  lemma {:induction false} DecVarCanonical(h: Host, s: bytes)
    requires DecVar(h, s).Got?
    ensures Representable(DecVar(h, s).value)
    ensures |EncVar(DecVar(h, s).value)| <= |s| - |DecVar(h, s).rest|
    decreases |s|, 1, 0
  {
    DecBodyCanonical(h, s[0], s[1..]);
  }

  lemma {:induction false} DecBodyCanonical(h: Host, tag: byte, r: bytes)
    requires DecBody(h, tag, r).Got?
    ensures Representable(DecBody(h, tag, r).value)
    ensures |EncBody(DecBody(h, tag, r).value)| <= |r| - |DecBody(h, tag, r).rest|
    decreases |r|, 4, 0
  {
    match tag
    case 1 => DecStrCanonical(h, r);
    case 2 => FromMemoryBound(h.endian, r[..8]);
    case 3 =>
      FromMemoryBound(h.endian, r[..8]);
      SignedRoundTrip(DecInt(h, r, 8).value, 8);
    case 6 =>
      FromMemoryBound(h.endian, r[..8]);
      DecItemsCanonical(h, r[8..], DecInt(h, r, 8).value, []);
    case 7 =>
      FromMemoryBound(h.endian, r[..8]);
      DecEntriesCanonical(h, r[8..], DecInt(h, r, 8).value, []);
    case _ =>
  }

  lemma {:induction false} DecItemsCanonical(h: Host, s: bytes, n: nat, acc: seq<Var>)
    requires RepresentableItems(acc) && DecItems(h, s, n, acc).Got?
    ensures var p := DecItems(h, s, n, acc);
            && RepresentableItems(p.value) && |p.value| == |acc| + n
            && |EncItems(p.value)| <= |EncItems(acc)| + |s| - |p.rest|
    decreases |s|, 2, n
  {
    if n != 0 {
      DecVarCanonical(h, s);
      var x := DecVar(h, s);
      ItemsAppend(acc, x.value);
      DecItemsCanonical(h, x.rest, n - 1, acc + [x.value]);
    }
  }

  lemma {:induction false} DecEntryCanonical(h: Host, s: bytes)
    requires DecEntry(h, s).Got?
    ensures var p := DecEntry(h, s);
            EntryRepresentable(p.value) && |EncEntry(p.value)| <= |s| - |p.rest|
    decreases |s|, 2, 0
  {
    match h.order
    case KeyFirst =>
      DecStrCanonical(h, s);
      DecVarCanonical(h, DecStr(h, s).rest);
    case ValueFirst =>
      DecVarCanonical(h, s);
      DecStrCanonical(h, DecVar(h, s).rest);
  }

  lemma {:induction false} DecEntriesCanonical(h: Host, s: bytes, n: nat, acc: seq<Entry>)
    requires Sorted(acc) && RepresentableEntries(acc) && DecEntries(h, s, n, acc).Got?
    ensures var p := DecEntries(h, s, n, acc);
            && Sorted(p.value) && RepresentableEntries(p.value) && |p.value| <= |acc| + n
            && |EncEntries(p.value)| <= |EncEntries(acc)| + |s| - |p.rest|
    decreases |s|, 3, n
  {
    if n != 0 {
      DecEntryCanonical(h, s);
      var e := DecEntry(h, s);
      InsertKeepsOrder(acc, e.value);
      InsertSize(acc, e.value);
      DecEntriesCanonical(h, e.rest, n - 1, Insert(acc, e.value));
    }
  }

  /** Re-encoding an accepted value takes no more bytes than were consumed, and decodes to the
      same value: long-form short strings and repeated keys are normalised away. */
  lemma Canonical(h: Host, s: bytes)
    requires DecVar(h, s).Got?
    ensures var p := DecVar(h, s);
            && Representable(p.value)
            && |EncVar(p.value)| <= |s| - |p.rest|
            && DecVar(PC, EncVar(p.value) + p.rest) == p
  {
    DecVarCanonical(h, s);
    RoundTrip(PC, DecVar(h, s).value, DecVar(h, s).rest);
  }

  /** A repeated key keeps its first value: an insertion never changes what a key maps to. */
  lemma {:induction false} FirstInsertWins(m: seq<Entry>, e: Entry, i: nat)
    requires i < |m|
    ensures m[i] in Insert(m, e)
    ensures m[i].key == e.key && Sorted(m) ==> Insert(m, e) == m
  {
    if m[0].key == e.key {
    } else if Less(e.key, m[0].key) {
      assert m[i] == ([e] + m)[i + 1];
      if m[i].key == e.key && Sorted(m) {
        assert Less(m[0].key, m[i].key);
        LessTransitive(e.key, m[0].key, e.key);
        LessIrreflexive(e.key);
        assert false;
      }
    } else if i > 0 {
      assert m[i] == m[1..][i - 1];
      FirstInsertWins(m[1..], e, i - 1);
    }
  }
}
