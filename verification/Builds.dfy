/** Which receiving builds decode every value: byte order and the evaluation order of arguments. */
module Builds {
  import opened Bytes
  import opened Wire
  import opened WireLaws
  import opened Portability

  /** Every value arrives, with the stream left just behind it. */
  ghost predicate Faithful(h: Host) {
    forall t: Var, rest: bytes :: Representable(t) ==> DecVar(h, EncVar(t) + rest) == Got(t, rest)
  }

  /** The map {"a": void}: read value first, the key's length byte is taken for the tag of a
      97-byte string. */
  const OneEntry := Map([Entry([97], Void)])

  lemma OneEntryEncoding()
    ensures Representable(OneEntry)
    ensures EncVar(OneEntry) == [7] + (Le(1, 8) + [1, 97, 0])
  {
    var m := OneEntry.m;
    assert m[1..] == [];
    PowMonotonic(1, 8);
    assert EncEntries(m) == EncEntry(m[0]) + EncEntries([]) == [1, 97, 0];
  }

  lemma KeyTakenForValue(h: Host)
    requires h.order.ValueFirst?
    ensures DecEntries(h, [1, 97, 0], 1, []).Fail?
  {
    assert [1, 97, 0] == [1] + ([97] + [0]);
    DecFixConcat([1], [97] + [0]);
    DecFixConcat([97], [0]);
  }

  lemma ValueFirstLosesMaps()
    ensures Representable(OneEntry)
    ensures DecVar(Host(Little, ValueFirst), EncVar(OneEntry)).Fail?
  {
    hide Le, EncVar, Representable, DecEntries, DecFix, DecInt;
    var h := Host(Little, ValueFirst);
    OneEntryEncoding();
    PowMonotonic(1, 8);
    DecFixConcat([7], Le(1, 8) + [1, 97, 0]);
    DecIntRoundTrip(h, 1, 8, [1, 97, 0]);
    KeyTakenForValue(h);
  }

  /** {"": "", NUL: void}, which a value-first build reads as NUL: void, then "": "". */
  const LuckyMap := Map([Entry([], Str([])), Entry([0], Void)])

  lemma LuckyEncoding()
    ensures Representable(LuckyMap)
    ensures var m := LuckyMap.m; EncVar(LuckyMap) == [7] + (Le(2, 8) + (EncEntry(m[0]) + EncEntry(m[1])))
  {
    var m := LuckyMap.m;
    PowMonotonic(1, 8);
    assert m[1..] == [m[1]] && m[1..][1..] == [];
    assert Less(m[0].key, m[1].key);
    assert EncEntries(m) == EncEntry(m[0]) + (EncEntry(m[1]) + []) == EncEntry(m[0]) + EncEntry(m[1]);
  }

  lemma EmptyStrArrives(h: Host, rest: bytes)
    requires h.endian.Little?
    ensures DecVar(h, [1, 0] + rest) == Got(Str([]), rest)
  {
    PowMonotonic(1, 8);
    assert EncVar(Str([])) == [1, 0];
    RoundTrip(h, Str([]), rest);
  }

  /** Each of its entries alone is read as the other one. */
  lemma LuckyEntriesSwap(rest: bytes)
    ensures var h, m := Host(Little, ValueFirst), LuckyMap.m;
            && DecEntry(h, EncEntry(m[0]) + rest) == Got(m[1], rest)
            && DecEntry(h, EncEntry(m[1]) + rest) == Got(m[0], rest)
  {
    var h, m := Host(Little, ValueFirst), LuckyMap.m;
    PowMonotonic(1, 8);
    assert EncEntry(m[0]) + rest == [0] + (EncStr([0]) + rest);
    assert EncEntry(m[1]) + rest == [1, 0] + (EncStr([]) + rest);
    hide EncEntry, EncVar, EncStr, DecVar, DecStr, Le;
    VoidArrives(h, EncStr([0]) + rest);
    DecStrRoundTrip(h, [0], rest);
    EmptyStrArrives(h, EncStr([]) + rest);
    DecStrRoundTrip(h, [], rest);
  }

  lemma LuckyInsertions(h: Host)
    requires h == Host(Little, ValueFirst)
    ensures var m := LuckyMap.m; DecEntries(h, EncEntry(m[0]) + EncEntry(m[1]), 2, []) == Got(m, [])
  {
    var m := LuckyMap.m;
    LuckyEntriesSwap(EncEntry(m[1]));
    LuckyEntriesSwap([]);
    hide DecEntry, EncEntry;
    assert EncEntry(m[1]) + [] == EncEntry(m[1]);
    assert Less(m[0].key, m[1].key);
    assert Insert([], m[1]) == [m[1]] && Insert([m[1]], m[0]) == m;
    assert DecEntries(h, [], 0, m) == Got(m, []);
    assert DecEntries(h, EncEntry(m[1]), 1, [m[1]]) == Got(m, []);
  }

  /** Together they arrive: what survives a value-first build is not decided entry by entry. */
  lemma LuckyMapArrives()
    ensures Representable(LuckyMap)
    ensures DecVar(Host(Little, ValueFirst), EncVar(LuckyMap)) == Got(LuckyMap, [])
  {
    PowMonotonic(1, 8);
    var h, s := Host(Little, ValueFirst), EncEntry(LuckyMap.m[0]) + EncEntry(LuckyMap.m[1]);
    hide Le, EncVar, Representable, DecEntries, DecFix, DecInt, EncEntry;
    LuckyEncoding();
    LuckyInsertions(h);
    DecFixConcat([7], Le(2, 8) + s);
    DecIntRoundTrip(h, 2, 8, s);
  }

  /** The round trip holds for every value exactly on little-endian, key-first builds. */
  lemma FaithfulExactly(h: Host)
    ensures Faithful(h) <==> h.endian.Little? && h.order.KeyFirst?
  {
    match h
    case Host(Little, KeyFirst) =>
      forall t: Var, rest: bytes | Representable(t) ensures DecVar(h, EncVar(t) + rest) == Got(t, rest) {
        RoundTrip(h, t, rest);
      }
    case Host(Big, _) =>
      var t := List([Void]);
      PowMonotonic(1, 8);
      assert t.v[1..] == [];
      assert Representable(t);
      assert EncItems(t.v) == [0] + [];
      assert Pow256(4) == 256 * 256 * 256 * 256;
      BigEndianExactly(h.order, t, []);
      assert DecVar(h, EncVar(t) + []) != Got(t, []);
    case Host(Little, ValueFirst) =>
      ValueFirstLosesMaps();
      assert EncVar(OneEntry) + [] == EncVar(OneEntry);
      assert DecVar(h, EncVar(OneEntry) + []) != Got(OneEntry, []);
  }
}
