/** The imperative sender and receiver of simple_socket, against the wire format. */
module SimpleSocket {
  import opened Bytes
  import opened BaseIo
  import opened Wire
  import opened WireCanonical
  import opened WireLaws

  function Outcome<T>(p: Parse<T>): Result<T> {
    match p
    case Got(v, _) => Ok(v)
    case Fail(e, _) => Err(e)
  }

  /** A blob pointer and its length: NULL or data. */
  type Blob = Option<bytes>

  function EncBin(p: Blob): bytes {
    var data := if p.None? then [] else p.value;
    Le(|data|, 4) + data
  }

  function DecBin(h: Host, s: bytes): Parse<Blob> {
    var (n, r) :- DecInt(h, s, 4);
    if n == 0 then Got(None, r) else
    var (data, r1) :- DecFix(r, n);
    Got(Some(data), r1)
  }

  lemma ItemsFrom(v: seq<Var>, i: nat)
    requires i < |v| && RepresentableItems(v[i..])
    ensures Representable(v[i]) && RepresentableItems(v[i + 1..])
    ensures EncItems(v[i..]) == EncVar(v[i]) + EncItems(v[i + 1..])
  {
    assert v[i..][1..] == v[i + 1..];
  }

  lemma EntriesFrom(m: seq<Entry>, i: nat)
    requires i < |m| && RepresentableEntries(m[i..])
    ensures Representable(m[i].val) && RepresentableEntries(m[i + 1..])
    ensures EncEntries(m[i..]) == EncEntry(m[i]) + EncEntries(m[i + 1..])
  {
    assert m[i..][1..] == m[i + 1..];
  }

  class Socket {
    const io: Stream
    const host: Host

    constructor (io: Stream, host: Host)
      ensures this.io == io && this.host == host
    {
      this.io, this.host := io, host;
    }

    // -------------------------------------------------------------- write

    method OChar(c: byte)
      modifies io`outbox
      ensures io.outbox == old(io.outbox) + [c]
    {
      io.Write([c]);
    }

    method OBool(b: bool)
      modifies io`outbox
      ensures io.outbox == old(io.outbox) + [if b then 1 else 0]
    {
      io.Write([if b then 1 else 0]);
    }

    /** The integer leaves memory in host order; a big-endian host swaps it first. */
    method OInt(n: nat, w: nat)
      modifies io`outbox
      ensures io.outbox == old(io.outbox) + Le(n, w)
    {
      var mem := new byte[w];
      var layout := ToMemory(host.endian, n, w);
      forall k | 0 <= k < w {
        mem[k] := layout[k];
      }
      assert mem[..] == layout;
      if host.endian.Big? {
        SwapBytes(mem);
        ReverseTwice(Le(n, w));
      }
      io.Write(mem[..]);
    }

    method OStr(s: bytes)
      modifies io`outbox
      ensures io.outbox == old(io.outbox) + EncStr(s)
    {
      if |s| > 254 {
        io.Write([255]);
        OInt(|s|, 8);
      } else {
        io.Write([|s| as byte]);
      }
      if |s| != 0 {
        io.Write(s);
      }
      assert |s| > 254 ==> old(io.outbox) + [255] + Le(|s|, 8) + s == old(io.outbox) + EncStr(s);
    }

    method OBin(p: Blob)
      modifies io`outbox
      ensures io.outbox == old(io.outbox) + EncBin(p)
    {
      var data := if p.None? then [] else p.value;
      OInt(|data|, 4);
      if |data| != 0 {
        io.Write(data);
      }
    }

    method OVar(t: Var)
      requires Representable(t)
      modifies io`outbox
      ensures io.outbox == old(io.outbox) + EncVar(t)
      decreases t, 1
    {
      OChar(Tag(t));
      match t {
        case Void =>
        case Str(s) => OStr(s);
        case Float(bits) => OInt(bits, 8);
        case Int(i) => OInt(Pattern(i, 8), 8);
        case Char(c) => OChar(c);
        case Bool(b) => OBool(b);
        case List(v) =>
          OInt(|v|, 8);
          OItems(v);
          Regroup(old(io.outbox) + [Tag(t)], Le(|v|, 8), EncItems(v));
        case Map(m) =>
          OInt(|m|, 8);
          OEntries(m);
          Regroup(old(io.outbox) + [Tag(t)], Le(|m|, 8), EncEntries(m));
      }
      Regroup(old(io.outbox), [Tag(t)], EncBody(t));
    }

    /** The LIST loop of o_var. */
    method OItems(v: seq<Var>)
      requires RepresentableItems(v)
      modifies io`outbox
      ensures io.outbox == old(io.outbox) + EncItems(v)
      decreases v, 0
    {
      var i := 0;
      while i < |v|
        invariant i <= |v| && RepresentableItems(v[i..])
        invariant io.outbox + EncItems(v[i..]) == old(io.outbox) + EncItems(v)
      {
        ghost var before := io.outbox;
        ItemsFrom(v, i);
        OVar(v[i]);
        Regroup(before, EncVar(v[i]), EncItems(v[i + 1..]));
        i := i + 1;
      }
    }

    method OEntry(e: Entry)
      requires Representable(e.val)
      modifies io`outbox
      ensures io.outbox == old(io.outbox) + EncEntry(e)
      decreases e, 0
    {
      OStr(e.key);
      OVar(e.val);
      Regroup(old(io.outbox), EncStr(e.key), EncVar(e.val));
    }

    /** The MAP loop of o_var: entries in key order, key then value. */
    method OEntries(m: seq<Entry>)
      requires RepresentableEntries(m)
      modifies io`outbox
      ensures io.outbox == old(io.outbox) + EncEntries(m)
      decreases m, 0
    {
      var i := 0;
      while i < |m|
        invariant i <= |m| && RepresentableEntries(m[i..])
        invariant io.outbox + EncEntries(m[i..]) == old(io.outbox) + EncEntries(m)
      {
        ghost var before := io.outbox;
        EntriesFrom(m, i);
        OEntry(m[i]);
        Regroup(before, EncEntry(m[i]), EncEntries(m[i + 1..]));
        i := i + 1;
      }
    }

    // -------------------------------------------------------------- read

    method IFix(n: nat) returns (r: Result<bytes>)
      modifies io`inbox, io`calls
      ensures r == Outcome(DecFix(old(io.inbox), n))
      ensures io.inbox == DecFix(old(io.inbox), n).rest
      ensures io.calls == CallsAfter(io.schedule, old(io.calls), |old(io.inbox)|, n)
    {
      var d := new byte[n];
      var _ :- io.IfixPipe(d, n);
      assert d[..] == old(io.inbox)[..n];
      return Ok(d[..]);
    }

    method IChar() returns (r: Result<byte>)
      modifies io`inbox, io`calls
      ensures var p := DecFix(old(io.inbox), 1);
              io.inbox == p.rest && r == if p.Got? then Ok(p.value[0]) else Err(p.error)
    {
      var b :- IFix(1);
      return Ok(b[0]);
    }

    method IBool() returns (r: Result<bool>)
      modifies io`inbox, io`calls
      ensures r == Outcome(DecBool(old(io.inbox)))
      ensures io.inbox == DecBool(old(io.inbox)).rest
      ensures r == Ok(true) <==> old(io.inbox) != [] && old(io.inbox)[0] == 1
      ensures r == Ok(false) <==> old(io.inbox) != [] && old(io.inbox)[0] == 0
    {
      var b :- IFix(1);
      return if b[0] == 0 then Ok(false) else if b[0] == 1 then Ok(true) else Err(BadBool);
    }

    /** No swap on this side: the bytes are reinterpreted as they lie in memory. */
    method IInt(w: nat) returns (r: Result<nat>)
      modifies io`inbox, io`calls
      ensures r == Outcome(DecInt(host, old(io.inbox), w))
      ensures io.inbox == DecInt(host, old(io.inbox), w).rest
      ensures io.calls == CallsAfter(io.schedule, old(io.calls), |old(io.inbox)|, w)
    {
      var b :- IFix(w);
      return Ok(FromMemory(host.endian, b));
    }

    method IStr() returns (r: Result<bytes>)
      modifies io`inbox, io`calls
      ensures r == Outcome(DecStr(host, old(io.inbox)))
      ensures io.inbox == DecStr(host, old(io.inbox)).rest
    {
      var b :- IFix(1);
      var n: nat := b[0];
      if b[0] == 255 {
        n :- IInt(8);
      }
      if n == 0 {
        return Ok([]);
      }
      r := IFix(n);
    }

    method IBin() returns (r: Result<Blob>)
      modifies io`inbox, io`calls
      ensures r == Outcome(DecBin(host, old(io.inbox)))
      ensures io.inbox == DecBin(host, old(io.inbox)).rest
    {
      var n :- IInt(4);
      if n == 0 {
        return Ok(None);
      }
      var data :- IFix(n);
      return Ok(Some(data));
    }

    method IEntry() returns (r: Result<Entry>)
      modifies io`inbox, io`calls
      ensures r == Outcome(DecEntry(host, old(io.inbox)))
      ensures io.inbox == DecEntry(host, old(io.inbox)).rest
      decreases |io.inbox|, 2
    {
      match host.order {
        case KeyFirst =>
          var k :- IStr();
          var x :- IVar();
          return Ok(Entry(k, x));
        case ValueFirst =>
          var x :- IVar();
          var k :- IStr();
          return Ok(Entry(k, x));
      }
    }

    method IVar() returns (r: Result<Var>)
      modifies io`inbox, io`calls
      ensures r == Outcome(DecVar(host, old(io.inbox)))
      ensures io.inbox == DecVar(host, old(io.inbox)).rest
      ensures r.Ok? && r.value.Map? ==> Ascending(r.value.m)
      decreases |io.inbox|, 1
    {
      var tag :- IChar();
      match tag {
        case 0 =>
          return Ok(Void);
        case 1 =>
          var s :- IStr();
          return Ok(Str(s));
        case 2 =>
          var n :- IInt(8);
          return Ok(Float(n));
        case 3 =>
          var n :- IInt(8);
          return Ok(Int(Signed(n, 8)));
        case 4 =>
          var c :- IChar();
          return Ok(Char(c));
        case 5 =>
          var b :- IBool();
          return Ok(Bool(b));
        case 6 =>
          r := IList();
        case 7 =>
          r := IMap();
        case _ =>
          return Err(BadTag);
      }
    }

    method IList() returns (r: Result<Var>)
      modifies io`inbox, io`calls
      ensures r == Outcome(DecBody(host, 6, old(io.inbox)))
      ensures io.inbox == DecBody(host, 6, old(io.inbox)).rest
      ensures r.Ok? ==> r.value.List?
      decreases |io.inbox|, 4
    {
      hide DecVar, DecItems;
      var n :- IInt(8);
      var v :- IItems(n);
      return Ok(List(v));
    }

    /** The LIST loop of i_var: a vector of the announced size, filled in place. */
    method IItems(n: nat) returns (r: Result<seq<Var>>)
      modifies io`inbox, io`calls
      ensures r == Outcome(DecItems(host, old(io.inbox), n, []))
      ensures io.inbox == DecItems(host, old(io.inbox), n, []).rest
      decreases |io.inbox|, 3
    {
      hide DecVar;
      var v := seq(n, _ => Void);
      var i := 0;
      while i < |v|
        invariant i <= |v| == n && |io.inbox| <= |old(io.inbox)|
        invariant DecItems(host, io.inbox, n - i, v[..i]) == DecItems(host, old(io.inbox), n, [])
      {
        var x :- IVar();
        v := v[i := x];
        i := i + 1;
        assert v[..i] == v[..i - 1] + [x];
      }
      assert v[..i] == v;
      return Ok(v);
    }

    method IMap() returns (r: Result<Var>)
      modifies io`inbox, io`calls
      ensures r == Outcome(DecBody(host, 7, old(io.inbox)))
      ensures io.inbox == DecBody(host, 7, old(io.inbox)).rest
      ensures r.Ok? ==> r.value.Map? && Ascending(r.value.m)
      decreases |io.inbox|, 4
    {
      hide DecVar, DecEntries, Ascending;
      var sz :- IInt(8);
      var m :- IEntries(sz);
      return Ok(Map(m));
    }

    /** The MAP loop of i_var: `n` insertions. */
    method IEntries(n: nat) returns (r: Result<seq<Entry>>)
      modifies io`inbox, io`calls
      ensures r == Outcome(DecEntries(host, old(io.inbox), n, []))
      ensures io.inbox == DecEntries(host, old(io.inbox), n, []).rest
      ensures r.Ok? ==> Ascending(r.value)
      decreases |io.inbox|, 3
    {
      hide DecEntry, Insert, Ascending;
      var m, sz := [], n;
      while sz != 0
        invariant |io.inbox| <= |old(io.inbox)| && Sorted(m)
        invariant DecEntries(host, io.inbox, sz, m) == DecEntries(host, old(io.inbox), n, [])
        decreases sz
      {
        var e :- IEntry();
        InsertKeepsOrder(m, e);
        m := Insert(m, e);
        sz := sz - 1;
      }
      SortedAscends(m);
      return Ok(m);
    }
  }
}
