/**
 The wire format of simple_socket as two independent functions: the bytes a sender emits for a
 value, and what a receiver makes of a byte stream.
 */
module Wire {
  import opened Bytes
  import opened BaseIo

  /** xif::polyvar. A map is the key-ordered sequence of its entries, as std::map iterates it. */
  datatype Var =
    | Void
    | Str(s: bytes)
    | Float(bits: nat)
    | Int(i: int)
    | Char(c: byte)
    | Bool(b: bool)
    | List(v: seq<Var>)
    | Map(m: seq<Entry>)

  datatype Entry = Entry(key: bytes, val: Var)

  /** The order in which a compiler evaluates the two arguments of a call. C++ fixes none. */
  datatype ArgOrder = KeyFirst | ValueFirst

  /** The receiving build: byte order of the machine, argument order of the compiler. */
  datatype Host = Host(endian: Endian, order: ArgOrder)

  const PC := Host(Little, KeyFirst)

  /** std::less<std::string>: lexicographic on unsigned bytes. */
  predicate Less(a: bytes, b: bytes) {
    if b == [] then false
    else if a == [] then true
    else a[0] < b[0] || (a[0] == b[0] && Less(a[1..], b[1..]))
  }

  /** The same order by positions: `k` bytes agree, and there `a` ends first or has the smaller byte. */
  predicate PrecedesAt(a: bytes, b: bytes, k: nat) {
    && k <= |a| && k <= |b| && a[..k] == b[..k]
    && (k == |a| < |b| || (k < |a| && k < |b| && a[k] < b[k]))
  }

  ghost predicate Precedes(a: bytes, b: bytes) {
    exists k: nat :: PrecedesAt(a, b, k)
  }

  /** The keys ascend. */
  ghost predicate Ascending(m: seq<Entry>) {
    forall i, j :: 0 <= i < j < |m| ==> Precedes(m[i].key, m[j].key)
  }

  predicate Sorted(m: seq<Entry>) {
    forall i, j :: 0 <= i < j < |m| ==> Less(m[i].key, m[j].key)
  }

  /** The values the C++ types can hold: sizes and bit patterns of 64 bits, ordered maps. */
  predicate Representable(t: Var) {
    match t
    case Void => true
    case Str(s) => |s| < Pow256(8)
    case Float(bits) => bits < Pow256(8)
    case Int(i) => FitsSigned(i, 8)
    case Char(_) => true
    case Bool(_) => true
    case List(v) => |v| < Pow256(8) && RepresentableItems(v)
    case Map(m) => |m| < Pow256(8) && Sorted(m) && RepresentableEntries(m)
  }

  predicate RepresentableItems(v: seq<Var>) {
    v == [] || (Representable(v[0]) && RepresentableItems(v[1..]))
  }

  predicate RepresentableEntries(m: seq<Entry>) {
    m == [] || (|m[0].key| < Pow256(8) && Representable(m[0].val) && RepresentableEntries(m[1..]))
  }

  /** No map entry anywhere, so no call whose argument order could matter. */
  predicate OrderFree(t: Var) {
    match t
    case List(v) => forall x :: x in v ==> OrderFree(x)
    case Map(m) => m == []
    case _ => true
  }

  predicate KeepsOrder(h: Host, t: Var) {
    h.order.KeyFirst? || OrderFree(t)
  }

  // ---------------------------------------------------------------- sender

  function EncStr(s: bytes): bytes {
    if |s| > 254 then [255] + Le(|s|, 8) + s else [|s| as byte] + s
  }

  function Tag(t: Var): byte {
    match t
    case Void => 0
    case Str(_) => 1
    case Float(_) => 2
    case Int(_) => 3
    case Char(_) => 4
    case Bool(_) => 5
    case List(_) => 6
    case Map(_) => 7
  }

  function EncBool(b: bool): bytes { if b then [1] else [0] }

  function EncBody(t: Var): bytes
    requires Representable(t)
    decreases t, 0
  {
    match t
    case Void => []
    case Str(s) => EncStr(s)
    case Float(bits) => Le(bits, 8)
    case Int(i) => Le(Pattern(i, 8), 8)
    case Char(c) => [c]
    case Bool(b) => EncBool(b)
    case List(v) => Le(|v|, 8) + EncItems(v)
    case Map(m) => Le(|m|, 8) + EncEntries(m)
  }

  function EncVar(t: Var): bytes
    requires Representable(t)
    decreases t, 1
  {
    [Tag(t)] + EncBody(t)
  }

  function EncItems(v: seq<Var>): bytes
    requires RepresentableItems(v)
    decreases v
  {
    if v == [] then [] else EncVar(v[0]) + EncItems(v[1..])
  }

  function EncEntry(e: Entry): bytes
    requires Representable(e.val)
    decreases e
  {
    EncStr(e.key) + EncVar(e.val)
  }

  function EncEntries(m: seq<Entry>): bytes
    requires RepresentableEntries(m)
    decreases m
  {
    if m == [] then [] else EncEntry(m[0]) + EncEntries(m[1..])
  }

  // ---------------------------------------------------------------- receiver

  /** A value and the stream behind it, or an exception and the stream where it was thrown. */
  datatype Parse<+T> = Got(value: T, rest: bytes) | Fail(error: Error, rest: bytes) {
    predicate IsFailure() { Fail? }
    function PropagateFailure<U>(): Parse<U>
      requires Fail?
    {
      Fail(error, rest)
    }
    function Extract(): (T, bytes)
      requires Got?
    {
      (value, rest)
    }
  }

  function DecFix(s: bytes, n: nat): Parse<bytes> {
    if n <= |s| then Got(s[..n], s[n..]) else Fail(ReadError, [])
  }

  function DecInt(h: Host, s: bytes, w: nat): Parse<nat> {
    var (b, r) :- DecFix(s, w);
    Got(FromMemory(h.endian, b), r)
  }

  function DecStr(h: Host, s: bytes): Parse<bytes> {
    var (b, r) :- DecFix(s, 1);
    var (n, r1) :- if b[0] == 255 then DecInt(h, r, 8) else Got(b[0] as nat, r);
    DecFix(r1, n)
  }

  function DecBool(s: bytes): Parse<bool> {
    var (b, r) :- DecFix(s, 1);
    if b[0] == 0 then Got(false, r) else if b[0] == 1 then Got(true, r) else Fail(BadBool, r)
  }

  /** std::map::insert: in key order, and an existing key wins. */
  function Insert(m: seq<Entry>, e: Entry): seq<Entry> {
    if m == [] then [e]
    else if m[0].key == e.key then m
    else if Less(e.key, m[0].key) then [e] + m
    else [m[0]] + Insert(m[1..], e)
  }

  function DecVar(h: Host, s: bytes): (p: Parse<Var>)
    ensures p.Got? ==> |p.rest| < |s|
    ensures |p.rest| <= |s|
    ensures p.Fail? && p.error == ReadError ==> p.rest == []
    decreases |s|, 1, 0
  {
    var (t, r) :- DecFix(s, 1);
    DecBody(h, t[0], r)
  }

  function DecBody(h: Host, tag: byte, r: bytes): (p: Parse<Var>)
    ensures |p.rest| <= |r|
    ensures p.Fail? && p.error == ReadError ==> p.rest == []
    decreases |r|, 4, 0
  {
    match tag
    case 0 => Got(Void, r)
    case 1 => var (x, r1) :- DecStr(h, r); Got(Str(x), r1)
    case 2 => var (n, r1) :- DecInt(h, r, 8); Got(Float(n), r1)
    case 3 => var (n, r1) :- DecInt(h, r, 8); Got(Int(Signed(n, 8)), r1)
    case 4 => var (c, r1) :- DecFix(r, 1); Got(Char(c[0]), r1)
    case 5 => var (b, r1) :- DecBool(r); Got(Bool(b), r1)
    case 6 =>
      var (n, r1) :- DecInt(h, r, 8);
      var (v, r2) :- DecItems(h, r1, n, []);
      Got(List(v), r2)
    case 7 =>
      var (n, r1) :- DecInt(h, r, 8);
      var (m, r2) :- DecEntries(h, r1, n, []);
      Got(Map(m), r2)
    case _ => Fail(BadTag, r)
  }

  /** The loop of i_var over a list with `n` items to come and `acc` read. */
  function DecItems(h: Host, s: bytes, n: nat, acc: seq<Var>): (p: Parse<seq<Var>>)
    ensures |p.rest| <= |s|
    ensures p.Fail? && p.error == ReadError ==> p.rest == []
    decreases |s|, 2, n
  {
    if n == 0 then Got(acc, s) else
    var (x, r) :- DecVar(h, s);
    DecItems(h, r, n - 1, acc + [x])
  }

  /** One map entry: string and value, in the compiler's order. */
  function DecEntry(h: Host, s: bytes): (p: Parse<Entry>)
    ensures p.Got? ==> |p.rest| < |s|
    ensures |p.rest| <= |s|
    ensures p.Fail? && p.error == ReadError ==> p.rest == []
    decreases |s|, 2, 0
  {
    match h.order
    case KeyFirst =>
      var (k, r) :- DecStr(h, s);
      var (x, r1) :- DecVar(h, r);
      Got(Entry(k, x), r1)
    case ValueFirst =>
      var (x, r) :- DecVar(h, s);
      var (k, r1) :- DecStr(h, r);
      Got(Entry(k, x), r1)
  }

  /** The loop of i_var over a map with `n` entries to come and `acc` inserted. */
  function DecEntries(h: Host, s: bytes, n: nat, acc: seq<Entry>): (p: Parse<seq<Entry>>)
    ensures |p.rest| <= |s|
    ensures p.Fail? && p.error == ReadError ==> p.rest == []
    decreases |s|, 3, n
  {
    if n == 0 then Got(acc, s) else
    var (e, r) :- DecEntry(h, s);
    DecEntries(h, r, n - 1, Insert(acc, e))
  }
}
