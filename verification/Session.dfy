/** Whole conversations: a list of typed sends met by the matching list of typed receives. */
module Session {
  import opened Bytes
  import opened Wire
  import opened WireLaws
  import opened SimpleSocket
  import opened FileTransfer

  /** One value sent with the matching o_ method. */
  datatype Message =
    | MChar(c: byte)
    | MBool(b: bool)
    | MUint(n: nat, w: nat)
    | MInt(i: int, w: nat)
    | MFloat(bits: nat)
    | MStr(s: bytes)
    | MBin(p: Blob)
    | MVar(t: Var)

  /** The i_ method the receiver calls. */
  datatype Kind = KChar | KBool | KUint(w: nat) | KInt(w: nat) | KFloat | KStr | KBin | KVar

  function KindOf(m: Message): Kind {
    match m
    case MChar(_) => KChar
    case MBool(_) => KBool
    case MUint(_, w) => KUint(w)
    case MInt(_, w) => KInt(w)
    case MFloat(_) => KFloat
    case MStr(_) => KStr
    case MBin(_) => KBin
    case MVar(_) => KVar
  }

  function Kinds(ms: seq<Message>): (ks: seq<Kind>)
    ensures |ks| == |ms|
  {
    if ms == [] then [] else [KindOf(ms[0])] + Kinds(ms[1..])
  }

  /** The value fits its C++ type. A blob is NULL or 1 to 2^32 - 1 bytes (see BinExactly). */
  predicate Sendable(m: Message) {
    match m
    case MUint(n, w) => n < Pow256(w)
    case MInt(i, w) => FitsSigned(i, w)
    case MFloat(bits) => bits < Pow256(8)
    case MStr(s) => |s| < Pow256(8)
    case MBin(p) => p.None? || 0 < |p.value| < Pow256(4)
    case MVar(t) => Representable(t)
    case _ => true
  }

  function Send(m: Message): bytes
    requires Sendable(m)
  {
    match m
    case MChar(c) => [c]
    case MBool(b) => EncBool(b)
    case MUint(n, w) => Le(n, w)
    case MInt(i, w) => Le(Pattern(i, w), w)
    case MFloat(bits) => Le(bits, 8)
    case MStr(s) => EncStr(s)
    case MBin(p) => EncBin(p)
    case MVar(t) => EncVar(t)
  }

  function Receive(h: Host, k: Kind, s: bytes): Parse<Message> {
    match k
    case KChar => var (c, r) :- DecFix(s, 1); Got(MChar(c[0]), r)
    case KBool => var (b, r) :- DecBool(s); Got(MBool(b), r)
    case KUint(w) => var (n, r) :- DecInt(h, s, w); Got(MUint(n, w), r)
    case KInt(w) => var (n, r) :- DecInt(h, s, w); Got(MInt(Signed(n, w), w), r)
    case KFloat => var (n, r) :- DecInt(h, s, 8); Got(MFloat(n), r)
    case KStr => var (x, r) :- DecStr(h, s); Got(MStr(x), r)
    case KBin => var (p, r) :- DecBin(h, s); Got(MBin(p), r)
    case KVar => var (t, r) :- DecVar(h, s); Got(MVar(t), r)
  }

  predicate AllSendable(ms: seq<Message>) {
    forall m :: m in ms ==> Sendable(m)
  }

  function SendAll(ms: seq<Message>): bytes
    requires AllSendable(ms)
  {
    if ms == [] then [] else Send(ms[0]) + SendAll(ms[1..])
  }

  function ReceiveAll(h: Host, ks: seq<Kind>, s: bytes): Parse<seq<Message>> {
    if ks == [] then Got([], s) else
    var (m, r) :- Receive(h, ks[0], s);
    var (ms, r1) :- ReceiveAll(h, ks[1..], r);
    Got([m] + ms, r1)
  }

  lemma MessageRoundTrip(m: Message, rest: bytes)
    requires Sendable(m)
    ensures Receive(PC, KindOf(m), Send(m) + rest) == Got(m, rest)
  {
    hide EncStr, EncBool, EncBin, EncVar, DecInt, DecStr, DecBool, DecBin, DecVar, Le, Signed;
    match m
    case MChar(c) => DecFixConcat([c], rest);
    case MBool(b) => DecBoolRoundTrip(b, rest);
    case MUint(n, w) => DecIntRoundTrip(PC, n, w, rest);
    case MInt(i, w) =>
      PatternRoundTrip(i, w);
      DecIntRoundTrip(PC, Pattern(i, w), w, rest);
    case MFloat(bits) => DecIntRoundTrip(PC, bits, 8, rest);
    case MStr(s) => DecStrRoundTrip(PC, s, rest);
    case MBin(p) => BinExactly(p, rest);
    case MVar(t) => RoundTrip(PC, t, rest);
  }

  /** One receive, and the session goes on behind it. */
  lemma SessionStep(h: Host, ks: seq<Kind>, s: bytes, m: Message, tail: bytes, ms: seq<Message>, rest: bytes)
    requires ks != [] && Receive(h, ks[0], s) == Got(m, tail) && ReceiveAll(h, ks[1..], tail) == Got(ms, rest)
    ensures ReceiveAll(h, ks, s) == Got([m] + ms, rest)
  {
    hide Receive;
  }

  /** Matching receives return the sent values in order and consume exactly the sent bytes. */
  lemma {:induction false} SessionRoundTrip(ms: seq<Message>, rest: bytes)
    requires AllSendable(ms)
    ensures ReceiveAll(PC, Kinds(ms), SendAll(ms) + rest) == Got(ms, rest)
  {
    hide Send, Receive;
    if ms == [] {
      assert SendAll(ms) + rest == rest;
    } else {
      var tail := SendAll(ms[1..]) + rest;
      Regroup(Send(ms[0]), SendAll(ms[1..]), rest);
      MessageRoundTrip(ms[0], tail);
      SessionRoundTrip(ms[1..], rest);
      assert Kinds(ms)[1..] == Kinds(ms[1..]);
      SessionStep(PC, Kinds(ms), Send(ms[0]) + tail, ms[0], tail, ms[1..], rest);
      assert ms == [ms[0]] + ms[1..];
    }
  }
}
