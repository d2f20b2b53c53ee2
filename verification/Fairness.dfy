/** The guarantee of the fair wait, and what the plain wait does not guarantee. */
module Fairness {
  import opened Bytes
  import opened Pool

  function Exec(l: seq<Client>, ops: seq<Op>): Option<seq<Client>>
    decreases |ops|
  {
    if ops == [] then Some(l)
    else if Enabled(l, ops[0]) then Exec(Step(l, ops[0]), ops[1..])
    else None
  }

  /** A fair wait that does not time out. */
  predicate Serves(l: seq<Client>, op: Op) {
    op.Fair? && ServedBy(l, op).Some?
  }

  /** The clients handed out by the fair waits of a run, in order. */
  function Handed(l: seq<Client>, ops: seq<Op>): seq<Client>
    requires Exec(l, ops).Some?
    decreases |ops|
  {
    if ops == [] then []
    else (if Serves(l, ops[0]) then [ServedBy(l, ops[0]).value] else []) + Handed(Step(l, ops[0]), ops[1..])
  }

  function Waits(ops: seq<Op>): nat {
    if ops == [] then 0 else (if ops[0].Fair? then 1 else 0) + Waits(ops[1..])
  }

  /** The client is not released and ready at every wait. */
  predicate StaysReady(c: Client, ops: seq<Op>) {
    forall op :: op in ops ==> op != Release(c) && (op.Fair? ==> c.fd in op.ready)
  }

  /** Those handed out before the first time `c` is. */
  function Before(c: Client, s: seq<Client>): seq<Client> {
    if s == [] || s[0] == c then [] else [s[0]] + Before(c, s[1..])
  }

  predicate NoRepeat(s: seq<Client>) {
    forall i, j :: 0 <= i < j < |s| ==> s[i] != s[j]
  }

  // ---------------------------------------------------------------- the list under one call

  lemma {:induction false} RemoveKeepsDistinct(l: seq<Client>, i: nat)
    requires Distinct(l) && i < |l|
    ensures Distinct(Remove(l, i))
    ensures l[i] !in Remove(l, i)
    ensures multiset(l) == multiset(Remove(l, i)) + multiset{l[i]}
  {
    assert l == l[..i] + [l[i]] + l[i + 1..];
  }

  /** A fair wait permutes the list: the first ready client goes to the end, all others keep their
      order. With no one ready it leaves the list alone. */
  lemma FairPermutes(l: seq<Client>, ready: set<nat>)
    requires Distinct(l)
    ensures var after := Step(l, Fair(ready));
            && multiset(after) == multiset(l)
            && (after == l
                || exists i :: 0 <= i < |l| && l[i].fd in ready && (forall j :: 0 <= j < i ==> l[j].fd !in ready)
                               && after == l[..i] + l[i + 1..] + [l[i]])
            && ((forall c :: c in l ==> c.fd !in ready) ==> after == l)
  {
    var i := FirstReady(l, ready);
    if i.Some? {
      RemoveKeepsDistinct(l, i.value);
      assert MoveToEnd(l, i.value) == l[..i.value] + l[i.value + 1..] + [l[i.value]];
    }
  }

  lemma StepKeepsDistinct(l: seq<Client>, op: Op)
    requires Distinct(l) && Enabled(l, op)
    ensures Distinct(Step(l, op))
  {
    match op
    case Retain(c) =>
    case Release(c) => RemoveKeepsDistinct(l, IndexOf(l, c));
    case Fair(ready) =>
      if !Serves(l, op) {
        return;
      }
      var i := FirstReady(l, ready).value;
      RemoveKeepsDistinct(l, i);
      forall j | 0 <= j < |l| - 1 ensures Remove(l, i)[j].id != l[i].id {
        assert Remove(l, i)[j] == l[if j < i then j else j + 1];
      }
  }

  /** Removing client `i` from in front of position `p` moves that position one forward. */
  lemma RemoveAhead(l: seq<Client>, i: nat, p: nat)
    requires Distinct(l) && i < p < |l|
    ensures Remove(l, i)[p - 1] == l[p]
    ensures Remove(l, i)[..p - 1] == Remove(l[..p], i)
    ensures forall c :: c in Remove(l[..p], i) ==> c in l[..p] && c != l[i]
  {
    assert Remove(l, i)[..p - 1] == l[..i] + l[i + 1..p];
    assert Remove(l[..p], i) == l[..i] + l[i + 1..p];
    assert Distinct(l[..p]);
    RemoveKeepsDistinct(l[..p], i);
  }

  /** One call leaves the client in place, with no one new ahead of it. */
  lemma StepKeepsAhead(l: seq<Client>, op: Op, p: nat) returns (q: nat)
    requires Distinct(l) && Enabled(l, op) && p < |l|
    requires op != Release(l[p]) && (op.Fair? ==> l[p].fd in op.ready && ServedBy(l, op) != Some(l[p]))
    ensures q < |Step(l, op)| && Step(l, op)[q] == l[p]
    ensures forall c :: c in Step(l, op)[..q] ==> c in l[..p]
    ensures if op.Fair? then p > 0 && q == p - 1 else q <= p
    ensures op.Fair? ==> Serves(l, op) && ServedBy(l, op).value in l[..p] && ServedBy(l, op).value !in Step(l, op)[..q]
  {
    match op
    case Retain(c) =>
      q := p;
      assert (l + [c])[..p] == l[..p];
    case Release(c) =>
      var i := IndexOf(l, c);
      if i < p {
        RemoveAhead(l, i, p);
        q := p - 1;
      } else {
        q := p;
        assert Remove(l, i)[..p] == l[..p];
      }
    case Fair(ready) =>
      q := p - 1;
      FairKeepsAhead(l, ready, p);
  }

  lemma FairKeepsAhead(l: seq<Client>, ready: set<nat>, p: nat)
    requires Distinct(l) && p < |l| && l[p].fd in ready && ServedBy(l, Fair(ready)) != Some(l[p])
    ensures var after := Step(l, Fair(ready));
            && p > 0 && p - 1 < |after| && after[p - 1] == l[p]
            && (forall c :: c in after[..p - 1] ==> c in l[..p])
            && Serves(l, Fair(ready))
            && ServedBy(l, Fair(ready)).value in l[..p] && ServedBy(l, Fair(ready)).value !in after[..p - 1]
  {
    hide FirstReady, Distinct;
    var i := FirstReady(l, ready).value;
    RemoveAhead(l, i, p);
    assert MoveToEnd(l, i)[..p - 1] == Remove(l, i)[..p - 1];
    assert l[i] == l[..p][i];
  }

  // ---------------------------------------------------------------- bounded bypass

  /** Everyone handed out before `c` is named once and among the clients `ahead`. */
  predicate OvertakenBy(c: Client, h: seq<Client>, ahead: seq<Client>) {
    && |Before(c, h)| <= |ahead|
    && NoRepeat(Before(c, h))
    && forall d :: d in Before(c, h) ==> d in ahead
  }

  lemma OneMoreOvertakes(c: Client, h: seq<Client>, t: seq<Client>, ahead: seq<Client>, ahead': seq<Client>)
    requires OvertakenBy(c, t, ahead')
    requires forall d :: d in ahead' ==> d in ahead
    requires h == t || (h != [] && h[0] != c && h[1..] == t)
    requires if h == t then |ahead'| <= |ahead| else |ahead'| < |ahead| && h[0] in ahead && h[0] !in ahead'
    ensures OvertakenBy(c, h, ahead)
    ensures c in t ==> c in h
  {
    if h != t {
      assert h == [h[0]] + t;
    }
  }

  /** A client at position `p` that stays ready is overtaken by pairwise distinct clients, all ahead
      of it at the start; so it is handed out within `p + 1` fair waits. */
  lemma {:induction false} BoundedBypass(l: seq<Client>, ops: seq<Op>, p: nat)
    requires Distinct(l) && p < |l| && Exec(l, ops).Some? && StaysReady(l[p], ops)
    ensures OvertakenBy(l[p], Handed(l, ops), l[..p])
    ensures Waits(ops) > p ==> l[p] in Handed(l, ops)
    decreases |ops|
  {
    if ops != [] {
      var c, op, l' := l[p], ops[0], Step(l, ops[0]);
      assert op in ops && StaysReady(c, ops[1..]);
      StepKeepsDistinct(l, op);
      if op.Fair? && ServedBy(l, op) == Some(c) {
        assert Handed(l, ops)[0] == c;
      } else {
        var q := StepKeepsAhead(l, op, p);
        BoundedBypass(l', ops[1..], q);
        OneMoreOvertakes(c, Handed(l, ops), Handed(l', ops[1..]), l[..p], l'[..q]);
      }
    }
  }

  /** How many waits of a run find a ready client on the list. */
  function Serving(l: seq<Client>, ops: seq<Op>): nat
    requires Exec(l, ops).Some?
    decreases |ops|
  {
    if ops == [] then 0
    else (if ops[0].Fair? && exists c :: c in l && c.fd in ops[0].ready then 1 else 0) + Serving(Step(l, ops[0]), ops[1..])
  }

  lemma {:induction false} HandedCount(l: seq<Client>, ops: seq<Op>)
    requires Exec(l, ops).Some?
    ensures |Handed(l, ops)| == Serving(l, ops)
    decreases |ops|
  {
    if ops != [] {
      HandedCount(Step(l, ops[0]), ops[1..]);
    }
  }

  // ---------------------------------------------------------------- the plain wait

  /** Who each of a series of plain waits hands out; they leave the list alone. */
  function PlainHanded(l: seq<Client>, answers: seq<set<nat>>): seq<Option<Client>> {
    if answers == [] then [] else [ServedBy(l, Fair(answers[0]))] + PlainHanded(l, answers[1..])
  }

  /** However many plain waits are made, a first client that stays ready gets every one of them. */
  lemma {:induction false} PlainWaitStarves(l: seq<Client>, answers: seq<set<nat>>)
    requires l != [] && forall a :: a in answers ==> l[0].fd in a
    ensures |PlainHanded(l, answers)| == |answers|
    ensures forall c :: c in PlainHanded(l, answers) ==> c == Some(l[0])
  {
    if answers != [] {
      assert answers[0] in answers;
      PlainWaitStarves(l, answers[1..]);
    }
  }
}
