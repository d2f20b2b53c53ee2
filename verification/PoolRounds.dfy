/** Who is called in a round of the activity loop, also when it is cut short or its callbacks change
    the list. */
module PoolRounds {
  import opened Bytes
  import opened Pool
  import opened PoolTrace

  // ---------------------------------------------------------------- the agenda

  lemma SlotExactly(cfg: Config, list: seq<Client>, call: Call)
    ensures (exists n :: 0 <= n < Size(cfg, list) && Slot(cfg, list, n) == call) <==>
            || (call.Monitor? && cfg.monfds && call.i < |cfg.monitors| && call.mfd == cfg.monitors[call.i])
            || (call.Listener? && cfg.newcli && call.lfd == cfg.listenFd)
            || (call.Activity? && call.c in list)
  {
    match call
    case Monitor(i, fd) =>
      if cfg.monfds && i < |cfg.monitors| && fd == cfg.monitors[i] {
        assert Slot(cfg, list, i) == call;
      }
    case Listener(fd) =>
      if cfg.newcli && fd == cfg.listenFd {
        assert Slot(cfg, list, Monitored(cfg)) == call;
      }
    case Activity(c) =>
      if c in list {
        assert Slot(cfg, list, Base(cfg) + IndexOf(list, c)) == call;
      }
  }

  lemma SlotsInOrder(cfg: Config, list: seq<Client>, m: nat, n: nat)
    requires Distinct(list) && m < n < Size(cfg, list)
    ensures Earlier(list, Slot(cfg, list, m), Slot(cfg, list, n))
  {
    if m >= Base(cfg) {
      IndexOfDistinct(list, m - Base(cfg));
    }
    if n >= Base(cfg) {
      IndexOfDistinct(list, n - Base(cfg));
    }
  }

  lemma {:induction false} ReadySlots(cfg: Config, list: seq<Client>, ready: set<nat>, pos: nat)
    requires Distinct(list)
    ensures var calls := ReadyCalls(cfg, list, ready, pos);
            && (forall call :: call in calls <==>
                  FdOf(call) in ready && exists n :: pos <= n < Size(cfg, list) && Slot(cfg, list, n) == call)
            && (forall i, j :: 0 <= i < j < |calls| ==> Earlier(list, calls[i], calls[j]))
    decreases Size(cfg, list) - pos
  {
    hide Slot, FdOf, Earlier;
    if pos < Size(cfg, list) {
      ReadySlots(cfg, list, ready, pos + 1);
      var first, later := Slot(cfg, list, pos), ReadyCalls(cfg, list, ready, pos + 1);
      forall j | 0 <= j < |later| ensures Earlier(list, first, later[j]) {
        assert later[j] in later;
        var n :| pos + 1 <= n < Size(cfg, list) && Slot(cfg, list, n) == later[j];
        SlotsInOrder(cfg, list, pos, n);
      }
    }
  }

  /** The calls of a complete round: every ready monitor, then a ready listener, then every ready
      client, each once, in the order of their lists. */
  lemma ReadyCallsExactly(cfg: Config, list: seq<Client>, ready: set<nat>)
    requires Distinct(list)
    ensures var calls := ReadyCalls(cfg, list, ready, 0);
            && (forall i, j :: 0 <= i < j < |calls| ==> Earlier(list, calls[i], calls[j]))
            && (forall call :: call in calls <==>
                  || (call.Monitor? && cfg.monfds && call.i < |cfg.monitors| && call.mfd == cfg.monitors[call.i]
                      && call.mfd in ready)
                  || (call.Listener? && cfg.newcli && call.lfd == cfg.listenFd && call.lfd in ready)
                  || (call.Activity? && call.c in list && call.c.fd in ready))
  {
    ReadySlots(cfg, list, ready, 0);
    forall call: Call {
      SlotExactly(cfg, list, call);
    }
  }

  // ---------------------------------------------------------------- cut short

  /** `round`, forwards from `st`, as far as it has got. */
  predicate Goes(cfg: Config, st: State, round: seq<Event>)
    decreases |round|
  {
    round == [] || (Next(cfg, st, round[0]).Some? && Goes(cfg, Next(cfg, st, round[0]).value, round[1..]))
  }

  lemma {:induction false} ReplayGoes(cfg: Config, st: State, round: seq<Event>)
    requires Replay(cfg, st, round).Some?
    ensures Goes(cfg, st, round)
    decreases |round|
  {
    if round != [] {
      FirstOfReplay(cfg, st, round);
      ReplayGoes(cfg, Next(cfg, st, round[0]).value, round[1..]);
    }
  }

  /** Callbacks of which all but the last answer CONTINUE and leave the list alone. */
  predicate UndisturbedSoFar(list: seq<Client>, round: seq<Event>) {
    && (forall e :: e in round ==> e.Called?)
    && (round != [] ==> Undisturbed(list, round[..|round| - 1]))
  }

  lemma CalledIsDue(cfg: Config, st: State, ev: Event)
    requires st.phase.InRound? && ev.Called? && Next(cfg, st, ev).Some?
    ensures var n := Due(cfg, st.list, st.phase.ready, st.phase.pos);
            n < Size(cfg, st.list) && ev.call == Slot(cfg, st.list, n)
  {
  }

  lemma UndisturbedTail(list: seq<Client>, round: seq<Event>)
    requires |round| > 1 && UndisturbedSoFar(list, round)
    ensures Undisturbed(list, [round[0]]) && UndisturbedSoFar(list, round[1..])
  {
    assert round[0] == round[..|round| - 1][0];
    assert round[1..][..|round| - 2] == round[..|round| - 1][1..];
  }

  lemma {:induction false} GoesInOrder(cfg: Config, st: State, round: seq<Event>)
    requires st.phase.InRound? && Distinct(st.list) && UndisturbedSoFar(st.list, round) && Goes(cfg, st, round)
    ensures CallsOf(round) <= ReadyCalls(cfg, st.list, st.phase.ready, st.phase.pos)
    decreases |round|
  {
    hide Next, Slot, Due, ReadyCalls, Undisturbed, Distinct;
    SkipToDue(cfg, st.list, st.phase.ready, st.phase.pos);
    if round != [] {
      assert round[0] in round;
      CalledIsDue(cfg, st, round[0]);
      if |round| == 1 {
        assert CallsOf(round[1..]) == [];
      } else {
        UndisturbedTail(st.list, round);
        UndisturbedStep(cfg, st, round[0]);
        GoesInOrder(cfg, Next(cfg, st, round[0]).value, round[1..]);
      }
    }
  }

  /** However far a round has got, and whatever its last callback answered or did to the list, those
      called are the first of the ready ones on the agenda. */
  lemma RoundIsPrefix(cfg: Config, list: seq<Client>, log: seq<Event>, ready: set<nat>, round: seq<Event>)
    requires Follows(cfg, list, log + [Selected(ready)] + round)
    requires Distinct(CurrentList(list, log)) && UndisturbedSoFar(CurrentList(list, log), round)
    ensures CallsOf(round) <= ReadyCalls(cfg, CurrentList(list, log), ready, 0)
  {
    var st := RoundStart(cfg, list, log, ready, round);
    ReplayGoes(cfg, st, round);
    GoesInOrder(cfg, st, round);
  }

  // ---------------------------------------------------------------- callbacks that change the list

  /** Those who stay keep their order. */
  predicate OrderKept(a: seq<Client>, b: seq<Client>) {
    forall c, d :: c in a && c in b && d in a && d in b && IndexOf(a, c) < IndexOf(a, d) ==>
      IndexOf(b, c) < IndexOf(b, d)
  }

  lemma RetainKeepsOrder(l: seq<Client>, c: Client)
    requires Distinct(l + [c])
    ensures OrderKept(l, l + [c])
  {
    assert forall i :: 0 <= i < |l| ==> l[i] == (l + [c])[i];
    forall d | d in l ensures IndexOf(l + [c], d) == IndexOf(l, d) {
      assert (l + [c])[IndexOf(l, d)] == d;
      IndexOfDistinct(l + [c], IndexOf(l, d));
    }
  }

  lemma ReleaseKeepsOrder(l: seq<Client>, i: nat)
    requires Distinct(l) && i < |l|
    ensures OrderKept(l, Remove(l, i))
  {
    var r := Remove(l, i);
    assert Distinct(r);
    forall d | d in l && d in r ensures IndexOf(r, d) == IndexOf(l, d) - if IndexOf(l, d) > i then 1 else 0 {
      var j := IndexOf(r, d);
      assert r[j] == l[if j < i then j else j + 1];
      IndexOfDistinct(l, if j < i then j else j + 1);
    }
  }

  /** What a callback may do to the list. */
  datatype Edit = Retain(c: Client) | Release(i: nat)

  /** A retained client is a new list node: its identity is none of those `used` so far. */
  predicate Possible(used: set<nat>, l: seq<Client>, edits: seq<Edit>)
    decreases |edits|
  {
    edits == [] ||
    match edits[0]
    case Retain(c) => c.id !in used && Possible(used + {c.id}, l + [c], edits[1..])
    case Release(i) => i < |l| && Possible(used, Remove(l, i), edits[1..])
  }

  function Edited(used: set<nat>, l: seq<Client>, edits: seq<Edit>): seq<Client>
    requires Possible(used, l, edits)
    decreases |edits|
  {
    if edits == [] then l else
    match edits[0]
    case Retain(c) => Edited(used + {c.id}, l + [c], edits[1..])
    case Release(i) => Edited(used, Remove(l, i), edits[1..])
  }

  lemma OrderKeptTwice(a: seq<Client>, b: seq<Client>, e: seq<Client>)
    requires OrderKept(a, b) && OrderKept(b, e) && forall c :: c in a && c in e ==> c in b
    ensures OrderKept(a, e)
  {
  }

  /** Any series of retains and releases keeps the order of those who stay, and brings no one back. */
  lemma {:induction false} EditsKeepOrder(used: set<nat>, l: seq<Client>, edits: seq<Edit>)
    requires Distinct(l) && (forall c :: c in l ==> c.id in used) && Possible(used, l, edits)
    ensures var e := Edited(used, l, edits);
            Distinct(e) && OrderKept(l, e) && forall c :: c in e && c.id in used ==> c in l
    decreases |edits|
  {
    if edits != [] {
      hide OrderKept;
      var e := Edited(used, l, edits);
      match edits[0] {
        case Retain(c) =>
          RetainKeepsOrder(l, c);
          EditsKeepOrder(used + {c.id}, l + [c], edits[1..]);
          OrderKeptTwice(l, l + [c], e);
        case Release(i) =>
          ReleaseKeepsOrder(l, i);
          EditsKeepOrder(used, Remove(l, i), edits[1..]);
          OrderKeptTwice(l, Remove(l, i), e);
      }
    }
  }

  /** A round of callbacks answering CONTINUE, each keeping the order, with `c` on the list all the
      time. */
  predicate Stays(c: Client, list: seq<Client>, round: seq<Event>)
    decreases |round|
  {
    && c in list
    && (round != [] ==>
          && round[0].Called? && round[0].ret.Continue?
          && OrderKept(list, round[0].list) && Stays(c, round[0].list, round[1..]))
  }

  /** How often a call is made. */
  function Turns(call: Call, round: seq<Event>): nat {
    if round == [] then 0
    else (if round[0].Called? && round[0].call == call then 1 else 0) + Turns(call, round[1..])
  }

  lemma {:induction false} DueBy(cfg: Config, list: seq<Client>, ready: set<nat>, pos: nat, k: nat)
    requires pos <= k < Size(cfg, list) && FdOf(Slot(cfg, list, k)) in ready
    ensures Due(cfg, list, ready, pos) <= k
    decreases k - pos
  {
    if pos < k {
      DueBy(cfg, list, ready, pos + 1, k);
    }
  }

  /** Whether `c` still has its turn before it in this round. */
  predicate Awaits(cfg: Config, st: State, c: Client)
    requires st.phase.InRound? && c in st.list
  {
    st.phase.pos <= Base(cfg) + IndexOf(st.list, c) && c.fd in st.phase.ready
  }

  /** A callback leaves `c` waiting exactly if it was waiting and the callback is not its own. */
  lemma TurnPasses(cfg: Config, st: State, ev: Event, c: Client)
    requires st.phase.InRound? && Distinct(st.list) && c in st.list
    requires ev.Called? && ev.ret.Continue? && c in ev.list && OrderKept(st.list, ev.list)
    requires Next(cfg, st, ev).Some?
    ensures var st' := Next(cfg, st, ev).value;
            && st'.phase.InRound? && st'.phase.ready == st.phase.ready && st'.list == ev.list && Distinct(st'.list)
            && (ev.call == Activity(c) ==> Awaits(cfg, st, c) && !Awaits(cfg, st', c))
            && (ev.call != Activity(c) ==> (Awaits(cfg, st, c) <==> Awaits(cfg, st', c)))
  {
    var n, k := Due(cfg, st.list, st.phase.ready, st.phase.pos), Base(cfg) + IndexOf(st.list, c);
    if n >= Base(cfg) {
      IndexOfDistinct(st.list, n - Base(cfg));
    }
    if Awaits(cfg, st, c) {
      DueBy(cfg, st.list, st.phase.ready, st.phase.pos, k);
    }
  }

  lemma {:induction false} RestServesStayer(cfg: Config, st: State, round: seq<Event>, again: set<nat>, c: Client)
    requires st.phase.InRound? && Distinct(st.list) && Stays(c, st.list, round)
    requires Continues(cfg, st, round, again)
    ensures Turns(Activity(c), round) == if Awaits(cfg, st, c) then 1 else 0
    decreases |round|
  {
    if round == [] {
      if Awaits(cfg, st, c) {
        DueBy(cfg, st.list, st.phase.ready, st.phase.pos, Base(cfg) + IndexOf(st.list, c));
        assert false;
      }
    } else {
      TurnPasses(cfg, st, round[0], c);
      RestServesStayer(cfg, Next(cfg, st, round[0]).value, round[1..], again, c);
    }
  }

  /** A whole round whose callbacks keep the order of those who stay: a client that is on the list all
      the time is called exactly once if it is ready, and not at all if it is not. */
  lemma RoundServesStayers(cfg: Config, list: seq<Client>, log: seq<Event>, ready: set<nat>, round: seq<Event>, again: set<nat>, c: Client)
    requires Follows(cfg, list, log + [Selected(ready)] + (round + [Selected(again)]))
    requires Distinct(CurrentList(list, log)) && Stays(c, CurrentList(list, log), round)
    ensures Turns(Activity(c), round) == if c.fd in ready then 1 else 0
  {
    var st := RoundStart(cfg, list, log, ready, round + [Selected(again)]);
    ReplayContinues(cfg, st, round, again);
    RestServesStayer(cfg, st, round, again, c);
  }

  // ---------------------------------------------------------------- monitors and the listener

  predicate AllContinue(round: seq<Event>) {
    forall e :: e in round ==> e.Called? && e.ret.Continue?
  }

  /** Whether the slot in front of the list has its turn before it. */
  predicate AwaitsSlot(cfg: Config, st: State, k: nat)
    requires st.phase.InRound? && k < Base(cfg)
  {
    st.phase.pos <= k && FdOf(Slot(cfg, st.list, k)) in st.phase.ready
  }

  lemma SlotTurnPasses(cfg: Config, st: State, ev: Event, k: nat)
    requires st.phase.InRound? && Distinct(st.list) && k < Base(cfg)
    requires ev.Called? && ev.ret.Continue? && Next(cfg, st, ev).Some?
    ensures var st' := Next(cfg, st, ev).value;
            && st'.phase.InRound? && st'.phase.ready == st.phase.ready && st'.list == ev.list && Distinct(st'.list)
            && Slot(cfg, st'.list, k) == Slot(cfg, st.list, k)
            && (ev.call == Slot(cfg, st.list, k) ==> AwaitsSlot(cfg, st, k) && !AwaitsSlot(cfg, st', k))
            && (ev.call != Slot(cfg, st.list, k) ==> (AwaitsSlot(cfg, st, k) <==> AwaitsSlot(cfg, st', k)))
  {
    if AwaitsSlot(cfg, st, k) {
      DueBy(cfg, st.list, st.phase.ready, st.phase.pos, k);
    }
  }

  lemma {:induction false} RestServesSlot(cfg: Config, st: State, round: seq<Event>, again: set<nat>, k: nat)
    requires st.phase.InRound? && Distinct(st.list) && AllContinue(round) && k < Base(cfg)
    requires Continues(cfg, st, round, again)
    ensures Turns(Slot(cfg, st.list, k), round) == if AwaitsSlot(cfg, st, k) then 1 else 0
    decreases |round|
  {
    if round == [] {
      if AwaitsSlot(cfg, st, k) {
        DueBy(cfg, st.list, st.phase.ready, st.phase.pos, k);
        assert false;
      }
    } else {
      assert round[0] in round && forall e :: e in round[1..] ==> e in round;
      SlotTurnPasses(cfg, st, round[0], k);
      RestServesSlot(cfg, Next(cfg, st, round[0]).value, round[1..], again, k);
    }
  }

  /** A whole round of CONTINUEs calls every monitor and the listener exactly once if it is ready and
      not at all if it is not, whatever the callbacks do to the list. */
  lemma RoundServesOthers(cfg: Config, list: seq<Client>, log: seq<Event>, ready: set<nat>, round: seq<Event>, again: set<nat>)
    requires Follows(cfg, list, log + [Selected(ready)] + (round + [Selected(again)]))
    requires Distinct(CurrentList(list, log)) && AllContinue(round)
    ensures cfg.monfds ==> forall i :: 0 <= i < |cfg.monitors| ==>
              Turns(Monitor(i, cfg.monitors[i]), round) == if cfg.monitors[i] in ready then 1 else 0
    ensures cfg.newcli ==> Turns(Listener(cfg.listenFd), round) == if cfg.listenFd in ready then 1 else 0
  {
    var st := RoundStart(cfg, list, log, ready, round + [Selected(again)]);
    ReplayContinues(cfg, st, round, again);
    forall k | 0 <= k < Base(cfg)
      ensures Turns(Slot(cfg, st.list, k), round) == if FdOf(Slot(cfg, st.list, k)) in ready then 1 else 0
    {
      RestServesSlot(cfg, st, round, again, k);
    }
    if cfg.monfds {
      forall i | 0 <= i < |cfg.monitors|
        ensures Turns(Monitor(i, cfg.monitors[i]), round) == if cfg.monitors[i] in ready then 1 else 0
      {
        assert Slot(cfg, st.list, i) == Monitor(i, cfg.monitors[i]);
      }
    }
    if cfg.newcli {
      assert Slot(cfg, st.list, Monitored(cfg)) == Listener(cfg.listenFd);
    }
  }
}
