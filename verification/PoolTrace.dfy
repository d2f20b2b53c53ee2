/** The rules a run of the activity loop follows: a reference automaton over its visible events. */
module PoolTrace {
  import opened Bytes
  import opened Pool

  /** What the loop was instantiated for: new clients, monitored descriptors, or retained only. */
  datatype Config = Config(newcli: bool, listenFd: nat, monfds: bool, monitors: seq<nat>)

  datatype Ret = Continue | Quit | Rescan

  datatype Call = Monitor(i: nat, mfd: nat) | Listener(lfd: nat) | Activity(c: Client)

  function FdOf(call: Call): nat {
    match call
    case Monitor(_, fd) => fd
    case Listener(fd) => fd
    case Activity(c) => c.fd
  }

  /** A scan of the descriptors, an answer of select, or a callback with its verdict and the
      retained list it left behind. */
  datatype Event =
    | Scanned(fds: set<nat>, max: nat)
    | Selected(ready: set<nat>)
    | Called(call: Call, ret: Ret, list: seq<Client>)

  datatype Phase =
    | ToScan
    | ToSelect(snapshot: set<nat>)
    | InRound(snapshot: set<nat>, ready: set<nat>, pos: nat)
    | Over

  datatype State = State(list: seq<Client>, phase: Phase)

  function Watched(cfg: Config, list: seq<Client>): set<nat> {
    Fds(list)
    + (if cfg.newcli then {cfg.listenFd} else {})
    + (if cfg.monfds then set f | f in cfg.monitors else {})
  }

  function Monitored(cfg: Config): nat {
    if cfg.monfds then |cfg.monitors| else 0
  }

  /** Where the retained list starts on the agenda. */
  function Base(cfg: Config): nat {
    Monitored(cfg) + if cfg.newcli then 1 else 0
  }

  /** Everyone who may be called in a round is on its agenda, in the order monitors, listener,
      retained list: how many, and who is where. */
  function Size(cfg: Config, list: seq<Client>): nat {
    Base(cfg) + |list|
  }

  function Slot(cfg: Config, list: seq<Client>, i: nat): Call
    requires i < Size(cfg, list)
  {
    if i < Monitored(cfg) then Monitor(i, cfg.monitors[i])
    else if i < Base(cfg) then Listener(cfg.listenFd)
    else Activity(list[i - Base(cfg)])
  }

  /** The next one on the agenda whose descriptor is ready; the agenda's size if there is none. */
  function Due(cfg: Config, list: seq<Client>, ready: set<nat>, pos: nat): (n: nat)
    ensures pos < Size(cfg, list) ==> pos <= n <= Size(cfg, list)
    ensures pos >= Size(cfg, list) ==> n == Size(cfg, list)
    ensures n < Size(cfg, list) ==> FdOf(Slot(cfg, list, n)) in ready
    decreases Size(cfg, list) - pos
  {
    if pos >= Size(cfg, list) then Size(cfg, list)
    else if FdOf(Slot(cfg, list, pos)) in ready then pos
    else Due(cfg, list, ready, pos + 1)
  }

  /** Where the round goes on after a callback, on the list it left behind. */
  function Resume(cfg: Config, list: seq<Client>, call: Call): Option<nat> {
    match call
    case Monitor(i, _) => Some(i + 1)
    case Listener(_) => Some(Monitored(cfg) + 1)
    case Activity(c) => if c in list then Some(Base(cfg) + IndexOf(list, c) + 1) else None
  }

  /** One event. None if the event breaks the rules. */
  function Next(cfg: Config, st: State, ev: Event): Option<State> {
    match (st.phase, ev)
    case (ToScan, Scanned(fds, max)) =>
      if fds == Watched(cfg, st.list) && forall f :: f in fds ==> f <= max
      then Some(State(st.list, ToSelect(fds))) else None
    case (ToSelect(snapshot), Selected(ready)) =>
      if ready != {} && ready <= snapshot
      then Some(State(st.list, InRound(snapshot, ready, 0))) else None
    case (InRound(snapshot, ready, pos), Selected(again)) =>
      if Due(cfg, st.list, ready, pos) == Size(cfg, st.list) && again != {} && again <= snapshot
      then Some(State(st.list, InRound(snapshot, again, 0))) else None
    case (InRound(snapshot, ready, pos), Called(call, ret, list)) =>
      var n := Due(cfg, st.list, ready, pos);
      if n < Size(cfg, st.list) && call == Slot(cfg, st.list, n) && Distinct(list)
      then After(cfg, snapshot, ready, call, ret, list) else None
    case _ => None
  }

  function After(cfg: Config, snapshot: set<nat>, ready: set<nat>, call: Call, ret: Ret, list: seq<Client>): Option<State> {
    match ret
    case Quit => Some(State(list, Over))
    case Rescan => Some(State(list, ToScan))
    case Continue =>
      match Resume(cfg, list, call)
      case None => None
      case Some(pos) => Some(State(list, InRound(snapshot, ready, pos)))
  }

  /** The state after a log. */
  function Replay(cfg: Config, start: State, log: seq<Event>): Option<State> {
    if log == [] then Some(start) else
    match Replay(cfg, start, log[..|log| - 1])
    case None => None
    case Some(st) => Next(cfg, st, log[|log| - 1])
  }

  predicate Follows(cfg: Config, list: seq<Client>, log: seq<Event>) {
    Replay(cfg, State(list, ToScan), log).Some?
  }

  lemma ReplayAppend(cfg: Config, start: State, log: seq<Event>, ev: Event)
    ensures Replay(cfg, start, log + [ev]) ==
            match Replay(cfg, start, log) { case None => None case Some(st) => Next(cfg, st, ev) }
  {
    assert (log + [ev])[..|log|] == log;
  }

  lemma {:induction false} ReplayPrefix(cfg: Config, start: State, log: seq<Event>, i: nat)
    requires Replay(cfg, start, log).Some? && i <= |log|
    ensures Replay(cfg, start, log[..i]).Some?
    decreases |log|
  {
    if i == |log| {
      assert log[..i] == log;
    } else {
      ReplayPrefix(cfg, start, log[..|log| - 1], i);
      assert log[..|log| - 1][..i] == log[..i];
    }
  }

  // ---------------------------------------------------------------- reading a log directly

  /** The descriptors of the latest scan, the latest answer of select, the list as last left. */
  function LatestScan(log: seq<Event>): Option<set<nat>> {
    if log == [] then None
    else if log[|log| - 1].Scanned? then Some(log[|log| - 1].fds)
    else LatestScan(log[..|log| - 1])
  }

  function LatestReady(log: seq<Event>): Option<set<nat>> {
    if log == [] then None
    else if log[|log| - 1].Selected? then Some(log[|log| - 1].ready)
    else LatestReady(log[..|log| - 1])
  }

  function CurrentList(list: seq<Client>, log: seq<Event>): seq<Client> {
    if log == [] then list
    else if log[|log| - 1].Called? then log[|log| - 1].list
    else CurrentList(list, log[..|log| - 1])
  }

  /** The automaton's state is what the log itself says. */
  lemma {:induction false} StateIsHistory(cfg: Config, list: seq<Client>, log: seq<Event>)
    requires Follows(cfg, list, log)
    ensures var st := Replay(cfg, State(list, ToScan), log).value;
            && st.list == CurrentList(list, log)
            && (st.phase.ToSelect? ==> LatestScan(log) == Some(st.phase.snapshot))
            && (st.phase.InRound? ==> LatestScan(log) == Some(st.phase.snapshot)
                                      && LatestReady(log) == Some(st.phase.ready)
                                      && st.phase.ready <= st.phase.snapshot)
            && (st.phase.Over? <==> log != [] && log[|log| - 1].Called? && log[|log| - 1].ret.Quit?)
  {
    if log != [] {
      ReplayPrefix(cfg, State(list, ToScan), log, |log| - 1);
      StateIsHistory(cfg, list, log[..|log| - 1]);
    }
  }

  lemma EventIsStep(cfg: Config, list: seq<Client>, log: seq<Event>, i: nat) returns (st: State)
    requires Follows(cfg, list, log) && i < |log|
    ensures Replay(cfg, State(list, ToScan), log[..i]) == Some(st)
    ensures Next(cfg, st, log[i]).Some?
    ensures Replay(cfg, State(list, ToScan), log[..i + 1]) == Next(cfg, st, log[i])
    ensures Follows(cfg, list, log[..i])
  {
    ReplayPrefix(cfg, State(list, ToScan), log, i);
    ReplayPrefix(cfg, State(list, ToScan), log, i + 1);
    assert log[..i + 1][..i] == log[..i] && log[..i + 1][i] == log[i];
    st := Replay(cfg, State(list, ToScan), log[..i]).value;
  }

  // ---------------------------------------------------------------- safety of every run

  /** Whoever is called was reported ready by the latest select, out of the latest scan. */
  lemma CalledWasReady(cfg: Config, list: seq<Client>, log: seq<Event>, i: nat)
    requires Follows(cfg, list, log) && i < |log| && log[i].Called?
    ensures LatestScan(log[..i]).Some? && LatestReady(log[..i]).Some?
    ensures FdOf(log[i].call) in LatestReady(log[..i]).value
    ensures LatestReady(log[..i]).value <= LatestScan(log[..i]).value
  {
    var st := EventIsStep(cfg, list, log, i);
    StateIsHistory(cfg, list, log[..i]);
  }

  /** Every scan covers exactly the retained, listening and monitored descriptors of that moment,
      with the maximum no smaller than any of them. */
  lemma ScanIsExact(cfg: Config, list: seq<Client>, log: seq<Event>, i: nat)
    requires Follows(cfg, list, log) && i < |log| && log[i].Scanned?
    ensures forall f :: f in log[i].fds <==>
              || (exists c :: c in CurrentList(list, log[..i]) && c.fd == f)
              || (cfg.newcli && f == cfg.listenFd)
              || (cfg.monfds && f in cfg.monitors)
    ensures forall f :: f in log[i].fds ==> f <= log[i].max
  {
    var st := EventIsStep(cfg, list, log, i);
    StateIsHistory(cfg, list, log[..i]);
  }

  /** Where the latest scan is. */
  lemma {:induction false} LatestScanAt(log: seq<Event>) returns (i: nat)
    requires LatestScan(log).Some?
    ensures i < |log| && log[i].Scanned? && log[i].fds == LatestScan(log).value
    ensures forall j :: i < j < |log| ==> !log[j].Scanned?
  {
    i := |log| - 1;
    if !log[i].Scanned? {
      i := LatestScanAt(log[..i]);
    }
  }

  /** After QUIT nothing happens; after RESCAN the next event is a scan, after CONTINUE it is not. */
  lemma VerdictIsObeyed(cfg: Config, list: seq<Client>, log: seq<Event>, i: nat)
    requires Follows(cfg, list, log) && i + 1 < |log| && log[i].Called?
    ensures !log[i].ret.Quit?
    ensures log[i].ret.Rescan? <==> log[i + 1].Scanned?
  {
    var st := EventIsStep(cfg, list, log, i);
    var st' := EventIsStep(cfg, list, log, i + 1);
  }

  /** `a` comes before `b` in a round over `list`. */
  predicate Earlier(list: seq<Client>, a: Call, b: Call) {
    match (a, b)
    case (Monitor(i, _), Monitor(j, _)) => i < j
    case (Monitor(_, _), _) => true
    case (Listener(_), Activity(_)) => true
    case (Activity(c), Activity(d)) => c in list && d in list && IndexOf(list, c) < IndexOf(list, d)
    case _ => false
  }

  lemma {:induction false} IndexOfDistinct(l: seq<Client>, i: nat)
    requires Distinct(l) && i < |l|
    ensures IndexOf(l, l[i]) == i
  {
    if i > 0 {
      assert l[i] == l[1..][i - 1];
      IndexOfDistinct(l[1..], i - 1);
    }
  }

  /** Two callbacks in a row keep the order monitors, listener, retained list. */
  lemma RoundIsOrdered(cfg: Config, list: seq<Client>, log: seq<Event>, i: nat)
    requires Follows(cfg, list, log) && i + 1 < |log| && log[i].Called? && log[i + 1].Called?
    ensures Earlier(log[i].list, log[i].call, log[i + 1].call)
  {
    var st := EventIsStep(cfg, list, log, i);
    var st' := EventIsStep(cfg, list, log, i + 1);
    LaterSlot(cfg, log[i].list, log[i].call, Due(cfg, log[i].list, st'.phase.ready, st'.phase.pos));
  }

  lemma LaterSlot(cfg: Config, list: seq<Client>, call: Call, n: nat)
    requires Distinct(list) && n < Size(cfg, list)
    requires Resume(cfg, list, call).Some? && Resume(cfg, list, call).value <= n
    requires call.Listener? ==> cfg.newcli
    ensures Earlier(list, call, Slot(cfg, list, n))
  {
    if n >= Base(cfg) {
      IndexOfDistinct(list, n - Base(cfg));
    }
  }

  /** The ready ones on the agenda from `pos` on, in order. */
  function ReadyCalls(cfg: Config, list: seq<Client>, ready: set<nat>, pos: nat): seq<Call>
    decreases Size(cfg, list) - pos
  {
    if pos >= Size(cfg, list) then []
    else (if FdOf(Slot(cfg, list, pos)) in ready then [Slot(cfg, list, pos)] else [])
         + ReadyCalls(cfg, list, ready, pos + 1)
  }

  function CallsOf(log: seq<Event>): seq<Call> {
    if log == [] then []
    else (if log[0].Called? then [log[0].call] else []) + CallsOf(log[1..])
  }

  lemma {:induction false} SkipToDue(cfg: Config, list: seq<Client>, ready: set<nat>, pos: nat)
    ensures var n := Due(cfg, list, ready, pos);
            ReadyCalls(cfg, list, ready, pos) ==
            if n == Size(cfg, list) then [] else [Slot(cfg, list, n)] + ReadyCalls(cfg, list, ready, n + 1)
    decreases Size(cfg, list) - pos
  {
    hide FdOf, Slot;
    if pos < Size(cfg, list) && FdOf(Slot(cfg, list, pos)) !in ready {
      SkipToDue(cfg, list, ready, pos + 1);
    }
  }

  /** Callbacks answering CONTINUE that leave the list alone. */
  predicate Undisturbed(list: seq<Client>, round: seq<Event>) {
    forall e :: e in round ==> e.Called? && e.ret.Continue? && e.list == list
  }

  lemma ResumeBehind(cfg: Config, list: seq<Client>, n: nat)
    requires Distinct(list) && n < Size(cfg, list)
    ensures Resume(cfg, list, Slot(cfg, list, n)) == Some(n + 1)
  {
    if n >= Base(cfg) {
      IndexOfDistinct(list, n - Base(cfg));
    }
  }

  /** An undisturbed callback is the one due, and the round goes on right behind it. */
  lemma UndisturbedStep(cfg: Config, st: State, ev: Event)
    requires st.phase.InRound? && Distinct(st.list) && Undisturbed(st.list, [ev]) && Next(cfg, st, ev).Some?
    ensures var n := Due(cfg, st.list, st.phase.ready, st.phase.pos);
            && ev.Called? && n < Size(cfg, st.list) && ev.call == Slot(cfg, st.list, n)
            && Next(cfg, st, ev).value == State(st.list, InRound(st.phase.snapshot, st.phase.ready, n + 1))
  {
    assert ev in [ev];
    ResumeBehind(cfg, st.list, Due(cfg, st.list, st.phase.ready, st.phase.pos));
  }

  /** `round` and then the next answer of select, forwards from `st`. */
  predicate Continues(cfg: Config, st: State, round: seq<Event>, again: set<nat>)
    decreases |round|
  {
    if round == [] then Next(cfg, st, Selected(again)).Some?
    else Next(cfg, st, round[0]).Some? && Continues(cfg, Next(cfg, st, round[0]).value, round[1..], again)
  }

  lemma {:induction false} ReplayContinues(cfg: Config, st: State, round: seq<Event>, again: set<nat>)
    requires Replay(cfg, st, round + [Selected(again)]).Some?
    ensures Continues(cfg, st, round, again)
    decreases |round|
  {
    var log := round + [Selected(again)];
    FirstOfReplay(cfg, st, log);
    if round != [] {
      assert log[0] == round[0] && log[1..] == round[1..] + [Selected(again)];
      ReplayContinues(cfg, Next(cfg, st, round[0]).value, round[1..], again);
    }
  }

  /** The rest of an undisturbed round, up to the next select, calls exactly the ready ones left. */
  lemma {:induction false} RestOfRound(cfg: Config, st: State, round: seq<Event>, again: set<nat>)
    requires st.phase.InRound? && Distinct(st.list) && Undisturbed(st.list, round)
    requires Continues(cfg, st, round, again)
    ensures CallsOf(round) == ReadyCalls(cfg, st.list, st.phase.ready, st.phase.pos)
    decreases |round|
  {
    hide Slot, Due, Resume, Distinct, ReadyCalls;
    SkipToDue(cfg, st.list, st.phase.ready, st.phase.pos);
    if round != [] {
      assert round[0] in round;
      UndisturbedStep(cfg, st, round[0]);
      RestOfRound(cfg, Next(cfg, st, round[0]).value, round[1..], again);
    }
  }

  /** A whole undisturbed round: between two answers of select every ready one on the agenda is
      called once, in order, and no one else. */
  lemma RoundIsComplete(cfg: Config, list: seq<Client>, log: seq<Event>, ready: set<nat>, round: seq<Event>, again: set<nat>)
    requires Follows(cfg, list, log + [Selected(ready)] + round + [Selected(again)])
    requires Distinct(CurrentList(list, log)) && Undisturbed(CurrentList(list, log), round)
    ensures CallsOf(round) == ReadyCalls(cfg, CurrentList(list, log), ready, 0)
  {
    assert log + [Selected(ready)] + round + [Selected(again)] == log + [Selected(ready)] + (round + [Selected(again)]);
    var st := RoundStart(cfg, list, log, ready, round + [Selected(again)]);
    ReplayContinues(cfg, st, round, again);
    RestOfRound(cfg, st, round, again);
  }

  lemma RoundStart(cfg: Config, list: seq<Client>, log: seq<Event>, ready: set<nat>, tail: seq<Event>) returns (st: State)
    requires Follows(cfg, list, log + [Selected(ready)] + tail)
    ensures st.list == CurrentList(list, log) && st.phase.InRound? && st.phase.ready == ready && st.phase.pos == 0
    ensures Replay(cfg, st, tail).Some?
  {
    var head, start := log + [Selected(ready)], State(list, ToScan);
    assert (head + tail)[..|head|] == head && (head + tail)[..|log|] == log;
    ReplayPrefix(cfg, start, head + tail, |head|);
    ReplayPrefix(cfg, start, head + tail, |log|);
    StateIsHistory(cfg, list, log);
    ReplayAppend(cfg, start, log, Selected(ready));
    ReplayConcat(cfg, start, head, tail);
    st := Replay(cfg, start, head).value;
  }

  lemma {:induction false} ReplayConcat(cfg: Config, start: State, a: seq<Event>, b: seq<Event>)
    requires Replay(cfg, start, a).Some?
    ensures Replay(cfg, start, a + b) == Replay(cfg, Replay(cfg, start, a).value, b)
    decreases |b|
  {
    if b == [] {
      assert a + b == a;
    } else {
      ReplayConcat(cfg, start, a, b[..|b| - 1]);
      assert (a + b)[..|a + b| - 1] == a + b[..|b| - 1];
    }
  }

  lemma {:induction false} FirstOfReplay(cfg: Config, st: State, log: seq<Event>)
    requires log != [] && Replay(cfg, st, log).Some?
    ensures Next(cfg, st, log[0]).Some?
    ensures Replay(cfg, Next(cfg, st, log[0]).value, log[1..]) == Replay(cfg, st, log)
    decreases |log|
  {
    if |log| == 1 {
      assert log[..0] == [] && log[1..] == [];
    } else {
      var body := log[..|log| - 1];
      FirstOfReplay(cfg, st, body);
      assert log[1..][..|log[1..]| - 1] == body[1..];
    }
  }
}
