/** The activity loop as the server runs it, against the rules of its runs. */
module PoolLoop {
  import opened Bytes
  import opened Pool
  import opened PoolTrace

  /** How a run is observed to end. Dangling: a callback erased its own client and said CONTINUE, so
      the iterator it was called for is gone. Unfinished: the run goes on past the observed part. */
  datatype Exit = NotListening | TimedOutWaiting | Returned | Dangling | Unfinished

  /** How many answers of select a log holds. */
  function Selects(log: seq<Event>): nat {
    if log == [] then 0 else Selects(log[..|log| - 1]) + if log[|log| - 1].Selected? then 1 else 0
  }

  /** The answers of select in a log are the ready descriptors of the latest scan. */
  predicate Truthful(readiness: nat -> set<nat>, first: nat, log: seq<Event>) {
    log == [] ||
    var body, ev := log[..|log| - 1], log[|log| - 1];
    && Truthful(readiness, first, body)
    && (ev.Selected? ==> LatestScan(body).Some? && ev.ready == LatestScan(body).value * readiness(first + Selects(body)))
  }

  lemma SelectedFromScan(cfg: Config, list: seq<Client>, log: seq<Event>, st: State, ev: Event)
    requires Replay(cfg, State(list, ToScan), log) == Some(st) && Next(cfg, st, ev).Some?
    ensures ev.Selected? ==> (st.phase.ToSelect? || st.phase.InRound?) && LatestScan(log) == Some(st.phase.snapshot)
  {
    if ev.Selected? {
      StateIsHistory(cfg, list, log);
    }
  }

  /** Of all there was to watch at the latest scan nothing is ready. */
  ghost predicate NoneReady(cfg: Config, list: seq<Client>, log: seq<Event>, ready: set<nat>) {
    exists i :: 0 <= i < |log| && log[i].Scanned? && (forall j :: i < j < |log| ==> !log[j].Scanned?)
                && forall f :: f in ready ==>
                     && (forall c :: c in CurrentList(list, log[..i]) ==> c.fd != f)
                     && !(cfg.newcli && f == cfg.listenFd)
                     && !(cfg.monfds && f in cfg.monitors)
  }

  lemma NothingWatchedIsReady(cfg: Config, list: seq<Client>, log: seq<Event>, ready: set<nat>)
    requires Follows(cfg, list, log) && LatestScan(log).Some? && LatestScan(log).value * ready == {}
    ensures NoneReady(cfg, list, log, ready)
  {
    var i := LatestScanAt(log);
    ScanIsExact(cfg, list, log, i);
    assert forall f :: f in ready && f in log[i].fds ==> f in log[i].fds * ready;
  }

  lemma SelectIsAllowed(cfg: Config, st: State, snapshot: set<nat>, ready: set<nat>)
    requires ready != {} && ready <= snapshot
    requires st.phase == ToSelect(snapshot)
          || (st.phase.InRound? && st.phase.snapshot == snapshot
              && Due(cfg, st.list, st.phase.ready, st.phase.pos) == Size(cfg, st.list))
    ensures Next(cfg, st, Selected(ready)) == Some(State(st.list, InRound(snapshot, ready, 0)))
  {
  }

  lemma ScanIsAllowed(cfg: Config, st: State, fds: set<nat>, max: nat)
    requires st.phase.ToScan? && fds == Watched(cfg, st.list) && forall f :: f in fds ==> f <= max
    ensures Next(cfg, st, Scanned(fds, max)) == Some(State(st.list, ToSelect(fds)))
  {
  }

  lemma CallIsAllowed(cfg: Config, st: State, call: Call, ret: Ret, left: seq<Client>)
    requires st.phase.InRound? && Distinct(left)
    requires var n := Due(cfg, st.list, st.phase.ready, st.phase.pos);
             n < Size(cfg, st.list) && call == Slot(cfg, st.list, n)
    requires ret.Continue? && call.Activity? ==> call.c in left
    ensures var next := Next(cfg, st, Called(call, ret, left));
            next == After(cfg, st.phase.snapshot, st.phase.ready, call, ret, left) && next.Some? && next.value.list == left
  {
  }

  /** How many callbacks a log holds. */
  function Callbacks(log: seq<Event>): nat {
    if log == [] then 0 else Callbacks(log[..|log| - 1]) + if log[|log| - 1].Called? then 1 else 0
  }

  /** The callbacks of a log are answered by `replies`, in order, from the `first` one on. */
  predicate Answered(replies: nat -> (Ret, seq<Client>), first: nat, log: seq<Event>) {
    log == [] ||
    var body, ev := log[..|log| - 1], log[|log| - 1];
    && Answered(replies, first, body)
    && (ev.Called? ==> (ev.ret, ev.list) == replies(first + Callbacks(body)))
  }

  // ---------------------------------------------------------------- what the records say

  lemma {:induction false} SelectsBefore(log: seq<Event>, i: nat)
    requires i <= |log|
    ensures Selects(log[..i]) == |set j | 0 <= j < i && log[j].Selected?|
  {
    if i > 0 {
      SelectsBefore(log, i - 1);
      assert log[..i][..i - 1] == log[..i - 1];
      var before := set j | 0 <= j < i - 1 && log[j].Selected?;
      assert (set j | 0 <= j < i && log[j].Selected?) == if log[i - 1].Selected? then before + {i - 1} else before;
    }
  }

  lemma {:induction false} CallbacksBefore(log: seq<Event>, i: nat)
    requires i <= |log|
    ensures Callbacks(log[..i]) == |set j | 0 <= j < i && log[j].Called?|
  {
    if i > 0 {
      CallbacksBefore(log, i - 1);
      assert log[..i][..i - 1] == log[..i - 1];
      var before := set j | 0 <= j < i - 1 && log[j].Called?;
      assert (set j | 0 <= j < i && log[j].Called?) == if log[i - 1].Called? then before + {i - 1} else before;
    }
  }

  lemma {:induction false} TruthfulAt(readiness: nat -> set<nat>, first: nat, log: seq<Event>, i: nat)
    requires Truthful(readiness, first, log) && i < |log| && log[i].Selected?
    ensures LatestScan(log[..i]).Some?
    ensures log[i].ready == LatestScan(log[..i]).value * readiness(first + Selects(log[..i]))
    decreases |log|
  {
    if i < |log| - 1 {
      var body := log[..|log| - 1];
      TruthfulAt(readiness, first, body, i);
      assert body[..i] == log[..i];
    }
  }

  /** Every answer of select of a run is for the watched descriptors of the latest scan, those of them
      that are ready at that select and no others. */
  lemma AnswersAreExact(cfg: Config, list: seq<Client>, readiness: nat -> set<nat>, first: nat, log: seq<Event>, i: nat)
      returns (scan: nat)
    requires Follows(cfg, list, log) && Truthful(readiness, first, log) && i < |log| && log[i].Selected?
    ensures scan < i && log[scan].Scanned? && forall j :: scan < j < i ==> !log[j].Scanned?
    ensures var ready := readiness(first + |set j | 0 <= j < i && log[j].Selected?|);
            forall f :: f in log[i].ready <==>
              && f in ready
              && ((exists c :: c in CurrentList(list, log[..scan]) && c.fd == f)
                  || (cfg.newcli && f == cfg.listenFd)
                  || (cfg.monfds && f in cfg.monitors))
  {
    hide Selects, Truthful, Replay, LatestScan, CurrentList;
    TruthfulAt(readiness, first, log, i);
    SelectsBefore(log, i);
    scan := LatestScanAt(log[..i]);
    ScanIsExact(cfg, list, log, scan);
    assert log[..i][scan] == log[scan] && log[..i][..scan] == log[..scan];
  }

  lemma {:induction false} AnsweredAt(replies: nat -> (Ret, seq<Client>), first: nat, log: seq<Event>, i: nat)
    requires Answered(replies, first, log) && i < |log| && log[i].Called?
    ensures (log[i].ret, log[i].list) == replies(first + Callbacks(log[..i]))
    decreases |log|
  {
    if i < |log| - 1 {
      AnsweredAt(replies, first, log[..|log| - 1], i);
      assert log[..|log| - 1][..i] == log[..i];
    }
  }

  /** Every callback of a run is answered by the reply whose turn it is. */
  lemma RepliesInOrder(replies: nat -> (Ret, seq<Client>), first: nat, log: seq<Event>, i: nat)
    requires Answered(replies, first, log) && i < |log| && log[i].Called?
    ensures (log[i].ret, log[i].list) == replies(first + |set j | 0 <= j < i && log[j].Called?|)
  {
    hide Callbacks, Answered;
    AnsweredAt(replies, first, log, i);
    CallbacksBefore(log, i);
  }

  class Loop {
    const srv: Server
    const cfg: Config
    /** What the k-th callback answers, and the retained list it leaves behind. */
    const replies: nat -> (Ret, seq<Client>)
    var asked: nat
    /** How many more answers of select and callbacks are observed. */
    var budget: nat
    var log: seq<Event>
    ghost var list: seq<Client>
    ghost var firstSelect: nat
    ghost var firstReply: nat
    ghost var total: nat
    ghost var st: State

    constructor (srv: Server, cfg: Config, replies: nat -> (Ret, seq<Client>), budget: nat)
      ensures this.srv == srv && this.cfg == cfg && this.replies == replies && this.budget == budget
    {
      this.srv, this.cfg, this.replies, this.budget := srv, cfg, replies, budget;
      asked, log := 0, [];
    }

    /** The log is a run of the rules and accounts for every answer of select and every reply taken,
        but for `selects` and `replied` of them at the very end. */
    ghost predicate Recorded(selects: nat, replied: nat)
      reads this, srv
    {
      && Replay(cfg, State(list, ToScan), log) == Some(st)
      && Truthful(srv.readiness, firstSelect, log)
      && Answered(replies, firstReply, log)
      && srv.selects == firstSelect + Selects(log) + selects
      && asked == firstReply + Callbacks(log) + replied
      && budget + Selects(log) + Callbacks(log) + selects + replied == total
      && forall k :: Distinct(replies(k).1)
    }

    ghost predicate Tracks()
      reads this, srv
    {
      Recorded(0, 0) && st.list == srv.retained && Distinct(srv.retained)
    }

    /** Add an event the rules allow: an answer of select must be the true one, a callback's answer
        the next reply. */
    method Emit(ev: Event)
      requires Replay(cfg, State(list, ToScan), log) == Some(st) && Next(cfg, st, ev).Some?
      requires Truthful(srv.readiness, firstSelect, log) && Answered(replies, firstReply, log)
      requires ev.Selected? ==> ev.ready == st.phase.snapshot * srv.readiness(firstSelect + Selects(log))
      requires ev.Called? ==> (ev.ret, ev.list) == replies(firstReply + Callbacks(log))
      modifies this`log, this`st
      ensures log == old(log) + [ev] && Some(st) == Next(cfg, old(st), ev)
      ensures Replay(cfg, State(list, ToScan), log) == Some(st)
      ensures Truthful(srv.readiness, firstSelect, log) && Answered(replies, firstReply, log)
      ensures Selects(log) == Selects(old(log)) + if ev.Selected? then 1 else 0
      ensures Callbacks(log) == Callbacks(old(log)) + if ev.Called? then 1 else 0
    {
      hide Replay, Next;
      ReplayAppend(cfg, State(list, ToScan), log, ev);
      SelectedFromScan(cfg, list, log, st, ev);
      st := Next(cfg, st, ev).value;
      log := log + [ev];
      assert log[..|log| - 1] == old(log);
    }

    /** The descriptors to watch: retained, listening, monitored. */
    method Watch() returns (fds: set<nat>, maxsock: nat)
      ensures fds == Watched(cfg, srv.retained)
      ensures forall f :: f in fds <==>
                || (exists c :: c in srv.retained && c.fd == f)
                || (cfg.newcli && f == cfg.listenFd)
                || (cfg.monfds && f in cfg.monitors)
      ensures forall f :: f in fds ==> f <= maxsock
    {
      fds, maxsock := srv.ClientsFillFdset();
      if cfg.newcli {
        fds := fds + {cfg.listenFd};
        if cfg.listenFd > maxsock {
          maxsock := cfg.listenFd;
        }
      }
      if cfg.monfds {
        var i := 0;
        ghost var base := fds;
        while i < |cfg.monitors|
          invariant i <= |cfg.monitors|
          invariant fds == base + set f | f in cfg.monitors[..i]
          invariant forall f :: f in fds ==> f <= maxsock
        {
          assert cfg.monitors[..i + 1] == cfg.monitors[..i] + [cfg.monitors[i]];
          fds := fds + {cfg.monitors[i]};
          if cfg.monitors[i] > maxsock {
            maxsock := cfg.monitors[i];
          }
          i := i + 1;
        }
        assert cfg.monitors[..i] == cfg.monitors;
      }
    }

    /** The part from `_rescan` to the inner loop. */
    method Scan() returns (fds: set<nat>, maxsock: nat)
      requires Tracks() && st.phase.ToScan?
      modifies this`log, this`st
      ensures Tracks() && st.phase == ToSelect(fds)
      ensures forall f :: f in fds ==> f <= maxsock
    {
      hide Replay, Truthful, Answered, Selects, Callbacks, Next, Watched;
      fds, maxsock := Watch();
      ScanIsAllowed(cfg, st, fds, maxsock);
      Emit(Scanned(fds, maxsock));
    }

    /** Nothing is due: the loop is at its select. */
    ghost predicate AtSelect(snapshot: set<nat>)
      reads this
    {
      || st.phase == ToSelect(snapshot)
      || (st.phase.InRound? && st.phase.snapshot == snapshot
          && Due(cfg, st.list, st.phase.ready, st.phase.pos) == Size(cfg, st.list))
    }

    /** The wait over `snapshot` found none of it ready. */
    ghost predicate TimedOut(snapshot: set<nat>)
      reads this, srv
    {
      && Recorded(1, 0) && st.list == srv.retained && AtSelect(snapshot)
      && snapshot * srv.readiness(srv.selects - 1) == {}
    }

    method Wait(snapshot: set<nat>, maxsock: nat) returns (n: nat, ready: set<nat>)
      requires Tracks() && AtSelect(snapshot) && budget > 0
      requires forall f :: f in snapshot ==> f <= maxsock
      modifies this`log, this`st, this`budget, srv`selects
      ensures budget == old(budget) - 1
      ensures if n == 0 then TimedOut(snapshot)
              else Tracks() && st.phase == InRound(snapshot, ready, 0)
    {
      hide Replay, Truthful, Answered, Selects, Callbacks, Next;
      budget := budget - 1;
      n, ready := srv.SelectBelow(maxsock, snapshot);
      if n > 0 {
        SelectIsAllowed(cfg, st, snapshot, ready);
        Emit(Selected(ready));
      }
    }

    /** The client due was called, erased itself and said CONTINUE. */
    ghost predicate Orphaned()
      reads this, srv
    {
      && Recorded(0, 1) && st.phase.InRound? && asked > 0
      && replies(asked - 1) == (Continue, srv.retained)
      && var n := Due(cfg, st.list, st.phase.ready, st.phase.pos);
         n < Size(cfg, st.list) && Slot(cfg, st.list, n).Activity? && Slot(cfg, st.list, n).c !in srv.retained
    }

    /** A callback: whatever it answers, and however it leaves the retained list. */
    method Invoke(call: Call) returns (r: Ret, alive: bool)
      requires Tracks() && st.phase.InRound? && budget > 0
      requires var n := Due(cfg, st.list, st.phase.ready, st.phase.pos);
               n < Size(cfg, st.list) && call == Slot(cfg, st.list, n)
      modifies this`log, this`st, this`budget, this`asked, srv`retained
      ensures budget == old(budget) - 1
      ensures alive <==> !(r.Continue? && call.Activity? && call.c !in srv.retained)
      ensures !alive ==> Orphaned()
      ensures alive ==> Tracks()
      ensures alive ==> Some(st) == After(cfg, old(st).phase.snapshot, old(st).phase.ready, call, r, srv.retained)
    {
      hide Replay, Truthful, Answered, Selects, Callbacks, Next;
      budget := budget - 1;
      var reply := replies(asked);
      var left;
      r, left := reply.0, reply.1;
      asked := asked + 1;
      srv.retained := left;
      alive := !(r.Continue? && call.Activity? && call.c !in left);
      if alive {
        CallIsAllowed(cfg, st, call, r, left);
        Emit(Called(call, r, left));
      }
    }

    /** The round over `snapshot` and `ready` has got to slot `i` of its agenda. */
    ghost predicate AtSlot(snapshot: set<nat>, ready: set<nat>, i: nat)
      reads this
    {
      && st.phase.InRound? && st.phase.snapshot == snapshot && st.phase.ready == ready
      && Due(cfg, st.list, ready, st.phase.pos) == Due(cfg, st.list, ready, i)
    }

    /** Where a phase of the round leaves off: at slot `i`, after a verdict, or at the end of the
        observation. */
    ghost predicate LeftOff(snapshot: set<nat>, ready: set<nat>, r: Ret, stop: Option<Exit>)
      reads this, srv
    {
      match stop
      case Some(Dangling) => Orphaned()
      case Some(Unfinished) => Tracks() && !st.phase.Over? && budget == 0
      case Some(_) => false
      case None =>
        Tracks() &&
        match r
        case Continue => true
        case Quit => st.phase.Over?
        case Rescan => st.phase.ToScan?
    }

    method CallMonitors(snapshot: set<nat>, ready: set<nat>) returns (r: Ret, stop: Option<Exit>)
      requires Tracks() && AtSlot(snapshot, ready, 0)
      modifies this`log, this`st, this`budget, this`asked, srv`retained
      ensures LeftOff(snapshot, ready, r, stop) && budget <= old(budget)
      ensures stop.None? && r.Continue? ==> AtSlot(snapshot, ready, Monitored(cfg))
    {
      hide Recorded;
      r, stop := Continue, None;
      if cfg.monfds {
        var i := 0;
        while i < |cfg.monitors|
          invariant i <= |cfg.monitors| && budget <= old(budget) && r.Continue?
          invariant Tracks() && AtSlot(snapshot, ready, i)
        {
          if cfg.monitors[i] in ready {
            if budget == 0 {
              return Continue, Some(Unfinished);
            }
            var alive;
            r, alive := Invoke(Monitor(i, cfg.monitors[i]));
            if !r.Continue? {
              return r, None;
            }
          }
          i := i + 1;
        }
      }
    }

    method CallListener(snapshot: set<nat>, ready: set<nat>) returns (r: Ret, stop: Option<Exit>)
      requires Tracks() && AtSlot(snapshot, ready, Monitored(cfg))
      modifies this`log, this`st, this`budget, this`asked, srv`retained
      ensures LeftOff(snapshot, ready, r, stop) && budget <= old(budget)
      ensures stop.None? && r.Continue? ==> AtSlot(snapshot, ready, Base(cfg))
    {
      r, stop := Continue, None;
      if cfg.newcli && cfg.listenFd in ready {
        if budget == 0 {
          return Continue, Some(Unfinished);
        }
        var alive;
        r, alive := Invoke(Listener(cfg.listenFd));
      }
    }

    /** The body of the walk over the retained list, at position `it`, up to the next `++it`. */
    method CallClient(snapshot: set<nat>, ready: set<nat>, it: nat) returns (r: Ret, stop: Option<Exit>, at: nat)
      requires Tracks() && it < |srv.retained| && AtSlot(snapshot, ready, Base(cfg) + it)
      modifies this`log, this`st, this`budget, this`asked, srv`retained
      ensures LeftOff(snapshot, ready, r, stop)
      ensures stop.None? && r.Continue? ==> at < |srv.retained| && AtSlot(snapshot, ready, Base(cfg) + at + 1)
      ensures budget < old(budget) || (budget == old(budget) && at == it && srv.retained == old(srv.retained))
    {
      hide Recorded;
      r, stop, at := Continue, None, it;
      var c := srv.retained[it];
      if c.fd in ready {
        if budget == 0 {
          return r, Some(Unfinished), at;
        }
        var alive;
        r, alive := Invoke(Activity(c));
        if !alive {
          return r, Some(Dangling), at;
        }
        if r.Continue? {
          at := IndexOf(srv.retained, c);
        }
      }
    }

    /** The iterator walks the list as the callbacks leave it. */
    method CallClients(snapshot: set<nat>, ready: set<nat>) returns (r: Ret, stop: Option<Exit>)
      requires Tracks() && AtSlot(snapshot, ready, Base(cfg))
      modifies this`log, this`st, this`budget, this`asked, srv`retained
      ensures LeftOff(snapshot, ready, r, stop) && budget <= old(budget)
      ensures stop.None? && r.Continue? ==> AtSelect(snapshot)
    {
      hide Recorded;
      r, stop := Continue, None;
      var it: nat := 0;
      while it < |srv.retained|
        invariant it <= |srv.retained| && budget <= old(budget) && stop.None? && r.Continue?
        invariant Tracks() && AtSlot(snapshot, ready, Base(cfg) + it)
        decreases budget, |srv.retained| - it
      {
        r, stop, it := CallClient(snapshot, ready, it);
        if stop.Some? || !r.Continue? {
          return r, stop;
        }
        it := it + 1;
      }
    }

    /** One turn of the inner loop. */
    method Round(snapshot: set<nat>, maxsock: nat) returns (r: Ret, stop: Option<Exit>)
      requires Tracks() && AtSelect(snapshot) && budget > 0
      requires forall f :: f in snapshot ==> f <= maxsock
      modifies this`log, this`st, this`budget, this`asked, srv`retained, srv`selects
      ensures budget < old(budget)
      ensures if stop == Some(TimedOutWaiting) then TimedOut(snapshot) else LeftOff(snapshot, {}, r, stop)
      ensures stop.None? && r.Continue? ==> AtSelect(snapshot)
    {
      var n, ready := Wait(snapshot, maxsock);
      if n == 0 {
        return Continue, Some(TimedOutWaiting);
      }
      r, stop := CallMonitors(snapshot, ready);
      if stop.None? && r.Continue? {
        r, stop := CallListener(snapshot, ready);
      }
      if stop.None? && r.Continue? {
        r, stop := CallClients(snapshot, ready);
      }
    }

    /** The inner loop, from a scan to the next verdict that ends it. */
    method Serve(snapshot: set<nat>, maxsock: nat) returns (r: Ret, stop: Option<Exit>)
      requires Tracks() && AtSelect(snapshot)
      requires forall f :: f in snapshot ==> f <= maxsock
      modifies this`log, this`st, this`budget, this`asked, srv`retained, srv`selects
      ensures budget <= old(budget)
      ensures if stop == Some(TimedOutWaiting) then TimedOut(snapshot) else LeftOff(snapshot, {}, r, stop)
      ensures stop.None? ==> !r.Continue? && budget < old(budget)
    {
      hide Recorded;
      r, stop := Continue, None;
      while r.Continue?
        invariant LeftOff(snapshot, {}, r, stop) && stop.None? && budget <= old(budget)
        invariant if r.Continue? then AtSelect(snapshot) else budget < old(budget)
        decreases budget
      {
        if budget == 0 {
          return r, Some(Unfinished);
        }
        r, stop := Round(snapshot, maxsock);
        if stop.Some? {
          return r, stop;
        }
      }
    }

    /** What a run leaves behind, by how it ended. */
    ghost predicate Observed(exit: Exit)
      reads this, srv
    {
      match exit
      case NotListening => true
      case Returned => Tracks() && st.phase.Over?
      case Unfinished => Tracks() && !st.phase.Over? && budget == 0
      case Dangling => Orphaned()
      case TimedOutWaiting => LatestScan(log).Some? && TimedOut(LatestScan(log).value)
    }

    /** _wait_activity_loop. Every run follows the rules; its answers of select are true to the
        latest scan and its callbacks' answers are the replies, all of them, in order. It returns
        normally only by a QUIT, times out only when nothing scanned is ready, and goes on as long
        as it is observed. */
    method WaitActivityLoop() returns (exit: Exit)
      requires Distinct(srv.retained) && forall k :: Distinct(replies(k).1)
      modifies this, srv`retained, srv`selects
      ensures exit.NotListening? <==> cfg.newcli && !srv.listening
      ensures exit.NotListening? ==> srv.retained == old(srv.retained) && srv.selects == old(srv.selects)
      ensures exit.NotListening? ==> asked == old(asked) && budget == old(budget) && log == old(log)
      ensures !exit.NotListening? ==>
                && Replay(cfg, State(old(srv.retained), ToScan), log) == Some(st)
                && Truthful(srv.readiness, old(srv.selects), log)
                && Answered(replies, old(asked), log)
      ensures !exit.NotListening? ==>
                var late, orphan := if exit.TimedOutWaiting? then 1 else 0, if exit.Dangling? then 1 else 0;
                && srv.selects == old(srv.selects) + Selects(log) + late
                && asked == old(asked) + Callbacks(log) + orphan
                && budget + Selects(log) + Callbacks(log) + late + orphan == old(budget)
      ensures !exit.NotListening? && !exit.Dangling? ==> srv.retained == CurrentList(old(srv.retained), log)
      ensures exit.Returned? <==> !exit.NotListening? && log != [] && log[|log| - 1].Called? && log[|log| - 1].ret.Quit?
      ensures exit.Unfinished? ==> budget == 0
      ensures exit.TimedOutWaiting? ==> LatestScan(log).Some? && TimedOut(LatestScan(log).value)
      ensures exit.TimedOutWaiting? ==> NoneReady(cfg, old(srv.retained), log, srv.readiness(srv.selects - 1))
      ensures exit.Dangling? ==> Orphaned()
    {
      hide Observed, Orphaned, TimedOut, NoneReady, Replay, Truthful, Answered, Selects, Callbacks, CurrentList, LatestScan, Due, Slot;
      if cfg.newcli && !srv.listening {
        return NotListening;
      }
      log := [];
      list, st := srv.retained, State(srv.retained, ToScan);
      firstSelect, firstReply, total := srv.selects, asked, budget;
      NothingYet();
      exit := Run();
      Accounts(exit);
    }

    lemma NothingYet()
      requires log == [] && st == State(list, ToScan) && list == srv.retained && Distinct(list)
      requires firstSelect == srv.selects && firstReply == asked && total == budget
      requires forall k :: Distinct(replies(k).1)
      ensures Tracks()
    {
    }

    /** What an observed run comes to. */
    lemma Accounts(exit: Exit)
      requires !exit.NotListening? && Observed(exit)
      ensures Recorded(if exit.TimedOutWaiting? then 1 else 0, if exit.Dangling? then 1 else 0)
      ensures !exit.Dangling? ==> srv.retained == CurrentList(list, log)
      ensures exit.Returned? <==> log != [] && log[|log| - 1].Called? && log[|log| - 1].ret.Quit?
      ensures exit.Unfinished? ==> budget == 0
      ensures exit.TimedOutWaiting? ==>
                && LatestScan(log).Some? && TimedOut(LatestScan(log).value)
                && NoneReady(cfg, list, log, srv.readiness(srv.selects - 1))
      ensures exit.Dangling? ==> Orphaned()
    {
      hide Replay, Truthful, Answered, Selects, Callbacks, Due, Slot, NoneReady;
      StateIsHistory(cfg, list, log);
      if exit.TimedOutWaiting? {
        NothingWatchedIsReady(cfg, list, log, srv.readiness(srv.selects - 1));
      }
    }

    /** The outer loop, from `_rescan` on. */
    method Run() returns (exit: Exit)
      requires Tracks() && st.phase.ToScan?
      modifies this`log, this`st, this`budget, this`asked, srv`retained, srv`selects
      ensures !exit.NotListening? && Observed(exit)
    {
      hide Recorded;
      while true
        invariant Tracks() && st.phase.ToScan?
        decreases budget
      {
        var snapshot, maxsock := Scan();
        var r, stop := Serve(snapshot, maxsock);
        if stop.Some? {
          if stop.value.TimedOutWaiting? {
            ScanOnRecord(snapshot);
          }
          return stop.value;
        }
        if r.Quit? {
          return Returned;
        }
      }
    }

    lemma ScanOnRecord(snapshot: set<nat>)
      requires TimedOut(snapshot)
      ensures LatestScan(log) == Some(snapshot)
    {
      StateIsHistory(cfg, list, log);
    }
  }
}
