/** The server's list of retained clients and the two single waits over it. */
module Pool {
  import opened Bytes

  /** A list node: clients are told apart by identity, several may share a descriptor. */
  datatype Client = Client(id: nat, fd: nat)

  predicate Distinct(l: seq<Client>) {
    forall i, j :: 0 <= i < j < |l| ==> l[i].id != l[j].id
  }

  function Fds(l: seq<Client>): set<nat> {
    set c | c in l :: c.fd
  }

  /** The first client of the list whose descriptor is ready. */
  function FirstReady(l: seq<Client>, ready: set<nat>): (k: Option<nat>)
    ensures k.Some? ==> k.value < |l| && l[k.value].fd in ready
    ensures k.Some? ==> forall j :: 0 <= j < k.value ==> l[j].fd !in ready
    ensures k.None? ==> forall j :: 0 <= j < |l| ==> l[j].fd !in ready
  {
    if l == [] then None
    else if l[0].fd in ready then Some(0)
    else match FirstReady(l[1..], ready)
      case None => None
      case Some(k) => Some(k + 1)
  }

  function Remove(l: seq<Client>, i: nat): seq<Client>
    requires i < |l|
  {
    l[..i] + l[i + 1..]
  }

  function MoveToEnd(l: seq<Client>, i: nat): seq<Client>
    requires i < |l|
  {
    Remove(l, i) + [l[i]]
  }

  /** How a wait ends. With a mutex that is not recursive the callee's second lock never returns. */
  datatype Waited = Served(c: Client) | TimedOut | BadState | Deadlock

  /** How a stoppable wait for a new client ends. */
  datatype Stoppable = Proceed | Stop(fd: nat) | NoActivity

  class Server {
    var retained: seq<Client>
    var listening: bool
    /** Whether a thread may lock the mutex again. The source initialises it as one it may not; a
        recursive one stands for the single critical section that is meant. */
    const recursiveMutex: bool
    /** What is ready at each select. */
    const readiness: nat -> set<nat>
    var selects: nat

    constructor (recursiveMutex: bool, readiness: nat -> set<nat>)
      ensures retained == [] && !listening
      ensures this.recursiveMutex == recursiveMutex && this.readiness == readiness
    {
      retained, listening, selects := [], false, 0;
      this.recursiveMutex, this.readiness := recursiveMutex, readiness;
    }

    method Retain(c: Client)
      requires Distinct(retained) && forall d :: d in retained ==> d.id != c.id
      modifies this`retained
      ensures retained == old(retained) + [c] && Distinct(retained)
    {
      retained := retained + [c];
    }

    method Release(i: nat)
      requires i < |retained| && Distinct(retained)
      modifies this`retained
      ensures retained == Remove(old(retained), i) && Distinct(retained)
    {
      retained := retained[..i] + retained[i + 1..];
    }

    /** The descriptors of all retained clients, and the largest of them. */
    method ClientsFillFdset() returns (s: set<nat>, max: nat)
      ensures s == Fds(retained)
      ensures forall f :: f in s <==> exists c :: c in retained && c.fd == f
      ensures forall f :: f in s ==> f <= max
      ensures s == {} ==> max == 0
      ensures s != {} ==> max in s
    {
      max, s := 0, {};
      var i := 0;
      while i < |retained|
        invariant i <= |retained|
        invariant s == Fds(retained[..i])
        invariant forall f :: f in s ==> f <= max
        invariant if s == {} then max == 0 else max in s
      {
        assert Fds(retained[..i + 1]) == Fds(retained[..i]) + {retained[i].fd} by {
          assert retained[..i + 1] == retained[..i] + [retained[i]];
        }
        s := s + {retained[i].fd};
        if retained[i].fd > max {
          max := retained[i].fd;
        }
        i := i + 1;
      }
      assert retained[..i] == retained;
    }

    /** select() on the descriptors below `nfds`: how many of them are ready, and the set narrowed
        to those; it leaves the bits from `nfds` on alone. The answer 0 is the timeout. */
    method Select(nfds: nat, s: set<nat>) returns (n: nat, ready: set<nat>)
      modifies this`selects
      ensures selects == old(selects) + 1
      ensures n > 0 <==> exists f :: f in s && f < nfds && f in readiness(old(selects))
      ensures forall f :: f in ready <==> n > 0 && f in s && (f >= nfds || f in readiness(old(selects)))
    {
      var hits := set f | f in s && f < nfds && f in readiness(selects);
      assert forall f :: f in hits <==> f in s && f < nfds && f in readiness(selects);
      n := |hits|;
      if n == 0 {
        assert hits == {};
        ready := {};
      } else {
        ghost var f :| f in hits;
        ready := set f | f in s && (f >= nfds || f in readiness(selects));
      }
      selects := selects + 1;
    }

    /** _select on a set whose largest member is at most `max`: the ready members, or a timeout. */
    method SelectBelow(max: nat, s: set<nat>) returns (n: nat, ready: set<nat>)
      requires forall f :: f in s ==> f <= max
      modifies this`selects
      ensures selects == old(selects) + 1
      ensures ready == s * readiness(old(selects))
      ensures n > 0 <==> ready != {}
    {
      n, ready := Select(max + 1, s);
      assert forall f :: f in ready <==> f in s * readiness(old(selects));
    }

    /** _select_throw_stop: activity on `fd1` proceeds, unless a monitored descriptor is active too;
        then the first of those stops the wait. */
    method SelectThrowStop(fd1: nat, fds: seq<nat>) returns (r: Stoppable)
      modifies this`selects
      ensures var ready := readiness(old(selects));
              match r
              case Proceed => fd1 in ready && forall i :: 0 <= i < |fds| ==> fds[i] !in ready
              case Stop(fd) => exists i :: 0 <= i < |fds| && fds[i] == fd && fd in ready && forall j :: 0 <= j < i ==> fds[j] !in ready
              case NoActivity => fd1 !in ready && forall i :: 0 <= i < |fds| ==> fds[i] !in ready
    {
      var maxfd, s := fd1, {fd1};
      var i := 0;
      while i < |fds|
        invariant i <= |fds|
        invariant s == {fd1} + set f | f in fds[..i]
        invariant forall f :: f in s ==> f <= maxfd
      {
        assert fds[..i + 1] == fds[..i] + [fds[i]];
        s := s + {fds[i]};
        if fds[i] > maxfd {
          maxfd := fds[i];
        }
        i := i + 1;
      }
      assert fds[..i] == fds;
      var n, ready := SelectBelow(maxfd, s);
      assert fd1 in s && forall j :: 0 <= j < |fds| ==> fds[j] in s;
      assert forall f :: f in s ==> (f in ready <==> f in readiness(old(selects)));
      if n == 0 {
        return NoActivity;
      }
      i := 0;
      while i < |fds|
        invariant i <= |fds| && forall j :: 0 <= j < i ==> fds[j] !in ready
      {
        if fds[i] in ready {
          return Stop(fds[i]);
        }
        i := i + 1;
      }
      return Proceed;
    }

    /** _wait_client_activity: whoever is first on the list of those ready. The scan always finds
        one, so the function never falls off its end. */
    method WaitClientActivity() returns (r: Waited, index: nat)
      requires recursiveMutex
      modifies this`selects
      ensures r.Served? || r.TimedOut?
      ensures selects == old(selects) + 1
      ensures var ready := readiness(old(selects));
              && (r.Served? <==> exists c :: c in retained && c.fd in ready)
              && (r.Served? ==>
                    && index < |retained| && retained[index] == r.c && r.c.fd in ready
                    && forall j :: 0 <= j < index ==> retained[j].fd !in ready)
    {
      index := 0;
      var s, max := ClientsFillFdset();
      var n, ready := SelectBelow(max, s);
      assert forall c :: c in retained ==> (c.fd in ready <==> c.fd in readiness(old(selects)));
      if n == 0 {
        return TimedOut, 0;
      }
      ghost var f :| f in ready;
      ghost var w :| w in retained && w.fd == f;
      r := TimedOut;
      var it := 0;
      while it < |retained|
        invariant it <= |retained|
        invariant forall j :: 0 <= j < it ==> retained[j].fd !in ready
      {
        if retained[it].fd in ready {
          return Served(retained[it]), it;
        }
        it := it + 1;
      }
      assert false;
    }

    method WaitActivity() returns (r: Waited)
      modifies this`selects
      ensures r.BadState? <==> !listening
      ensures r.Deadlock? <==> listening && !recursiveMutex
      ensures var ready := readiness(old(selects));
              && (r.Served? <==> listening && recursiveMutex && exists c :: c in retained && c.fd in ready)
              && (r.Served? ==>
                    exists i :: 0 <= i < |retained| && retained[i] == r.c && r.c.fd in ready
                                && forall j :: 0 <= j < i ==> retained[j].fd !in ready)
      ensures listening && recursiveMutex ==> selects == old(selects) + 1
    {
      if !listening {
        return BadState;
      }
      if !recursiveMutex {
        return Deadlock;
      }
      var it;
      r, it := WaitClientActivity();
    }

    method WaitActivityFair() returns (r: Waited)
      modifies this`selects, this`retained
      ensures r.BadState? <==> !listening
      ensures r.Deadlock? <==> listening && !recursiveMutex
      ensures var l, ready := old(retained), readiness(old(selects));
              && (r.Served? <==> listening && recursiveMutex && exists c :: c in l && c.fd in ready)
              && (r.Served? ==>
                    exists i :: 0 <= i < |l| && l[i] == r.c && r.c.fd in ready
                                && (forall j :: 0 <= j < i ==> l[j].fd !in ready)
                                && retained == l[..i] + l[i + 1..] + [l[i]])
      ensures !r.Served? ==> retained == old(retained)
      ensures listening && recursiveMutex ==>
                var wait := Fair(readiness(old(selects)));
                && selects == old(selects) + 1
                && retained == Step(old(retained), wait)
                && ServedBy(old(retained), wait) == if r.Served? then Some(r.c) else None
    {
      if !listening {
        return BadState;
      }
      if !recursiveMutex {
        return Deadlock;
      }
      var it;
      r, it := WaitClientActivity();
      if r.Served? {
        retained := retained[..it] + retained[it + 1..] + [retained[it]];
      }
    }
  }

  // ---------------------------------------------------------------- runs

  /** One call on the pool. `ready` is what is ready in the wait, on the list or not. */
  datatype Op = Retain(c: Client) | Release(c: Client) | Fair(ready: set<nat>)

  predicate Enabled(l: seq<Client>, op: Op) {
    match op
    case Retain(c) => forall d :: d in l ==> d.id != c.id
    case Release(c) => c in l
    case Fair(_) => true
  }

  function IndexOf(l: seq<Client>, c: Client): (i: nat)
    requires c in l
    ensures i < |l| && l[i] == c
  {
    if l[0] == c then 0 else 1 + IndexOf(l[1..], c)
  }

  /** Whom a wait serves; no one when it times out. */
  function ServedBy(l: seq<Client>, wait: Op): Option<Client>
    requires wait.Fair?
  {
    match FirstReady(l, wait.ready)
    case None => None
    case Some(i) => Some(l[i])
  }

  function Step(l: seq<Client>, op: Op): seq<Client>
    requires Enabled(l, op)
  {
    match op
    case Retain(c) => l + [c]
    case Release(c) => Remove(l, IndexOf(l, c))
    case Fair(ready) =>
      match FirstReady(l, ready)
      case None => l
      case Some(i) => MoveToEnd(l, i)
  }
}
