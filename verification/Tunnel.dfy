/** The bidirectional copy loop: nothing lost, reordered or made up in either direction. */
module Tunnel {
  import opened Bytes
  import opened BaseIo

  /** What write() returns for `n` bytes: -1, or 0 to `n`. */
  function Sent(wish: int, n: nat): (r: int)
    ensures -1 <= r <= n
  {
    if wish < 0 then -1 else Min(wish, n)
  }

  /** A stream with a fallible send: `accepts` is what the system takes at each write. */
  class Endpoint {
    const io: Stream
    const accepts: nat -> int
    var sends: nat

    constructor (io: Stream, accepts: nat -> int)
      ensures this.io == io && this.accepts == accepts && sends == 0
    {
      this.io, this.accepts, sends := io, accepts, 0;
    }

    /** _o: anything but a complete write is an io_error carrying the result. */
    method Send(b: bytes) returns (ret: int)
      modifies this`sends, io`outbox
      ensures ret == Sent(accepts(old(sends)), |b|)
      ensures io.outbox == old(io.outbox) + Prefix(b, ret) && sends == old(sends) + 1
    {
      ret := Sent(accepts(sends), |b|);
      sends := sends + 1;
      io.Write(Prefix(b, ret));
    }
  }

  function Prefix(b: bytes, ret: int): bytes
    requires ret <= |b|
  {
    if ret < 0 then [] else b[..ret]
  }

  /** The intercepting callback: direction, data, size of the shared buffer. Data longer than the
      buffer comes in a buffer of its own, which replaces the shared one. */
  type Callback = (bool, bytes, nat) -> bytes

  /** One chunk: what was read, the buffer size then, and what reached the other side. */
  datatype Move = Move(data: bytes, size: nat, written: bytes)

  function Transformed(f: Option<Callback>, forth: bool, m: Move): bytes {
    if f.None? then m.data else f.value(forth, m.data, m.size)
  }

  function Consumed(moves: seq<Move>): bytes {
    if moves == [] then [] else Consumed(moves[..|moves| - 1]) + moves[|moves| - 1].data
  }

  function Written(moves: seq<Move>): bytes {
    if moves == [] then [] else Written(moves[..|moves| - 1]) + moves[|moves| - 1].written
  }

  /** A chunk that arrived as transformed. */
  predicate Arrived(f: Option<Callback>, forth: bool, m: Move) {
    0 < |m.data| <= m.size && m.written == Transformed(f, forth, m)
  }

  /** A chunk whose own write failed: at most a prefix of it arrived. */
  predicate Broken(f: Option<Callback>, forth: bool, m: Move) {
    0 < |m.data| <= m.size && m.written <= Transformed(f, forth, m)
  }

  lemma ChunkFate(f: Option<Callback>, forth: bool, m: Move, ret: int)
    requires 0 < |m.data| <= m.size && ret <= |Transformed(f, forth, m)|
    requires m.written == Prefix(Transformed(f, forth, m), ret)
    ensures if ret == |Transformed(f, forth, m)| then Arrived(f, forth, m) else Broken(f, forth, m)
  {
    var t := Transformed(f, forth, m);
    assert ret == |t| ==> t[..ret] == t;
  }

  /** Every chunk arrived. */
  predicate AllArrived(f: Option<Callback>, forth: bool, moves: seq<Move>) {
    forall m :: m in moves ==> Arrived(f, forth, m)
  }

  /** Every chunk but the last arrived, and the last one's write failed. */
  predicate LastBroken(f: Option<Callback>, forth: bool, moves: seq<Move>) {
    && moves != []
    && AllArrived(f, forth, moves[..|moves| - 1])
    && Broken(f, forth, moves[|moves| - 1])
  }

  /** The buffer sizes seen never shrink, and none exceeds `size`. */
  predicate Growing(moves: seq<Move>, size: nat) {
    && (forall i, j :: 0 <= i < j < |moves| ==> moves[i].size <= moves[j].size)
    && (forall i :: 0 <= i < |moves| ==> moves[i].size <= size && |moves[i].written| <= size)
  }

  /** Conservation in one direction: the chunks read and what is left make up the input, and the
      output grew by exactly what the chunks wrote. */
  predicate Lane(input: bytes, inbox: bytes, start: bytes, outbox: bytes, moves: seq<Move>, size: nat) {
    input == Consumed(moves) + inbox && outbox == start + Written(moves) && Growing(moves, size)
  }

  lemma LastMove(moves: seq<Move>, m: Move)
    ensures (moves + [m])[..|moves|] == moves
    ensures Consumed(moves + [m]) == Consumed(moves) + m.data
    ensures Written(moves + [m]) == Written(moves) + m.written
  {
    assert (moves + [m])[..|moves|] == moves;
  }

  lemma GrowingExtends(moves: seq<Move>, m: Move, size: nat)
    requires Growing(moves, m.size) && |m.written| <= size && m.size <= size
    ensures Growing(moves + [m], size)
  {
  }

  lemma OneMoreMove(input: bytes, inbox: bytes, start: bytes, outbox: bytes, moves: seq<Move>, m: Move, inbox': bytes, size: nat)
    requires Lane(input, inbox, start, outbox, moves, m.size)
    requires inbox == m.data + inbox' && |m.written| <= size && m.size <= size
    ensures Lane(input, inbox', start, outbox + m.written, moves + [m], size)
  {
    LastMove(moves, m);
    GrowingExtends(moves, m, size);
    Regroup(Consumed(moves), m.data, inbox');
    Regroup(start, Written(moves), m.written);
  }

  lemma LaneGrows(input: bytes, inbox: bytes, start: bytes, outbox: bytes, moves: seq<Move>, size: nat, size': nat)
    requires Lane(input, inbox, start, outbox, moves, size) && size <= size'
    ensures Lane(input, inbox, start, outbox, moves, size')
  {
  }

  lemma OneMoreArrived(f: Option<Callback>, forth: bool, moves: seq<Move>, m: Move)
    requires AllArrived(f, forth, moves)
    ensures Arrived(f, forth, m) ==> AllArrived(f, forth, moves + [m])
    ensures Broken(f, forth, m) ==> LastBroken(f, forth, moves + [m])
    ensures (moves + [m])[|moves + [m]| - 1] == m
  {
    assert (moves + [m])[..|moves|] == moves;
  }

  /** In how many of the first `n` rounds select reported the side. */
  function Reports(readiness: nat -> (bool, bool), side1: bool, n: nat): nat {
    if n == 0 then 0
    else
      Reports(readiness, side1, n - 1)
      + if (if side1 then readiness(n - 1).0 else readiness(n - 1).1) then 1 else 0
  }

  lemma {:induction false} Reports1(readiness: nat -> (bool, bool), n: nat)
    ensures Reports(readiness, true, n) == |set k | 0 <= k < n && readiness(k).0|
  {
    if n > 0 {
      Reports1(readiness, n - 1);
      var before := set k | 0 <= k < n - 1 && readiness(k).0;
      assert (set k | 0 <= k < n && readiness(k).0) == if readiness(n - 1).0 then before + {n - 1} else before;
    }
  }

  lemma {:induction false} Reports2(readiness: nat -> (bool, bool), n: nat)
    ensures Reports(readiness, false, n) == |set k | 0 <= k < n && readiness(k).1|
  {
    if n > 0 {
      Reports2(readiness, n - 1);
      var before := set k | 0 <= k < n - 1 && readiness(k).1;
      assert (set k | 0 <= k < n && readiness(k).1) == if readiness(n - 1).1 then before + {n - 1} else before;
    }
  }

  /** How a tunnel ends: one side closed, a timeout, an error, or still running after `budget`
      rounds of select. */
  datatype End = Closed | TimedOut | Failed | Running

  /** What stopped a copy: nothing, or an io_error with this result. */
  datatype Copied = Complete | Error(ret: int, broken: bool)

  class Tunnel {
    const s1: Endpoint
    const s2: Endpoint
    const f: Option<Callback>
    /** Which sides select reports; neither is the timeout. */
    const readiness: nat -> (bool, bool)
    var buf: array<byte>
    var forth: seq<Move>
    var back: seq<Move>
    ghost const in1: bytes
    ghost const in2: bytes
    ghost const out1: bytes
    ghost const out2: bytes

    constructor (s1: Endpoint, s2: Endpoint, f: Option<Callback>, readiness: nat -> (bool, bool), page: nat)
      requires s1 != s2 && s1.io != s2.io && page > 0
      ensures this.s1 == s1 && this.s2 == s2 && this.f == f && this.readiness == readiness
      ensures Valid() && forth == back == [] && fresh(buf) && buf.Length == page
      ensures in1 == s1.io.inbox && in2 == s2.io.inbox && out1 == s1.io.outbox && out2 == s2.io.outbox
    {
      this.s1, this.s2, this.f, this.readiness := s1, s2, f, readiness;
      buf := new byte[page];
      forth, back := [], [];
      in1, in2, out1, out2 := s1.io.inbox, s2.io.inbox, s1.io.outbox, s2.io.outbox;
    }

    /** Both directions conserve their bytes. */
    ghost predicate Valid()
      reads this, s1, s2, s1.io, s2.io
    {
      && s1 != s2 && s1.io != s2.io && buf.Length > 0
      && Lane(in1, s1.io.inbox, out2, s2.io.outbox, forth, buf.Length)
      && Lane(in2, s2.io.inbox, out1, s1.io.outbox, back, buf.Length)
    }

    /** The callback rewrites the first `len` bytes of the buffer, in place or in a longer buffer of
        its own that takes the place of this one. */
    method Intercept(len: nat, dir: bool) returns (n: nat)
      requires len <= buf.Length
      modifies this`buf, buf
      ensures buf.Length >= old(buf.Length) && (buf == old(buf) || fresh(buf))
      ensures n <= buf.Length
      ensures buf[..n] == if f.None? then old(buf[..len]) else f.value(dir, old(buf[..len]), old(buf.Length))
    {
      n := len;
      if f.Some? {
        var data := f.value(dir, buf[..len], buf.Length);
        n := |data|;
        if n > buf.Length {
          buf := new byte[n];
        }
        forall k | 0 <= k < n {
          buf[k] := data[k];
        }
        assert buf[..n] == data;
      }
    }

    /** Read a chunk, let the callback at it, and send it on: the data that reached the other side,
        and what stopped it. */
    method CopyChunk(src: Endpoint, dst: Endpoint, dir: bool) returns (c: Copied, m: Move)
      requires src != dst && src.io != dst.io && buf.Length > 0
      modifies this`buf, buf, src.io`inbox, src.io`calls, dst`sends, dst.io`outbox
      ensures buf.Length >= old(buf.Length) && (buf == old(buf) || fresh(buf))
      ensures dst.io.outbox == old(dst.io.outbox) + m.written
      ensures old(src.io.inbox) == m.data + src.io.inbox
      ensures m.size == old(buf.Length) && |m.written| <= buf.Length
      ensures |m.data| == Kernel(src.io.schedule(old(src.io.calls)), |old(src.io.inbox)|, m.size)
      ensures if m.data == [] then c == Error(0, false) && m.written == [] && dst.sends == old(dst.sends)
              else
                var t := if f.None? then m.data else f.value(dir, m.data, m.size);
                var ret := Sent(dst.accepts(old(dst.sends)), |t|);
                && dst.sends == old(dst.sends) + 1 && m.written == Prefix(t, ret)
                && c == if ret == |t| then Complete else Error(ret, true)
    {
      var size := buf.Length;
      var len := src.io.Read(buf, 0, size);
      m := Move(buf[..len], size, []);
      assert m.data == old(src.io.inbox)[..len];
      if len == 0 {
        return Error(0, false), m;
      }
      var n := Intercept(len, dir);
      assert buf[..n] == Transformed(f, dir, m);
      var ret := dst.Send(buf[..n]);
      m := m.(written := Prefix(buf[..n], ret));
      c := if ret == n then Complete else Error(ret, true);
    }

    /** Every chunk but the last arrived, and the other side took only `ret` of the last one. */
    ghost predicate Refused(dst: Endpoint, dir: bool, moves: seq<Move>, ret: int)
      reads this, dst
    {
      && LastBroken(f, dir, moves) && dst.sends > 0
      && var last := moves[|moves| - 1];
         var t := Transformed(f, dir, last);
         ret == Sent(dst.accepts(dst.sends - 1), |t|) && ret != |t| && last.written == Prefix(t, ret)
    }

    method CopyForth() returns (c: Copied)
      requires Valid() && AllArrived(f, true, forth)
      modifies this`buf, buf, this`forth, s1.io`inbox, s1.io`calls, s2`sends, s2.io`outbox
      ensures Valid() && buf.Length >= old(buf.Length) && (buf == old(buf) || fresh(buf))
      ensures match c
              case Complete => AllArrived(f, true, forth) && |forth| == |old(forth)| + 1
              case Error(ret, broken) =>
                if broken then Refused(s2, true, forth, ret) && |forth| == |old(forth)| + 1
                else forth == old(forth) && ret == 0 && s1.io.inbox == []
    {
      hide Lane, AllArrived, LastBroken, Arrived, Broken;
      ghost var inbox, outbox, size := s1.io.inbox, s2.io.outbox, buf.Length;
      var m;
      c, m := CopyChunk(s1, s2, true);
      LaneGrows(in2, s2.io.inbox, out1, s1.io.outbox, back, size, buf.Length);
      if c == Error(0, false) {
        assert s1.io.inbox == inbox && s2.io.outbox == outbox;
        LaneGrows(in1, inbox, out2, outbox, forth, size, buf.Length);
      } else {
        ChunkFate(f, true, m, if c.Complete? then |Transformed(f, true, m)| else c.ret);
        OneMoreMove(in1, inbox, out2, outbox, forth, m, s1.io.inbox, buf.Length);
        OneMoreArrived(f, true, forth, m);
        forth := forth + [m];
      }
    }

    method CopyBack() returns (c: Copied)
      requires Valid() && AllArrived(f, false, back)
      modifies this`buf, buf, this`back, s2.io`inbox, s2.io`calls, s1`sends, s1.io`outbox
      ensures Valid() && buf.Length >= old(buf.Length) && (buf == old(buf) || fresh(buf))
      ensures match c
              case Complete => AllArrived(f, false, back) && |back| == |old(back)| + 1
              case Error(ret, broken) =>
                if broken then Refused(s1, false, back, ret) && |back| == |old(back)| + 1
                else back == old(back) && ret == 0 && s2.io.inbox == []
    {
      hide Lane, AllArrived, LastBroken, Arrived, Broken;
      ghost var inbox, outbox, size := s2.io.inbox, s1.io.outbox, buf.Length;
      var m;
      c, m := CopyChunk(s2, s1, false);
      LaneGrows(in1, s1.io.inbox, out2, s2.io.outbox, forth, size, buf.Length);
      if c == Error(0, false) {
        assert s2.io.inbox == inbox && s1.io.outbox == outbox;
        LaneGrows(in2, inbox, out1, outbox, back, size, buf.Length);
      } else {
        ChunkFate(f, false, m, if c.Complete? then |Transformed(f, false, m)| else c.ret);
        OneMoreMove(in2, inbox, out1, outbox, back, m, s2.io.inbox, buf.Length);
        OneMoreArrived(f, false, back, m);
        back := back + [m];
      }
    }

    function Reported(side1: bool, n: nat): nat {
      Reports(readiness, side1, n)
    }

    /** `rounds` rounds passed, in each of which every side reported was copied from. */
    ghost predicate Served(rounds: nat)
      reads this
    {
      && (forall k :: 0 <= k < rounds ==> readiness(k).0 || readiness(k).1)
      && AllArrived(f, true, forth) && AllArrived(f, false, back)
      && |forth| == Reported(true, rounds) && |back| == Reported(false, rounds)
    }

    /** After `rounds` whole rounds, copying forth was stopped by an io_error with result `ret`: the
        end of the stream of side 1, or a write that side 2 did not take whole. */
    ghost predicate StoppedForth(rounds: nat, ret: int)
      reads this, s1.io, s2
    {
      && readiness(rounds).0 && AllArrived(f, false, back) && |back| == Reported(false, rounds)
      && if |forth| == Reported(true, rounds) then AllArrived(f, true, forth) && ret == 0 && s1.io.inbox == []
         else |forth| == Reported(true, rounds) + 1 && Refused(s2, true, forth, ret)
    }

    ghost predicate StoppedBack(rounds: nat, ret: int)
      reads this, s2.io, s1
    {
      && readiness(rounds).1 && AllArrived(f, true, forth) && |forth| == Reported(true, rounds + 1)
      && if |back| == Reported(false, rounds) then AllArrived(f, false, back) && ret == 0 && s2.io.inbox == []
         else |back| == Reported(false, rounds) + 1 && Refused(s1, false, back, ret)
    }

    /** One round in which select reported a side. */
    method CopyRound(round: nat) returns (c: Copied)
      requires Valid() && Served(round) && (readiness(round).0 || readiness(round).1)
      modifies this, buf, s1, s2, s1.io, s2.io
      ensures Valid() && buf.Length >= old(buf.Length) && (buf == old(buf) || fresh(buf))
      ensures match c
              case Complete => Served(round + 1)
              case Error(ret, _) => StoppedForth(round, ret) || StoppedBack(round, ret)
    {
      hide Lane, LastBroken, AllArrived, Refused;
      c := Complete;
      if readiness(round).0 {
        c := CopyForth();
      }
      if c.Complete? && readiness(round).1 {
        c := CopyBack();
      }
    }

    /** How the tunnel stands or ended after `rounds` whole rounds. */
    ghost predicate Ended(end: End, rounds: nat, ret: int)
      reads this, s1, s2, s1.io, s2.io
    {
      match end
      case Running => Served(rounds)
      case TimedOut => Served(rounds) && readiness(rounds) == (false, false)
      case Closed => (StoppedForth(rounds, ret) || StoppedBack(rounds, ret)) && ret == 0
      case Failed => (StoppedForth(rounds, ret) || StoppedBack(rounds, ret)) && ret != 0
    }

    /** One turn of the loop. */
    method Turn(rounds: nat) returns (end: End, ret: int)
      requires Valid() && Served(rounds)
      modifies this, buf, s1, s2, s1.io, s2.io
      ensures Valid() && buf.Length >= old(buf.Length) && (buf == old(buf) || fresh(buf))
      ensures Ended(end, if end.Running? then rounds + 1 else rounds, ret)
    {
      hide Served, StoppedForth, StoppedBack, Lane;
      if !readiness(rounds).0 && !readiness(rounds).1 {
        return TimedOut, 0;
      }
      var c := CopyRound(rounds);
      match c {
        case Complete => end, ret := Running, 0;
        case Error(result, _) => end, ret := if result == 0 then Closed else Failed, result;
      }
    }

    lemma NothingCopied()
      requires forth == back == []
      ensures Ended(Running, 0, 0)
    {
    }

    lemma Fates(dir: bool, moves: seq<Move>, n: nat)
      requires n <= |moves| <= n + 1
      requires AllArrived(f, dir, moves) || (|moves| == n + 1 && LastBroken(f, dir, moves))
      ensures forall i :: 0 <= i < |moves| ==>
                var whole := if f.None? then moves[i].data else f.value(dir, moves[i].data, moves[i].size);
                if i < n then moves[i].written == whole else moves[i].written <= whole
    {
      forall i | 0 <= i < |moves|
        ensures if i < n then Arrived(f, dir, moves[i]) else moves[i].written <= Transformed(f, dir, moves[i])
      {
        assert moves[i] in moves;
        if i < |moves| - 1 {
          assert moves[i] == moves[..|moves| - 1][i];
          assert moves[i] in moves[..|moves| - 1];
        }
      }
    }

    lemma Tally(end: End, rounds: nat, ret: int)
      requires Ended(end, rounds, ret)
      ensures var n1, n2 := |set k | 0 <= k < rounds && readiness(k).0|, |set k | 0 <= k < rounds && readiness(k).1|;
              && n1 <= |forth| <= n1 + 1 && n2 <= |back| <= n2 + 1
              && (end.Running? || end.TimedOut? ==> |forth| == n1 && |back| == n2)
              && (forall i :: 0 <= i < |forth| ==>
                    var whole := if f.None? then forth[i].data else f.value(true, forth[i].data, forth[i].size);
                    if i < n1 then forth[i].written == whole else forth[i].written <= whole)
              && (forall i :: 0 <= i < |back| ==>
                    var whole := if f.None? then back[i].data else f.value(false, back[i].data, back[i].size);
                    if i < n2 then back[i].written == whole else back[i].written <= whole)
    {
      hide Lane, AllArrived, Broken, Arrived;
      Reports1(readiness, rounds);
      Reports2(readiness, rounds);
      Fates(true, forth, Reported(true, rounds));
      Fates(false, back, Reported(false, rounds));
    }

    /** do_copy_tunneling, observed for `budget` rounds of which `rounds` passed whole. Whatever the
        readiness, the read sizes and the failures, both directions conserve their bytes, and every
        side that select reports is copied from. When the tunnel ends by a closed connection,
        nothing is missing but possibly one chunk, of which its own write took nothing. */
    method DoCopyTunneling(budget: nat) returns (end: End, rounds: nat, ret: int)
      requires Valid() && forth == back == []
      modifies this, buf, s1, s2, s1.io, s2.io
      ensures Valid() && buf.Length >= old(buf.Length) && rounds <= budget
      ensures Ended(end, rounds, ret) && (end.Running? <==> rounds == budget)
      ensures var n1, n2 := |set k | 0 <= k < rounds && readiness(k).0|, |set k | 0 <= k < rounds && readiness(k).1|;
              && n1 <= |forth| <= n1 + 1 && n2 <= |back| <= n2 + 1
              && (end.Running? || end.TimedOut? ==> |forth| == n1 && |back| == n2)
              && (forall i :: 0 <= i < |forth| ==>
                    var whole := if f.None? then forth[i].data else f.value(true, forth[i].data, forth[i].size);
                    if i < n1 then forth[i].written == whole else forth[i].written <= whole)
              && (forall i :: 0 <= i < |back| ==>
                    var whole := if f.None? then back[i].data else f.value(false, back[i].data, back[i].size);
                    if i < n2 then back[i].written == whole else back[i].written <= whole)
    {
      hide Served, StoppedForth, StoppedBack, Valid, Reported;
      NothingCopied();
      end, rounds, ret := Running, 0, 0;
      while rounds < budget
        invariant Valid() && buf.Length >= old(buf.Length) && (buf == old(buf) || fresh(buf))
        invariant Ended(end, rounds, ret) && end.Running? && rounds <= budget
      {
        end, ret := Turn(rounds);
        if !end.Running? {
          break;
        }
        rounds := rounds + 1;
      }
      Tally(end, rounds, ret);
    }
  }
}
