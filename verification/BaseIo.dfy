/**
 The byte stream under every I/O class, the strict-read loops over it, and the exact
 conditions under which each of those loops is a strict read.
 */
module BaseIo {
  import opened Bytes

  /** The exceptions an operation can end in. */
  datatype Error =
    | ReadError        // io_error, READ
    | BadTag           // a polyvar tag outside the enumeration
    | BadBool          // a byte other than 0 and 1 received for a bool
    | BadHashLength
    | HashMismatch
    | FileWriteError
    | FileOverrun      // the source runs past its own buffer

  datatype Result<+T> = Ok(value: T) | Err(error: Error) {
    predicate IsFailure() { Err? }
    function PropagateFailure<U>(): Result<U>
      requires Err?
    {
      Err(error)
    }
    function Extract(): T
      requires Ok?
    {
      value
    }
  }

  function Min(a: nat, b: nat): nat { if a <= b then a else b }

  /** What a read of at most `max` bytes returns when `avail` bytes are still to come and the
      kernel would like to hand over `wish`: 0 at the end of the stream, else 1 to `max`. */
  function Kernel(wish: nat, avail: nat, max: nat): (r: nat)
    ensures r <= avail && r <= max
    ensures r == 0 <==> avail == 0 || max == 0
  {
    if wish == 0 then Min(1, Min(avail, max)) else Min(wish, Min(avail, max))
  }

  /** Nothing else is known of the kernel: it may return any of these numbers. */
  lemma KernelCovers(avail: nat, max: nat, r: nat)
    requires 0 < r <= avail && r <= max
    ensures exists wish: nat :: Kernel(wish, avail, max) == r
  {
    assert Kernel(r, avail, max) == r;
  }

  /** How many reads have been made when the pipe's strict read of `len` bytes returns. */
  function CallsAfter(pick: nat -> nat, i: nat, avail: nat, len: nat): (j: nat)
    ensures i <= j
    decreases len
  {
    if len == 0 then i else
    var r := Kernel(pick(i), avail, len);
    if r == 0 then i + 1 else CallsAfter(pick, i + 1, avail - r, len - r)
  }

  lemma CallsNext(pick: nat -> nat, i: nat, avail: nat, len: nat)
    ensures var r := Kernel(pick(i), avail, len);
            CallsAfter(pick, i, avail, len) ==
            if len == 0 then i else if r == 0 then i + 1 else CallsAfter(pick, i + 1, avail - r, len - r)
  {
  }

  /** A connection: `inbox` is everything the peer sends before it closes, `outbox` everything
      written so far. `schedule` is the kernel's way of chopping the stream, one wish per read;
      nothing is known about it. */
  class Stream {
    var inbox: bytes
    var outbox: bytes
    /** Reads made so far. */
    var calls: nat
    const schedule: nat -> nat

    constructor (inbox: bytes, schedule: nat -> nat)
      ensures this.inbox == inbox && outbox == [] && this.schedule == schedule && calls == 0
    {
      this.inbox, this.outbox, this.schedule, this.calls := inbox, [], schedule, 0;
    }

    /** read()/recv() into d[off..off + max]. */
    method Read(d: array<byte>, off: nat, max: nat) returns (r: nat)
      requires off + max <= d.Length
      modifies this`inbox, this`calls, d
      ensures r == Kernel(schedule(old(calls)), |old(inbox)|, max)
      ensures inbox == old(inbox)[r..] && calls == old(calls) + 1
      ensures forall k :: 0 <= k < d.Length ==>
                d[k] == if off <= k < off + r then old(inbox)[k - off] else old(d[k])
    {
      r := Kernel(schedule(calls), |inbox|, max);
      forall k | 0 <= k < r {
        d[off + k] := inbox[k];
      }
      inbox, calls := inbox[r..], calls + 1;
    }

    /** Strict read of a pipe with an infinite timeout: the loop asks for what is left each time. */
    method IfixPipe(d: array<byte>, len: nat) returns (r: Result<()>)
      requires len <= d.Length
      modifies this`inbox, this`calls, d
      ensures r.Ok? <==> len <= |old(inbox)|
      ensures r.Ok? ==> inbox == old(inbox)[len..] && d[..] == old(inbox)[..len] + old(d[len..])
      ensures r.Err? ==> inbox == [] && r == Err(ReadError)
      ensures d[len..] == old(d[len..])
      ensures calls == CallsAfter(schedule, old(calls), |old(inbox)|, len)
    {
      hide Kernel, CallsAfter;
      var rest: nat := len;
      ghost var s := inbox;
      while rest != 0
        invariant rest <= len && len - rest <= |s|
        invariant inbox == s[len - rest..]
        invariant CallsAfter(schedule, calls, |inbox|, rest) == CallsAfter(schedule, old(calls), |s|, len)
        invariant forall k :: 0 <= k < d.Length ==> d[k] == if k < len - rest then s[k] else old(d[k])
      {
        CallsNext(schedule, calls, |inbox|, rest);
        var n := Read(d, len - rest, rest);
        if n == 0 {
          return Err(ReadError);
        }
        rest := rest - n;
      }
      CallsNext(schedule, calls, |inbox|, 0);
      return Ok(());
    }

    /** Strict read of a socket under MSG_WAITALL: one recv, which returns early only at the end
        of the stream. */
    method IfixWaitAll(d: array<byte>, len: nat) returns (r: Result<()>)
      requires len <= d.Length
      modifies this`inbox, this`calls, d
      ensures r.Ok? <==> len <= |old(inbox)|
      ensures r.Ok? ==> inbox == old(inbox)[len..] && d[..] == old(inbox)[..len] + old(d[len..])
      ensures r.Err? ==> inbox == [] && r == Err(ReadError)
      ensures d[len..] == old(d[len..])
    {
      var n := Min(len, |inbox|);
      forall k | 0 <= k < n {
        d[k] := inbox[k];
      }
      inbox, calls := inbox[n..], calls + 1;
      if n < len {
        return Err(ReadError);
      }
      return Ok(());
    }

    /** The strict read of base_fd (`smallest` 2) and of base_socket without MSG_WAITALL
        (`smallest` 1): every read asks for `len` bytes again, and base_fd rejects a follow-up read
        of one byte. The second half of `d` is the memory behind the target. */
    method IfixLiteral(d: array<byte>, len: nat, smallest: nat) returns (o: Strict)
      requires 2 * len <= d.Length && 1 <= smallest <= 2
      modifies this`inbox, this`calls, d
      ensures o == FixLiteral(schedule, old(calls), old(inbox), len, smallest)
      ensures o.Delivered? ==> d[..len] == o.data && inbox == o.rest
      ensures !o.Overran? ==> d[len..] == old(d[len..])
    {
      ghost var chunk := inbox[..Kernel(schedule(calls), |inbox|, len)];
      var n := Read(d, 0, len);
      if n == 0 {
        return Threw;
      }
      if n < len {
        assert d[..n] == chunk;
        o := IfixLoop(d, n, len, smallest);
      } else {
        assert d[..len] == chunk;
        o := Delivered(d[..len], inbox);
      }
    }

    /** The follow-up reads of IfixLiteral, `off` bytes into the target. */
    method IfixLoop(d: array<byte>, first: nat, len: nat, smallest: nat) returns (o: Strict)
      requires 2 * len <= d.Length && 1 <= smallest <= 2 && 0 < first < len
      modifies this`inbox, this`calls, d
      ensures o == FixLoop(schedule, old(calls), old(inbox), len, len - first, old(d[..first]), smallest)
      ensures o.Delivered? ==> d[..len] == o.data && inbox == o.rest
      ensures !o.Overran? ==> d[len..] == old(d[len..])
    {
      hide Kernel;
      ghost var goal := FixLoop(schedule, calls, inbox, len, len - first, d[..first], smallest);
      var off := first;
      var rest: nat := len - off;
      while rest != 0
        invariant off + rest == len
        invariant forall k :: len <= k < d.Length ==> d[k] == old(d[k])
        invariant goal == if rest == 0 then Delivered(d[..off], inbox)
                          else FixLoop(schedule, calls, inbox, len, rest, d[..off], smallest)
        decreases rest
      {
        ghost var chunk := d[..off] + inbox[..Kernel(schedule(calls), |inbox|, len)];
        var m := Read(d, off, len);
        if m < smallest {
          return Threw;
        }
        if m > rest {
          return Overran;
        }
        assert d[..off + m] == chunk;
        off := off + m;
        rest := rest - m;
      }
      o := Delivered(d[..len], inbox);
    }

    /** write()/send(), accepted whole. */
    method Write(b: bytes)
      modifies this`outbox
      ensures outbox == old(outbox) + b
    {
      outbox := outbox + b;
    }
  }

  /** How a strict read ends: the bytes asked for and those left, an exception, or a write past
      the target. */
  datatype Strict = Delivered(data: bytes, rest: bytes) | Threw | Overran

  function FixLoop(pick: nat -> nat, i: nat, s: bytes, len: nat, rest: nat, got: bytes, smallest: nat): Strict
    requires 1 <= smallest
    decreases |s|
  {
    var r := Kernel(pick(i), |s|, len);
    if r < smallest then Threw
    else if r > rest then Overran
    else if r == rest then Delivered(got + s[..r], s[r..])
    else FixLoop(pick, i + 1, s[r..], len, rest - r, got + s[..r], smallest)
  }

  function FixLiteral(pick: nat -> nat, i: nat, s: bytes, len: nat, smallest: nat): Strict
    requires 1 <= smallest
  {
    var r := Kernel(pick(i), |s|, len);
    if r == 0 then Threw
    else if r == len then Delivered(s[..r], s[r..])
    else FixLoop(pick, i + 1, s[r..], len, len - r, s[..r], smallest)
  }

  /** The bytes taken by the first `n` reads of at most `len` each. */
  function Taken(pick: nat -> nat, i: nat, avail: nat, len: nat, n: nat): (t: nat)
    ensures t <= avail
  {
    if n == 0 then 0
    else
      var t := Taken(pick, i, avail, len, n - 1);
      t + Kernel(pick(i + n - 1), avail - t, len)
  }

  /** The first `n` reads leave the loop going: none is too small, and the target is not full. */
  predicate GoesOn(pick: nat -> nat, i: nat, avail: nat, len: nat, smallest: nat, n: nat) {
    forall k :: 0 < k <= n ==>
      && Taken(pick, i, avail, len, k) < len
      && Taken(pick, i, avail, len, k) - Taken(pick, i, avail, len, k - 1) >= if k == 1 then 1 else smallest
  }

  /** The n-th read ends the loop: it is too small, or it runs past the target, or it fills it. */
  predicate EndsAt(pick: nat -> nat, i: nat, s: bytes, len: nat, smallest: nat, n: nat, o: Strict) {
    && n > 0 && GoesOn(pick, i, |s|, len, smallest, n - 1)
    && var before, after := Taken(pick, i, |s|, len, n - 1), Taken(pick, i, |s|, len, n);
       if after - before < (if n == 1 then 1 else smallest) then o == Threw
       else if after > len then o == Overran
       else after == len && o == Delivered(s[..len], s[len..])
  }

  lemma ReadOn(s: bytes, t: nat, t': nat)
    requires t <= t' <= |s|
    ensures s[..t] + s[t..][..t' - t] == s[..t'] && s[t..][t' - t..] == s[t'..]
  {
  }

  lemma TakenNext(pick: nat -> nat, i: nat, avail: nat, len: nat, j: nat)
    ensures var t := Taken(pick, i, avail, len, j);
            Taken(pick, i, avail, len, j + 1) == t + Kernel(pick(i + j), avail - t, len)
  {
    hide Kernel;
  }

  lemma FirstTaken(pick: nat -> nat, i: nat, avail: nat, len: nat)
    ensures Taken(pick, i, avail, len, 0) == 0 && Taken(pick, i, avail, len, 1) == Kernel(pick(i), avail, len)
  {
    TakenNext(pick, i, avail, len, 0);
  }

  lemma GoesFurther(pick: nat -> nat, i: nat, avail: nat, len: nat, smallest: nat, j: nat)
    requires j > 0 && GoesOn(pick, i, avail, len, smallest, j)
    requires Taken(pick, i, avail, len, j) + smallest <= Taken(pick, i, avail, len, j + 1) < len
    ensures GoesOn(pick, i, avail, len, smallest, j + 1)
  {
    hide Taken;
  }

  lemma {:induction false} LoopEnds(pick: nat -> nat, i: nat, s: bytes, len: nat, smallest: nat, j: nat) returns (n: nat)
    requires 1 <= smallest && j > 0 && GoesOn(pick, i, |s|, len, smallest, j) && Taken(pick, i, |s|, len, j) < len
    ensures var t := Taken(pick, i, |s|, len, j);
            EndsAt(pick, i, s, len, smallest, n, FixLoop(pick, i + j, s[t..], len, len - t, s[..t], smallest))
    decreases |s| - Taken(pick, i, |s|, len, j)
  {
    hide Kernel, Taken, GoesOn;
    var t, t' := Taken(pick, i, |s|, len, j), Taken(pick, i, |s|, len, j + 1);
    TakenNext(pick, i, |s|, len, j);
    ReadOn(s, t, t');
    n := j + 1;
    if t' - t >= smallest && t' < len {
      GoesFurther(pick, i, |s|, len, smallest, j);
      n := LoopEnds(pick, i, s, len, smallest, j + 1);
    }
  }

  /** How the literal loop ends under every schedule. */
  lemma LiteralExactly(pick: nat -> nat, i: nat, s: bytes, len: nat, smallest: nat) returns (n: nat)
    requires 1 <= smallest
    ensures EndsAt(pick, i, s, len, smallest, n, FixLiteral(pick, i, s, len, smallest))
  {
    hide Kernel, FixLoop, Taken;
    var r := Kernel(pick(i), |s|, len);
    FirstTaken(pick, i, |s|, len);
    if r == 0 || r == len {
      n := 1;
    } else {
      n := LoopEnds(pick, i, s, len, smallest, 1);
    }
  }

  /** The promise of a strict read: exactly `len` bytes, or an exception when fewer will come. */
  predicate StrictRead(o: Strict, s: bytes, len: nat) {
    if len <= |s| then o == Delivered(s[..len], s[len..]) else o == Threw
  }

  lemma {:induction false} LoopOnShortStream(pick: nat -> nat, i: nat, s: bytes, len: nat, rest: nat, got: bytes, smallest: nat)
    requires 1 <= smallest && |s| < rest
    ensures FixLoop(pick, i, s, len, rest, got, smallest) == Threw
    decreases |s|
  {
    var r := Kernel(pick(i), |s|, len);
    if r >= smallest {
      LoopOnShortStream(pick, i + 1, s[r..], len, rest - r, got + s[..r], smallest);
    }
  }

  lemma {:induction false} LoopOnLastMessage(pick: nat -> nat, i: nat, s: bytes, len: nat, got: bytes)
    requires 0 < |s| <= len
    ensures FixLoop(pick, i, s, len, |s|, got, 1) == Delivered(got + s, [])
    decreases |s|
  {
    hide Kernel;
    var r := Kernel(pick(i), |s|, len);
    assert s == s[..r] + s[r..];
    Regroup(got, s[..r], s[r..]);
    if r == |s| {
      assert s[r..] == [];
    } else {
      LoopOnLastMessage(pick, i + 1, s[r..], len, got + s[..r]);
    }
  }

  lemma ShortStreamThrows(pick: nat -> nat, i: nat, s: bytes, len: nat, smallest: nat)
    requires 1 <= smallest && |s| < len
    ensures FixLiteral(pick, i, s, len, smallest) == Threw
  {
    var r := Kernel(pick(i), |s|, len);
    if r != 0 {
      LoopOnShortStream(pick, i + 1, s[r..], len, len - r, s[..r], smallest);
    }
  }

  /** base_fd's loop is a strict read whatever the kernel does exactly for one-byte calls (and when
      the stream is too short anyway). */
  lemma FdStrictExactly(s: bytes, len: nat)
    ensures (forall pick: nat -> nat, i: nat :: StrictRead(FixLiteral(pick, i, s, len, 2), s, len))
       <==> len == 1 || |s| < len
  {
    if len == 1 {
    } else if |s| < len {
      forall pick: nat -> nat, i: nat ensures StrictRead(FixLiteral(pick, i, s, len, 2), s, len) {
        ShortStreamThrows(pick, i, s, len, 2);
      }
    } else {
      var ones := (k: nat) => 1 as nat;
      assert Kernel(ones(0), |s|, len) <= 1;
      assert FixLiteral(ones, 0, s, len, 2) == Threw;
      assert !StrictRead(FixLiteral(ones, 0, s, len, 2), s, len);
    }
  }

  /** base_socket's loop without MSG_WAITALL also needs nothing queued behind the message. */
  lemma SocketStrictExactly(s: bytes, len: nat)
    ensures (forall pick: nat -> nat, i: nat :: StrictRead(FixLiteral(pick, i, s, len, 1), s, len))
       <==> len == 1 || (1 <= len && |s| <= len)
  {
    if len == 1 {
    } else if 1 <= len && |s| <= len {
      forall pick: nat -> nat, i: nat ensures StrictRead(FixLiteral(pick, i, s, len, 1), s, len) {
        if |s| < len {
          ShortStreamThrows(pick, i, s, len, 1);
        } else {
          var r := Kernel(pick(i), |s|, len);
          if r < len {
            LoopOnLastMessage(pick, i + 1, s[r..], len, s[..r]);
            assert s[..r] + s[r..] == s[..len];
          }
        }
      }
    } else {
      var split := (k: nat) => if k == 0 then 1 else len;
      if len > 1 {
        assert Kernel(split(0), |s|, len) == 1;
        assert Kernel(split(1), |s[1..]|, len) == len;
        assert FixLiteral(split, 0, s, len, 1) == Overran;
      }
      assert !StrictRead(FixLiteral(split, 0, s, len, 1), s, len);
    }
  }
}
