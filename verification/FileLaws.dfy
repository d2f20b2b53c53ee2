/** Which frames a receiver takes, and when a file gets through: the condition on its file system. */
module FileLaws {
  import opened Bytes
  import opened BaseIo
  import opened Wire
  import opened WireLaws
  import opened SimpleSocket
  import opened FileTransfer
  import opened FileReceive
  import opened WireCanonical
  import opened WireGrammar

  // ---------------------------------------------------------------- frames

  /** A size, so many bytes, and a blob: NULL as length 0, or a length and data. */
  predicate Frame(h: Host, s: bytes, content: bytes, sum: Blob, rest: bytes) {
    && |content| < Pow256(8) && (sum.Some? ==> 0 < |sum.value| < Pow256(4))
    && s == ToMemory(h.endian, |content|, 8) + (content + SumBytes(h, sum, rest))
  }

  function SumBytes(h: Host, sum: Blob, rest: bytes): bytes {
    match sum
    case None => ToMemory(h.endian, 0, 4) + rest
    case Some(d) => ToMemory(h.endian, |d|, 4) + (d + rest)
  }

  lemma SumDecodes(h: Host, sum: Blob, rest: bytes)
    requires sum.Some? ==> 0 < |sum.value| < Pow256(4)
    ensures DecBin(h, SumBytes(h, sum, rest)) == Got(sum, rest)
  {
    hide ToMemory, DecInt;
    match sum
    case None => DecIntExactly(h, SumBytes(h, sum, rest), 4, 0, rest);
    case Some(d) =>
      DecIntExactly(h, SumBytes(h, sum, rest), 4, |d|, d + rest);
      DecFixConcat(d, rest);
  }

  /** What the receiver says to a frame: with checksums on both sides the one it received must be the
      MD5 of the content. */
  lemma FrameDecides(h: Host, b: Build, s: bytes, content: bytes, sum: Blob, rest: bytes)
    requires Frame(h, s, content, sum, rest)
    ensures DecFile(h, b, s) ==
            if !b.ssl || content == [] || sum.None? then Got(content, rest)
            else if |sum.value| != 16 then Fail(BadHashLength, rest)
            else if sum.value != b.md5(content) then Fail(HashMismatch, rest)
            else Got(content, rest)
  {
    hide ToMemory, SumBytes, DecBin, DecInt;
    var tail := SumBytes(h, sum, rest);
    DecIntExactly(h, s, 8, |content|, content + tail);
    DecFixConcat(content, tail);
    SumDecodes(h, sum, rest);
  }

  /** Whatever is no frame ends in a read error. */
  lemma NoFrameFails(h: Host, b: Build, s: bytes)
    ensures DecFile(h, b, s) == Fail(ReadError, []) || exists content, sum, rest :: Frame(h, s, content, sum, rest)
  {
    hide ToMemory, DecBin, DecInt, Pow256, Verdict;
    IntOrFail(h, s, 8);
    var n := DecInt(h, s, 8);
    if n.Got? && n.value <= |n.rest| {
      var content, tail := n.rest[..n.value], n.rest[n.value..];
      assert n.rest == content + tail;
      BinOrFail(h, tail);
      var p := DecBin(h, tail);
      if p.Got? {
        assert Frame(h, s, content, p.value, p.rest);
      }
    }
  }

  lemma IntOrFail(h: Host, s: bytes, w: nat)
    ensures var n := DecInt(h, s, w);
            if n.Got? then n.value < Pow256(w) && s == ToMemory(h.endian, n.value, w) + n.rest
            else n == Fail(ReadError, [])
  {
    var n := DecInt(h, s, w);
    if n.Got? {
      DecIntExactly(h, s, w, n.value, n.rest);
    }
  }

  lemma BinOrFail(h: Host, s: bytes)
    ensures var p := DecBin(h, s);
            if p.Got? then s == SumBytes(h, p.value, p.rest) && (p.value.Some? ==> 0 < |p.value.value| < Pow256(4))
            else p == Fail(ReadError, [])
  {
    hide ToMemory, DecInt, Pow256;
    IntOrFail(h, s, 4);
    var n := DecInt(h, s, 4);
    if n.Got? && 0 < n.value <= |n.rest| {
      assert n.rest == n.rest[..n.value] + n.rest[n.value..];
    }
  }

  lemma SumLengths()
    ensures Le(0, 4) == [0, 0, 0, 0] && Le(16, 4) == [16, 0, 0, 0]
  {
    hide Le;
    LeHead(0, 0, 1);
    LeHead(0, 0, 2);
    LeHead(0, 0, 3);
    LeHead(0, 0, 4);
    LeHead(0, 16, 4);
  }

  /** The bytes of the sender's frame. */
  lemma FrameBytes(b: Build, content: bytes)
    requires Sound(b) && |content| < Pow256(8)
    ensures EncFile(b, content) ==
            Le(|content|, 8) + content
            + if content == [] || !b.ssl then [0, 0, 0, 0] else [16, 0, 0, 0] + b.md5(content)
  {
    hide Le, EncBin, Checksum;
    SumOf(b, content);
  }

  lemma SumOf(b: Build, content: bytes)
    requires Sound(b)
    ensures EncBin(Checksum(b, content)) == if content == [] || !b.ssl then [0, 0, 0, 0] else [16, 0, 0, 0] + b.md5(content)
  {
    hide Le;
    SumLengths();
    assert [0, 0, 0, 0] + [] == [0, 0, 0, 0];
  }

  // ---------------------------------------------------------------- the receiver's file system

  predicate TakesWhole(take: nat -> int, j: nat, n: nat) {
    Accepted(take(j), n) == n
  }

  /** From its k-th write on the file system takes whole every write that a file of under 2^64 bytes
      can lead to: at most a chunk, behind at least as many bytes as writes. */
  ghost predicate TakesAll(take: nat -> int, k: nat, c: nat) {
    forall j: nat, n: nat :: k <= j && 0 < n <= c && j - k + n < Pow256(8) ==> TakesWhole(take, j, n)
  }

  /** `TakesAll` from `done` writes on, that many bytes at least being stored by then. */
  lemma {:induction false} TakingAllStores(pick: nat -> nat, i: nat, take: nat -> int, k: nat, done: nat, avail: nat, rest: nat, c: nat)
    requires c > 0 && TakesAll(take, k, c) && done + rest < Pow256(8)
    ensures Reception(pick, i, take, k + done, avail, rest, c) == if rest <= avail then AllStored else CutOff
    decreases rest
  {
    hide Pow256, Accepted, ChunkEnd, Kernel;
    if rest != 0 {
      var n := Kernel(pick(i), avail, Min(c, rest));
      if n != 0 {
        assert TakesWhole(take, k + done, n);
        StoredExactly(take, k + done, n);
        TakingAllStores(pick, i + 1, take, k, done + 1, avail - n, rest - n, c);
      }
    }
  }

  /** Reads of one byte `j` times, then of a whole chunk, lead to a write of `n` bytes after `j`
      others. */
  lemma {:induction false} WriteReached(pick: nat -> nat, i: nat, take: nat -> int, k: nat, j: nat, n: nat, avail: nat, c: nat)
    requires 0 < n <= c && j + n <= avail
    requires forall t :: i <= t < i + j ==> pick(t) == 1
    requires pick(i + j) == c
    requires Reception(pick, i, take, k, avail, j + n, c) == AllStored
    ensures TakesWhole(take, k + j, n)
    decreases j
  {
    hide Accepted, ChunkEnd;
    if j == 0 {
      StoredExactly(take, k, n);
    } else {
      assert pick(i) == 1;
      WriteReached(pick, i + 1, take, k + 1, j - 1, n, avail - 1, c);
    }
  }

  /** Every file gets through whole, into an empty file, under every receive schedule. */
  ghost predicate AllTransferred(a: Build, b: Build, take: nat -> int, k: nat)
    requires b.chunk > 0
  {
    forall content: bytes, rest: bytes, pick: nat -> nat, i: nat :: |content| < Pow256(8) ==>
      FileResult(PC, b, EncFile(a, content) + rest, pick, i, take, k) == Ok(|content|)
  }

  lemma FrameSize(a: Build, b: Build, content: bytes, rest: bytes)
    requires |content| < Pow256(8)
    ensures var s := EncFile(a, content) + rest;
            && DecInt(PC, s, 8).Got? && DecInt(PC, s, 8).value == |content|
            && |DecInt(PC, s, 8).rest| >= |content| && |s| >= 8
  {
    var tail := EncBin(Checksum(a, content)) + rest;
    Regroup(Le(|content|, 8) + content, EncBin(Checksum(a, content)), rest);
    Regroup(Le(|content|, 8), content, tail);
    DecIntRoundTrip(PC, |content|, 8, content + tail);
  }

  /** o_file then i_file, for a given write schedule of the receiving file system: every content is
      stored and its size returned under every receive schedule, whichever side computes checksums,
      exactly when the file system takes every write whole. */
  lemma FileTransferExactly(a: Build, b: Build, take: nat -> int, k: nat)
    requires Sound(a) && Sound(b) && a.md5 == b.md5
    ensures AllTransferred(a, b, take, k) <==> TakesAll(take, k, b.chunk)
  {
    if TakesAll(take, k, b.chunk) {
      forall content: bytes, rest: bytes, pick: nat -> nat, i: nat | |content| < Pow256(8)
        ensures FileResult(PC, b, EncFile(a, content) + rest, pick, i, take, k) == Ok(|content|)
      {
        Transferred(a, b, content, rest, pick, i, take, k);
      }
    }
    if AllTransferred(a, b, take, k) {
      forall j: nat, n: nat | k <= j && 0 < n <= b.chunk && j - k + n < Pow256(8) ensures TakesWhole(take, j, n) {
        TransferNeedsWrite(a, b, take, k, j - k, n);
      }
    }
  }

  lemma Transferred(a: Build, b: Build, content: bytes, rest: bytes, pick: nat -> nat, i: nat, take: nat -> int, k: nat)
    requires Sound(a) && Sound(b) && a.md5 == b.md5 && |content| < Pow256(8)
    requires TakesAll(take, k, b.chunk)
    ensures FileResult(PC, b, EncFile(a, content) + rest, pick, i, take, k) == Ok(|content|)
  {
    hide Pow256, EncFile, DecFile, DecInt, Reception, TakesAll, CallsAfter;
    var s := EncFile(a, content) + rest;
    FrameSize(a, b, content, rest);
    FileRoundTrip(a, b, content, rest);
    TakingAllStores(pick, CallsAfter(pick, i, |s|, 8), take, k, 0, |DecInt(PC, s, 8).rest|, |content|, b.chunk);
  }

  lemma OneHeaderRead(pick: nat -> nat, avail: nat)
    requires pick(0) == 8 && avail >= 8
    ensures CallsAfter(pick, 0, avail, 8) == 1
  {
    assert Kernel(pick(0), avail, 8) == 8;
  }

  lemma TransferNeedsWrite(a: Build, b: Build, take: nat -> int, k: nat, j: nat, n: nat)
    requires b.chunk > 0 && AllTransferred(a, b, take, k)
    requires 0 < n <= b.chunk && j + n < Pow256(8)
    ensures TakesWhole(take, k + j, n)
  {
    hide Pow256, EncFile, DecFile, DecInt, Reception, CallsAfter;
    var content: bytes := seq(j + n, _ => 0);
    var pick := (t: nat) => if t == 0 then 8 else if t <= j then 1 else b.chunk;
    var s := EncFile(a, content) + [];
    FrameSize(a, b, content, []);
    assert FileResult(PC, b, s, pick, 0, take, k) == Ok(|content|);
    OneHeaderRead(pick, |s|);
    WriteReached(pick, 1, take, k, j, n, |DecInt(PC, s, 8).rest|, b.chunk);
  }

  /** The stored file is identical, too, exactly when the destination was no longer before. */
  lemma TransferIntoFile(a: Build, b: Build, content: bytes, rest: bytes, pick: nat -> nat, i: nat, take: nat -> int, k: nat, was: bytes)
    requires Sound(a) && Sound(b) && a.md5 == b.md5 && |content| < Pow256(8)
    requires TakesAll(take, k, b.chunk)
    ensures FileResult(PC, b, EncFile(a, content) + rest, pick, i, take, k) == Ok(|content|)
    ensures DecFile(PC, b, EncFile(a, content) + rest) == Got(content, rest)
    ensures Overwrite(was, 0, content) == content <==> |was| <= |content|
  {
    Transferred(a, b, content, rest, pick, i, take, k);
    FileRoundTrip(a, b, content, rest);
    IdenticalExactly(was, content);
  }

  /** With a file system that takes every write whole, i_file ends as the stream alone says, on every
      stream: with the size of the content, or with the decoder's exception. */
  lemma StreamDecides(h: Host, b: Build, s: bytes, pick: nat -> nat, i: nat, take: nat -> int, k: nat)
    requires b.chunk > 0 && TakesAll(take, k, b.chunk)
    ensures FileResult(h, b, s, pick, i, take, k) ==
            match DecFile(h, b, s)
            case Got(content, _) => Ok(|content|)
            case Fail(e, _) => Err(e)
  {
    hide Pow256, DecInt, DecBin, Verdict, Reception, TakesAll, CallsAfter;
    IntOrFail(h, s, 8);
    var n := DecInt(h, s, 8);
    if n.Got? {
      TakingAllStores(pick, CallsAfter(pick, i, |s|, 8), take, k, 0, |n.rest|, n.value, b.chunk);
    }
  }

  /** A first write that is not taken whole ends it: past the buffer when more than half of the chunk
      is taken, else with a file error. */
  lemma FirstWriteDecides(h: Host, b: Build, s: bytes, pick: nat -> nat, i: nat, take: nat -> int, k: nat)
    requires b.chunk > 0 && DecInt(h, s, 8).Got? && DecInt(h, s, 8).value > 0 && DecInt(h, s, 8).rest != []
    ensures var p := DecInt(h, s, 8);
            var n := Kernel(pick(CallsAfter(pick, i, |s|, 8)), |p.rest|, Min(b.chunk, p.value));
            var a, r := Accepted(take(k), n), FileResult(h, b, s, pick, i, take, k);
            && (2 * a <= n ==> r == Err(FileWriteError))
            && (n < 2 * a < 2 * n ==> r == Err(FileOverrun))
  {
    var p := DecInt(h, s, 8);
    var n := Kernel(pick(CallsAfter(pick, i, |s|, 8)), |p.rest|, Min(b.chunk, p.value));
    StoredExactly(take, k, n);
  }
}
