/** The receiving half of a file transfer, with the source's own loop for partial file writes. */
module FileReceive {
  import opened Bytes
  import opened BaseIo
  import opened Wire
  import opened SimpleSocket
  import opened FileTransfer

  /** What write() returns for `n` bytes when the file system wishes `wish`: -1, 0 for nothing to
      write, else 1 to `n`. */
  function Accepted(wish: int, n: nat): (rs: int)
    ensures -1 <= rs <= n
  {
    if wish < 0 then -1 else if n == 0 then 0 else if wish == 0 then 1 else Min(wish, n)
  }

  function Overwrite(data: bytes, pos: nat, b: bytes): bytes
    requires pos <= |data|
  {
    data[..pos] + b + if pos + |b| <= |data| then data[pos + |b|..] else []
  }

  /** From `pos` on the bytes are those of `b`, before and behind it the old ones. */
  lemma OverwriteAt(data: bytes, pos: nat, b: bytes, k: nat)
    requires pos <= |data|
    ensures var r := Overwrite(data, pos, b);
            && |r| == (if pos + |b| <= |data| then |data| else pos + |b|)
            && (k < |r| ==> r[k] == if pos <= k < pos + |b| then b[k - pos] else data[k])
  {
  }

  lemma OverwriteTwice(data: bytes, pos: nat, a: bytes, b: bytes)
    requires pos <= |data|
    ensures pos + |a| <= |Overwrite(data, pos, a)|
    ensures Overwrite(Overwrite(data, pos, a), pos + |a|, b) == Overwrite(data, pos, a + b)
  {
  }

  lemma OverwriteNothing(data: bytes, pos: nat)
    requires pos <= |data|
    ensures Overwrite(data, pos, []) == data
  {
  }

  /** Nothing truncates the destination: it ends up identical to the content exactly when it was no
      longer before. */
  lemma IdenticalExactly(data: bytes, content: bytes)
    ensures Overwrite(data, 0, content) == content <==> |data| <= |content|
  {
    if |data| > |content| {
      assert |Overwrite(data, 0, content)| == |data|;
    } else {
      assert |data| == |content| ==> data[|content|..] == [];
    }
  }

  /** A file open for writing. `schedule` is how much the file system takes per write. */
  class File {
    var data: bytes
    var pos: nat
    /** Writes made so far. */
    var writes: nat
    const schedule: nat -> int

    constructor (data: bytes, schedule: nat -> int)
      ensures this.data == data && pos == 0 && writes == 0 && this.schedule == schedule
    {
      this.data, pos, writes, this.schedule := data, 0, 0, schedule;
    }

    method Write(b: bytes) returns (rs: int)
      requires pos <= |data|
      modifies this
      ensures rs == Accepted(schedule(old(writes)), |b|) && writes == old(writes) + 1
      ensures var n := if rs < 0 then 0 else rs;
              data == Overwrite(old(data), old(pos), b[..n]) && pos == old(pos) + n
    {
      rs := Accepted(schedule(writes), |b|);
      var n := if rs < 0 then 0 else rs;
      data, pos, writes := Overwrite(data, pos, b[..n]), pos + n, writes + 1;
    }
  }

  // ---------------------------------------------------------------- one chunk

  /** How the writing of one chunk ends: stored, an exception, or a byte count wrapped below zero. */
  datatype WriteEnd = Stored | Failed | Wrapped

  /** The retry loop after a short write, which subtracts the last result before writing again. */
  function RetryEnd(pick: nat -> int, i: nat, rest: nat, rs: nat): WriteEnd
    requires rs > 0
    decreases rest
  {
    if rest == 0 then Stored
    else if rs > rest then Wrapped
    else
      var again := Accepted(pick(i), rest - rs);
      if again < 1 then Failed else RetryEnd(pick, i + 1, rest - rs, again)
  }

  function ChunkEnd(pick: nat -> int, i: nat, n: nat): WriteEnd {
    var rs := Accepted(pick(i), n);
    if rs < 1 then Failed
    else if rs == n then Stored
    else RetryEnd(pick, i + 1, n - rs, rs)
  }

  lemma {:induction false} RetryFails(pick: nat -> int, i: nat, rest: nat, rs: nat)
    requires 0 < rs && 0 < rest
    ensures RetryEnd(pick, i, rest, rs) == if rs > rest then Wrapped else Failed
    decreases rest
  {
    if rs <= rest {
      var again := Accepted(pick(i), rest - rs);
      if again >= 1 {
        RetryFails(pick, i + 1, rest - rs, again);
      }
    }
  }

  /** A chunk is stored exactly when the file system takes all of it at once. A partial write is never
      completed, whatever the later writes do: when more than half was taken the count wraps and the
      next write runs past the buffer, else the chunk ends in an exception. */
  lemma StoredExactly(pick: nat -> int, i: nat, n: nat)
    requires n > 0
    ensures var a := Accepted(pick(i), n);
            ChunkEnd(pick, i, n) == if a == n then Stored else if 2 * a > n then Wrapped else Failed
  {
    var rs := Accepted(pick(i), n);
    if 1 <= rs < n {
      RetryFails(pick, i + 1, n - rs, rs);
    }
  }

  /** What a short first write of `a` bytes leaves of the chunk when `k` bytes were taken in all: the
      next `a` bytes are left out. */
  function Torn(buf: bytes, a: nat, k: nat): bytes
    requires a <= k && a + k <= |buf|
  {
    buf[..a] + buf[2 * a..a + k]
  }

  /** The file holds `w` at `pos`, over what was there before, and stands behind it. */
  ghost predicate Stands(f: File, was: bytes, pos: nat, w: bytes)
    reads f
  {
    && pos <= |was| && f.pos == pos + |w| && f.pos <= |f.data| && f.data == Overwrite(was, pos, w)
  }

  /** One write() and what it adds. */
  method WriteOn(f: File, b: bytes, ghost was: bytes, ghost pos: nat, ghost w: bytes) returns (rs: int, ghost more: bytes)
    requires Stands(f, was, pos, w)
    modifies f
    ensures rs == Accepted(f.schedule(old(f.writes)), |b|) && f.writes == old(f.writes) + 1
    ensures more == b[..if rs < 0 then 0 else rs] && Stands(f, was, pos, w + more)
  {
    rs := f.Write(b);
    more := b[..if rs < 0 then 0 else rs];
    OverwriteTwice(was, pos, w, more);
  }

  lemma TornOn(buf: bytes, a: nat, before: bytes, b: nat, n: nat)
    requires 0 < a <= |before| && b == a + |before| && b + n <= |buf|
    requires before == Torn(buf, a, |before|)
    ensures before + buf[b..][..n] == Torn(buf, a, |before| + n)
  {
  }

  lemma NotTornYet(buf: bytes, a: nat)
    requires 2 * a <= |buf|
    ensures Torn(buf, a, a) == buf[..a]
  {
  }

  method WriteChunk(f: File, buf: bytes) returns (end: WriteEnd)
    requires buf != [] && f.pos <= |f.data|
    modifies f
    ensures end == ChunkEnd(f.schedule, old(f.writes), |buf|)
    ensures end.Stored? ==> f.data == Overwrite(old(f.data), old(f.pos), buf) && f.pos == old(f.pos) + |buf|
    ensures end.Stored? ==> f.writes == old(f.writes) + 1
    ensures var a, k := Accepted(f.schedule(old(f.writes)), |buf|), f.pos - old(f.pos);
            match end
            case Stored => a == |buf|
            case Wrapped => 2 * a > |buf| > a && k == a && f.data == Overwrite(old(f.data), old(f.pos), buf[..a])
            case Failed =>
              if a < 1 then k == 0 && f.data == old(f.data) && f.writes == old(f.writes) + 1
              else
                && a <= k <= |buf| - a && f.data == Overwrite(old(f.data), old(f.pos), Torn(buf, a, k))
                && f.writes > 0 && Accepted(f.schedule(f.writes - 1), |buf| - a - k) < 1
  {
    hide ChunkEnd, Overwrite, Torn;
    StoredExactly(f.schedule, f.writes, |buf|);
    OverwriteNothing(f.data, f.pos);
    ghost var was, pos := f.data, f.pos;
    ghost var taken, more;
    var fileRest: nat := |buf|;
    var rs;
    rs, taken := WriteOn(f, buf, was, pos, []);
    assert [] + taken == taken;
    if rs < 1 {
      return Failed;
    }
    ghost var a := rs;
    if rs != fileRest {
      var b := rs;
      fileRest := fileRest - rs;
      if rs <= fileRest {
        NotTornYet(buf, a);
      }
      while fileRest != 0
        invariant fileRest != 0 && rs > 0 && b + fileRest == |buf| && b + rs == a + |taken|
        invariant Stands(f, was, pos, taken) && a <= |taken|
        invariant if rs <= fileRest then taken == Torn(buf, a, |taken|) else rs == a && taken == buf[..a]
        decreases fileRest
      {
        if rs > fileRest {
          return Wrapped;
        }
        fileRest := fileRest - rs;
        b := b + rs;
        ghost var before := taken;
        rs, more := WriteOn(f, buf[b..], was, pos, taken);
        taken := before + more;
        TornOn(buf, a, before, b, |more|);
        if rs < 1 {
          return Failed;
        }
      }
    } else {
      assert buf[..rs] == buf;
    }
    return Stored;
  }

  // ---------------------------------------------------------------- the content

  /** How the reception of the content ends: all stored, the stream cut off, or as a chunk did. */
  datatype ContentEnd = AllStored | CutOff | WriteFailed | WriteWrapped

  /** The receive loop in sizes: `avail` bytes will come, `rest` are announced, reads go on at the
      i-th and writes at the k-th. */
  function Reception(pick: nat -> nat, i: nat, take: nat -> int, k: nat, avail: nat, rest: nat, c: nat): (e: ContentEnd)
    requires c > 0
    ensures e.AllStored? ==> rest <= avail
    ensures e.CutOff? ==> avail < rest
    decreases rest
  {
    if rest == 0 then AllStored else
    var n := Kernel(pick(i), avail, Min(c, rest));
    if n == 0 then CutOff else
    match ChunkEnd(take, k, n)
    case Stored => Reception(pick, i + 1, take, k + 1, avail - n, rest - n, c)
    case Failed => WriteFailed
    case Wrapped => WriteWrapped
  }

  /** The first `done` bytes of stream `s` are in the file, over `was`, and the rest is to come. */
  ghost predicate Holding(sock: Socket, f: File, s: bytes, was: bytes, done: nat)
    reads sock.io, f
  {
    && done <= |s| && sock.io.inbox == s[done..]
    && f.pos == done <= |f.data| && f.data == Overwrite(was, 0, s[..done])
  }

  /** One turn of the receive loop: a read of at most `n` bytes, stored behind the rest. */
  method ReceiveChunk(sock: Socket, f: File, buf: array<byte>, n: nat, ghost s: bytes, ghost was: bytes, ghost done: nat)
    returns (part: bytes, end: WriteEnd)
    requires 0 < n <= buf.Length && Holding(sock, f, s, was, done)
    modifies sock.io`inbox, sock.io`calls, f, buf
    ensures |part| == Kernel(sock.io.schedule(old(sock.io.calls)), |s| - done, n)
    ensures sock.io.calls == old(sock.io.calls) + 1
    ensures part == [] ==> done == |s| && sock.io.inbox == []
    ensures part != [] ==> end == ChunkEnd(f.schedule, old(f.writes), |part|)
    ensures part != [] && end.Stored? ==>
              && Holding(sock, f, s, was, done + |part|) && s[..done] + part == s[..done + |part|]
              && f.writes == old(f.writes) + 1
  {
    hide ChunkEnd, Torn, Accepted, Kernel;
    var recsz := sock.io.Read(buf, 0, n);
    part, end := buf[..recsz], Failed;
    assert part == s[done..][..recsz];
    assert s[..done + recsz] == s[..done] + part;
    if recsz != 0 {
      OverwriteTwice(was, 0, s[..done], part);
      end := WriteChunk(f, part);
    }
  }

  /** The receive loop, with the checksum context it fills. */
  method ReceiveAll(sock: Socket, f: File, sz: nat, chunk: nat, ghost was: bytes) returns (ctx: bytes, end: ContentEnd)
    requires chunk > 0 && Holding(sock, f, sock.io.inbox, was, 0)
    modifies sock.io`inbox, sock.io`calls, f
    ensures end == Reception(sock.io.schedule, old(sock.io.calls), f.schedule, old(f.writes),
                             |old(sock.io.inbox)|, sz, chunk)
    ensures end.AllStored? ==> Holding(sock, f, old(sock.io.inbox), was, sz) && ctx == old(sock.io.inbox)[..sz]
    ensures end.CutOff? ==> sock.io.inbox == []
  {
    hide Holding, ChunkEnd, Kernel;
    var chunksz := chunk;
    var buf := new byte[chunksz];
    var bytesRest: nat := sz;
    ghost var s := sock.io.inbox;
    ctx := [];
    while bytesRest != 0
      invariant |ctx| + bytesRest == sz && 0 < chunksz <= buf.Length
      invariant Min(chunksz, bytesRest) == Min(chunk, bytesRest)
      invariant |ctx| <= |s| && ctx == s[..|ctx|] && Holding(sock, f, s, was, |ctx|)
      invariant Reception(sock.io.schedule, sock.io.calls, f.schedule, f.writes, |s| - |ctx|, bytesRest, chunk)
             == Reception(sock.io.schedule, old(sock.io.calls), f.schedule, old(f.writes), |s|, sz, chunk)
      decreases bytesRest
    {
      if bytesRest < chunksz {
        chunksz := bytesRest;
      }
      var part, stored := ReceiveChunk(sock, f, buf, chunksz, s, was, |ctx|);
      if part == [] {
        return ctx, CutOff;
      }
      if !stored.Stored? {
        return ctx, if stored.Failed? then WriteFailed else WriteWrapped;
      }
      bytesRest := bytesRest - |part|;
      ctx := ctx + part;
    }
    return ctx, AllStored;
  }

  /** read_to_file: the end of the reception, and the checksum streamed over what was received. */
  method ReadToFile(sock: Socket, f: File, sz: nat, b: Build) returns (hash: Blob, end: ContentEnd)
    requires Sound(b)
    modifies sock.io`inbox, sock.io`calls, f
    ensures end == Reception(sock.io.schedule, old(sock.io.calls), f.schedule, old(f.writes),
                             |old(sock.io.inbox)|, sz, b.chunk)
    ensures end.AllStored? ==> hash == Checksum(b, old(sock.io.inbox)[..sz])
    ensures end.AllStored? ==> sock.io.inbox == old(sock.io.inbox)[sz..]
    ensures end.AllStored? ==> f.data == Overwrite(old(f.data), 0, old(sock.io.inbox)[..sz])
    ensures end.CutOff? ==> sock.io.inbox == []
  {
    if sz == 0 {
      return None, AllStored;
    }
    f.pos := 0;
    OverwriteNothing(f.data, 0);
    var ctx;
    ctx, end := ReceiveAll(sock, f, sz, b.chunk, f.data);
    hash := if b.ssl then Some(b.md5(ctx)) else None;
  }

  // ---------------------------------------------------------------- the whole frame

  /** How i_file ends on stream `s`, with reads going on at the i-th and file writes at the k-th. */
  function FileResult(h: Host, b: Build, s: bytes, pick: nat -> nat, i: nat, take: nat -> int, k: nat): Result<nat>
    requires b.chunk > 0
  {
    var n := DecInt(h, s, 8);
    if n.Fail? then Err(ReadError) else
    match Reception(pick, CallsAfter(pick, i, |s|, 8), take, k, |n.rest|, n.value, b.chunk)
    case CutOff => Err(ReadError)
    case WriteFailed => Err(FileWriteError)
    case WriteWrapped => Err(FileOverrun)
    case AllStored =>
      match DecFile(h, b, s)
      case Got(content, _) => Ok(|content|)
      case Fail(e, _) => Err(e)
  }

  /** i_file: on a normal return the file begins with the content and the stream is behind the
      frame. */
  method IFile(sock: Socket, f: File, b: Build) returns (r: Result<nat>)
    requires Sound(b)
    modifies sock.io`inbox, sock.io`calls, f
    ensures r == FileResult(sock.host, b, old(sock.io.inbox), sock.io.schedule, old(sock.io.calls), f.schedule, old(f.writes))
    ensures r.Ok? ==> var p := DecFile(sock.host, b, old(sock.io.inbox));
                      && p.Got? && r.value == |p.value|
                      && f.data == Overwrite(old(f.data), 0, p.value)
    ensures r != Err(FileWriteError) && r != Err(FileOverrun) ==>
              sock.io.inbox == DecFile(sock.host, b, old(sock.io.inbox)).rest
  {
    var sz :- sock.IInt(8);
    var hash, end := ReadToFile(sock, f, sz, b);
    match end {
      case AllStored =>
      case CutOff => return Err(ReadError);
      case WriteFailed => return Err(FileWriteError);
      case WriteWrapped => return Err(FileOverrun);
    }
    var received :- sock.IBin();
    var same :- SameHash(b, hash, received);
    return if same then Ok(sz) else Err(HashMismatch);
  }
}
