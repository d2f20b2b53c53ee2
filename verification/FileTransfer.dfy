/** o_file and i_file: a size, the content in chunks, and a checksum frame. */
module FileTransfer {
  import opened Bytes
  import opened BaseIo
  import opened Wire
  import opened WireLaws
  import opened SimpleSocket

  /** How one side was built: with or without checksums, and its chunk size (16 pages). MD5 is any
      function into 16 bytes, computed over the concatenation of what its context was fed. */
  datatype Build = Build(ssl: bool, md5: bytes -> bytes, chunk: nat)

  ghost predicate Sound(b: Build) {
    b.chunk > 0 && forall x: bytes :: |b.md5(x)| == 16
  }

  function Checksum(b: Build, content: bytes): Blob {
    if content == [] || !b.ssl then None else Some(b.md5(content))
  }

  function EncFile(b: Build, content: bytes): bytes {
    Le(|content|, 8) + content + EncBin(Checksum(b, content))
  }

  /** same_hash on the receiver's own checksum and the one received. */
  function SameHash(b: Build, own: Blob, received: Blob): Result<bool> {
    if !b.ssl || own.None? || received.None? then Ok(true)
    else if |received.value| != 16 then Err(BadHashLength)
    else Ok(own.value == received.value)
  }

  function Verdict(b: Build, content: bytes, received: Blob, rest: bytes): Parse<bytes> {
    match SameHash(b, Checksum(b, content), received)
    case Ok(same) => if same then Got(content, rest) else Fail(HashMismatch, rest)
    case Err(e) => Fail(e, rest)
  }

  function DecFile(h: Host, b: Build, s: bytes): Parse<bytes> {
    var (n, r) :- DecInt(h, s, 8);
    var (content, r1) :- DecFix(r, n);
    var (received, r2) :- DecBin(h, r1);
    Verdict(b, content, received, r2)
  }

  /** The length the receiver reads is that of the data modulo 2^32. */
  lemma BinLength(data: bytes, rest: bytes)
    ensures DecInt(PC, Le(|data|, 4) + data + rest, 4) == Got(|data| % Pow256(4), data + rest)
  {
    hide Le, UnLe, Pow256;
    Regroup(Le(|data|, 4), data, rest);
    DecFixConcat(Le(|data|, 4), data + rest);
    LeTruncates(|data|, 4);
  }

  lemma BinDecodes(data: bytes, rest: bytes, n: nat)
    requires n == |data| % Pow256(4) && n <= |data|
    ensures DecBin(PC, Le(|data|, 4) + data + rest)
         == if n == 0 then Got(None, data + rest) else Got(Some(data[..n]), data[n..] + rest)
  {
    BinLength(data, rest);
    hide DecInt, Le, Pow256;
    assert (data + rest)[..n] == data[..n] && (data + rest)[n..] == data[n..] + rest;
  }

  lemma BinExactly(p: Blob, rest: bytes)
    ensures DecBin(PC, EncBin(p) + rest) == Got(p, rest) <==> p.None? || 0 < |p.value| < Pow256(4)
  {
    var data := if p.None? then [] else p.value;
    hide DecBin, Le, Pow256;
    LastChunk(|data|, Pow256(4));
    BinDecodes(data, rest, |data| % Pow256(4));
    if |data| < Pow256(4) {
      assert data[..|data|] == data && data[|data|..] + rest == rest;
    } else {
      assert |data| % Pow256(4) < |data|;
    }
  }

  lemma FrameParts(b: Build, s: bytes, content: bytes, tail: bytes, sum: Blob, rest: bytes)
    requires DecInt(PC, s, 8) == Got(|content|, content + tail)
    requires DecFix(content + tail, |content|) == Got(content, tail)
    requires DecBin(PC, tail) == Got(sum, rest)
    ensures DecFile(PC, b, s) == Verdict(b, content, sum, rest)
  {
  }

  lemma FrameDecodes(b: Build, content: bytes, sum: Blob, rest: bytes)
    requires |content| < Pow256(8) && (sum.None? || |sum.value| == 16)
    ensures DecFile(PC, b, Le(|content|, 8) + content + EncBin(sum) + rest) == Verdict(b, content, sum, rest)
  {
    var tail := EncBin(sum) + rest;
    Regroup(Le(|content|, 8) + content, EncBin(sum), rest);
    Regroup(Le(|content|, 8), content, tail);
    DecIntRoundTrip(PC, |content|, 8, content + tail);
    DecFixConcat(content, tail);
    assert Pow256(4) > 16;
    BinExactly(sum, rest);
    FrameParts(b, Le(|content|, 8) + (content + tail), content, tail, sum, rest);
  }

  /** The file arrives whichever side computes checksums, with the stream left behind the frame. */
  lemma FileRoundTrip(a: Build, b: Build, content: bytes, rest: bytes)
    requires Sound(a) && Sound(b) && a.md5 == b.md5 && |content| < Pow256(8)
    ensures DecFile(PC, b, EncFile(a, content) + rest) == Got(content, rest)
  {
    FrameDecodes(b, content, Checksum(a, content), rest);
  }

  /** With checksums on both sides, other content under the sent checksum is refused unless MD5
      collides. */
  lemma AlteredContentIsRefused(b: Build, sent: bytes, got: bytes, rest: bytes)
    requires Sound(b) && b.ssl && sent != [] && got != [] && |got| < Pow256(8)
    ensures DecFile(PC, b, Le(|got|, 8) + got + EncBin(Checksum(b, sent)) + rest)
         == if b.md5(got) == b.md5(sent) then Got(got, rest) else Fail(HashMismatch, rest)
  {
    FrameDecodes(b, got, Checksum(b, sent), rest);
  }

  // ---------------------------------------------------------------- sending

  /** The chunks of a file of `sz` bytes from `off` on: offset and length of each. */
  function Chunks(off: nat, sz: nat, c: nat): seq<(nat, nat)>
    requires c > 0
    decreases sz - off
  {
    if off >= sz then [] else [(off, Min(c, sz - off))] + Chunks(off + c, sz, c)
  }

  lemma {:induction false} ChunkStep(x: nat, c: nat)
    requires 0 < c <= x
    ensures (x - c) / c == x / c - 1 && (x - c) % c == x % c
  {
    DivMod(x, c);
    var q, r := x / c, x % c;
    if q == 0 {
      assert false;
    }
    assert (q - 1) * c == q * c - c;
    SameQuotient(x - c, c, q - 1, r);
  }

  lemma LastChunk(x: nat, c: nat)
    requires c > 0
    ensures x / c == 0 <==> x < c
    ensures x < c ==> x % c == x
  {
  }

  lemma OneChunkLess(x: nat, c: nat)
    requires c > 0
    ensures (x + c - 1) / c == if x == 0 then 0 else if x <= c then 1 else 1 + (x - c + c - 1) / c
  {
    if x == 0 {
      SameQuotient(c - 1, c, 0, c - 1);
    } else if x <= c {
      SameQuotient(x + c - 1, c, 1, x - 1);
    } else {
      ChunkStep(x + c - 1, c);
    }
  }

  /** As many chunks as the rounded-up quotient. */
  lemma {:induction false} ChunkCount(off: nat, sz: nat, c: nat)
    requires c > 0 && off <= sz
    ensures |Chunks(off, sz, c)| == (sz - off + c - 1) / c
    decreases sz - off
  {
    OneChunkLess(sz - off, c);
    if sz - off > c {
      ChunkCount(off + c, sz, c);
    } else if off < sz {
      assert Chunks(off + c, sz, c) == [];
    }
  }

  /** The chunks tile the rest of the file: they start at `off`, abut, are never empty and end at
      `sz`. */
  lemma {:induction false} ChunksTile(off: nat, sz: nat, c: nat)
    requires c > 0 && off <= sz
    ensures var t := Chunks(off, sz, c);
            && (t == [] <==> off == sz)
            && (t != [] ==> t[0].0 == off && t[|t| - 1].0 + t[|t| - 1].1 == sz)
            && (forall i :: 0 <= i < |t| ==> 0 < t[i].1 <= c)
            && (forall i :: 0 <= i < |t| - 1 ==> t[i].0 + t[i].1 == t[i + 1].0)
    decreases sz - off
  {
    if off < sz {
      var t, u := Chunks(off, sz, c), Chunks(off + c, sz, c);
      assert t == [(off, Min(c, sz - off))] + u;
      if off + c <= sz {
        ChunksTile(off + c, sz, c);
      }
    }
  }

  /** Every chunk starts at a multiple of the chunk size. */
  lemma {:induction false} ChunkOffset(off: nat, sz: nat, c: nat, i: nat)
    requires c > 0 && i < |Chunks(off, sz, c)|
    ensures Chunks(off, sz, c)[i].0 == off + i * c
    decreases i
  {
    if i > 0 {
      ChunkOffset(off + c, sz, c, i - 1);
      assert (i - 1) * c + c == i * c;
    }
  }

  /** `chunkRest` whole chunks are left from `off` on. */
  predicate Left(sz: nat, off: nat, c: nat, chunkRest: nat)
    requires c > 0
  {
    off <= sz && chunkRest == (sz - off) / c && sz % c == (sz - off) % c
  }

  lemma AllLeft(sz: nat, c: nat)
    requires c > 0
    ensures Left(sz, 0, c, sz / c)
  {
  }

  lemma NoChunk(off: nat, c: nat)
    requires c > 0
    ensures Chunks(off, off, c) == []
  {
  }

  /** What the tests of the send loop find out: whether a whole chunk, a part of one or nothing is
      left, and that it is the next one. */
  lemma NextChunk(off: nat, sz: nat, c: nat, chunkRest: nat)
    requires c > 0 && Left(sz, off, c, chunkRest)
    ensures chunkRest == 0 ==> sz % c == sz - off < c
    ensures chunkRest == 0 && off < sz ==> Chunks(off, sz, c) == [(off, sz - off)]
    ensures off == sz ==> Chunks(off, sz, c) == []
    ensures chunkRest > 0 ==> off + c <= sz && Left(sz, off + c, c, chunkRest - 1)
    ensures chunkRest > 0 ==> Chunks(off, sz, c) == [(off, c)] + Chunks(off + c, sz, c)
  {
    LastChunk(sz - off, c);
    if chunkRest > 0 {
      ChunkStep(sz - off, c);
    } else {
      assert Chunks(off + c, sz, c) == [];
    }
  }

  method SendChunk(sock: Socket, file: bytes, off: nat, n: nat, ctx: bytes, ghost start: bytes)
    returns (ctx': bytes)
    requires off + n <= |file| && ctx == file[..off] && sock.io.outbox == start + file[..off]
    modifies sock.io`outbox
    ensures ctx' == file[..off + n] && sock.io.outbox == start + file[..off + n]
  {
    var chunk := file[off..off + n];
    assert file[..off] + chunk == file[..off + n];
    Regroup(start, file[..off], chunk);
    sock.io.Write(chunk);
    ctx' := ctx + chunk;
  }

  /** Map a chunk, send it, feed it to the checksum, report progress; the last chunk is partial when
      the size is no multiple of the chunk size. */
  method WriteFromFile(sock: Socket, file: bytes, sz: nat, b: Build)
    returns (hash: Blob, chunks: seq<(nat, nat)>, progress: seq<nat>)
    requires Sound(b) && sz <= |file|
    modifies sock.io`outbox
    ensures sock.io.outbox == old(sock.io.outbox) + file[..sz]
    ensures hash == Checksum(b, file[..sz])
    ensures chunks == Chunks(0, sz, b.chunk)
    ensures |progress| == |chunks|
    ensures forall i :: 0 <= i < |chunks| ==> progress[i] == chunks[i].0 + chunks[i].1
  {
    hide Chunks, Left;
    chunks, progress := [], [];
    if sz == 0 {
      NoChunk(sz, b.chunk);
      return None, [], [];
    }
    var ctx: bytes := [];
    var done: nat := 0;
    var chunksz := b.chunk;
    var chunkRest: nat := sz / chunksz;
    var off: nat := 0;
    AllLeft(sz, chunksz);
    while true
      invariant off == done <= sz && chunksz == b.chunk && Left(sz, off, chunksz, chunkRest)
      invariant chunks + Chunks(off, sz, chunksz) == Chunks(0, sz, chunksz)
      invariant ctx == file[..off] && sock.io.outbox == old(sock.io.outbox) + file[..off]
      invariant |progress| == |chunks|
      invariant forall i :: 0 <= i < |chunks| ==> progress[i] == chunks[i].0 + chunks[i].1
      decreases chunkRest
    {
      NextChunk(off, sz, chunksz, chunkRest);
      if chunkRest == 0 {
        if sz % chunksz != 0 {
          chunksz := sz % chunksz;
        } else {
          break;
        }
      }
      ctx := SendChunk(sock, file, off, chunksz, ctx, old(sock.io.outbox));
      done := done + chunksz;
      chunks, progress := chunks + [(off, chunksz)], progress + [done];
      if chunkRest == 0 {
        break;
      }
      chunkRest := chunkRest - 1;
      off := off + chunksz;
    }
    hash := if b.ssl then Some(b.md5(ctx)) else None;
  }

  method OFile(sock: Socket, file: bytes, sz: nat, b: Build)
    requires Sound(b) && sz <= |file|
    modifies sock.io`outbox
    ensures sock.io.outbox == old(sock.io.outbox) + EncFile(b, file[..sz])
  {
    sock.OInt(sz, 8);
    var hash, _, _ := WriteFromFile(sock, file, sz, b);
    sock.OBin(hash);
    Regroup(old(sock.io.outbox), Le(sz, 8), file[..sz]);
    Regroup(old(sock.io.outbox), Le(sz, 8) + file[..sz], EncBin(hash));
  }
}
