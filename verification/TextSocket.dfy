/** The buffered line protocol: incremental splitting at a separator, and the two printers. */
module TextSocket {
  import opened Bytes
  import opened BaseIo

  const NEWLINE: byte := 10

  /** A C string of 1 to 255 characters. */
  predicate Separator(sep: bytes) {
    0 < |sep| <= 255 && 0 !in sep
  }

  // ---------------------------------------------------------------- leftmost occurrence

  predicate At(sep: bytes, s: bytes, i: nat) {
    i + |sep| <= |s| && s[i..i + |sep|] == sep
  }

  /** The leftmost occurrence of `sep` in `s` at or after `i`. */
  function FindFrom(sep: bytes, s: bytes, i: nat): (k: Option<nat>)
    ensures k.Some? ==> i <= k.value && At(sep, s, k.value)
    ensures k.Some? ==> forall j :: i <= j < k.value ==> !At(sep, s, j)
    ensures k.None? ==> forall j :: i <= j ==> !At(sep, s, j)
    decreases |s| - i
  {
    if i + |sep| > |s| then None
    else if At(sep, s, i) then Some(i)
    else FindFrom(sep, s, i + 1)
  }

  function Find(sep: bytes, s: bytes): (k: Option<nat>)
    ensures k.Some? ==> At(sep, s, k.value) && forall j :: 0 <= j < k.value ==> !At(sep, s, j)
    ensures k.None? ==> forall j: nat :: !At(sep, s, j)
  {
    FindFrom(sep, s, 0)
  }

  /** What is found stays the leftmost occurrence however the text goes on. */
  lemma FindExtends(sep: bytes, s: bytes, x: bytes, k: nat)
    requires k + |sep| <= |s|
    ensures Find(sep, s) == Some(k) <==> Find(sep, s + x) == Some(k)
  {
    forall j | 0 <= j <= k ensures At(sep, s, j) <==> At(sep, s + x, j) {
      assert (s + x)[j..j + |sep|] == s[j..j + |sep|];
    }
  }

  /** `b` is a suffix of `a`: reading went from `a` to `b`. */
  predicate Suffix(b: bytes, a: bytes) {
    |b| <= |a| && b == a[|a| - |b|..]
  }

  lemma SuffixStep(c: bytes, b: bytes, a: bytes, n: nat)
    requires Suffix(b, a) && n <= |b| && c == b[n..]
    ensures Suffix(c, a)
  {
  }

  lemma CutAt(s: bytes, x: bytes, k: nat, sep: bytes)
    requires Find(sep, s) == Some(k)
    ensures Find(sep, s + x) == Some(k)
    ensures (s + x)[..k] == s[..k]
    ensures (s + x)[k + |sep|..] == s[k + |sep|..] + x
  {
    FindExtends(sep, s, x, k);
  }

  // ---------------------------------------------------------------- reading

  class Socket {
    const io: Stream
    var buffer: bytes
    var sep: bytes
    const page: nat

    constructor (io: Stream, sep: bytes, page: nat)
      ensures this.io == io && this.sep == sep && this.page == page && buffer == []
    {
      this.io, this.sep, this.page, buffer := io, sep, page, [];
    }

    /** The nested search loops of read_line. */
    method SearchBuffer() returns (k: Option<nat>)
      requires Separator(sep)
      ensures k == Find(sep, buffer)
    {
      var sepsz := |sep|;
      if |buffer| >= sepsz {
        var i := 0;
        while i < |buffer| - sepsz + 1
          invariant i <= |buffer| - sepsz + 1
          invariant Find(sep, buffer) == FindFrom(sep, buffer, i)
        {
          if buffer[i] == sep[0] {
            var c := 1;
            while c < sepsz && sep[c] == buffer[i + c]
              invariant 1 <= c <= sepsz
              invariant forall j :: 0 <= j < c ==> sep[j] == buffer[i + j]
            {
              c := c + 1;
            }
            if c == sepsz {
              assert buffer[i..i + sepsz] == sep;
              return Some(i);
            }
          }
          i := i + 1;
        }
      }
      return None;
    }

    /** One read into a fresh page, appended to the buffer. */
    method Receive() returns (rs: nat)
      requires page > 0
      modifies this`buffer, io`inbox, io`calls
      ensures rs <= |old(io.inbox)| && (rs == 0 <==> old(io.inbox) == [])
      ensures io.inbox == old(io.inbox)[rs..] && buffer == old(buffer) + old(io.inbox)[..rs]
      ensures buffer + io.inbox == old(buffer + io.inbox)
    {
      var buf := new byte[page];
      rs := io.Read(buf, 0, page);
      assert buf[..rs] == old(io.inbox)[..rs];
      buffer := buffer + buf[..rs];
    }

    /** read_line: everything received and not yet returned is `buffer + io.inbox`; a call cuts the
        first line off it, whatever the read sizes, and the bytes
        not read stay in order. */
    method ILine() returns (r: Result<bytes>)
      requires Separator(sep) && page > 0
      modifies this`buffer, io`inbox, io`calls
      ensures var all := old(buffer + io.inbox);
              match Find(sep, all)
              case Some(k) => r == Ok(all[..k]) && buffer + io.inbox == all[k + |sep|..]
              case None => r == Err(ReadError) && buffer == all && io.inbox == []
      ensures Suffix(io.inbox, old(io.inbox))
    {
      ghost var all := buffer + io.inbox;
      while true
        invariant buffer + io.inbox == all && Suffix(io.inbox, old(io.inbox))
        decreases |io.inbox|
      {
        var k := SearchBuffer();
        if k.Some? {
          CutAt(buffer, io.inbox, k.value, sep);
          var line := buffer[..k.value];
          buffer := buffer[k.value + |sep|..];
          return Ok(line);
        }
        ghost var searched, before := buffer, io.inbox;
        var rs := Receive();
        SuffixStep(io.inbox, before, old(io.inbox), rs);
        if rs == 0 {
          assert io.inbox == [] && all == buffer == searched;
          return Err(ReadError);
        }
      }
    }

    // -------------------------------------------------------------- writing

    method OLine(line: bytes)
      modifies io`outbox
      ensures io.outbox == old(io.outbox) + (line + sep)
    {
      io.Write(line);
      io.Write(sep);
      Regroup(old(io.outbox), line, sep);
    }

    /** The two writes of write_txt for one line, the first only when there is something to write. */
    method WriteLine(line: bytes)
      modifies io`outbox
      ensures io.outbox == old(io.outbox) + (line + sep)
    {
      if |line| > 0 {
        io.Write(line);
      }
      io.Write(sep);
      Regroup(old(io.outbox), line, sep);
    }

    /** The inner scan of write_txt, to the next '\n' or the end. */
    method NextNewline(txt: bytes, pos: nat) returns (i: nat)
      requires pos <= |txt|
      ensures pos <= i <= |txt| && NEWLINE !in txt[pos..i]
      ensures i < |txt| ==> txt[i] == NEWLINE
    {
      i := pos;
      while i < |txt| && txt[i] != NEWLINE
        invariant pos <= i <= |txt| && NEWLINE !in txt[pos..i]
      {
        i := i + 1;
      }
    }

    /** write_txt: every line ended by '\n' goes out with the separator. The scan for the next '\n'
        leaves `pos` alone when there is none, so the closing test never sees an unterminated tail. */
    method OTxt(txt: bytes)
      modifies io`outbox
      ensures io.outbox == old(io.outbox) + Join(sep, Lines(txt))
    {
      var pos := 0;
      ghost var todo := Out(sep, txt, 0);
      assert txt[0..] == txt;
      while pos < |txt|
        invariant pos <= |txt|
        invariant todo == Out(sep, txt, pos)
        invariant io.outbox + todo == old(io.outbox) + Join(sep, Lines(txt))
      {
        var i := NextNewline(txt, pos);
        if i < |txt| {
          OutLine(sep, txt, pos, i);
          todo := Out(sep, txt, i + 1);
          Regroup(io.outbox, txt[pos..i] + sep, todo);
          WriteLine(txt[pos..i]);
          pos := i;
        } else {
          NoLine(txt, pos);
        }
        pos := pos + 1;
      }
      OutEnd(sep, txt);
    }
  }

  // ---------------------------------------------------------------- text and lines

  /** The lines of a text that end in '\n', without it. */
  function Lines(txt: bytes): seq<bytes>
    decreases |txt|
  {
    match Find([NEWLINE], txt)
    case Some(k) => [txt[..k]] + Lines(txt[k + 1..])
    case None => []
  }

  /** What follows the last '\n'. */
  function Tail(txt: bytes): bytes
    decreases |txt|
  {
    match Find([NEWLINE], txt)
    case Some(k) => Tail(txt[k + 1..])
    case None => txt
  }

  /** Every line followed by the separator. */
  function Join(sep: bytes, lines: seq<bytes>): bytes {
    if lines == [] then [] else lines[0] + sep + Join(sep, lines[1..])
  }

  lemma JoinFirst(sep: bytes, line: bytes, lines: seq<bytes>)
    ensures Join(sep, [line] + lines) == line + sep + Join(sep, lines)
  {
    assert ([line] + lines)[1..] == lines;
  }

  /** What is still to be written from `pos` on. */
  function Out(sep: bytes, txt: bytes, pos: nat): bytes
    requires pos <= |txt|
  {
    Join(sep, Lines(txt[pos..]))
  }

  lemma OutLine(sep: bytes, txt: bytes, pos: nat, i: nat)
    requires pos <= i < |txt| && txt[i] == NEWLINE && NEWLINE !in txt[pos..i]
    ensures Out(sep, txt, pos) == txt[pos..i] + sep + Out(sep, txt, i + 1)
  {
    FirstLine(txt, pos, i);
    JoinFirst(sep, txt[pos..i], Lines(txt[i + 1..]));
  }

  lemma OutEnd(sep: bytes, txt: bytes)
    ensures Out(sep, txt, |txt|) == []
  {
    assert Lines([]) == [];
  }

  /** What the header promises of o_txt: the ending is added to an unterminated tail as well. */
  function Promised(sep: bytes, txt: bytes): bytes {
    Join(sep, Lines(txt)) + if Tail(txt) == [] then [] else Tail(txt) + sep
  }

  lemma NewlineAt(txt: bytes, i: nat)
    ensures At([NEWLINE], txt, i) <==> i < |txt| && txt[i] == NEWLINE
  {
    if i < |txt| {
      assert txt[i..i + 1] == [txt[i]];
    }
  }

  lemma FirstLine(txt: bytes, pos: nat, i: nat)
    requires pos <= i < |txt| && txt[i] == NEWLINE && NEWLINE !in txt[pos..i]
    ensures Lines(txt[pos..]) == [txt[pos..i]] + Lines(txt[i + 1..])
  {
    var s := txt[pos..];
    NewlineAt(s, i - pos);
    forall j | 0 <= j < i - pos ensures !At([NEWLINE], s, j) {
      NewlineAt(s, j);
      assert s[j] == txt[pos..i][j];
    }
    assert Find([NEWLINE], s) == Some(i - pos);
    assert s[..i - pos] == txt[pos..i] && s[i - pos + 1..] == txt[i + 1..];
  }

  lemma NoLine(txt: bytes, pos: nat)
    requires pos < |txt| && NEWLINE !in txt[pos..]
    ensures Lines(txt[pos..]) == [] == Lines(txt[pos + 1..])
  {
    forall j: nat ensures !At([NEWLINE], txt[pos..], j) && !At([NEWLINE], txt[pos + 1..], j) {
      NewlineAt(txt[pos..], j);
      NewlineAt(txt[pos + 1..], j);
      assert j < |txt[pos + 1..]| ==> txt[pos + 1..][j] == txt[pos..][j + 1];
    }
  }
}
