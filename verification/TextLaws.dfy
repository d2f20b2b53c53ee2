/** What the line protocol transports, and for which separators. */
module TextLaws {
  import opened Bytes
  import opened TextSocket

  /** `n` calls of i_line on everything still to be returned: the lines, and what is left. */
  function ReadLines(sep: bytes, s: bytes, n: nat): Option<(seq<bytes>, bytes)> {
    if n == 0 then Some(([], s)) else
    match Find(sep, s)
    case None => None
    case Some(k) =>
      match ReadLines(sep, s[k + |sep|..], n - 1)
      case None => None
      case Some((lines, rest)) => Some(([s[..k]] + lines, rest))
  }

  /** The first occurrence of the separator in the printed line is the printed separator. */
  predicate Safe(sep: bytes, line: bytes) {
    Find(sep, line + sep) == Some(|line|)
  }

  // ---------------------------------------------------------------- one line

  lemma PrintedAt(sep: bytes, line: bytes, rest: bytes)
    ensures At(sep, line + sep + rest, |line|)
    ensures (line + sep + rest)[..|line|] == line
    ensures (line + sep + rest)[|line| + |sep|..] == rest
  {
  }

  /** o_line then i_line returns the line and leaves the rest exactly for safe lines. */
  lemma LineExactly(sep: bytes, line: bytes, rest: bytes)
    ensures ReadLines(sep, line + sep + rest, 1) == Some(([line], rest)) <==> Safe(sep, line)
  {
    var s := line + sep + rest;
    PrintedAt(sep, line, rest);
    FindExtends(sep, line + sep, rest, |line|);
    var k := Find(sep, s);
    if k.None? {
      assert false;
    }
    assert ReadLines(sep, s, 1) == Some(([s[..k.value]], s[k.value + |sep|..])) by {
      assert ReadLines(sep, s[k.value + |sep|..], 0) == Some(([], s[k.value + |sep|..]));
      assert [s[..k.value]] + [] == [s[..k.value]];
    }
    if s[..k.value] == line {
      assert k.value == |line|;
    }
  }

  /** One call within the contract of ILine: `line` is cut off `s`, which leaves `rest`. */
  predicate Cut(sep: bytes, s: bytes, line: bytes, rest: bytes) {
    Find(sep, s) == Some(|line|) && s == line + sep + rest
  }

  /** A run of i_line calls: `states[i]` is buffer plus stream before call i, `lines[i]` what it
      returns. */
  predicate Calls(sep: bytes, states: seq<bytes>, lines: seq<bytes>)
    requires |states| == |lines| + 1
  {
    forall i :: 0 <= i < |lines| ==> Cut(sep, states[i], lines[i], states[i + 1])
  }

  /** Over a whole run the lines are the leftmost-first split of the stream. Read sizes do not occur
      in it, so they do not matter. */
  lemma {:induction false} RunIsSplit(sep: bytes, states: seq<bytes>, lines: seq<bytes>)
    requires |states| == |lines| + 1 && Calls(sep, states, lines)
    ensures ReadLines(sep, states[0], |lines|) == Some((lines, states[|lines|]))
    ensures Join(sep, lines) + states[|lines|] == states[0]
    decreases |lines|
  {
    hide Find;
    if lines == [] {
      assert Join(sep, lines) + states[0] == states[0];
    } else {
      assert Cut(sep, states[0], lines[0], states[1]);
      forall i | 0 <= i < |lines| - 1 ensures Cut(sep, states[1..][i], lines[1..][i], states[1..][i + 1]) {
        assert Cut(sep, states[i + 1], lines[i + 1], states[i + 2]);
      }
      RunIsSplit(sep, states[1..], lines[1..]);
      assert lines == [lines[0]] + lines[1..];
      PrintedAt(sep, lines[0], states[1]);
      Regroup(lines[0] + sep, Join(sep, lines[1..]), states[|lines|]);
    }
  }

  /** At every return, the old buffer and the bytes read are the line, the separator and the new
      buffer. */
  lemma CarryOver(sep: bytes, buffer: bytes, inbox: bytes, k: nat, buffer': bytes, inbox': bytes)
    requires Find(sep, buffer + inbox) == Some(k)
    requires buffer' + inbox' == (buffer + inbox)[k + |sep|..] && Suffix(inbox', inbox)
    ensures buffer + inbox[..|inbox| - |inbox'|] == (buffer + inbox)[..k] + sep + buffer'
  {
    var all := buffer + inbox;
    var read := inbox[..|inbox| - |inbox'|];
    assert all == all[..k] + sep + all[k + |sep|..];
    Regroup(all[..k] + sep, buffer', inbox');
    assert all == buffer + read + inbox';
    assert (all[..k] + sep + buffer' + inbox')[..|all| - |inbox'|] == all[..k] + sep + buffer';
    assert (buffer + read + inbox')[..|all| - |inbox'|] == buffer + read;
  }

  // ---------------------------------------------------------------- separators

  /** A proper prefix of the separator that is also a suffix. */
  predicate Border(sep: bytes, b: nat) {
    0 < b < |sep| && sep[..b] == sep[|sep| - b..]
  }

  ghost predicate BorderFree(sep: bytes) {
    forall b :: !Border(sep, b)
  }

  predicate Contains(sep: bytes, line: bytes) {
    Find(sep, line).Some?
  }

  lemma SafeIsFree(sep: bytes, line: bytes)
    requires sep != [] && Safe(sep, line)
    ensures !Contains(sep, line)
  {
    var k := Find(sep, line);
    if k.Some? {
      assert (line + sep)[k.value..k.value + |sep|] == line[k.value..k.value + |sep|];
      assert At(sep, line + sep, k.value);
      assert false;
    }
  }

  /** An occurrence that starts before the printed separator overlaps it in a border. */
  lemma EarlyOccurrenceIsBorder(sep: bytes, line: bytes, i: nat)
    requires !Contains(sep, line) && i < |line| && At(sep, line + sep, i)
    ensures |line| < i + |sep| && Border(sep, i + |sep| - |line|)
  {
    var s := line + sep;
    if i + |sep| <= |line| {
      assert s[i..i + |sep|] == line[i..i + |sep|];
      assert At(sep, line, i);
      assert false;
    }
    var b := i + |sep| - |line|;
    assert s[i..i + |sep|][|sep| - b..] == s[|line|..|line| + b];
    assert s[|line|..|line| + b] == sep[..b];
  }

  /** A border makes a separator-free line unsafe: the part of the separator before the border. */
  lemma BorderIsUnsafe(sep: bytes, b: nat)
    requires Border(sep, b)
    ensures var line := sep[..|sep| - b]; !Contains(sep, line) && !Safe(sep, line)
  {
    var line := sep[..|sep| - b];
    assert (line + sep)[0..|sep|] == line + sep[..b] == sep;
    assert At(sep, line + sep, 0);
  }

  /** The lines that survive o_line and i_line are the separator-free ones exactly when the separator
      has no border. */
  lemma SeparatorExactly(sep: bytes)
    requires sep != []
    ensures (forall line :: Safe(sep, line) <==> !Contains(sep, line)) <==> BorderFree(sep)
  {
    forall line | Safe(sep, line) ensures !Contains(sep, line) {
      SafeIsFree(sep, line);
    }
    if BorderFree(sep) {
      forall line | !Contains(sep, line) ensures Safe(sep, line) {
        assert line + sep == line + sep + [];
        PrintedAt(sep, line, []);
        var k := Find(sep, line + sep);
        if k.Some? && k.value < |line| {
          EarlyOccurrenceIsBorder(sep, line, k.value);
          assert false;
        }
      }
    } else {
      var b :| Border(sep, b);
      BorderIsUnsafe(sep, b);
    }
  }

  /** CR LF, the default separator. */
  lemma CrLfIsBorderFree()
    ensures BorderFree([13, 10])
  {
    forall b ensures !Border([13, 10], b) {
      if b == 1 {
        assert [13, 10][..1] == [13] && [13, 10][1..] == [10];
      }
    }
  }

  // ---------------------------------------------------------------- whole texts

  lemma {:induction false} ReadJoined(sep: bytes, lines: seq<bytes>, rest: bytes)
    ensures ReadLines(sep, Join(sep, lines) + rest, |lines|) == Some((lines, rest))
       <==> forall l :: l in lines ==> Safe(sep, l)
  {
    if lines == [] {
      assert Join(sep, lines) + rest == rest;
    } else {
      var l, tail := lines[0], Join(sep, lines[1..]) + rest;
      var s := l + sep + tail;
      Regroup(l + sep, Join(sep, lines[1..]), rest);
      assert Join(sep, lines) + rest == s;
      PrintedAt(sep, l, tail);
      FindExtends(sep, l + sep, tail, |l|);
      var k := Find(sep, s).value;
      assert lines == [l] + lines[1..];
      if Safe(sep, l) {
        ReadJoined(sep, lines[1..], rest);
      } else {
        assert s[..k] != l;
        var r := ReadLines(sep, s, |lines|);
        assert r.Some? ==> r.value.0[0] == s[..k];
      }
    }
  }

  /** write_txt then as many i_line as there are lines: exactly those lines and an empty buffer,
      if and only if every line is safe for the separator. */
  lemma TextTransport(sep: bytes, txt: bytes)
    ensures ReadLines(sep, Join(sep, Lines(txt)), |Lines(txt)|) == Some((Lines(txt), []))
       <==> forall l :: l in Lines(txt) ==> Safe(sep, l)
  {
    assert Join(sep, Lines(txt)) + [] == Join(sep, Lines(txt));
    ReadJoined(sep, Lines(txt), []);
  }

  // ---------------------------------------------------------------- the unterminated tail

  lemma FirstNewline(txt: bytes, k: nat)
    requires Find([NEWLINE], txt) == Some(k)
    ensures Lines(txt) == [txt[..k]] + Lines(txt[k + 1..]) && Tail(txt) == Tail(txt[k + 1..])
    ensures txt == txt[..k] + [NEWLINE] + txt[k + 1..]
  {
    NewlineAt(txt, k);
  }

  /** The lines and the tail are the text, and the only newlines are those between them. */
  lemma {:induction false} LinesAndTail(txt: bytes)
    ensures Join([NEWLINE], Lines(txt)) + Tail(txt) == txt
    ensures NEWLINE !in Tail(txt) && forall l :: l in Lines(txt) ==> NEWLINE !in l
    decreases |txt|
  {
    match Find([NEWLINE], txt)
    case None =>
      forall i | 0 <= i < |txt| ensures txt[i] != NEWLINE {
        NewlineAt(txt, i);
      }
    case Some(k) =>
      var r := txt[k + 1..];
      LinesAndTail(r);
      NewlineAt(txt, k);
      FirstNewline(txt, k);
      forall i | 0 <= i < k ensures txt[..k][i] != NEWLINE {
        NewlineAt(txt, i);
      }
      JoinFirst([NEWLINE], txt[..k], Lines(r));
      Regroup(txt[..k] + [NEWLINE], Join([NEWLINE], Lines(r)), Tail(r));
  }

  lemma {:induction false} JoinEndsInSeparator(sep: bytes, lines: seq<bytes>)
    requires sep != [] && lines != []
    ensures |Join(sep, lines)| > 0 && Join(sep, lines)[|Join(sep, lines)| - 1] == sep[|sep| - 1]
  {
    if lines[1..] != [] {
      JoinEndsInSeparator(sep, lines[1..]);
    }
  }

  /** o_txt writes what its header promises, and the receiver's lines rebuild the text, exactly for
      texts that are empty or end in '\n'; any other text loses its tail. */
  lemma TailExactly(sep: bytes, txt: bytes)
    requires sep != []
    ensures Join(sep, Lines(txt)) == Promised(sep, txt) <==> txt == [] || txt[|txt| - 1] == NEWLINE
    ensures Join([NEWLINE], Lines(txt)) == txt <==> txt == [] || txt[|txt| - 1] == NEWLINE
  {
    LinesAndTail(txt);
    var t := Tail(txt);
    assert |Promised(sep, txt)| == |Join(sep, Lines(txt))| + if t == [] then 0 else |t| + |sep|;
    if t == [] {
      assert Join([NEWLINE], Lines(txt)) + [] == Join([NEWLINE], Lines(txt));
      if txt != [] {
        JoinEndsInSeparator([NEWLINE], Lines(txt));
      }
    } else {
      assert txt[|txt| - 1] == t[|t| - 1];
      assert |Join([NEWLINE], Lines(txt))| < |txt|;
    }
  }

  lemma TailIsLost()
    ensures Join([13, 10], Lines([97])) == []
    ensures Promised([13, 10], [97]) == [97, 13, 10]
  {
    NewlineAt([97], 0);
  }
}
