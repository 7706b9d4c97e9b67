/** linebuf.c: received data cut into lines, however it is cut into pieces on the way. */
module LineBuffer {
  import opened Options
  import opened Strings
  import opened UriText

  const LF := '\n'
  const CR := '\r'
  const EINVAL := -22
  const ENOMEM := -12

  /** At most one trailing CR removed. */
  function TrimCr(s: string): string {
    if s != [] && s[|s| - 1] == CR then s[..|s| - 1] else s
  }

  /** The complete lines of a stream: cut at each LF. */
  function Lines(s: string): seq<string>
    decreases |s|
  {
    var i := Find(s, LF);
    if i == |s| then [] else [TrimCr(s[..i])] + Lines(s[i + 1..])
  }

  /** What follows the last LF. */
  function Rest(s: string): string
    decreases |s|
  {
    var i := Find(s, LF);
    if i == |s| then s else Rest(s[i + 1..])
  }

  lemma FindConcat(s: string, t: string)
    requires Find(s, LF) < |s|
    ensures Find(s + t, LF) == Find(s, LF) && (s + t)[..Find(s, LF)] == s[..Find(s, LF)]
    ensures (s + t)[Find(s, LF) + 1..] == s[Find(s, LF) + 1..] + t
  {
    var i := Find(s, LF);
    assert (s + t)[..i] == s[..i];
    FindIs(s + t, LF, i);
  }

  lemma Unfold(s: string, i: nat)
    requires i == Find(s, LF) < |s|
    ensures Lines(s) == [TrimCr(s[..i])] + Lines(s[i + 1..]) && Rest(s) == Rest(s[i + 1..])
  {
  }

  lemma SeqAssoc<T>(a: seq<T>, b: seq<T>, c: seq<T>)
    ensures a + b + c == a + (b + c)
  {
  }

  /** Data that arrives after an unfinished line continues it. */
  lemma {:induction false} LinesConcat(s: string, t: string)
    ensures Lines(s + t) == Lines(s) + Lines(Rest(s) + t)
    decreases |s|
  {
    var i := Find(s, LF);
    if i < |s| {
      var u, x := s[i + 1..], [TrimCr(s[..i])];
      calc {
        Lines(s + t);
        { FindConcat(s, t); Unfold(s + t, i); }
        x + Lines(u + t);
        { LinesConcat(u, t); }
        x + (Lines(u) + Lines(Rest(u) + t));
        { SeqAssoc(x, Lines(u), Lines(Rest(u) + t)); }
        x + Lines(u) + Lines(Rest(u) + t);
        { Unfold(s, i); }
        Lines(s) + Lines(Rest(s) + t);
      }
    } else {
      assert Lines(s) == [] && Rest(s) == s;
      assert [] + Lines(s + t) == Lines(s + t);
    }
  }

  lemma {:induction false} RestConcat(s: string, t: string)
    ensures Rest(s + t) == Rest(Rest(s) + t)
    decreases |s|
  {
    var i := Find(s, LF);
    if i < |s| {
      FindConcat(s, t);
      Unfold(s + t, i);
      Unfold(s, i);
      RestConcat(s[i + 1..], t);
    }
  }

  lemma LineOpen(text: string)
    requires LF !in text
    ensures Lines(text) == [] && Rest(text) == text
  {
  }

  lemma LineDone(text: string)
    requires LF !in text
    ensures Lines(text + [LF]) == [TrimCr(text)] && Rest(text + [LF]) == []
  {
    var t := text + [LF];
    assert t[..|text|] == text && t[|text| + 1..] == [];
    FindIs(t, LF, |text|);
    assert Lines([]) == [];
  }

  /** Lines, each followed by a terminator. */
  function Joined(lines: seq<string>, end: string): string {
    if lines == [] then "" else lines[0] + end + Joined(lines[1..], end)
  }

  /** A line that can be told from its terminator. */
  predicate Clear(line: string, end: string) {
    LF !in line && (end == [CR, LF] || (end == [LF] && (line == [] || line[|line| - 1] != CR)))
  }

  /** Lines come back, whether they are ended by CR LF or, if they do not end in CR, by LF. */
  lemma {:induction false} LinesBack(lines: seq<string>, end: string)
    requires forall k :: 0 <= k < |lines| ==> Clear(lines[k], end)
    ensures Lines(Joined(lines, end)) == lines && Rest(Joined(lines, end)) == []
    decreases |lines|
  {
    if lines == [] {
      LineOpen("");
    } else {
      LinesBack(lines[1..], end);
      LineBack(lines[0], end, Joined(lines[1..], end));
    }
  }

  lemma LineBack(line: string, end: string, more: string)
    requires Clear(line, end)
    ensures Lines(line + end + more) == [line] + Lines(more) && Rest(line + end + more) == Rest(more)
  {
    if end == [LF] {
      LineThen(line, more);
    } else {
      assert line + end + more == line + [CR] + [LF] + more;
      LineThen(line + [CR], more);
      assert TrimCr(line + [CR]) == line;
    }
  }

  lemma LineThen(text: string, more: string)
    requires LF !in text
    ensures Lines(text + [LF] + more) == [TrimCr(text)] + Lines(more) && Rest(text + [LF] + more) == Rest(more)
  {
    LineDone(text);
    LinesConcat(text + [LF], more);
    RestConcat(text + [LF], more);
    assert [] + more == more;
  }

  // ---------------------------------------------------------------------
  // The buffer
  // ---------------------------------------------------------------------

  /** Completed lines, each with its terminator. */
  function Flat(lines: seq<string>): string {
    if lines == [] then [] else Flat(lines[..|lines| - 1]) + lines[|lines| - 1] + [NUL]
  }

  lemma FlatMore(lines: seq<string>, line: string)
    ensures Flat(lines + [line]) == Flat(lines) + line + [NUL]
  {
  }

  lemma FlatEnds(lines: seq<string>)
    ensures lines != [] ==> Flat(lines) != [] && Flat(lines)[|Flat(lines)| - 1] == NUL
  {
  }

  /** The data ends in a terminator exactly after a completed line. */
  lemma LastChar(lines: seq<string>, partial: string)
    requires NUL !in partial
    ensures var d := Flat(lines) + partial;
            d != [] && d[|d| - 1] == NUL <==> partial == [] && lines != []
  {
  }

  /** Where the last line starts. */
  lemma LastLine(lines: seq<string>)
    requires lines != [] && NUL !in lines[|lines| - 1]
    ensures var d, n := Flat(lines), |Flat(lines[..|lines| - 1])|;
            && n < |d| && d[n..|d| - 1] == lines[|lines| - 1] && (n > 0 ==> d[n - 1] == NUL)
            && forall j :: n <= j < |d| - 1 ==> d[j] != NUL
  {
  }

  predicate NoNuls(lines: seq<string>) {
    forall k :: 0 <= k < |lines| ==> NUL !in lines[k]
  }

  /** The data with the trailing LF overwritten, and the CR before it if there is one. */
  function Terminated(d: string): string
    requires d != []
  {
    var e := d[|d| - 1 := NUL];
    if |e| > 1 && e[|e| - 2] == CR then e[..|e| - 1][|e| - 2 := NUL] else e
  }

  lemma TerminatedIs(flat: string, text: string)
    requires flat != [] ==> flat[|flat| - 1] == NUL
    ensures Terminated(flat + text + [LF]) == flat + TrimCr(text) + [NUL]
  {
  }

  class Buffer {
    // Data without the final terminator, and the length consumed by the last call
    var data: string
    var consumed: nat
    // Completed lines and the unfinished one
    ghost var lines: seq<string>
    ghost var partial: string

    ghost predicate Valid()
      reads this
    {
      && data == Flat(lines) + partial && NUL !in partial && LF !in partial && NoNuls(lines)
      && (consumed > 0 && partial == [] ==> lines != [])
    }

    /** empty_line_buffer() */
    method Empty()
      modifies this
      ensures Valid() && lines == [] && partial == [] && consumed == 0
    {
      data, consumed, lines, partial := [], 0, [], [];
    }

    /** buffered_line(): the line that the last call completed, if it did. */
    method Line() returns (line: Option<string>)
      requires Valid()
      ensures line == if consumed > 0 && partial == [] then Some(lines[|lines| - 1]) else None
    {
      LastChar(lines, partial);
      var n := |data|;
      if n == 0 || consumed == 0 || data[n - 1] != NUL {
        return None;
      }
      assert data == Flat(lines);
      LastLine(lines);
      ghost var start := |Flat(lines[..|lines| - 1])|;
      var i := n - 1;
      while i > 0 && data[i - 1] != NUL
        invariant start <= i <= n - 1
      {
        i := i - 1;
      }
      assert i == start;
      line := Some(data[i..n - 1]);
    }

    /** line_buffer(): takes the data up to and including the first LF. */
    method Add(chunk: string, memory: bool) returns (r: int)
      requires Valid()
      modifies this
      ensures Valid()
      ensures var n := Consume(chunk);
              if NUL in chunk[..n] || !memory then
                r == (if NUL in chunk[..n] then EINVAL else ENOMEM) && data == old(data) && consumed == old(consumed)
                && lines == old(lines) && partial == old(partial)
              else
                r == n == consumed && lines == old(lines) + Lines(old(partial) + chunk[..n]) &&
                  partial == Rest(old(partial) + chunk[..n])
    {
      var i := Find(chunk, LF);
      var n := Consume(chunk);
      if NUL in chunk[..n] { return EINVAL; }
      if !memory { return ENOMEM; }
      if i < |chunk| {
        AddEnd(chunk[..i]);
        TakeTo(old(partial), chunk, i);
      } else {
        assert chunk[..n] == chunk;
        LineOpen(partial + chunk);
        data := data + chunk;
        assert Flat(lines) + partial + chunk == Flat(lines) + (partial + chunk);
        partial := partial + chunk;
        assert lines + [] == lines;
      }
      consumed := n;
      r := n;
    }

    /** Overwrite the trailing LF, and trim the CR before it if there is one. */
    method TerminateLine()
      requires data != []
      modifies `data
      ensures data == Terminated(old(data))
    {
      var lf := |data| - 1;
      data := data[lf := NUL];
      if |data| > 1 && data[lf - 1] == CR {
        data := data[..lf][lf - 1 := NUL];
      }
    }

    /** The end of a line. */
    method AddEnd(tail: string)
      requires data == Flat(lines) + partial && NUL !in partial && NUL !in tail && LF !in partial && LF !in tail &&
               NoNuls(lines)
      modifies `data, `lines, `partial
      ensures data == Flat(lines) && NoNuls(lines) && lines != []
      ensures lines == old(lines) + Lines(old(partial) + tail + [LF]) &&
              partial == [] == Rest(old(partial) + tail + [LF])
    {
      ghost var text := partial + tail;
      FlatEnds(lines);
      LineDone(text);
      TerminatedIs(Flat(lines), text);
      FlatMore(lines, TrimCr(text));
      SeqAssoc(Flat(lines), partial, tail);
      data := data + tail + [LF];
      TerminateLine();
      lines, partial := lines + [TrimCr(text)], [];
    }
  }

  /** The length that one call takes. */
  function Consume(chunk: string): (n: nat)
    ensures n <= |chunk| && (chunk != [] ==> n > 0)
  {
    var i := Find(chunk, LF);
    if i < |chunk| then i + 1 else |chunk|
  }

  lemma TakeTo(partial: string, chunk: string, i: nat)
    requires i < |chunk| && chunk[i] == LF
    ensures partial + chunk[..i + 1] == partial + chunk[..i] + [LF]
  {
  }

  function Concat(chunks: seq<string>): string {
    if chunks == [] then [] else chunks[0] + Concat(chunks[1..])
  }

  /** One call, and the line that it may have completed. */
  method Take(b: Buffer, chunk: string) returns (r: nat, line: Option<string>, ghost taken: string)
    requires b.Valid() && NUL !in chunk && chunk != []
    modifies b
    ensures b.Valid() && 0 < r <= |chunk| && taken == old(b.partial) + chunk[..r]
    ensures Lines(taken) == (if line.Some? then [line.value] else []) && b.partial == Rest(taken)
  {
    var i := Find(chunk, LF);
    if i < |chunk| {
      TakeTo(b.partial, chunk, i);
      LineDone(b.partial + chunk[..i]);
    } else {
      assert chunk[..|chunk|] == chunk;
      LineOpen(b.partial + chunk);
    }
    taken := b.partial + chunk[..Consume(chunk)];
    ghost var n := |b.lines|;
    var added := b.Add(chunk, true);
    r := added;
    line := b.Line();
    assert Lines(taken) == b.lines[n..];
  }

  lemma Reassociate(p: string, s: string, r: nat)
    requires r <= |s|
    ensures p + s == p + s[..r] + s[r..]
  {
  }

  /** One chunk, fed until it is used up, with each completed line taken out. */
  method Feed(b: Buffer, chunk: string) returns (out: seq<string>)
    requires b.Valid() && NUL !in chunk
    modifies b
    ensures b.Valid() && out == Lines(old(b.partial) + chunk) && b.partial == Rest(old(b.partial) + chunk)
  {
    out := [];
    var rest := chunk;
    ghost var all, end := Lines(b.partial + chunk), Rest(b.partial + chunk);
    while rest != []
      invariant b.Valid() && NUL !in rest && all == out + Lines(b.partial + rest) && end == Rest(b.partial + rest)
      decreases |rest|
    {
      ghost var p := b.partial;
      var r, line; ghost var taken;
      r, line, taken := Take(b, rest);
      Reassociate(p, rest, r);
      LinesConcat(taken, rest[r..]);
      RestConcat(taken, rest[r..]);
      if line.Some? {
        SeqAssoc(out, [line.value], Lines(b.partial + rest[r..]));
        out := out + [line.value];
      } else {
        assert [] + Lines(b.partial + rest[r..]) == Lines(b.partial + rest[r..]);
      }
      rest := rest[r..];
    }
    assert b.partial + rest == b.partial;
    LineOpen(b.partial);
    assert out + [] == out;
  }

  /** However a stream is cut into pieces, the same lines come out. */
  method Receive(b: Buffer, chunks: seq<string>) returns (out: seq<string>)
    requires b.Valid() && b.partial == [] && NUL !in Concat(chunks)
    modifies b
    ensures b.Valid() && out == Lines(Concat(chunks)) && b.partial == Rest(Concat(chunks))
  {
    out := ReceiveMore(b, chunks);
    assert [] + Concat(chunks) == Concat(chunks);
  }

  method ReceiveMore(b: Buffer, chunks: seq<string>) returns (out: seq<string>)
    requires b.Valid() && NUL !in Concat(chunks)
    modifies b
    ensures b.Valid() && out == Lines(old(b.partial) + Concat(chunks)) &&
            b.partial == Rest(old(b.partial) + Concat(chunks))
    decreases |chunks|
  {
    if chunks == [] {
      assert b.partial + [] == b.partial;
      LineOpen(b.partial);
      return [];
    }
    ghost var p, tail := b.partial, Concat(chunks[1..]);
    LinesConcat(p + chunks[0], tail);
    RestConcat(p + chunks[0], tail);
    assert p + Concat(chunks) == p + chunks[0] + tail;
    out := Feed(b, chunks[0]);
    var more := ReceiveMore(b, chunks[1..]);
    out := out + more;
  }
}
