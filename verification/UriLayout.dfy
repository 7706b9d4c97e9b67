/** NUL-terminated strings side by side in one buffer. */
module UriLayout {
  import opened Options
  import opened Strings
  import opened UriText
  import opened UriModel

  /** The buffer holds the string s, terminated, at an offset. */
  predicate Holds(b: string, off: nat, s: string) {
    off + |s| < |b| && b[off..off + |s|] == s && b[off + |s|] == NUL && NUL !in s
  }

  /** Optional strings, each with its offset. */
  datatype Pieces = Nil | Cons(off: Option<nat>, str: Option<string>, rest: Pieces)

  /** Strings at increasing offsets, one after the other within [lo, hi). */
  predicate Layout(b: string, p: Pieces, lo: nat, hi: nat) {
    && lo <= hi <= |b|
    && (p.Cons? ==>
          if p.off.None? then p.str.None? && Layout(b, p.rest, lo, hi)
          else
            && p.str.Some? && lo <= p.off.value && Holds(b, p.off.value, p.str.value)
            && Layout(b, p.rest, p.off.value + |p.str.value| + 1, hi))
  }

  function Append(p: Pieces, q: Pieces): Pieces {
    if p.Nil? then q else Cons(p.off, p.str, Append(p.rest, q))
  }

  function One(o: Option<nat>, s: Option<string>): Pieces {
    Cons(o, s, Nil)
  }

  function Two(o: Option<nat>, s: Option<string>, p: Option<nat>, t: Option<string>): Pieces {
    Cons(o, s, Cons(p, t, Nil))
  }

  /** Two buffers agree outside [lo, hi). */
  predicate Outside(b: string, c: string, lo: int, hi: int) {
    |b| == |c| && forall i :: 0 <= i < |b| && !(lo <= i < hi) ==> b[i] == c[i]
  }

  lemma HoldsSame(b: string, c: string, off: nat, s: string, lo: int, hi: int)
    requires Holds(b, off, s) && Outside(b, c, lo, hi) && (off + |s| < lo || hi <= off)
    ensures Holds(c, off, s)
  {
  }

  lemma {:induction false} LayoutSame(b: string, c: string, p: Pieces, lo: nat, hi: nat, from: int, to: int)
    requires Layout(b, p, lo, hi) && Outside(b, c, from, to) && (hi <= from || to <= lo)
    ensures Layout(c, p, lo, hi)
  {
    if p.Cons? {
      if p.off.None? {
        LayoutSame(b, c, p.rest, lo, hi, from, to);
      } else {
        LayoutSame(b, c, p.rest, p.off.value + |p.str.value| + 1, hi, from, to);
        HoldsSame(b, c, p.off.value, p.str.value, from, to);
      }
    }
  }

  lemma {:induction false} LayoutJoin(b: string, p: Pieces, lo: nat, mid: nat, q: Pieces, hi: nat)
    requires Layout(b, p, lo, mid) && Layout(b, q, mid, hi)
    ensures Layout(b, Append(p, q), lo, hi)
  {
    if p.Nil? {
      LayoutWiden(b, q, mid, hi, lo, hi);
    } else {
      LayoutJoin(b, p.rest, if p.off.None? then lo else p.off.value + |p.str.value| + 1, mid, q, hi);
    }
  }

  /** Pieces laid out first, followed by pieces that came about without touching them. */
  lemma LayoutThen(b: string, c: string, p: Pieces, lo: nat, mid: nat, q: Pieces, hi: nat)
    requires Layout(b, p, lo, mid) && Outside(b, c, mid, hi) && Layout(c, q, mid, hi)
    ensures Layout(c, Append(p, q), lo, hi)
  {
  }

  lemma {:induction false} LayoutWiden(b: string, p: Pieces, lo: nat, hi: nat, lower: nat, upper: nat)
    requires Layout(b, p, lo, hi) && lower <= lo && hi <= upper <= |b|
    ensures Layout(b, p, lower, upper)
  {
    if p.Cons? {
      if p.off.None? {
        LayoutWiden(b, p.rest, lo, hi, lower, upper);
      } else {
        var next := p.off.value + |p.str.value| + 1;
        LayoutWiden(b, p.rest, next, hi, next, upper);
      }
    }
  }

  lemma LayoutOne(b: string, p: nat, x: string)
    requires Holds(b, p, x)
    ensures Layout(b, One(Some(p), Some(x)), p, p + |x| + 1)
  {
  }

  lemma LayoutTwo(b: string, p: nat, x: string, q: Option<nat>, y: Option<string>, hi: nat)
    requires Holds(b, p, x) && p + |x| < hi <= |b|
    requires if q.None? then y.None?
             else y.Some? && p + |x| < q.value && Holds(b, q.value, y.value) && q.value + |y.value| < hi
    ensures Layout(b, Two(Some(p), Some(x), q, y), p, hi)
  {
  }

  lemma LayoutNoneTwo(b: string, lo: nat, hi: nat)
    requires lo <= hi <= |b|
    ensures Layout(b, Two(None, None, None, None), lo, hi)
  {
  }

  // ---------------------------------------------------------------------
  // Searching and cutting in the buffer
  // ---------------------------------------------------------------------

  lemma HoldsAt(b: string, off: nat, s: string, i: nat)
    requires Holds(b, off, s) && i <= |s|
    ensures b[off + i] == if i < |s| then s[i] else NUL
    ensures i < |s| ==> s[i] != NUL
  {
  }

  /** strchr(), as an index from the start of the string. */
  method StrChr(raw: array<char>, start: nat, ghost s: string, c: char) returns (i: nat)
    requires Holds(raw[..], start, s) && c != NUL
    ensures i == Find(s, c)
  {
    i := 0;
    HoldsAt(raw[..], start, s, 0);
    while raw[start + i] != NUL && raw[start + i] != c
      invariant i <= |s| && start + |s| < raw.Length && c !in s[..i]
      invariant raw[start + i] == if i < |s| then s[i] else NUL
      invariant i < |s| ==> s[i] != NUL
      decreases |s| - i
    {
      assert s[..i + 1] == s[..i] + [s[i]];
      i := i + 1;
      HoldsAt(raw[..], start, s, i);
    }
    FindIs(s, c, i);
  }

  /** strlen() */
  method StrLen(raw: array<char>, start: nat, ghost s: string) returns (n: nat)
    requires Holds(raw[..], start, s)
    ensures n == |s|
  {
    n := 0;
    HoldsAt(raw[..], start, s, 0);
    while raw[start + n] != NUL
      invariant n <= |s| && start + |s| < raw.Length
      invariant raw[start + n] == if n < |s| then s[n] else NUL
      invariant n < |s| ==> s[n] != NUL
      decreases |s| - n
    {
      n := n + 1;
      HoldsAt(raw[..], start, s, n);
    }
  }

  /** strrchr(): one more than the index of the last c, or zero. */
  method StrRChr(raw: array<char>, start: nat, ghost s: string, c: char) returns (i: nat)
    requires Holds(raw[..], start, s) && c != NUL
    ensures i == FindLast(s, c)
  {
    i := StrLen(raw, start, s);
    if i > 0 { HoldsAt(raw[..], start, s, i - 1); }
    while i > 0 && raw[start + i - 1] != c
      invariant i <= |s| && start + |s| < raw.Length && c !in s[i..]
      invariant i > 0 ==> raw[start + i - 1] == s[i - 1]
    {
      assert s[i - 1..] == [s[i - 1]] + s[i..];
      i := i - 1;
      if i > 0 { HoldsAt(raw[..], start, s, i - 1); }
    }
    FindLastIs(s, c, i);
  }

  lemma HoldsCut(b: string, off: nat, s: string, i: nat)
    requires Holds(b, off, s) && i < |s|
    ensures Holds(b[off + i := NUL], off, s[..i]) && Holds(b[off + i := NUL], off + i + 1, s[i + 1..])
  {
  }

  /** Overwrite character i of a string by its terminator. */
  method Terminate(raw: array<char>, start: nat, ghost s: string, i: nat)
    requires Holds(raw[..], start, s) && i < |s|
    modifies raw
    ensures Holds(raw[..], start, s[..i]) && Holds(raw[..], start + i + 1, s[i + 1..])
    ensures Outside(old(raw[..]), raw[..], start, start + |s| + 1)
  {
    HoldsCut(raw[..], start, s, i);
    raw[start + i] := NUL;
    assert raw[..] == old(raw[..])[start + i := NUL];
  }

  /** Terminate the string at the first c, and say where the rest starts. */
  method CutAt(raw: array<char>, start: nat, ghost s: string, c: char) returns (rest: Option<nat>)
    requires Holds(raw[..], start, s) && c != NUL
    modifies raw
    ensures var (x, y) := Cut(s, c);
            && Holds(raw[..], start, x)
            && (if y.None? then rest.None? && raw[..] == old(raw[..])
                else rest == Some(start + |x| + 1) && Holds(raw[..], rest.value, y.value))
    ensures Outside(old(raw[..]), raw[..], start, start + |s| + 1)
  {
    var i := StrChr(raw, start, s, c);
    HoldsAt(raw[..], start, s, i);
    if raw[start + i] == NUL {
      assert s[..i] == s;
      return None;
    }
    Terminate(raw, start, s, i);
    rest := Some(start + i + 1);
  }
}
