/** parse_uri() as a whole: cut, split, and decode every field in place. */
module UriBuffer {
  import opened Options
  import opened Strings
  import opened UriText
  import opened UriModel
  import opened UriLayout
  import opened UriParser

  // ---------------------------------------------------------------------
  // Decoding all fields
  // ---------------------------------------------------------------------

  function DecodePieces(p: Pieces): Pieces {
    if p.Nil? then Nil else Cons(p.off, DecodeField(p.str), DecodePieces(p.rest))
  }

  lemma {:induction false} DecodeAppend(p: Pieces, q: Pieces)
    ensures DecodePieces(Append(p, q)) == Append(DecodePieces(p), DecodePieces(q))
  {
    if p.Cons? { DecodeAppend(p.rest, q); }
  }

  lemma {:induction false} AppendAssoc(p: Pieces, q: Pieces, r: Pieces)
    ensures Append(Append(p, q), r) == Append(p, Append(q, r))
  {
    if p.Cons? { AppendAssoc(p.rest, q, r); }
  }

  lemma {:induction false} AppendNil(p: Pieces)
    ensures Append(p, Nil) == p
  {
    if p.Cons? { AppendNil(p.rest); }
  }

  function Offs(p: Pieces): seq<Option<nat>> {
    if p.Nil? then [] else [p.off] + Offs(p.rest)
  }

  /** uri_decode_inplace(): field after field, the decoded ones end before `mid`. */
  ghost predicate HalfDecoded(b: string, done: Pieces, todo: Pieces, mid: nat, hi: nat, all: Pieces) {
    Layout(b, done, 0, mid) && Layout(b, todo, mid, hi) && Append(done, DecodePieces(todo)) == all
  }

  /** A field that is absent. */
  lemma SkipField(b: string, done: Pieces, todo: Pieces, mid: nat, hi: nat, all: Pieces)
    requires HalfDecoded(b, done, todo, mid, hi, all) && todo.Cons? && todo.off.None?
    ensures HalfDecoded(b, Append(done, One(None, None)), todo.rest, mid, hi, all)
  {
    assert Layout(b, Nil, mid, mid);
    LayoutJoin(b, done, 0, mid, One(None, None), mid);
    AppendAssoc(done, One(None, None), DecodePieces(todo.rest));
  }

  /** A field that has just been decoded. */
  lemma NextField(b: string, c: string, done: Pieces, todo: Pieces, mid: nat, hi: nat, all: Pieces)
    requires HalfDecoded(b, done, todo, mid, hi, all) && todo.Cons? && todo.off.Some?
    requires Outside(b, c, todo.off.value, todo.off.value + |todo.str.value| + 1)
    requires Holds(c, todo.off.value, CutNul(Decode(todo.str.value)))
    ensures HalfDecoded(c, Append(done, One(todo.off, DecodeField(todo.str))), todo.rest,
            todo.off.value + |todo.str.value| + 1, hi, all)
  {
    var off, s := todo.off.value, todo.str.value;
    var next, d := off + |s| + 1, CutNul(Decode(s));
    LayoutSame(b, c, todo.rest, next, hi, off, next);
    LayoutOne(c, off, d);
    LayoutWiden(c, One(todo.off, Some(d)), off, off + |d| + 1, mid, next);
    LayoutSame(b, c, done, 0, mid, off, next);
    LayoutJoin(c, done, 0, mid, One(todo.off, Some(d)), next);
    AppendAssoc(done, One(todo.off, Some(d)), DecodePieces(todo.rest));
  }

  /** The field that the loop has come to. */
  lemma FieldHere(b: string, done: Pieces, todo: Pieces, mid: nat, hi: nat, all: Pieces, offs: seq<Option<nat>>,
                  field: nat)
    requires HalfDecoded(b, done, todo, mid, hi, all) && field < |offs| && Offs(todo) == offs[field..]
    ensures todo.Cons? && todo.off == offs[field] && Offs(todo.rest) == offs[field + 1..]
    ensures todo.off.Some? ==> todo.str.Some? && Holds(b, todo.off.value, todo.str.value)
  {
    assert offs[field..][1..] == offs[field + 1..];
  }

  /** One field of the loop. */
  method DecodeNextField(raw: array<char>, off: Option<nat>, ghost b: string, ghost done: Pieces, ghost todo: Pieces,
                         ghost mid: nat, ghost hi: nat,
                      ghost all: Pieces) returns (ghost b': string, ghost done': Pieces, ghost mid': nat)
    requires raw[..] == b && HalfDecoded(b, done, todo, mid, hi, all) && todo.Cons? && todo.off == off
    requires off.Some? ==> todo.str.Some? && Holds(b, off.value, todo.str.value)
    modifies raw
    ensures raw[..] == b' && HalfDecoded(b', done', todo.rest, mid', hi, all)
  {
    if off.None? {
      SkipField(b, done, todo, mid, hi, all);
      b', done', mid' := b, Append(done, One(None, None)), mid;
    } else {
      DecodeInPlace(raw, off.value, todo.str.value);
      b' := raw[..];
      NextField(b, b', done, todo, mid, hi, all);
      done', mid' := Append(done, One(todo.off, DecodeField(todo.str))), off.value + |todo.str.value| + 1;
    }
  }

  /** The loop over all fields at the end of parse_uri(). */
  method DecodeFields(raw: array<char>, offs: seq<Option<nat>>, ghost p: Pieces, ghost hi: nat)
    requires Layout(raw[..], p, 0, hi) && offs == Offs(p)
    modifies raw
    ensures Layout(raw[..], DecodePieces(p), 0, hi)
  {
    ghost var b, done, todo, mid: nat := raw[..], Nil, p, 0;
    ghost var all := DecodePieces(p);
    var field := 0;
    while field < |offs|
      invariant 0 <= field <= |offs| && raw[..] == b && Offs(todo) == offs[field..]
      invariant HalfDecoded(b, done, todo, mid, hi, all)
    {
      FieldHere(b, done, todo, mid, hi, all, offs, field);
      b, done, mid := DecodeNextField(raw, offs[field], b, done, todo, mid, hi, all);
      todo := todo.rest;
      field := field + 1;
    }
    AppendNil(done);
    LayoutWiden(b, done, 0, mid, 0, hi);
  }

  // ---------------------------------------------------------------------
  // The whole URI
  // ---------------------------------------------------------------------

  function UriPieces(o: Offsets, fragment: Option<nat>, w: Uri): Pieces {
    Append(TextPieces(o, w), One(fragment, w.fragment))
  }

  lemma DecodeTwo(o: Option<nat>, x: Option<string>, p: Option<nat>, y: Option<string>)
    ensures DecodePieces(Two(o, x, p, y)) == Two(o, DecodeField(x), p, DecodeField(y))
    ensures DecodePieces(One(o, x)) == One(o, DecodeField(x))
  {
    assert DecodePieces(One(p, y)) == One(p, DecodeField(y));
  }

  lemma DecodeHierPieces(o: Offsets, w: Uri)
    ensures DecodePieces(HierPieces(o.auth, o.path, o.query, w)) == HierPieces(o.auth, o.path, o.query, Decoded(w))
  {
    var a := o.auth;
    DecodeAppend(PathPieces(a, o.path, w), One(o.query, w.query));
    DecodeAppend(AuthPieces(a, w), One(o.path, w.path));
    DecodeAppend(Two(a.user, w.user, a.password, w.password), Two(a.host, w.host, a.port, w.port));
    DecodeTwo(a.user, w.user, a.password, w.password);
    DecodeTwo(a.host, w.host, a.port, w.port);
  }

  lemma DecodeUriPieces(o: Offsets, fragment: Option<nat>, w: Uri)
    ensures DecodePieces(UriPieces(o, fragment, w)) == UriPieces(o, fragment, Decoded(w))
  {
    DecodeAppend(TextPieces(o, w), One(fragment, w.fragment));
    DecodeAppend(Two(o.scheme, w.scheme, o.opaquePart, w.opaquePart), HierPieces(o.auth, o.path, o.query, w));
    DecodeTwo(o.scheme, w.scheme, o.opaquePart, w.opaquePart);
    DecodeHierPieces(o, w);
  }

  lemma {:induction false} OffsAppend(p: Pieces, q: Pieces)
    ensures Offs(Append(p, q)) == Offs(p) + Offs(q)
  {
    if p.Cons? { OffsAppend(p.rest, q); }
  }

  /** The fields in the order of their indices. */
  function FieldOffsets(o: Offsets, fragment: Option<nat>): seq<Option<nat>> {
    [o.scheme, o.opaquePart] + ([o.auth.user, o.auth.password] + [o.auth.host, o.auth.port] + [o.path] + [o.query]) +
      [fragment]
  }

  lemma OffsTwo(o: Option<nat>, x: Option<string>, p: Option<nat>, y: Option<string>)
    ensures Offs(Two(o, x, p, y)) == [o, p] && Offs(One(o, x)) == [o]
  {
    assert Offs(One(p, y)) == [p];
  }

  lemma UriOffsets(o: Offsets, fragment: Option<nat>, w: Uri)
    ensures Offs(UriPieces(o, fragment, w)) == FieldOffsets(o, fragment)
  {
    var a := o.auth;
    OffsAppend(TextPieces(o, w), One(fragment, w.fragment));
    OffsAppend(Two(o.scheme, w.scheme, o.opaquePart, w.opaquePart), HierPieces(a, o.path, o.query, w));
    OffsAppend(PathPieces(a, o.path, w), One(o.query, w.query));
    OffsAppend(AuthPieces(a, w), One(o.path, w.path));
    OffsAppend(Two(a.user, w.user, a.password, w.password), Two(a.host, w.host, a.port, w.port));
    OffsTwo(o.scheme, w.scheme, o.opaquePart, w.opaquePart);
    OffsTwo(a.user, w.user, a.password, w.password);
    OffsTwo(a.host, w.host, a.port, w.port);
    OffsTwo(o.path, w.path, o.query, w.query);
    OffsTwo(o.query, w.query, fragment, w.fragment);
    OffsTwo(fragment, w.fragment, None, None);
  }

  /** A field pointer denotes an optional string. */
  predicate Present(b: string, off: Option<nat>, str: Option<string>) {
    if off.None? then str.None? else str.Some? && Holds(b, off.value, str.value)
  }

  /** The nine field pointers denote the fields of a URI. */
  predicate Denotes(b: string, o: Offsets, fragment: Option<nat>, u: Uri) {
    && Present(b, o.scheme, u.scheme) && Present(b, o.opaquePart, u.opaquePart)
    && Present(b, o.auth.user, u.user) && Present(b, o.auth.password, u.password)
    && Present(b, o.auth.host, u.host) && Present(b, o.auth.port, u.port)
    && Present(b, o.path, u.path) && Present(b, o.query, u.query) && Present(b, fragment, u.fragment)
  }

  ghost predicate AllPresent(b: string, p: Pieces) {
    p.Cons? ==> Present(b, p.off, p.str) && AllPresent(b, p.rest)
  }

  lemma {:induction false} LayoutPresent(b: string, p: Pieces, lo: nat, hi: nat)
    requires Layout(b, p, lo, hi)
    ensures AllPresent(b, p)
  {
    if p.Cons? { LayoutPresent(b, p.rest, if p.off.None? then lo else p.off.value + |p.str.value| + 1, hi); }
  }

  lemma {:induction false} PresentAppend(b: string, p: Pieces, q: Pieces)
    ensures AllPresent(b, Append(p, q)) <==> AllPresent(b, p) && AllPresent(b, q)
  {
    if p.Cons? { PresentAppend(b, p.rest, q); }
  }

  lemma PresentTwo(b: string, o: Option<nat>, x: Option<string>, p: Option<nat>, y: Option<string>)
    requires AllPresent(b, Two(o, x, p, y))
    ensures Present(b, o, x) && Present(b, p, y)
  {
  }

  lemma LayoutDenotes(b: string, o: Offsets, fragment: Option<nat>, w: Uri, hi: nat)
    requires Layout(b, UriPieces(o, fragment, w), 0, hi)
    ensures Denotes(b, o, fragment, w)
  {
    var a := o.auth;
    LayoutPresent(b, UriPieces(o, fragment, w), 0, hi);
    PresentAppend(b, TextPieces(o, w), One(fragment, w.fragment));
    PresentAppend(b, Two(o.scheme, w.scheme, o.opaquePart, w.opaquePart), HierPieces(a, o.path, o.query, w));
    PresentAppend(b, PathPieces(a, o.path, w), One(o.query, w.query));
    PresentAppend(b, AuthPieces(a, w), One(o.path, w.path));
    PresentAppend(b, Two(a.user, w.user, a.password, w.password), Two(a.host, w.host, a.port, w.port));
    PresentTwo(b, o.scheme, w.scheme, o.opaquePart, w.opaquePart);
    PresentTwo(b, a.user, w.user, a.password, w.password);
    PresentTwo(b, a.host, w.host, a.port, w.port);
  }

  // ---------------------------------------------------------------------
  // parse_uri()
  // ---------------------------------------------------------------------

  const PARAMS := "##params"

  /** Comparison with "##params" at one position. */
  method AtParams(raw: array<char>, pos: nat, ghost t: string) returns (found: bool)
    requires Holds(raw[..], pos, t)
    ensures found == (PARAMS <= t)
  {
    var k := 0;
    HoldsAt(raw[..], pos, t, 0);
    while k < 8 && raw[pos + k] == PARAMS[k]
      invariant 0 <= k <= 8 && k <= |t| && pos + |t| < raw.Length && PARAMS[..k] == t[..k]
      invariant raw[pos + k] == if k < |t| then t[k] else NUL
    {
      assert PARAMS[k] != NUL;
      assert PARAMS[..k + 1] == PARAMS[..k] + [PARAMS[k]] && t[..k + 1] == t[..k] + [t[k]];
      k := k + 1;
      HoldsAt(raw[..], pos, t, k);
    }
    found := k == 8;
    if found { assert PARAMS[..8] == PARAMS; }
  }

  /** strstr() for the parameter list. */
  method StrParams(raw: array<char>, ghost s: string) returns (i: nat)
    requires Holds(raw[..], 0, s)
    ensures i == FindParams(s)
  {
    i := 0;
    ghost var t := s;
    HoldsAt(raw[..], 0, s, 0);
    while raw[i] != NUL
      invariant i + |t| == |s| < raw.Length && Holds(raw[..], i, t) && i + FindParams(t) == FindParams(s)
      decreases |t|
    {
      HoldsAt(raw[..], i, t, 0);
      var found := AtParams(raw, i, t);
      if found { return; }
      HoldsTail(raw[..], i, t, 1);
      t := t[1..];
      i := i + 1;
    }
    HoldsAt(raw[..], i, t, 0);
  }

  lemma SchemeKeeps(u: Uri, s: string)
    ensures SplitScheme(u, s).fragment == u.fragment
  {
  }

  /** Chop off the fragment and split the rest. */
  method SplitBuffer(raw: array<char>, ghost a: string, ghost w: Uri) returns (o: Offsets, fragment: Option<nat>)
    requires Holds(raw[..], 0, a)
    requires var (x, y) := Cut(a, '#'); w == SplitScheme(EMPTY.(fragment := y), x)
    modifies raw
    ensures Layout(raw[..], UriPieces(o, fragment, w), 0, |a| + 1)
  {
    fragment := CutAt(raw, 0, a, '#');
    ghost var (x, y) := Cut(a, '#');
    ghost var b, mid := raw[..], |x| + 1;
    ghost var u := EMPTY.(fragment := y);
    o := ParseText(raw, 0, x, mid, u, w);
    SchemeKeeps(u, x);
    ThenField(b, raw[..], TextPieces(o, w), 0, mid, fragment, y, |a| + 1);
  }

  lemma DecodedDenotes(b: string, o: Offsets, fragment: Option<nat>, w: Uri, hi: nat)
    requires Layout(b, DecodePieces(UriPieces(o, fragment, w)), 0, hi)
    ensures Denotes(b, o, fragment, Decoded(w))
  {
    DecodeUriPieces(o, fragment, w);
    LayoutDenotes(b, o, fragment, Decoded(w), hi);
  }

  /** Everything after the parameter list has been cut off. */
  method SplitAndDecode(raw: array<char>, ghost a: string, ghost w: Uri)
    returns (o: Offsets, fragment: Option<nat>, ghost b: string)
    requires Holds(raw[..], 0, a)
    requires var (x, y) := Cut(a, '#'); w == SplitScheme(EMPTY.(fragment := y), x)
    modifies raw
    ensures raw[..] == b && Layout(b, DecodePieces(UriPieces(o, fragment, w)), 0, |a| + 1)
  {
    o, fragment := SplitBuffer(raw, a, w);
    UriOffsets(o, fragment, w);
    DecodeFields(raw, FieldOffsets(o, fragment), UriPieces(o, fragment, w), |a| + 1);
    b := raw[..];
  }

  /** parse_uri(), once the string has been copied. */
  method ParseBuffer(raw: array<char>, ghost s: string) returns (o: Offsets, fragment: Option<nat>)
    requires Holds(raw[..], 0, s)
    modifies raw
    ensures Denotes(raw[..], o, fragment, Parse(s))
  {
    var i := StrParams(raw, s);
    ghost var a, b := s[..i], s;
    HoldsAt(raw[..], 0, s, i);
    if raw[i] != NUL { Terminate(raw, 0, s, i); } else { assert a == s; }
    o, fragment, b := SplitAndDecode(raw, a, Split(s));
    DecodedDenotes(b, o, fragment, Split(s), |a| + 1);
  }
}
