/** parse_uri(): a copy of the string is cut up, shuffled and decoded in place. */
module UriParser {
  import opened Options
  import opened Strings
  import opened UriText
  import opened UriModel
  import opened UriLayout

  /** One more than the position of the colon before the port, or zero; a bracketed host keeps its colons. */
  function PortAt(h: string): (i: nat)
    ensures i <= |h|
  {
    var i := FindLast(h, ':');
    if i > 0 && h[|h| - 1] != ']' then i else 0
  }

  method FindPort(raw: array<char>, start: nat, ghost h: string) returns (i: nat)
    requires Holds(raw[..], start, h)
    ensures i == PortAt(h)
  {
    i := StrRChr(raw, start, h, ':');
    if i > 0 {
      var n := StrLen(raw, start, h);
      HoldsAt(raw[..], start, h, n - 1);
      if raw[start + n - 1] == ']' { i := 0; }
    }
  }

  /** Separate the port, if there is one, from the host. */
  method ParseHost(raw: array<char>, start: nat, ghost h: string, ghost hi: nat, ghost u: Uri, ghost w: Uri)
    returns (host: Option<nat>, port: Option<nat>)
    requires Holds(raw[..], start, h) && hi == start + |h| + 1 && u.port.None? && w == SplitHost(u, h)
    modifies raw
    ensures Layout(raw[..], Two(host, w.host, port, w.port), start, hi)
    ensures Outside(old(raw[..]), raw[..], start, hi)
  {
    host, port := Some(start), None;
    var i := FindPort(raw, start, h);
    if i > 0 {
      Terminate(raw, start, h, i - 1);
      port := Some(start + i);
      LayoutTwo(raw[..], start, h[..i - 1], port, Some(h[i..]), hi);
    } else {
      LayoutTwo(raw[..], start, h, None, None, hi);
    }
  }

  /** Separate the password, if there is one, from the user. */
  method ParseUser(raw: array<char>, start: nat, ghost x: string, ghost hi: nat, ghost name: string,
                   ghost pass: Option<string>)
    returns (user: Option<nat>, password: Option<nat>)
    requires Holds(raw[..], start, x) && hi == start + |x| + 1 && (name, pass) == Cut(x, ':')
    modifies raw
    ensures Layout(raw[..], Two(user, Some(name), password, pass), start, hi)
    ensures Outside(old(raw[..]), raw[..], start, hi)
  {
    user := Some(start);
    password := CutAt(raw, start, x, ':');
    LayoutTwo(raw[..], start, name, password, pass, hi);
  }

  /** Offsets of the fields of the authority. */
  datatype Auth = Auth(user: Option<nat>, password: Option<nat>, host: Option<nat>, port: Option<nat>)

  const NO_AUTH := Auth(None, None, None, None)

  function AuthPieces(o: Auth, w: Uri): Pieces {
    Append(Two(o.user, w.user, o.password, w.password), Two(o.host, w.host, o.port, w.port))
  }

  method ParseHostOnly(raw: array<char>, start: nat, ghost a: string, ghost hi: nat, ghost u: Uri, ghost w: Uri)
    returns (o: Auth)
    requires Holds(raw[..], start, a) && hi == start + |a| + 1 && NoAuthority(u) && w == SplitHost(u, a)
    modifies raw
    ensures Layout(raw[..], AuthPieces(o, w), start, hi)
    ensures Outside(old(raw[..]), raw[..], start, hi)
  {
    var host, port := ParseHost(raw, start, a, hi, u, w);
    o := Auth(None, None, host, port);
    LayoutNoneTwo(raw[..], start, start);
    LayoutJoin(raw[..], Two(None, None, None, None), start, start, Two(host, w.host, port, w.port), hi);
  }

  method ParseUserHost(raw: array<char>, start: nat, at: nat, ghost x: string, ghost y: string, ghost hi: nat,
                       ghost v: Uri, ghost w: Uri)
    returns (o: Auth)
    requires Holds(raw[..], start, x) && at == start + |x| + 1 && Holds(raw[..], at, y) && hi == at + |y| + 1
    requires v.user.Some? && (v.user.value, v.password) == Cut(x, ':') && v.port.None? && w == SplitHost(v, y)
    modifies raw
    ensures Layout(raw[..], AuthPieces(o, w), start, hi)
    ensures Outside(old(raw[..]), raw[..], start, hi)
  {
    ghost var b := raw[..];
    var user, password := ParseUser(raw, start, x, at, v.user.value, v.password);
    ghost var c := raw[..];
    HoldsSame(b, c, at, y, start, at);
    var host, port := ParseHost(raw, at, y, hi, v, w);
    LayoutThen(c, raw[..], Two(user, w.user, password, w.password), start, at, Two(host, w.host, port, w.port), hi);
    o := Auth(user, password, host, port);
  }

  /** What precedes an '@' is the user, and the rest is the host; either has an optional second part. */
  method ParseAuthority(raw: array<char>, start: nat, ghost a: string, ghost hi: nat, ghost u: Uri, ghost w: Uri)
    returns (o: Auth)
    requires Holds(raw[..], start, a) && hi == start + |a| + 1 && NoAuthority(u) && w == SplitAuthority(u, a)
    modifies raw
    ensures Layout(raw[..], AuthPieces(o, w), start, hi)
    ensures Outside(old(raw[..]), raw[..], start, hi)
  {
    var host := CutAt(raw, start, a, '@');
    ghost var (x, y) := Cut(a, '@');
    if host.None? {
      o := ParseHostOnly(raw, start, a, hi, u, w);
    } else {
      ghost var (name, pass) := Cut(x, ':');
      o := ParseUserHost(raw, start, host.value, x, y.value, hi, u.(user := Some(name), password := pass), w);
    }
  }

  // ---------------------------------------------------------------------
  // Path and query
  // ---------------------------------------------------------------------

  /** memmove() of n characters down by one. */
  method ShuffleDown(raw: array<char>, from: nat, n: nat)
    requires 1 <= from && from + n <= raw.Length
    modifies raw
    ensures forall i | from - 1 <= i < from - 1 + n :: raw[i] == old(raw[i + 1])
    ensures Outside(old(raw[..]), raw[..], from - 1, from - 1 + n)
  {
    var k := 0;
    while k < n
      invariant 0 <= k <= n
      invariant forall i | from - 1 <= i < from - 1 + k :: raw[i] == old(raw[i + 1])
      invariant forall i | 0 <= i < raw.Length && !(from - 1 <= i < from - 1 + k) :: raw[i] == old(raw[i])
    {
      raw[from - 1 + k] := raw[from + k];
      k := k + 1;
    }
  }

  lemma NetHolds(b: string, c: string, start: nat, t: string, i: nat)
    requires Holds(b, start + 2, t) && i < |t| && Outside(b, c, start + 1, start + 2 + i)
    requires c[start + 1 + i] == NUL && forall j | start + 1 <= j < start + 1 + i :: c[j] == b[j + 1]
    ensures Holds(c, start + 1, t[..i]) && Holds(c, start + 2 + i, t[i..])
  {
  }

  lemma HoldsTail(b: string, off: nat, s: string, n: nat)
    requires Holds(b, off, s) && n <= |s|
    ensures Holds(b, off + n, s[n..])
  {
  }

  /** Make room for a terminator between an authority of i characters and the slash that follows it. */
  method SplitNet(raw: array<char>, start: nat, ghost t: string, i: nat)
    requires Holds(raw[..], start + 2, t) && i < |t|
    modifies raw
    ensures Holds(raw[..], start + 1, t[..i]) && Holds(raw[..], start + 2 + i, t[i..])
    ensures Outside(old(raw[..]), raw[..], start + 1, start + 2 + i)
  {
    ghost var b := raw[..];
    ShuffleDown(raw, start + 2, i);
    raw[start + 1 + i] := NUL;
    NetHolds(b, raw[..], start, t, i);
  }

  function PathPieces(o: Auth, path: Option<nat>, w: Uri): Pieces {
    Append(AuthPieces(o, w), One(path, w.path))
  }

  lemma AuthThenPath(b: string, o: Auth, w: Uri, lo: nat, lower: nat, mid: nat, hi: nat)
    requires Layout(b, AuthPieces(o, w), lo, mid) && lower <= lo
    requires w.path.Some? && Holds(b, mid, w.path.value) && hi == mid + |w.path.value| + 1
    ensures Layout(b, PathPieces(o, Some(mid), w), lower, hi)
  {
    LayoutOne(b, mid, w.path.value);
    LayoutWiden(b, AuthPieces(o, w), lo, mid, lower, mid);
    LayoutJoin(b, AuthPieces(o, w), lower, mid, One(Some(mid), w.path), hi);
  }

  lemma AuthThenNone(b: string, o: Auth, w: Uri, lo: nat, lower: nat, hi: nat)
    requires Layout(b, AuthPieces(o, w), lo, hi) && lower <= lo && w.path.None?
    ensures Layout(b, PathPieces(o, None, w), lower, hi)
  {
    assert Layout(b, Nil, hi, hi);
    LayoutWiden(b, AuthPieces(o, w), lo, hi, lower, hi);
    LayoutJoin(b, AuthPieces(o, w), lower, hi, One(None, None), hi);
  }

  /** Splitting an authority sets nothing else. */
  lemma AuthorityKeeps(u: Uri, a: string)
    ensures var w := SplitAuthority(u, a);
            w.scheme == u.scheme && w.opaquePart == u.opaquePart && w.path == u.path && w.query == u.query &&
              w.fragment == u.fragment
  {
  }

  /** An authority with a path right behind it. */
  method ParseAuthPath(raw: array<char>, start: nat, mid: nat, ghost lower: nat, ghost hi: nat,
                       ghost a: string, ghost t: string, ghost v: Uri, ghost w: Uri) returns (o: Auth)
    requires Holds(raw[..], start, a) && mid == start + |a| + 1 && Holds(raw[..], mid, t) && hi == mid + |t| + 1
    requires NoAuthority(v) && v.path == Some(t) && w == SplitAuthority(v, a) && lower <= start
    modifies raw
    ensures Layout(raw[..], PathPieces(o, Some(mid), w), lower, hi)
    ensures Outside(old(raw[..]), raw[..], start, mid)
  {
    ghost var b := raw[..];
    o := ParseAuthority(raw, start, a, mid, v, w);
    AuthorityKeeps(v, a);
    HoldsSame(b, raw[..], mid, t, start, mid);
    AuthThenPath(raw[..], o, w, start, lower, mid, hi);
  }

  /** An authority with nothing behind it. */
  method ParseAuthOnly(raw: array<char>, start: nat, ghost lower: nat, ghost hi: nat, ghost a: string, ghost v: Uri,
                       ghost w: Uri)
    returns (o: Auth)
    requires Holds(raw[..], start, a) && hi == start + |a| + 1 && lower <= start
    requires NoAuthority(v) && v.path.None? && w == SplitAuthority(v, a)
    modifies raw
    ensures Layout(raw[..], PathPieces(o, None, w), lower, hi)
    ensures Outside(old(raw[..]), raw[..], start, hi)
  {
    o := ParseAuthority(raw, start, a, hi, v, w);
    AuthorityKeeps(v, a);
    AuthThenNone(raw[..], o, w, start, lower, hi);
  }

  /** The part of SplitPath() that follows the two slashes. */
  function SplitNetPath(u: Uri, t: string): Uri {
    var i := Find(t, '/');
    SplitAuthority(if i < |t| then u.(path := Some(t[i..])) else u, t[..i])
  }

  /** Shuffle the authority down to make room for its terminator, then split it. */
  method ParseShuffled(raw: array<char>, start: nat, i: nat, ghost hi: nat, ghost t: string, ghost v: Uri,
                       ghost w: Uri) returns (o: Auth)
    requires Holds(raw[..], start + 2, t) && hi == start + |t| + 3 && i < |t|
    requires NoAuthority(v) && v.path == Some(t[i..]) && w == SplitAuthority(v, t[..i])
    modifies raw
    ensures Layout(raw[..], PathPieces(o, Some(start + 2 + i), w), start, hi)
    ensures Outside(old(raw[..]), raw[..], start, hi)
  {
    SplitNet(raw, start, t, i);
    o := ParseAuthPath(raw, start + 1, start + 2 + i, start, hi, t[..i], t[i..], v, w);
  }

  /** The authority and path of a net path. */
  method ParseNetPath(raw: array<char>, start: nat, ghost hi: nat, ghost t: string, ghost u: Uri, ghost w: Uri)
    returns (o: Auth, path: Option<nat>)
    requires Holds(raw[..], start + 2, t) && hi == start + |t| + 3
    requires NoAuthority(u) && u.path.None? && w == SplitNetPath(u, t)
    modifies raw
    ensures Layout(raw[..], PathPieces(o, path, w), start, hi)
    ensures Outside(old(raw[..]), raw[..], start, hi)
  {
    var i := StrChr(raw, start + 2, t, '/');
    HoldsAt(raw[..], start + 2, t, i);
    if raw[start + 2 + i] != NUL {
      path := Some(start + 2 + i);
      o := ParseShuffled(raw, start, i, hi, t, u.(path := Some(t[i..])), w);
    } else {
      path := None;
      assert t[..i] == t;
      o := ParseAuthOnly(raw, start + 2, start, hi, t, u, w);
    }
  }

  lemma NoAuthLayout(b: string, w: Uri, lo: nat)
    requires NoAuthority(w) && lo <= |b|
    ensures Layout(b, AuthPieces(NO_AUTH, w), lo, lo)
  {
    LayoutNoneTwo(b, lo, lo);
    LayoutJoin(b, Two(None, None, None, None), lo, lo, Two(None, None, None, None), lo);
  }

  /** A path without authority, or none at all. */
  lemma PlainPathLayout(b: string, w: Uri, start: nat, path: Option<nat>, hi: nat)
    requires NoAuthority(w) && start <= hi <= |b|
    requires if path.None? then w.path.None?
             else
               && path.value == start && w.path.Some? && Holds(b, start, w.path.value)
               && hi == start + |w.path.value| + 1
    ensures Layout(b, PathPieces(NO_AUTH, path, w), start, hi)
  {
    NoAuthLayout(b, w, start);
    if path.Some? { LayoutOne(b, start, w.path.value); } else { assert Layout(b, Nil, start, hi); }
    LayoutJoin(b, AuthPieces(NO_AUTH, w), start, start, One(path, w.path), hi);
  }

  /** strncmp() with "//". */
  method StartsNet(raw: array<char>, start: nat, ghost p: string) returns (net: bool)
    requires Holds(raw[..], start, p) && p != []
    ensures net == ("//" <= p)
  {
    HoldsAt(raw[..], start, p, 0);
    HoldsAt(raw[..], start, p, 1);
    net := raw[start] == '/' && raw[start + 1] == '/';
    if net { assert p[..2] == ['/', '/']; }
  }

  /** Identify net, absolute or relative path. */
  method ParsePath(raw: array<char>, start: nat, absolute: bool, ghost p: string, ghost hi: nat, ghost u: Uri,
                   ghost w: Uri)
    returns (o: Auth, path: Option<nat>)
    requires Holds(raw[..], start, p) && hi == start + |p| + 1
    requires NoAuthority(u) && u.path.None? && absolute == u.scheme.Some? && w == SplitPath(u, p)
    modifies raw
    ensures Layout(raw[..], PathPieces(o, path, w), start, hi)
    ensures Outside(old(raw[..]), raw[..], start, hi)
  {
    HoldsAt(raw[..], start, p, 0);
    o, path := NO_AUTH, None;
    if raw[start] != NUL {
      var net := StartsNet(raw, start, p);
      if absolute && net {
        HoldsTail(raw[..], start, p, 2);
        o, path := ParseNetPath(raw, start, hi, p[2..], u, w);
        return;
      }
      path := Some(start);
    }
    PlainPathLayout(raw[..], w, start, path, hi);
  }

  function HierPieces(o: Auth, path: Option<nat>, query: Option<nat>, w: Uri): Pieces {
    Append(PathPieces(o, path, w), One(query, w.query))
  }

  lemma PathKeeps(u: Uri, p: string)
    ensures var w := SplitPath(u, p);
            w.scheme == u.scheme && w.opaquePart == u.opaquePart && w.query == u.query && w.fragment == u.fragment
  {
    if p != [] && u.scheme.Some? && "//" <= p {
      var i := Find(p[2..], '/');
      AuthorityKeeps(if i < |p[2..]| then u.(path := Some(p[2..][i..])) else u, p[2..][..i]);
    }
  }

  /** One more field after those already laid out, or none. */
  lemma ThenField(b: string, c: string, p: Pieces, lo: nat, mid: nat, off: Option<nat>, str: Option<string>, hi: nat)
    requires Layout(c, p, lo, mid) && Outside(b, c, lo, mid) && mid <= hi <= |c|
    requires if off.None? then str.None? && mid == hi
             else off.value == mid && str.Some? && Holds(b, mid, str.value) && hi == mid + |str.value| + 1
    ensures Layout(c, Append(p, One(off, str)), lo, hi)
  {
    if off.Some? {
      HoldsSame(b, c, mid, str.value, lo, mid);
      LayoutOne(c, mid, str.value);
    } else {
      assert Layout(c, Nil, hi, hi);
    }
    LayoutJoin(c, p, lo, mid, One(off, str), hi);
  }

  /** Chop off the query, then the path and authority. */
  method ParseHier(raw: array<char>, start: nat, absolute: bool, ghost p: string, ghost hi: nat, ghost u: Uri,
                   ghost w: Uri)
    returns (o: Auth, path: Option<nat>, query: Option<nat>)
    requires Holds(raw[..], start, p) && hi == start + |p| + 1
    requires NoAuthority(u) && u.path.None? && absolute == u.scheme.Some? && w == SplitHier(u, p)
    modifies raw
    ensures Layout(raw[..], HierPieces(o, path, query, w), start, hi)
    ensures Outside(old(raw[..]), raw[..], start, hi)
  {
    query := CutAt(raw, start, p, '?');
    ghost var (q, y) := Cut(p, '?');
    ghost var b := raw[..];
    ghost var mid := start + |q| + 1;
    ghost var v := u.(query := y);
    o, path := ParsePath(raw, start, absolute, q, mid, v, w);
    PathKeeps(v, q);
    ThenField(b, raw[..], PathPieces(o, path, w), start, mid, query, y, hi);
  }

  // ---------------------------------------------------------------------
  // Scheme and fragment
  // ---------------------------------------------------------------------

  /** Offsets of all fields. */
  datatype Offsets = Offsets(
    scheme: Option<nat>,
    opaquePart: Option<nat>,
    auth: Auth,
    path: Option<nat>,
    query: Option<nat>)

  function TextPieces(o: Offsets, w: Uri): Pieces {
    Append(Two(o.scheme, w.scheme, o.opaquePart, w.opaquePart), HierPieces(o.auth, o.path, o.query, w))
  }

  lemma NoHierLayout(b: string, w: Uri, lo: nat)
    requires NoAuthority(w) && w.path.None? && w.query.None? && lo <= |b|
    ensures Layout(b, HierPieces(NO_AUTH, None, None, w), lo, lo)
  {
    PlainPathLayout(b, w, lo, None, lo);
    assert Layout(b, Nil, lo, lo);
    LayoutJoin(b, PathPieces(NO_AUTH, None, w), lo, lo, One(None, None), lo);
  }

  lemma HierKeeps(u: Uri, p: string)
    ensures var w := SplitHier(u, p);
            w.scheme == u.scheme && w.opaquePart == u.opaquePart && w.fragment == u.fragment
  {
    var (q, query) := Cut(p, '?');
    PathKeeps(u.(query := query), q);
  }

  /** A URI without scheme. */
  method ParseRelative(raw: array<char>, start: nat, ghost s: string, ghost hi: nat, ghost u: Uri, ghost w: Uri)
    returns (o: Offsets)
    requires Holds(raw[..], start, s) && hi == start + |s| + 1
    requires NoAuthority(u) && u.path.None? && u.scheme.None? && u.opaquePart.None? && w == SplitHier(u, s)
    modifies raw
    ensures Layout(raw[..], TextPieces(o, w), start, hi)
    ensures Outside(old(raw[..]), raw[..], start, hi)
  {
    var auth, path, query := ParseHier(raw, start, false, s, hi, u, w);
    HierKeeps(u, s);
    LayoutNoneTwo(raw[..], start, start);
    LayoutJoin(raw[..], Two(None, None, None, None), start, start, HierPieces(auth, path, query, w), hi);
    o := Offsets(None, None, auth, path, query);
  }

  /** The hierarchical part of an absolute URI. */
  method ParseAbsolute(raw: array<char>, start: nat, mid: nat, ghost x: string, ghost y: string, ghost hi: nat,
                       ghost u: Uri, ghost w: Uri)
    returns (o: Offsets)
    requires Holds(raw[..], start, x) && mid == start + |x| + 1 && Holds(raw[..], mid, y) && hi == mid + |y| + 1
    requires NoAuthority(u) && u.path.None? && u.scheme == Some(x) && u.opaquePart.None? && w == SplitHier(u, y)
    modifies raw
    ensures Layout(raw[..], TextPieces(o, w), start, hi)
    ensures Outside(old(raw[..]), raw[..], start, hi)
  {
    ghost var b := raw[..];
    LayoutTwo(b, start, x, None, None, mid);
    var auth, path, query := ParseHier(raw, mid, true, y, hi, u, w);
    HierKeeps(u, y);
    LayoutThen(b, raw[..], Two(Some(start), Some(x), None, None), start, mid, HierPieces(auth, path, query, w), hi);
    o := Offsets(Some(start), None, auth, path, query);
  }

  /** An absolute URI with an opaque part. */
  lemma OpaqueLayout(b: string, start: nat, mid: nat, x: string, y: string, w: Uri)
    requires Holds(b, start, x) && mid == start + |x| + 1 && Holds(b, mid, y)
    requires w.scheme == Some(x) && w.opaquePart == Some(y) && NoAuthority(w) && w.path.None? && w.query.None?
    ensures Layout(b, TextPieces(Offsets(Some(start), Some(mid), NO_AUTH, None, None), w), start, mid + |y| + 1)
  {
    var hi := mid + |y| + 1;
    LayoutTwo(b, start, x, Some(mid), Some(y), hi);
    NoHierLayout(b, w, hi);
    LayoutJoin(b, Two(Some(start), Some(x), Some(mid), Some(y)), start, hi, HierPieces(NO_AUTH, None, None, w), hi);
  }

  /** Identify absolute or relative URI, and hierarchical or opaque part. */
  method ParseText(raw: array<char>, start: nat, ghost s: string, ghost hi: nat, ghost u: Uri, ghost w: Uri)
    returns (o: Offsets)
    requires Holds(raw[..], start, s) && hi == start + |s| + 1
    requires NoAuthority(u) && u.path.None? && u.scheme.None? && u.opaquePart.None? && u.query.None? &&
             w == SplitScheme(u, s)
    modifies raw
    ensures Layout(raw[..], TextPieces(o, w), start, hi)
    ensures Outside(old(raw[..]), raw[..], start, hi)
  {
    var rest := CutAt(raw, start, s, ':');
    ghost var (x, y) := Cut(s, ':');
    if rest.None? {
      o := ParseRelative(raw, start, s, hi, u, w);
    } else {
      HoldsAt(raw[..], rest.value, y.value, 0);
      if raw[rest.value] == '/' {
        assert "/" <= y.value;
        o := ParseAbsolute(raw, start, rest.value, x, y.value, hi, u.(scheme := Some(x)), w);
      } else {
        o := Offsets(Some(start), rest, NO_AUTH, None, None);
        OpaqueLayout(raw[..], start, rest.value, x, y.value, w);
      }
    }
  }

  // ---------------------------------------------------------------------
  // Decoding in place
  // ---------------------------------------------------------------------

  /** The two characters after a percent sign, or fewer at the end of the string. */
  method HexBuffer(raw: array<char>, pos: nat, ghost s: string) returns (hex: string)
    requires Holds(raw[..], pos, s)
    ensures hex == FirstTwo(s)
  {
    HoldsAt(raw[..], pos, s, 0);
    if raw[pos] == NUL { return ""; }
    HoldsAt(raw[..], pos, s, 1);
    if raw[pos + 1] == NUL {
      assert s == [s[0]];
      return [raw[pos]];
    }
    assert s[..2] == [s[0], s[1]];
    hex := [raw[pos], raw[pos + 1]];
    if |s| == 2 { assert s[..2] == s; }
  }

  /** The next decoded character, and the number of characters it was read from. */
  method DecodeNext(raw: array<char>, pos: nat, ghost s: string) returns (c: char, used: nat)
    requires Holds(raw[..], pos, s) && s != []
    ensures 0 < used <= |s| && Decode(s) == [c] + Decode(s[used..])
  {
    HoldsAt(raw[..], pos, s, 0);
    c, used := raw[pos], 1;
    if c == '%' {
      HoldsTail(raw[..], pos, s, 1);
      var hex := HexBuffer(raw, pos + 1, s[1..]);
      var scan := ScanHex(hex);
      if scan.0 > 0 {
        c, used := scan.1 as char, 1 + scan.0;
      }
    }
  }

  /** Text without terminator at an offset. */
  predicate Written(b: string, start: nat, done: string) {
    start + |done| <= |b| && b[start..start + |done|] == done
  }

  /** Overwriting one character behind the text extends it, and leaves what is still to be read. */
  lemma WriteNext(b: string, start: nat, done: string, c: char, pos: nat, rest: string, used: nat)
    requires Written(b, start, done) && Holds(b, pos, rest) && start + |done| <= pos && 0 < used <= |rest|
    ensures Written(b[start + |done| := c], start, done + [c]) &&
            Holds(b[start + |done| := c], pos + used, rest[used..])
  {
  }

  lemma DecodeMore(done: string, c: char, tail: string, rest: string, whole: string)
    requires done + rest == whole && rest == [c] + tail
    ensures done + [c] + tail == whole
  {
  }

  /** Some of s has been decoded to `done`; the rest is still to be read at `pos`. */
  ghost predicate Decoding(b: string, start: nat, pos: nat, done: string, rest: string, s: string) {
    && Written(b, start, done) && Holds(b, pos, rest)
    && start + |done| <= pos && pos + |rest| == start + |s| && done + Decode(rest) == Decode(s)
  }

  lemma OutsideTrans(a: string, b: string, c: string, lo: int, hi: int)
    requires Outside(a, b, lo, hi) && Outside(b, c, lo, hi)
    ensures Outside(a, c, lo, hi)
  {
  }

  lemma DecodingNext(b: string, start: nat, pos: nat, done: string, rest: string, s: string, c: char, used: nat)
    requires Decoding(b, start, pos, done, rest, s) && 0 < used <= |rest| && Decode(rest) == [c] + Decode(rest[used..])
    ensures Decoding(b[start + |done| := c], start, pos + used, done + [c], rest[used..], s)
  {
    WriteNext(b, start, done, c, pos, rest, used);
    DecodeMore(done, c, Decode(rest[used..]), Decode(rest), Decode(s));
  }

  /** The loop body of uri_decode(). */
  method DecodeOne(raw: array<char>, start: nat, len: nat, pos: nat, count: nat,
                   ghost done: string, ghost rest: string, ghost s: string, ghost a: string)
    returns (pos': nat, ghost done': string, ghost rest': string)
    requires Decoding(raw[..], start, pos, done, rest, s) && |done| == count && len == |s|
    requires pos < raw.Length && raw[pos] != NUL && Outside(a, raw[..], start, start + |s|)
    modifies raw
    ensures |rest'| < |rest| && |done'| == count + 1 && Decoding(raw[..], start, pos', done', rest', s)
    ensures pos' < raw.Length && Outside(a, raw[..], start, start + |s|)
  {
    ghost var b := raw[..];
    HoldsAt(b, pos, rest, 0);
    var next, used := DecodeNext(raw, pos, rest);
    DecodingNext(b, start, pos, done, rest, s, next, used);
    pos', done', rest' := pos + used, done + [next], rest[used..];
    Store(raw, start, len, count, next);
    assert raw[..] == b[start + |done| := next];
    OutsideTrans(a, b, raw[..], start, start + |s|);
  }

  /** Store a character, if there is room for it, as there always is. */
  method Store(raw: array<char>, start: nat, len: nat, count: nat, c: char)
    requires count < len && start + count < raw.Length
    modifies raw
    ensures raw[..] == old(raw[..])[start + count := c]
    ensures Outside(old(raw[..]), raw[..], start, start + len)
  {
    if count < len { raw[start + count] := c; }
  }

  lemma DecodingStart(b: string, start: nat, s: string)
    requires Holds(b, start, s)
    ensures Decoding(b, start, start, "", s, s) && start < |b|
  {
  }

  /** At the terminator, everything has been decoded. */
  lemma DecodingDone(b: string, start: nat, pos: nat, done: string, rest: string, s: string)
    requires Decoding(b, start, pos, done, rest, s) && pos < |b| && b[pos] == NUL
    ensures Written(b, start, Decode(s)) && |done| == |Decode(s)| <= |s|
  {
    HoldsAt(b, pos, rest, 0);
  }

  /** uri_decode() with the buffer on top of the encoded text. */
  method DecodeOver(raw: array<char>, start: nat, len: nat, ghost s: string) returns (count: nat)
    requires Holds(raw[..], start, s) && len == |s|
    modifies raw
    ensures count <= |s| && Written(raw[..], start, Decode(s)) && count == |Decode(s)|
    ensures Outside(old(raw[..]), raw[..], start, start + |s|)
  {
    var pos: nat := start;
    count := 0;
    ghost var done, rest := "", s;
    DecodingStart(raw[..], start, s);
    while raw[pos] != NUL
      invariant pos < raw.Length && |done| == count && Decoding(raw[..], start, pos, done, rest, s)
      invariant Outside(old(raw[..]), raw[..], start, start + |s|)
      decreases |rest|
    {
      pos, done, rest := DecodeOne(raw, start, len, pos, count, done, rest, s, old(raw[..]));
      count := count + 1;
    }
    DecodingDone(raw[..], start, pos, done, rest, s);
  }

  /** uri_decode_inplace() for a field that is present. */
  method DecodeInPlace(raw: array<char>, start: nat, ghost s: string)
    requires Holds(raw[..], start, s)
    modifies raw
    ensures Holds(raw[..], start, CutNul(Decode(s)))
    ensures Outside(old(raw[..]), raw[..], start, start + |s| + 1)
  {
    var len := StrLen(raw, start, s);
    var count := DecodeOver(raw, start, len, s);
    ghost var d, b := Decode(s), raw[..];
    raw[start + count] := NUL;
    assert raw[..][start..start + count] == b[start..start + count];
    DecodedHolds(raw[..], start, d);
  }

  lemma DecodedHolds(b: string, start: nat, d: string)
    requires start + |d| < |b| && b[start..start + |d|] == d && b[start + |d|] == NUL
    ensures Holds(b, start, CutNul(d))
  {
  }
}
