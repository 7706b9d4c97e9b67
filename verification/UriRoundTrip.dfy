/** Parsing a formatted URI gives it back exactly when it is well-formed. */
module UriRoundTrip {
  import opened Options
  import opened UriText
  import opened UriModel

  predicate EndsBracket(s: string) {
    s != [] && s[|s| - 1] == ']'
  }

  /** Relative, opaque, or hierarchical with an absolute path. */
  predicate WellFormed(u: Uri) {
    if u.scheme.None? then
      u.opaquePart.None? && u.user.None? && u.password.None? && u.host.None? && u.port.None? && u.path != Some("")
    else if u.opaquePart.Some? then
      && u.user.None? && u.password.None? && u.host.None? && u.port.None? && u.path.None? && u.query.None?
      && !("/" <= u.opaquePart.value)
    else if u.host.None? then
      && u.user.None? && u.password.None? && u.port.None?
      && u.path.Some? && "/" <= u.path.value && !("//" <= u.path.value)
    else
      && (u.password.Some? ==> u.user.Some?)
      && (u.path.Some? ==> "/" <= u.path.value)
      && (if u.port.Some? then !EndsBracket(u.port.value) else ':' !in u.host.value || EndsBracket(u.host.value))
  }

  predicate CleanField(f: Field, o: Option<string>) {
    o.Some? ==> AllPlain(f, o.value)
  }

  /** Each field holds only characters that its encoding can produce. */
  predicate Clean(u: Uri) {
    && CleanField(Scheme, u.scheme) && CleanField(OpaquePart, u.opaquePart) && CleanField(User, u.user)
    && CleanField(Password, u.password) && CleanField(Host, u.host) && CleanField(Port, u.port)
    && CleanField(Path, u.path) && CleanField(Query, u.query) && CleanField(Fragment, u.fragment)
  }

  // ---------------------------------------------------------------------
  // Cutting
  // ---------------------------------------------------------------------

  lemma CutSkip(x: string, c: char, y: string)
    requires c !in x
    ensures Cut(x + ([c] + y), c) == (x, Some(y))
  {
    var s := x + ([c] + y);
    FindSkip(x, [c] + y, c);
    assert s[..|x|] == x && s[|x| + 1..] == y;
  }

  lemma CutNone(x: string, c: char)
    requires c !in x
    ensures Cut(x, c) == (x, None)
  {
    assert x[..|x|] == x;
    FindIs(x, c, |x|);
  }

  /** Cutting a field with a one-character prefix off the end. */
  lemma CutPart(x: string, c: char, o: Option<string>)
    requires c !in x
    ensures Cut(x + Part([c], o), c) == (x, o)
  {
    if o.Some? {
      CutSkip(x, c, o.value);
    } else {
      assert x + Part([c], o) == x;
      CutNone(x, c);
    }
  }

  lemma {:induction false} NoParams(s: string, i: nat)
    requires i <= |s| && forall k :: i <= k && k + 1 < |s| ==> s[k] != '#' || s[k + 1] != '#'
    ensures FindParams(s[i..]) == |s| - i
    decreases |s| - i
  {
    if i < |s| {
      var t := s[i..];
      assert t[0] == s[i] && (|t| > 1 ==> t[1] == s[i + 1]);
      assert "##params"[0] == '#' && "##params"[1] == '#';
      assert t[1..] == s[i + 1..];
      NoParams(s, i + 1);
    }
  }

  // ---------------------------------------------------------------------
  // Characters that do not occur
  // ---------------------------------------------------------------------

  predicate Lacks(o: Option<string>, c: char) {
    o.Some? ==> c !in o.value
  }

  lemma PartLacks(prefix: string, o: Option<string>, c: char)
    requires c !in prefix && Lacks(o, c)
    ensures c !in Part(prefix, o)
  {
  }

  /** A character that every field of the authority escapes. */
  lemma AuthorityLacks(u: Uri, c: char)
    requires c != ':' && c != '@' && Lacks(u.user, c) && Lacks(u.password, c) && Lacks(u.host, c) && Lacks(u.port, c)
    ensures c !in Authority(u)
  {
  }

  lemma HierLacks(u: Uri, c: char)
    requires c != ':' && c != '@' && c != '/' && Lacks(u.opaquePart, c) && Lacks(u.path, c)
    requires Lacks(u.user, c) && Lacks(u.password, c) && Lacks(u.host, c) && Lacks(u.port, c)
    ensures c !in Hier(u)
  {
  }

  lemma NoHash(u: Uri)
    requires Clean(u)
    ensures '#' !in Text(u) && Lacks(u.fragment, '#')
  {
    HierLacks(u, '#');
    PartLacks("?", u.query, '#');
  }

  lemma OneHash(x: string, o: Option<string>, k: nat)
    requires '#' !in x && Lacks(o, '#') && k + 1 < |x + Part("#", o)|
    ensures (x + Part("#", o))[k] != '#' || (x + Part("#", o))[k + 1] != '#'
  {
  }

  // ---------------------------------------------------------------------
  // Fragment and scheme
  // ---------------------------------------------------------------------

  lemma SplitHash(x: string, o: Option<string>)
    requires '#' !in x && Lacks(o, '#')
    ensures Split(x + Part("#", o)) == SplitScheme(EMPTY.(fragment := o), x)
  {
    var s := x + Part("#", o);
    forall k: nat | k + 1 < |s| ensures s[k] != '#' || s[k + 1] != '#' { OneHash(x, o, k); }
    NoParams(s, 0);
    assert s[0..] == s && s[..|s|] == s;
    CutPart(x, '#', o);
  }

  lemma SplitFragment(u: Uri)
    requires Clean(u)
    ensures Split(Join(u)) == SplitScheme(EMPTY.(fragment := u.fragment), Text(u))
  {
    NoHash(u);
    SplitHash(Text(u), u.fragment);
  }

  function AfterScheme(u: Uri): Uri {
    EMPTY.(fragment := u.fragment, scheme := u.scheme)
  }

  lemma SplitAtScheme(u: Uri)
    requires Clean(u) && u.scheme.Some?
    ensures Split(Join(u)) == if "/" <= Rest(u) then SplitHier(AfterScheme(u), Rest(u))
                              else AfterScheme(u).(opaquePart := Some(Rest(u)))
  {
    SplitFragment(u);
    CutSkip(u.scheme.value, ':', Rest(u));
  }

  lemma SplitQuery(u: Uri, v: Uri)
    requires Clean(u) && u.opaquePart.None?
    ensures SplitHier(v, Rest(u)) == SplitPath(v.(query := u.query), Hier(u))
  {
    HierLacks(u, '?');
    CutPart(Hier(u), '?', u.query);
  }

  // ---------------------------------------------------------------------
  // Authority
  // ---------------------------------------------------------------------

  predicate PortClear(host: string, port: Option<string>) {
    if port.Some? then !EndsBracket(port.value) else ':' !in host || EndsBracket(host)
  }

  /** Host and port split again exactly when they can be told apart. */
  lemma SplitHostPort(host: string, port: Option<string>, v: Uri)
    requires Lacks(port, ':') && v.port.None?
    ensures if PortClear(host, port) then SplitHost(v, host + Part(":", port)) == v.(host := Some(host), port := port)
            else SplitHost(v, host + Part(":", port)).port.Some? != port.Some?
  {
    var h := host + Part(":", port);
    if port.Some? {
      var i := |host| + 1;
      assert h[i..] == port.value && h[..i - 1] == host;
      FindLastIs(h, ':', i);
      if port.value != [] {
        assert h[|h| - 1] == port.value[|port.value| - 1];
      }
    } else {
      assert h == host;
      if ':' !in h { FindLastIs(h, ':', 0); }
    }
  }

  lemma SplitUser(user: string, password: Option<string>, host: string, v: Uri)
    requires ':' !in user && '@' !in user && Lacks(password, '@')
    ensures SplitAuthority(v, user + (Part(":", password) + ("@" + host))) ==
            SplitHost(v.(user := Some(user), password := password), host)
  {
    var x := user + Part(":", password);
    assert user + (Part(":", password) + ("@" + host)) == x + (['@'] + host);
    CutSkip(x, '@', host);
    CutPart(user, ':', password);
  }

  lemma SplitNoUser(host: string, port: Option<string>, v: Uri)
    requires '@' !in host && Lacks(port, '@')
    ensures SplitAuthority(v, host + Part(":", port)) == SplitHost(v, host + Part(":", port))
  {
  }

  lemma AuthorityIs(u: Uri)
    requires u.host.Some? && (u.password.Some? ==> u.user.Some?)
    ensures var h := u.host.value + Part(":", u.port);
            Authority(u) == if u.user.Some? then u.user.value + (Part(":", u.password) + ("@" + h)) else h
  {
  }

  lemma SplitAuthorityPart(u: Uri, v: Uri)
    requires Clean(u) && u.host.Some? && (u.password.Some? ==> u.user.Some?)
    requires v.user.None? && v.password.None?
    ensures SplitAuthority(v, Authority(u)) ==
            SplitHost(v.(user := u.user, password := u.password), u.host.value + Part(":", u.port))
  {
    AuthorityIs(u);
    if u.user.Some? {
      SplitUser(u.user.value, u.password, u.host.value + Part(":", u.port), v);
    } else {
      SplitNoUser(u.host.value, u.port, v);
    }
  }

  /** With a host, the path starts at the first slash after the authority. */
  lemma SplitNetPath(a: string, path: Option<string>, v: Uri)
    requires '/' !in a && v.scheme.Some? && v.path.None?
    requires path.Some? ==> "/" <= path.value
    ensures SplitPath(v, "//" + (a + Part("", path))) == SplitAuthority(v.(path := path), a)
  {
    var p := Part("", path);
    var h := "//" + (a + p);
    assert h[2..] == a + p;
    FindSkip(a, p, '/');
    assert (a + p)[..|a|] == a && (a + p)[|a|..] == p;
    if path.Some? {
      FindIs(p, '/', 0);
    }
  }

  // ---------------------------------------------------------------------
  // The four kinds of URI
  // ---------------------------------------------------------------------

  lemma HierIsPath(u: Uri)
    requires NoAuthority(u) && u.opaquePart.None?
    ensures Hier(u) == Part("", u.path)
  {
  }

  lemma SplitPlainPath(v: Uri, o: Option<string>)
    requires v.path.None? && (v.scheme.None? || (o.Some? ==> !("//" <= o.value)))
    ensures SplitPath(v, Part("", o)) == v.(path := if o == Some("") then None else o)
  {
    assert o.Some? ==> Part("", o) == o.value;
  }

  lemma SplitRelative(v: Uri, s: string)
    requires ':' !in s
    ensures SplitScheme(v, s) == SplitHier(v, s)
  {
  }

  lemma RelativeSplit(u: Uri)
    requires Clean(u) && u.scheme.None? && u.opaquePart.None? && NoAuthority(u)
    ensures Split(Join(u)) == u.(path := if u.path == Some("") then None else u.path)
  {
    var v := EMPTY.(fragment := u.fragment);
    SplitFragment(u);
    HierIsPath(u);
    PartLacks("", u.path, ':');
    PartLacks("?", u.query, ':');
    SplitRelative(v, Rest(u));
    SplitQuery(u, v);
    SplitPlainPath(v.(query := u.query), u.path);
  }

  lemma OpaqueSplit(u: Uri)
    requires Clean(u) && u.scheme.Some? && u.opaquePart.Some? && NoAuthority(u) && u.path.None? && u.query.None?
    ensures if "/" <= u.opaquePart.value then Split(Join(u)).opaquePart.None? else Split(Join(u)) == u
  {
    SplitAtScheme(u);
    assert Authority(u) == "";
    assert Rest(u) == u.opaquePart.value;
    if "/" <= Rest(u) { ShapeHier(AfterScheme(u), Rest(u)); }
  }

  lemma PathSplit(u: Uri)
    requires Clean(u) && u.scheme.Some? && u.opaquePart.None? && NoAuthority(u)
    ensures if WellFormed(u) then Split(Join(u)) == u
            else Split(Join(u)).opaquePart.Some? || Split(Join(u)).host.Some?
  {
    var v := AfterScheme(u);
    SplitAtScheme(u);
    HierIsPath(u);
    RestStarts(u.path, u.query);
    if "/" <= Rest(u) {
      SplitQuery(u, v);
      if "//" <= u.path.value {
        NetHasHost(v.(query := u.query), Hier(u));
      } else {
        SplitPlainPath(v.(query := u.query), u.path);
      }
    }
  }

  lemma RestStarts(path: Option<string>, query: Option<string>)
    ensures "/" <= Part("", path) + Part("?", query) <==> path.Some? && "/" <= path.value
  {
    var s := Part("", path) + Part("?", query);
    if path.Some? && path.value != [] {
      assert s[0] == path.value[0] && s[..1] == path.value[..1];
    } else {
      assert s == Part("?", query);
      assert query.Some? ==> s[0] == '?';
      assert "/"[0] == '/';
    }
  }

  /** The URI with everything but host and port. */
  function BeforeHost(u: Uri): Uri {
    u.(host := None, port := None)
  }

  lemma NetSplit(u: Uri)
    requires Clean(u) && u.scheme.Some? && u.opaquePart.None? && u.host.Some?
    requires (u.password.Some? ==> u.user.Some?) && (u.path.Some? ==> "/" <= u.path.value)
    ensures Split(Join(u)) == SplitHost(BeforeHost(u), u.host.value + Part(":", u.port))
  {
    var v := AfterScheme(u).(query := u.query);
    calc {
      Split(Join(u));
      { NetHierSplit(u); }
      SplitPath(v, "//" + (Authority(u) + Part("", u.path)));
      { AuthorityLacks(u, '/'); SplitNetPath(Authority(u), u.path, v); }
      SplitAuthority(v.(path := u.path), Authority(u));
      { SplitAuthorityPart(u, v.(path := u.path)); }
      SplitHost(BeforeHost(u), u.host.value + Part(":", u.port));
    }
  }

  lemma HierIsNet(u: Uri)
    requires u.scheme.Some? && u.opaquePart.None? && u.host.Some?
    ensures Hier(u) == "//" + (Authority(u) + Part("", u.path)) && "/" <= Rest(u)
  {
  }

  // ---------------------------------------------------------------------
  // What any split looks like
  // ---------------------------------------------------------------------

  lemma NetHasHost(u: Uri, p: string)
    requires u.scheme.Some? && "//" <= p
    ensures SplitPath(u, p).host.Some?
  {
  }

  lemma ShapeAuthority(u: Uri, a: string)
    requires NoAuthority(u)
    ensures var w := SplitAuthority(u, a);
            && w.host.Some? && (w.password.Some? ==> w.user.Some?)
            && w.scheme == u.scheme && w.opaquePart == u.opaquePart && w.query == u.query && w.path == u.path
  {
  }

  lemma ShapeHier(u: Uri, p: string)
    requires NoAuthority(u) && u.opaquePart.None?
    ensures var w := SplitHier(u, p);
            && w.opaquePart.None? && w.scheme == u.scheme && (w.password.Some? ==> w.user.Some?)
            && (u.scheme.None? || w.host.None? ==> NoAuthority(w))
  {
    var (q, query) := Cut(p, '?');
    var v := u.(query := query);
    if q != [] && v.scheme.Some? && "//" <= q {
      var i := Find(q[2..], '/');
      ShapeAuthority(if i < |q[2..]| then v.(path := Some(q[2..][i..])) else v, q[2..][..i]);
    }
  }

  lemma Shape(s: string)
    ensures var w := Split(s);
            && (w.scheme.None? ==> w.opaquePart.None? && NoAuthority(w))
            && (w.opaquePart.Some? ==> NoAuthority(w) && w.path.None? && w.query.None?)
            && (w.host.None? ==> NoAuthority(w)) && (w.password.Some? ==> w.user.Some?)
  {
    var (x, fragment) := Cut(s[..FindParams(s)], '#');
    var u := EMPTY.(fragment := fragment);
    var (y, z) := Cut(x, ':');
    ShapeHier(u, x);
    if z.Some? { ShapeHier(u.(scheme := Some(y)), z.value); }
  }

  // ---------------------------------------------------------------------
  // Both directions, on encoded fields
  // ---------------------------------------------------------------------

  predicate SamePresence(u: Uri, v: Uri) {
    && u.scheme.Some? == v.scheme.Some? && u.opaquePart.Some? == v.opaquePart.Some? && u.user.Some? == v.user.Some?
    && u.password.Some? == v.password.Some? && u.host.Some? == v.host.Some? && u.port.Some? == v.port.Some?
    && u.path.Some? == v.path.Some? && u.query.Some? == v.query.Some?
  }

  lemma SplitJoin(u: Uri)
    requires Clean(u) && WellFormed(u)
    ensures Split(Join(u)) == u
  {
    if u.scheme.None? {
      RelativeSplit(u);
    } else if u.opaquePart.Some? {
      OpaqueSplit(u);
    } else if u.host.None? {
      PathSplit(u);
    } else {
      NetSplit(u);
      SplitHostPort(u.host.value, u.port, BeforeHost(u));
    }
  }

  lemma SplitJoinOnly(u: Uri)
    requires Clean(u) && SamePresence(Split(Join(u)), u)
    requires u.scheme.Some? && u.host.Some? && u.path.Some? ==> "/" <= u.path.value
    ensures WellFormed(u)
  {
    Shape(Join(u));
    if u.scheme.None? {
      RelativeSplit(u);
    } else if u.opaquePart.Some? {
      OpaqueSplit(u);
    } else if u.host.None? {
      PathSplit(u);
    } else {
      NetSplit(u);
      SplitHostPort(u.host.value, u.port, BeforeHost(u));
    }
  }

  // ---------------------------------------------------------------------
  // Both directions, through encoding and decoding
  // ---------------------------------------------------------------------

  lemma FieldClean(f: Field, o: Option<string>)
    requires AsciiField(o)
    ensures CleanField(f, EncodeField(f, o))
  {
    if o.Some? { EncodePlain(f, o.value); }
  }

  lemma EncodedClean(u: Uri)
    requires AsciiUri(u)
    ensures Clean(Encoded(u))
  {
    FieldClean(Scheme, u.scheme);
    FieldClean(OpaquePart, u.opaquePart);
    FieldClean(User, u.user);
    FieldClean(Password, u.password);
    FieldClean(Host, u.host);
    FieldClean(Port, u.port);
    FieldClean(Path, u.path);
    FieldClean(Query, u.query);
    FieldClean(Fragment, u.fragment);
  }

  lemma FieldRoundTrip(f: Field, o: Option<string>)
    requires AsciiField(o)
    ensures DecodeField(EncodeField(f, o)) == o
  {
    if o.Some? {
      DecodeEncode(f, o.value);
      CutNulFree(o.value);
    }
  }

  lemma FieldsRoundTrip(u: Uri)
    requires AsciiUri(u)
    ensures Decoded(Encoded(u)) == u
  {
    FieldRoundTrip(Scheme, u.scheme);
    FieldRoundTrip(OpaquePart, u.opaquePart);
    FieldRoundTrip(User, u.user);
    FieldRoundTrip(Password, u.password);
    FieldRoundTrip(Host, u.host);
    FieldRoundTrip(Port, u.port);
    FieldRoundTrip(Path, u.path);
    FieldRoundTrip(Query, u.query);
    FieldRoundTrip(Fragment, u.fragment);
  }

  /** Leading slashes survive encoding. */
  lemma EncodeSlash(f: Field, s: string)
    requires Ascii(s) && '/' !in Special(f)
    ensures "/" <= Encode(f, s) <==> "/" <= s
    ensures "//" <= Encode(f, s) <==> "//" <= s
  {
  }

  lemma EncodeBracket(f: Field, s: string)
    requires Ascii(s)
    ensures EndsBracket(Encode(f, s)) <==> EndsBracket(s)
  {
    if s != [] { EncodeLast(f, s, ']'); }
  }

  lemma EncodeColon(s: string)
    requires Ascii(s)
    ensures ':' in Encode(Host, s) <==> ':' in s
  {
  }

  lemma EncodedWellFormed(u: Uri)
    requires AsciiUri(u)
    ensures WellFormed(Encoded(u)) <==> WellFormed(u)
  {
    if u.opaquePart.Some? { EncodeSlash(OpaquePart, u.opaquePart.value); }
    if u.path.Some? { EncodeSlash(Path, u.path.value); EncodePlain(Path, u.path.value); }
    if u.host.Some? { EncodeBracket(Host, u.host.value); EncodeColon(u.host.value); }
    if u.port.Some? { EncodeBracket(Port, u.port.value); }
  }

  /** The part of a string from its first slash. */
  function FromSlash(s: string): Option<string> {
    if '/' in s then Some(s[Find(s, '/')..]) else None
  }

  lemma FromSlashSkip(a: string, p: string)
    requires '/' !in a
    ensures FromSlash(a + p) == FromSlash(p)
  {
    FindSkip(a, p, '/');
    assert (a + p)[|a| + Find(p, '/')..] == p[Find(p, '/')..];
  }

  /** Where the path is found in a net path. */
  lemma NetPathFound(t: string, v: Uri)
    requires v.scheme.Some? && v.path.None? && NoAuthority(v)
    ensures SplitPath(v, "//" + t).path == FromSlash(t)
  {
  }

  lemma NetHierSplit(r: Uri)
    requires Clean(r) && r.scheme.Some? && r.host.Some? && r.opaquePart.None?
    ensures Split(Join(r)) == SplitPath(AfterScheme(r).(query := r.query), "//" + (Authority(r) + Part("", r.path)))
  {
    HierIsNet(r);
    SplitAtScheme(r);
    SplitQuery(r, AfterScheme(r));
  }

  lemma NetPathSplit(r: Uri)
    requires Clean(r) && r.scheme.Some? && r.host.Some? && r.opaquePart.None? && r.path.Some?
    ensures Split(Join(r)).path == FromSlash(r.path.value)
  {
    NetHierSplit(r);
    AuthorityLacks(r, '/');
    NetPathFound(Authority(r) + Part("", r.path), AfterScheme(r).(query := r.query));
    FromSlashSkip(Authority(r), Part("", r.path));
    assert Part("", r.path) == r.path.value;
  }

  lemma EncodePieces(p: string, k: nat)
    requires Ascii(p) && k <= |p|
    ensures Encode(Path, p) == Encode(Path, p[..k]) + Encode(Path, p[k..])
  {
    assert p[..k] + p[k..] == p;
    EncodeConcat(Path, p[..k], p[k..]);
  }

  /** The first slash of a path starts the encoding of the rest of it. */
  lemma EncodeFromSlash(p: string)
    requires Ascii(p)
    ensures FromSlash(Encode(Path, p)) == EncodeField(Path, FromSlash(p))
  {
    EncodeFind(Path, p, '/');
    if '/' in p {
      EncodePieces(p, Find(p, '/'));
    }
  }

  /** The path found after formatting is the part of the original from its first slash. */
  lemma NetPathParsed(u: Uri)
    requires AsciiUri(u) && u.scheme.Some? && u.host.Some? && u.opaquePart.None? && u.path.Some?
    ensures Parse(Format(u)).path == FromSlash(u.path.value)
  {
    var w := Split(Format(u));
    assert w.path == EncodeField(Path, FromSlash(u.path.value)) by {
      EncodedClean(u);
      NetPathSplit(Encoded(u));
      EncodeFromSlash(u.path.value);
    }
    FieldRoundTrip(Path, FromSlash(u.path.value));
  }

  lemma FromSlashWhole(p: string)
    requires Ascii(p) && FromSlash(p) == Some(p)
    ensures "/" <= Encode(Path, p)
  {
    assert Find(p, '/') == 0;
    EncodeSlash(Path, p);
  }

  lemma ParseFormat(u: Uri)
    requires AsciiUri(u) && WellFormed(u)
    ensures Parse(Format(u)) == u
  {
    EncodedClean(u);
    FieldsRoundTrip(u);
    EncodedWellFormed(u);
    SplitJoin(Encoded(u));
  }

  lemma FormatPresence(u: Uri)
    requires AsciiUri(u) && Parse(Format(u)) == u
    ensures SamePresence(Split(Join(Encoded(u))), Encoded(u))
  {
  }

  lemma ParseFormatOnly(u: Uri)
    requires AsciiUri(u) && Parse(Format(u)) == u
    ensures WellFormed(u)
  {
    EncodedClean(u);
    FormatPresence(u);
    Shape(Join(Encoded(u)));
    if u.scheme.Some? && u.host.Some? && u.path.Some? {
      NetPathParsed(u);
      FromSlashWhole(u.path.value);
    }
    SplitJoinOnly(Encoded(u));
    EncodedWellFormed(u);
  }

  /** Parsing undoes formatting exactly for well-formed URIs. */
  lemma ParseFormatIff(u: Uri)
    requires AsciiUri(u)
    ensures Parse(Format(u)) == u <==> WellFormed(u)
  {
    if WellFormed(u) { ParseFormat(u); }
    if Parse(Format(u)) == u { ParseFormatOnly(u); }
  }
}
