/** URIs, their split into fields, and the round trip through their text. */
module UriModel {
  import opened Options
  import opened UriText

  datatype Uri = Uri(scheme: Option<string>, opaquePart: Option<string>, user: Option<string>, password: Option<string>,
                     host: Option<string>, port: Option<string>, path: Option<string>, query: Option<string>,
                     fragment: Option<string>)

  const EMPTY := Uri(None, None, None, None, None, None, None, None, None)

  predicate NoAuthority(u: Uri) {
    u.user.None? && u.password.None? && u.host.None? && u.port.None?
  }

  // ---------------------------------------------------------------------
  // Splitting
  // ---------------------------------------------------------------------

  /** The text before the first c, and the text after it if there is one. */
  function Cut(s: string, c: char): (r: (string, Option<string>)) {
    var i := Find(s, c);
    (s[..i], if i < |s| then Some(s[i + 1..]) else None)
  }

  /** The position of the first "##params", or the length. */
  function FindParams(s: string): (i: nat)
    ensures i <= |s|
  {
    if s == [] || "##params" <= s then 0 else 1 + FindParams(s[1..])
  }

  /** host[:port]; a bracketed host keeps its colons. */
  function SplitHost(u: Uri, h: string): Uri {
    var i := FindLast(h, ':');
    if i > 0 && h[|h| - 1] != ']' then u.(host := Some(h[..i - 1]), port := Some(h[i..]))
    else u.(host := Some(h))
  }

  /** [user[:password]@]host[:port] */
  function SplitAuthority(u: Uri, a: string): Uri {
    var (x, y) := Cut(a, '@');
    if y.None? then SplitHost(u, a)
    else
      var (name, password) := Cut(x, ':');
      SplitHost(u.(user := Some(name), password := password), y.value)
  }

  /** A hierarchical part without its query. */
  function SplitPath(u: Uri, p: string): Uri {
    if p == [] then u
    else if u.scheme.Some? && "//" <= p then
      var i := Find(p[2..], '/');
      SplitAuthority(if i < |p[2..]| then u.(path := Some(p[2..][i..])) else u, p[2..][..i])
    else u.(path := Some(p))
  }

  function SplitHier(u: Uri, p: string): Uri {
    var (q, query) := Cut(p, '?');
    SplitPath(u.(query := query), q)
  }

  function SplitScheme(u: Uri, s: string): Uri {
    var (x, y) := Cut(s, ':');
    if y.None? then SplitHier(u, s)
    else if "/" <= y.value then SplitHier(u.(scheme := Some(x)), y.value)
    else u.(scheme := Some(x), opaquePart := y)
  }

  /** parse_uri() before decoding. */
  function Split(s: string): Uri {
    var (x, fragment) := Cut(s[..FindParams(s)], '#');
    SplitScheme(EMPTY.(fragment := fragment), x)
  }

  function DecodeField(o: Option<string>): Option<string> {
    if o.None? then None else Some(CutNul(Decode(o.value)))
  }

  function Decoded(u: Uri): Uri {
    Uri(DecodeField(u.scheme), DecodeField(u.opaquePart), DecodeField(u.user), DecodeField(u.password),
        DecodeField(u.host), DecodeField(u.port), DecodeField(u.path), DecodeField(u.query), DecodeField(u.fragment))
  }

  /** parse_uri() */
  function Parse(s: string): Uri {
    Decoded(Split(s))
  }

  // ---------------------------------------------------------------------
  // Formatting
  // ---------------------------------------------------------------------

  /** A field with its prefix, if it is present. */
  function Part(prefix: string, o: Option<string>): string {
    if o.None? then "" else prefix + o.value
  }

  function HostPort(u: Uri): string {
    Part(if u.user.Some? then "@" else "", u.host) + Part(":", u.port)
  }

  /** user, password, host and port. */
  function Authority(u: Uri): string {
    Part("", u.user) + (Part(":", u.password) + HostPort(u))
  }

  /** Everything from the authority to the path; the scheme is followed by "//" only if there is a host. */
  function Hier(u: Uri): string {
    (if u.scheme.Some? && u.host.Some? then "//" else "") + (Part("", u.opaquePart) + (Authority(u) + Part("", u.path)))
  }

  function Rest(u: Uri): string {
    Hier(u) + Part("?", u.query)
  }

  function Text(u: Uri): string {
    if u.scheme.Some? then u.scheme.value + ([':'] + Rest(u)) else Rest(u)
  }

  /** format_uri() on fields that are already encoded. */
  function Join(u: Uri): string {
    Text(u) + Part("#", u.fragment)
  }

  function EncodeField(f: Field, o: Option<string>): Option<string>
    requires o.Some? ==> Ascii(o.value)
  {
    if o.None? then None else Some(Encode(f, o.value))
  }

  predicate AsciiField(o: Option<string>) {
    o.Some? ==> Ascii(o.value)
  }

  /** Every field is a NUL-free string of 7-bit characters. */
  predicate AsciiUri(u: Uri) {
    && AsciiField(u.scheme) && AsciiField(u.opaquePart) && AsciiField(u.user) && AsciiField(u.password)
    && AsciiField(u.host) && AsciiField(u.port) && AsciiField(u.path) && AsciiField(u.query) && AsciiField(u.fragment)
  }

  function Encoded(u: Uri): Uri
    requires AsciiUri(u)
  {
    Uri(EncodeField(Scheme, u.scheme), EncodeField(OpaquePart, u.opaquePart), EncodeField(User, u.user),
        EncodeField(Password, u.password), EncodeField(Host, u.host), EncodeField(Port, u.port),
        EncodeField(Path, u.path), EncodeField(Query, u.query), EncodeField(Fragment, u.fragment))
  }

  /** format_uri() */
  function Format(u: Uri): string
    requires AsciiUri(u)
  {
    Join(Encoded(u))
  }
}
