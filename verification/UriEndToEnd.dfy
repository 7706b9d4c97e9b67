/** Formatting a URI to memory and parsing that memory. */
module UriEndToEnd {
  import opened Options
  import opened Strings
  import opened UriText
  import opened UriModel
  import opened UriRoundTrip
  import opened UriLayout
  import opened UriParser
  import opened UriBuffer
  import opened UriFormatter

  lemma NoNulField(f: Field, o: Option<string>)
    requires CleanField(f, o)
    ensures Lacks(o, NUL)
  {
  }

  lemma NoNul(u: Uri)
    requires Clean(u)
    ensures NUL !in Join(u)
  {
    NoNulField(Scheme, u.scheme);
    NoNulField(OpaquePart, u.opaquePart);
    NoNulField(User, u.user);
    NoNulField(Password, u.password);
    NoNulField(Host, u.host);
    NoNulField(Port, u.port);
    NoNulField(Path, u.path);
    NoNulField(Query, u.query);
    NoNulField(Fragment, u.fragment);
    HierLacks(u, NUL);
    PartLacks("?", u.query, NUL);
    PartLacks("#", u.fragment, NUL);
  }

  lemma FilledHolds(b: string, text: string)
    requires Filled(b, |text| + 1, text) && NUL !in text
    ensures Holds(b, 0, text)
  {
  }

  /** format_uri_alloc() followed by parse_uri(): every field of a well-formed URI comes back, present or absent. */
  method FormatThenParse(u: Uri) returns (raw: array<char>, o: Offsets, fragment: Option<nat>)
    requires AsciiUri(u) && WellFormed(u)
    ensures Denotes(raw[..], o, fragment, u)
  {
    var none := new char[0];
    var len := FormatUri(u, none, 0);
    raw := new char[len + 1];
    var used := FormatUri(u, raw, len + 1);
    EncodedClean(u);
    NoNul(Encoded(u));
    FilledHolds(raw[..], Format(u));
    ParseFormatIff(u);
    o, fragment := ParseBuffer(raw, Format(u));
  }
}
