/** format_uri(): a URI written to a buffer that may be too short for it. */
module UriFormatter {
  import opened Options
  import opened UriText
  import opened UriModel
  import opened Strings

  lemma FilledMore(b: string, c: string, len: nat, text: string, more: string, m: nat)
    requires Filled(b, len, text) && |c| == |b| && |text| < len
    requires m == if |text| + |more| < len then |more| else len - 1 - |text|
    requires c[..|text|] == b[..|text|] && c[|text|..|text| + m] == more[..m] && c[|text| + m] == NUL
    ensures Filled(c, len, text + more)
  {
  }

  /** ssnprintf() to the rest of the buffer: a negative remainder counts as zero. */
  method Emit(buf: array<char>, len: nat, used: nat, ghost text: string, more: string) returns (used': nat)
    requires Filled(buf[..], len, text) && used == |text|
    modifies buf
    ensures Filled(buf[..], len, text + more) && used' == |text + more|
  {
    used' := used + |more|;
    if used < len {
      var m := if used + |more| < len then |more| else len - 1 - used;
      ghost var b := buf[..];
      Copy(buf, used, more, m);
      ghost var c := buf[..];
      buf[used + m] := NUL;
      assert buf[..][..used] == c[..used] && buf[..][used..used + m] == c[used..used + m];
      FilledMore(b, buf[..], len, text, more, m);
    } else {
      assert len > 0 ==> (text + more)[..len - 1] == text[..len - 1];
    }
  }

  method Copy(buf: array<char>, at: nat, s: string, m: nat)
    requires m <= |s| && at + m <= buf.Length
    modifies buf
    ensures buf[..][at..at + m] == s[..m] && buf[..][..at] == old(buf[..])[..at]
  {
    var i := 0;
    while i < m
      invariant 0 <= i <= m
      invariant forall j | at <= j < at + i :: buf[j] == s[j - at]
      invariant forall j | 0 <= j < at :: buf[j] == old(buf[j])
    {
      buf[at + i] := s[i];
      i := i + 1;
    }
  }

  lemma EncodeSnoc(f: Field, s: string, i: nat)
    requires Ascii(s) && i < |s|
    ensures Encode(f, s[..i + 1]) == Encode(f, s[..i]) + EncodeChar(f, s[i])
  {
    assert s[..i + 1] == s[..i] + [s[i]];
    EncodeConcat(f, s[..i], [s[i]]);
    assert [s[i]][1..] == [];
    assert Encode(f, [s[i]]) == EncodeChar(f, s[i]);
  }

  /** uri_encode() */
  method EmitEncoded(buf: array<char>, len: nat, used: nat, ghost text: string, f: Field, s: string)
    returns (used': nat)
    requires Filled(buf[..], len, text) && used == |text| && Ascii(s)
    modifies buf
    ensures Filled(buf[..], len, text + Encode(f, s)) && used' == |text + Encode(f, s)|
  {
    used' := used;
    var i := 0;
    ghost var out := text;
    assert text + Encode(f, s[..0]) == text;
    while i < |s|
      invariant 0 <= i <= |s| && out == text + Encode(f, s[..i])
      invariant Filled(buf[..], len, out) && used' == |out|
    {
      EncodeSnoc(f, s, i);
      used' := Emit(buf, len, used', out, EncodeChar(f, s[i]));
      assert out + EncodeChar(f, s[i]) == text + Encode(f, s[..i + 1]);
      out := text + Encode(f, s[..i + 1]);
      i := i + 1;
    }
    assert s[..i] == s;
  }

  // ---------------------------------------------------------------------
  // All fields
  // ---------------------------------------------------------------------

  /** Fields by index. */
  function FieldOf(u: Uri, i: nat): Option<string>
    requires i < 9
  {
    match i
    case 0 => u.scheme case 1 => u.opaquePart case 2 => u.user case 3 => u.password case 4 => u.host
    case 5 => u.port case 6 => u.path case 7 => u.query case _ => u.fragment
  }

  function NameOf(i: nat): Field
    requires i < 9
  {
    match i
    case 0 => Scheme case 1 => OpaquePart case 2 => User case 3 => Password case 4 => Host
    case 5 => Port case 6 => Path case 7 => Query case _ => Fragment
  }

  function PrefixOf(u: Uri, i: nat): string {
    match i case 3 => ":" case 5 => ":" case 7 => "?" case 8 => "#" case 4 => if u.user.Some? then "@"
      else "" case _ => ""
  }

  function SuffixOf(u: Uri, i: nat): string {
    if i == 0 then (if u.host.Some? then "://" else ":") else ""
  }

  /** A field as it is written, given its encoding. */
  function FieldText(u: Uri, i: nat): string
    requires i < 9
  {
    var o := FieldOf(u, i);
    if o.None? then "" else PrefixOf(u, i) + o.value + SuffixOf(u, i)
  }

  function Emitted(u: Uri, i: nat): string
    requires i <= 9
  {
    if i == 0 then "" else Emitted(u, i - 1) + FieldText(u, i - 1)
  }

  lemma EncodedField(u: Uri, i: nat)
    requires AsciiUri(u) && i < 9
    ensures FieldOf(Encoded(u), i) == EncodeField(NameOf(i), FieldOf(u, i))
    ensures PrefixOf(Encoded(u), i) == PrefixOf(u, i) && SuffixOf(Encoded(u), i) == SuffixOf(u, i)
  {
  }

  /** One field: prefix, encoded text, suffix. */
  method EmitField(buf: array<char>, len: nat, used: nat, ghost text: string, u: Uri, i: nat) returns (used': nat)
    requires Filled(buf[..], len, text) && used == |text| && AsciiUri(u) && i < 9 && FieldOf(u, i).Some?
    modifies buf
    ensures Filled(buf[..], len, text + FieldText(Encoded(u), i)) && used' == |text + FieldText(Encoded(u), i)|
  {
    var prefix, s, suffix := PrefixOf(u, i), FieldOf(u, i).value, SuffixOf(u, i);
    ghost var e := Encode(NameOf(i), s);
    used' := Emit(buf, len, used, text, prefix);
    used' := EmitEncoded(buf, len, used', text + prefix, NameOf(i), s);
    used' := Emit(buf, len, used', text + prefix + e, suffix);
    EncodedField(u, i);
    assert text + prefix + e + suffix == text + (prefix + e + suffix);
  }

  /** format_uri(): the length of the whole text, and as much of it as the buffer has room for. */
  method FormatUri(u: Uri, buf: array<char>, len: nat) returns (used: nat)
    requires AsciiUri(u) && len <= buf.Length
    modifies buf
    ensures used == |Format(u)| && Filled(buf[..], len, Format(u))
  {
    if len > 0 { buf[0] := NUL; }
    used := 0;
    var field := 0;
    while field < 9
      invariant 0 <= field <= 9
      invariant Filled(buf[..], len, Emitted(Encoded(u), field)) && used == |Emitted(Encoded(u), field)|
    {
      if FieldOf(u, field).Some? {
        used := EmitField(buf, len, used, Emitted(Encoded(u), field), u, field);
      } else {
        EncodedField(u, field);
        assert Emitted(Encoded(u), field + 1) == Emitted(Encoded(u), field);
      }
      field := field + 1;
    }
    EmittedAll(Encoded(u));
  }

  lemma Assoc(a: string, b: string, c: string)
    ensures (a + b) + c == a + (b + c)
  {
  }

  lemma FieldIsPart(u: Uri, i: nat)
    requires 0 < i < 9
    ensures FieldText(u, i) == Part(PrefixOf(u, i), FieldOf(u, i))
  {
  }

  lemma EmittedAuthority(u: Uri)
    ensures Emitted(u, 6) == Emitted(u, 2) + Authority(u)
  {
    var e, a, b, c, d := Emitted(u, 2), FieldText(u, 2), FieldText(u, 3), FieldText(u, 4), FieldText(u, 5);
    FieldIsPart(u, 2);
    FieldIsPart(u, 3);
    FieldIsPart(u, 4);
    FieldIsPart(u, 5);
    assert Authority(u) == a + (b + (c + d));
    assert Emitted(u, 4) == e + a + b;
    assert Emitted(u, 6) == e + a + b + c + d;
    Assoc(e + a + b, c, d);
    Assoc(e + a, b, c + d);
    Assoc(e, a, b + (c + d));
  }

  lemma EmittedBody(u: Uri)
    ensures Emitted(u, 8) == Emitted(u, 1) +
            (Part("", u.opaquePart) + (Authority(u) + Part("", u.path)) + Part("?", u.query))
  {
    var e, a, b, c, d := Emitted(u, 1), FieldText(u, 1), Authority(u), FieldText(u, 6), FieldText(u, 7);
    FieldIsPart(u, 1);
    FieldIsPart(u, 6);
    FieldIsPart(u, 7);
    EmittedAuthority(u);
    assert Emitted(u, 8) == e + a + b + c + d;
    Assoc(e + a, b, c);
    Assoc(e, a, b + c);
    Assoc(e, a + (b + c), d);
  }

  lemma SuffixIs(host: bool)
    ensures (if host then "://" else ":") == [':'] + (if host then "//" else "")
  {
  }

  lemma EmittedScheme(u: Uri)
    ensures Emitted(u, 1) == if u.scheme.Some? then u.scheme.value + ([':'] + (if u.host.Some? then "//" else ""))
            else ""
  {
    assert Emitted(u, 1) == "" + FieldText(u, 0) == FieldText(u, 0);
    if u.scheme.Some? {
      SuffixIs(u.host.Some?);
      assert FieldText(u, 0) == "" + u.scheme.value + SuffixOf(u, 0) == u.scheme.value + SuffixOf(u, 0);
    }
  }

  /** The fields in order are the formatted URI. */
  lemma EmittedAll(u: Uri)
    ensures Emitted(u, 9) == Join(u)
  {
    var b := Part("", u.opaquePart) + (Authority(u) + Part("", u.path));
    var q := Part("?", u.query);
    EmittedBody(u);
    EmittedScheme(u);
    FieldIsPart(u, 8);
    if u.scheme.Some? {
      var s, n := u.scheme.value, if u.host.Some? then "//" else "";
      Assoc(s, [':'] + n, b + q);
      Assoc([':'], n, b + q);
      Assoc(n, b, q);
    } else {
      assert "" + b == b && "" + (b + q) == b + q;
    }
  }
}
