/** URIs character by character: what is escaped in which field, and which character separates which fields. */
module UriStandard {
  import opened Options
  import opened Strings
  import opened UriText
  import opened UriModel

  /** isspace() */
  lemma SpacesAre(c: char)
    ensures IsSpace(c) <==> c in " \t\n\r" || c as int == 11 || c as int == 12
  {
  }

  /** Printing characters other than '%' that a field holds unescaped, although they separate fields. */
  predicate Stays(f: Field, c: char) {
    && '!' <= c <= '~' && c != '%' && c != '#'
    && (c == '/' ==> f == Path || f == Query || f == OpaquePart)
    && (c == ':' ==> f == Host || f == OpaquePart)
    && (c == '@' ==> f == OpaquePart)
    && (c == '?' ==> f == OpaquePart)
    && (c == '=' || c == '&' ==> f != Scheme)
  }

  lemma EscapedIff(f: Field, c: char)
    ensures Escaped(f, c) <==> !Stays(f, c)
  {
  }

  /** A text is its own encoding exactly if it holds only such characters. */
  lemma {:induction false} EncodeSelfIff(f: Field, s: string)
    requires Ascii(s)
    ensures |Encode(f, s)| >= |s| && (Encode(f, s) == s <==> forall i :: 0 <= i < |s| ==> Stays(f, s[i]))
  {
    if s != [] {
      EncodeSelfIff(f, s[1..]);
      EscapedIff(f, s[0]);
      if Stays(f, s[0]) {
        assert Encode(f, s) == [s[0]] + Encode(f, s[1..]) && Encode(f, s)[1..] == Encode(f, s[1..]);
        assert s == [s[0]] + s[1..];
        if forall i :: 0 <= i < |s| ==> Stays(f, s[i]) {
          forall i | 0 <= i < |s[1..]| ensures Stays(f, s[1..][i]) { assert s[1..][i] == s[i + 1]; }
        }
        if forall i :: 0 <= i < |s[1..]| ==> Stays(f, s[1..][i]) {
          forall i | 0 <= i < |s| ensures Stays(f, s[i]) { if i > 0 { assert s[i] == s[1..][i - 1]; } }
        }
      } else {
        assert |Encode(f, s)| > |s|;
      }
    }
  }

  /** Any other character is written as a percent sign and two hexadecimal digits. */
  lemma EncodeOther(f: Field, c: char)
    requires 0 < c as int < 128 && !Stays(f, c)
    ensures EncodeChar(f, c) == ['%', "0123456789ABCDEF"[c as int / 16], "0123456789ABCDEF"[c as int % 16]]
  {
    EscapedIff(f, c);
  }

  // ---------------------------------------------------------------------
  // Which character separates which fields, section 3 of RFC 3986
  // ---------------------------------------------------------------------

  lemma WithAuthority(scheme: string, user: string, password: string, host: string, port: string, path: string,
                      query: string, fragment: string)
    ensures Join(Uri(Some(scheme), None, Some(user), Some(password), Some(host), Some(port), Some(path), Some(query),
                     Some(fragment))) ==
            scheme + "://" + user + ":" + password + "@" + host + ":" + port + path + "?" + query + "#" + fragment
  {
  }

  lemma WithHost(scheme: string, host: string, path: string)
    ensures Join(Uri(Some(scheme), None, None, None, Some(host), None, Some(path), None, None)) ==
            scheme + "://" + host + path
  {
  }

  lemma WithoutAuthority(scheme: string, path: string, query: string)
    ensures Join(Uri(Some(scheme), None, None, None, None, None, Some(path), Some(query), None)) ==
            scheme + ":" + path + "?" + query
  {
  }

  lemma Opaque(scheme: string, part: string)
    ensures Join(Uri(Some(scheme), Some(part), None, None, None, None, None, None, None)) == scheme + ":" + part
  {
  }

  lemma Relative(path: string, query: string, fragment: string)
    ensures Join(Uri(None, None, None, None, None, None, Some(path), Some(query), Some(fragment))) ==
            path + "?" + query + "#" + fragment
  {
  }
}
