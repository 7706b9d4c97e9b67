/** Characters, searching, and the percent-encoding of URI fields. */
module UriText {
  import opened Strings

  /** strchr(): the position of the first c, or the length of the string. */
  function Find(s: string, c: char): (i: nat)
    ensures i <= |s| && c !in s[..i] && (i < |s| ==> s[i] == c)
  {
    if s == [] || s[0] == c then 0 else
      var i := 1 + Find(s[1..], c);
      assert s[..i] == [s[0]] + s[1..][..i - 1];
      i
  }

  lemma FindIs(s: string, c: char, i: nat)
    requires i <= |s| && c !in s[..i] && (i < |s| ==> s[i] == c)
    ensures Find(s, c) == i
  {
  }

  /** A string without c in front of another does not change where c is found. */
  lemma FindSkip(x: string, y: string, c: char)
    requires c !in x
    ensures Find(x + y, c) == |x| + Find(y, c)
  {
    var i := |x| + Find(y, c);
    assert (x + y)[..i] == x + y[..Find(y, c)];
    FindIs(x + y, c, i);
  }

  /** strrchr(): one more than the position of the last c, or zero. */
  function FindLast(s: string, c: char): (i: nat)
    ensures i <= |s| && c !in s[i..] && (i > 0 ==> s[i - 1] == c)
  {
    if s == [] then 0
    else if s[|s| - 1] == c then |s|
    else
      var i := FindLast(s[..|s| - 1], c);
      assert s[i..] == s[..|s| - 1][i..] + [s[|s| - 1]];
      i
  }

  lemma FindLastIs(s: string, c: char, i: nat)
    requires i <= |s| && c !in s[i..] && (i > 0 ==> s[i - 1] == c)
    ensures FindLast(s, c) == i
  {
  }

  /** The string that a buffer holds up to its first NUL. */
  function CutNul(s: string): string {
    s[..Find(s, NUL)]
  }

  lemma CutNulFree(s: string)
    requires NUL !in s
    ensures CutNul(s) == s
  {
  }

  // ---------------------------------------------------------------------
  // Hexadecimal
  // ---------------------------------------------------------------------

  /** digit_value(), with unsigned wrap-around below '0'. */
  function DigitValue(c: char): nat {
    if c >= 'a' then c as int - 87
    else if c >= 'A' then c as int - 55
    else if c >= '0' && c <= '9' then c as int - 48
    else if c < '0' then c as int - 48 + 0x1_0000_0000
    else c as int
  }

  function Spaces(s: string): (n: nat)
    ensures n <= |s|
  {
    if s != [] && IsSpace(s[0]) then 1 + Spaces(s[1..]) else 0
  }

  /** Number of hexadecimal digits at the start of a string. */
  function Digits(s: string): (n: nat)
    ensures n <= |s|
  {
    if s != [] && DigitValue(s[0]) < 16 then 1 + Digits(s[1..]) else 0
  }

  function Value(digits: string): nat {
    if digits == [] then 0 else Value(digits[..|digits| - 1]) * 16 + DigitValue(digits[|digits| - 1])
  }

  /** strtoul() in base 16: characters consumed, and the low byte of the value. */
  function ScanHex(s: string): (r: (nat, nat))
    ensures r.0 <= |s| && r.1 < 256
  {
    var n := Spaces(s);
    var negate := n < |s| && s[n] == '-';
    var m := if n < |s| && (s[n] == '-' || s[n] == '+') then n + 1 else n;
    var k := Digits(s[m..]);
    var v: int := Value(s[m..m + k]);
    (m + k, (if negate then -v else v) % 256)
  }

  function FirstTwo(s: string): string {
    if |s| <= 2 then s else s[..2]
  }

  /** uri_decode(): an escape reads at most two characters; one that reads none stands for itself. */
  function Decode(s: string): (d: string)
    ensures |d| <= |s|
    decreases |s|
  {
    if s == [] then []
    else if s[0] == '%' && ScanHex(FirstTwo(s[1..])).0 > 0 then
      var h := ScanHex(FirstTwo(s[1..]));
      [h.1 as char] + Decode(s[1 + h.0..])
    else [s[0]] + Decode(s[1..])
  }

  function HexDigit(n: nat): char
    requires n < 16
  {
    if n < 10 then (48 + n) as char else (55 + n) as char
  }

  lemma ScanPair(a: nat, b: nat)
    requires a < 16 && b < 16
    ensures ScanHex([HexDigit(a), HexDigit(b)]) == (2, 16 * a + b)
  {
    var s := [HexDigit(a), HexDigit(b)];
    assert DigitValue(s[0]) == a && DigitValue(s[1]) == b && !IsSpace(s[0]);
    assert s[1..] == [s[1]] && Digits([s[1]]) == 1 && Digits(s) == 2;
    assert s[0..] == s && s[0..2] == s && s[..1] == [s[0]] && [s[0]][..0] == [];
    assert Value([s[0]]) == a && Value(s) == a * 16 + b;
  }

  // ---------------------------------------------------------------------
  // Encoding
  // ---------------------------------------------------------------------

  datatype Field = Scheme | OpaquePart | User | Password | Host | Port | Path | Query | Fragment

  /** Characters with a meaning to the parser that each field escapes. */
  function Special(f: Field): set<char> {
    match f
    case Scheme => {'/', '#', ':', '@', '?', '=', '&'}
    case OpaquePart => {'#'}
    case User => {'/', '#', ':', '@', '?'}
    case Password => {'/', '#', ':', '@', '?'}
    case Host => {'/', '#', '@', '?'}
    case Port => {'/', '#', ':', '@', '?'}
    case Path => {'#', ':', '@', '?'}
    case Query => {'#', ':', '@', '?'}
    case Fragment => {'/', '#', ':', '@', '?'}
  }

  /** uri_character_escaped() */
  predicate Escaped(f: Field, c: char) {
    !(' ' <= c <= '~') || c == ' ' || c == '%' || c in Special(f)
  }

  /** A NUL-free string of 7-bit characters. */
  predicate Ascii(s: string) {
    forall i :: 0 <= i < |s| ==> 0 < s[i] as int < 128
  }

  function EncodeChar(f: Field, c: char): string
    requires c as int < 128
  {
    if Escaped(f, c) then ['%', HexDigit(c as int / 16), HexDigit(c as int % 16)] else [c]
  }

  /** uri_encode() */
  function Encode(f: Field, s: string): string
    requires Ascii(s)
  {
    if s == [] then [] else EncodeChar(f, s[0]) + Encode(f, s[1..])
  }

  lemma DecodeChar(f: Field, c: char, rest: string)
    requires 0 < c as int < 128
    ensures Decode(EncodeChar(f, c) + rest) == [c] + Decode(rest)
  {
    var e := EncodeChar(f, c) + rest;
    if Escaped(f, c) {
      var a, b := c as int / 16, c as int % 16;
      assert FirstTwo(e[1..]) == [HexDigit(a), HexDigit(b)];
      ScanPair(a, b);
      assert e[3..] == rest;
    } else {
      assert e[1..] == rest;
    }
  }

  /** Decoding undoes encoding. */
  lemma {:induction false} DecodeEncode(f: Field, s: string)
    requires Ascii(s)
    ensures Decode(Encode(f, s)) == s
  {
    if s != [] {
      DecodeEncode(f, s[1..]);
      DecodeChar(f, s[0], Encode(f, s[1..]));
    }
  }

  /** Characters that can occur in an encoded field. */
  predicate Plain(f: Field, c: char) {
    ' ' < c <= '~' && c !in Special(f)
  }

  lemma HexPlain(f: Field, n: nat)
    requires n < 16
    ensures Plain(f, HexDigit(n)) && Plain(f, '%') && HexDigit(n) != ']'
  {
  }

  predicate AllPlain(f: Field, s: string) {
    forall i :: 0 <= i < |s| ==> Plain(f, s[i])
  }

  lemma {:induction false} EncodePlain(f: Field, s: string)
    requires Ascii(s)
    ensures AllPlain(f, Encode(f, s)) && (s == [] <==> Encode(f, s) == [])
  {
    if s != [] {
      EncodePlain(f, s[1..]);
      var c := s[0] as int;
      HexPlain(f, c / 16);
      HexPlain(f, c % 16);
    }
  }

  lemma {:induction false} EncodeConcat(f: Field, s: string, t: string)
    requires Ascii(s) && Ascii(t) && Ascii(s + t)
    ensures Encode(f, s + t) == Encode(f, s) + Encode(f, t)
    decreases |s|
  {
    if s == [] {
      assert s + t == t;
    } else {
      var rest := s[1..] + t;
      assert (s + t)[1..] == rest && (s + t)[0] == s[0];
      assert Ascii(rest);
      EncodeConcat(f, s[1..], t);
      assert EncodeChar(f, s[0]) + (Encode(f, s[1..]) + Encode(f, t)) == Encode(f, s) + Encode(f, t);
    }
  }

  /** A character that is never escaped occurs in the encoding exactly where the text has it first. */
  lemma {:induction false} EncodeFind(f: Field, s: string, c: char)
    requires Ascii(s) && !Escaped(f, c) && !(DigitValue(c) < 16)
    ensures c in Encode(f, s) <==> c in s
    ensures c in s ==> Find(Encode(f, s), c) == |Encode(f, s[..Find(s, c)])|
  {
    if s != [] {
      var e := EncodeChar(f, s[0]);
      EncodeFind(f, s[1..], c);
      NotInEscape(f, s[0], c);
      if s[0] == c {
        assert s[..0] == [];
      } else {
        FindSkip(e, Encode(f, s[1..]), c);
        if c in s {
          var k := Find(s[1..], c);
          assert Find(s, c) == k + 1;
          assert s[..k + 1][1..] == s[1..][..k];
        }
      }
    }
  }

  lemma NotInEscape(f: Field, d: char, c: char)
    requires 0 < d as int < 128 && !Escaped(f, c) && !(DigitValue(c) < 16)
    ensures c in EncodeChar(f, d) <==> c == d
  {
  }

  /** The last character, when it is one that is never escaped and not a hexadecimal digit. */
  lemma {:induction false} EncodeLast(f: Field, s: string, c: char)
    requires Ascii(s) && s != [] && !Escaped(f, c) && !(DigitValue(c) < 16)
    ensures Encode(f, s) != [] && (Encode(f, s)[|Encode(f, s)| - 1] == c <==> s[|s| - 1] == c)
  {
    NotInEscape(f, s[0], c);
    if |s| > 1 {
      EncodeLast(f, s[1..], c);
    } else {
      assert Encode(f, s[1..]) == [];
      var e := EncodeChar(f, s[0]);
      assert Encode(f, s) == e && e[|e| - 1] in e;
    }
  }
}
