/** Base64 as groups of six bits: encoding, decoding, and the round trip. */
module Base64 {
  import opened Options
  import opened Powers
  import opened Strings

  type Byte = x: nat | x < 256
  type Sextet = x: nat | x < 64

  /** Byte k, or zero beyond the end. */
  function B(raw: seq<Byte>, k: nat): Byte {
    if k < |raw| then raw[k] else 0
  }

  /** The four sextets of three bytes. */
  function S0(a: Byte): Sextet { a / 4 }
  function S1(a: Byte, b: Byte): Sextet { a % 4 * 16 + b / 16 }
  function S2(b: Byte, c: Byte): Sextet { b % 16 * 4 + c / 64 }
  function S3(c: Byte): Sextet { c % 64 }

  function SextetOf(a: Byte, b: Byte, c: Byte, i: nat): Sextet {
    if i == 0 then S0(a) else if i == 1 then S1(a, b) else if i == 2 then S2(b, c) else S3(c)
  }

  // ---------------------------------------------------------------------
  // The alphabet
  // ---------------------------------------------------------------------

  function CharOf(v: Sextet): char {
    if v < 26 then (65 + v) as char else if v < 52 then (71 + v) as char else if v < 62 then (v - 4) as char
    else if v == 62 then '+' else '/'
  }

  function ValueOf(c: char): Option<Sextet> {
    if 'A' <= c <= 'Z' then Some(c as int - 65) else if 'a' <= c <= 'z' then Some(c as int - 71)
    else if '0' <= c <= '9' then Some(c as int + 4)
      else if c == '+' then Some(62) else if c == '/' then Some(63) else None
  }

  /** Table 1 of RFC 4648: capital letters, small letters, digits, and two other characters. */
  lemma CharIs(v: Sextet)
    ensures v < 26 ==> CharOf(v) as int == 'A' as int + v
    ensures 26 <= v < 52 ==> CharOf(v) as int == 'a' as int + (v - 26)
    ensures 52 <= v < 62 ==> CharOf(v) as int == '0' as int + (v - 52)
    ensures v == 62 ==> CharOf(v) == '+'
    ensures v == 63 ==> CharOf(v) == '/'
  {
  }

  lemma CharValue(v: Sextet)
    ensures ValueOf(CharOf(v)) == Some(v) && !IsSpace(CharOf(v)) && CharOf(v) != '=' && CharOf(v) != '\0'
  {
  }

  // ---------------------------------------------------------------------
  // Encoding
  // ---------------------------------------------------------------------

  /** Six bits from bit 6 * k on, as the encoder extracts them. */
  function SextetAt(raw: seq<Byte>, k: nat): Sextet
    requires 6 * k < 8 * |raw|
  {
    var byte, shift := 6 * k / 8, 6 * k % 8;
    var next := if byte + 1 < |raw| then raw[byte + 1] / Pow2(8 - shift) else 0;
    (raw[byte] * Pow2(shift) + next) / 4 % 64
  }

  /** The same six bits of a group of three bytes, section 4 of RFC 4648. */
  function GroupSextet(a: nat, b: nat, c: nat, i: nat): nat {
    var g := a * 65536 + b * 256 + c;
    if i == 0 then g / 262144 else if i == 1 then g / 4096 % 64 else if i == 2 then g / 64 % 64 else g % 64
  }

  lemma GroupParts(a: Byte, b: Byte, c: Byte)
    ensures GroupSextet(a, b, c, 0) == S0(a) && GroupSextet(a, b, c, 1) == S1(a, b)
    ensures GroupSextet(a, b, c, 2) == S2(b, c) && GroupSextet(a, b, c, 3) == S3(c)
  {
    var g := a * 65536 + b * 256 + c;
    ModUnique(g, a / 4, a % 4 * 65536 + b * 256 + c, 262144);
    ModUnique(g, a * 16 + b / 16, b % 16 * 256 + c, 4096);
    ModUnique(a * 16 + b / 16, a / 4, a % 4 * 16 + b / 16, 64);
    ModUnique(g, a * 1024 + b * 4 + c / 64, c % 64, 64);
    ModUnique(a * 1024 + b * 4 + c / 64, a * 16 + b / 16, b % 16 * 4 + c / 64, 64);
  }

  /** The position of a sextet: 4 * m + i. */
  lemma Position(m: nat, i: nat)
    requires i < 4
    ensures 6 * (4 * m + i) / 8 == 3 * m + (if i == 0 then 0 else i - 1)
    ensures 6 * (4 * m + i) % 8 == (if i == 0 then 0 else 8 - 2 * i)
  {
  }

  /** What the encoder's shifts amount to, for the byte x at the start and the byte y that follows. */
  function Extract(x: nat, y: nat, shift: nat): nat
    requires shift <= 8
  {
    (x * Pow2(shift) + y / Pow2(8 - shift)) / 4 % 64
  }

  /** The shifts that occur. */
  lemma Eight()
    ensures Pow2(8) == 256 && Pow2(6) == 64 && Pow2(4) == 16 && Pow2(2) == 4
  {
  }

  lemma ExtractMiddle(x: Byte, y: Byte)
    ensures Extract(x, y, 6) == S1(x, y) && Extract(x, y, 4) == S2(x, y)
  {
    Eight();
    ModUnique(x * 64 + y / 4, x * 16 + y / 16, y / 4 % 4, 4);
    ModUnique(x * 16 + y / 16, x / 4, x % 4 * 16 + y / 16, 64);
    ModUnique(x * 16 + y / 16, x * 4 + y / 64, y / 16 % 4, 4);
    ModUnique(x * 4 + y / 64, x / 16, x % 16 * 4 + y / 64, 64);
  }

  lemma ExtractEnds(x: Byte, y: Byte)
    ensures Extract(x, y, 0) == S0(x) && Extract(x, y, 2) == S3(x)
  {
    Eight();
  }

  lemma SextetExtracts(raw: seq<Byte>, k: nat)
    requires 6 * k < 8 * |raw|
    ensures SextetAt(raw, k) == Extract(raw[6 * k / 8], B(raw, 6 * k / 8 + 1), 6 * k % 8)
  {
  }

  lemma SextetParts(raw: seq<Byte>, m: nat, i: nat)
    requires i < 4 && 6 * (4 * m + i) < 8 * |raw|
    ensures SextetAt(raw, 4 * m + i) == SextetOf(B(raw, 3 * m), B(raw, 3 * m + 1), B(raw, 3 * m + 2), i)
  {
    var k := 4 * m + i;
    Position(m, i);
    SextetExtracts(raw, k);
    ExtractEnds(raw[6 * k / 8], B(raw, 6 * k / 8 + 1));
    ExtractMiddle(raw[6 * k / 8], B(raw, 6 * k / 8 + 1));
  }

  /** The encoder produces the sextets of RFC 4648, with missing bytes as zeros. */
  lemma SextetIsGroup(raw: seq<Byte>, m: nat, i: nat)
    requires i < 4 && 6 * (4 * m + i) < 8 * |raw|
    ensures SextetAt(raw, 4 * m + i) == GroupSextet(B(raw, 3 * m), B(raw, 3 * m + 1), B(raw, 3 * m + 2), i)
  {
    SextetParts(raw, m, i);
    GroupParts(B(raw, 3 * m), B(raw, 3 * m + 1), B(raw, 3 * m + 2));
  }

  /** Number of sextets that hold at least one bit. */
  function SextetCount(n: nat): nat {
    (4 * n + 2) / 3
  }

  lemma CountIs(n: nat, k: nat)
    ensures 6 * k < 8 * n <==> k < SextetCount(n)
  {
  }

  function PadCount(n: nat): nat {
    if n % 3 == 0 then 0 else 3 - n % 3
  }

  function EncodedLen(n: nat): nat {
    4 * ((n + 2) / 3)
  }

  lemma Lengths(n: nat)
    ensures SextetCount(n) + PadCount(n) == EncodedLen(n) && 6 * SextetCount(n) - 2 * PadCount(n) == 8 * n
  {
    var g, t := n / 3, n % 3;
    assert n == 3 * g + t;
    if t == 0 {
      ModUnique(4 * n + 2, 4 * g, 2, 3);
      ModUnique(n + 2, g, 2, 3);
    } else if t == 1 {
      ModUnique(4 * n + 2, 4 * g + 2, 0, 3);
      ModUnique(n + 2, g + 1, 0, 3);
    } else {
      ModUnique(4 * n + 2, 4 * g + 3, 1, 3);
      ModUnique(n + 2, g + 1, 1, 3);
    }
  }

  function Sextets(raw: seq<Byte>): (vs: seq<Sextet>)
    ensures |vs| == SextetCount(|raw|)
  {
    seq(SextetCount(|raw|), k requires 0 <= k < SextetCount(|raw|) => CountIs(|raw|, k); SextetAt(raw, k))
  }

  function Chars(vs: seq<Sextet>): (s: string)
    ensures |s| == |vs|
  {
    if vs == [] then [] else [CharOf(vs[0])] + Chars(vs[1..])
  }

  function Pads(n: nat): (s: string)
    ensures |s| == n
  {
    if n == 0 then [] else ['='] + Pads(n - 1)
  }

  function Encode(raw: seq<Byte>): string {
    Chars(Sextets(raw)) + Pads(PadCount(|raw|))
  }

  lemma EncodeLength(raw: seq<Byte>)
    ensures |Encode(raw)| == EncodedLen(|raw|)
  {
    Lengths(|raw|);
  }

  // ---------------------------------------------------------------------
  // Decoding
  // ---------------------------------------------------------------------

  /** The sextets and the number of pad characters read so far, or an error. */
  datatype Scanned = Scanned(vs: seq<Sextet>, pads: nat) | Bad

  function ScanChar(s: Scanned, c: char): Scanned {
    if s.Bad? || IsSpace(c) then s
    else if c == '=' then (if s.pads >= 2 then Bad else s.(pads := s.pads + 1))
    else if s.pads > 0 then Bad
    else if ValueOf(c).None? then Bad
    else s.(vs := s.vs + [ValueOf(c).value])
  }

  function Scan(s: Scanned, text: string): Scanned
    decreases |text|
  {
    if text == [] then s else Scan(ScanChar(s, text[0]), text[1..])
  }

  function V(vs: seq<Sextet>, k: nat): Sextet {
    if k < |vs| then vs[k] else 0
  }

  /** The bytes that pairs of neighbouring sextets make up. */
  function First(v: Sextet, w: Sextet): Byte { v * 4 + w / 16 }
  function Second(v: Sextet, w: Sextet): Byte { v % 16 * 16 + w / 4 }
  function Third(v: Sextet, w: Sextet): Byte { v % 4 * 64 + w }

  /** Byte r of group n of a sequence of sextets, with missing ones as zeros. */
  function ByteIn(vs: seq<Sextet>, n: nat, r: nat): Byte {
    if r == 0 then First(V(vs, 4 * n), V(vs, 4 * n + 1))
    else if r == 1 then Second(V(vs, 4 * n + 1), V(vs, 4 * n + 2))
    else Third(V(vs, 4 * n + 2), V(vs, 4 * n + 3))
  }

  function ByteAt(vs: seq<Sextet>, j: nat): Byte {
    ByteIn(vs, j / 3, j % 3)
  }

  function Bytes(vs: seq<Sextet>, n: nat): (bs: seq<Byte>)
    ensures |bs| == n
  {
    seq(n, j requires 0 <= j => ByteAt(vs, j))
  }

  function Decode(text: string): Option<seq<Byte>> {
    var s := Scan(Scanned([], 0), text);
    if s.Bad? || (6 * |s.vs| - 2 * s.pads) % 8 != 0 || 6 * |s.vs| < 2 * s.pads then None
    else Some(Bytes(s.vs, (6 * |s.vs| - 2 * s.pads) / 8))
  }

  /** A character, unless it is whitespace. */
  function Kept(c: char): string {
    if IsSpace(c) then [] else [c]
  }

  /** The text without whitespace. */
  function Strip(text: string): string {
    if text == [] then [] else Kept(text[0]) + Strip(text[1..])
  }

  lemma {:induction false} ScanStrip(s: Scanned, text: string)
    ensures Scan(s, text) == Scan(s, Strip(text))
    decreases |text|
  {
    if text != [] {
      ScanStrip(ScanChar(s, text[0]), text[1..]);
      if IsSpace(text[0]) {
        assert Strip(text) == Strip(text[1..]);
      } else {
        assert Strip(text)[1..] == Strip(text[1..]);
      }
    }
  }

  lemma {:induction false} ScanConcat(s: Scanned, x: string, y: string)
    ensures Scan(s, x + y) == Scan(Scan(s, x), y)
    decreases |x|
  {
    if x == [] {
      assert x + y == y;
    } else {
      assert (x + y)[1..] == x[1..] + y;
      ScanConcat(ScanChar(s, x[0]), x[1..], y);
    }
  }

  lemma {:induction false} ScanChars(us: seq<Sextet>, vs: seq<Sextet>)
    ensures Scan(Scanned(us, 0), Chars(vs)) == Scanned(us + vs, 0)
    decreases |vs|
  {
    if vs == [] {
      assert us + vs == us;
    } else {
      CharValue(vs[0]);
      assert Chars(vs)[1..] == Chars(vs[1..]);
      ScanChars(us + [vs[0]], vs[1..]);
      assert us + [vs[0]] + vs[1..] == us + vs;
    }
  }

  lemma ScanPads(vs: seq<Sextet>, n: nat)
    requires n <= 2
    ensures Scan(Scanned(vs, 0), Pads(n)) == Scanned(vs, n)
  {
    assert Pads(1) == ['='] && Pads(2) == ['=', '='] && ['=', '='][1..] == ['='] && ['='][1..] == [];
  }

  lemma FirstByte(a: Byte, b: Byte)
    ensures First(S0(a), S1(a, b)) == a
  {
  }

  lemma SecondByte(a: Byte, b: Byte, c: Byte)
    ensures Second(S1(a, b), S2(b, c)) == b
  {
    ModUnique(a % 4 * 16 + b / 16, a % 4, b / 16, 16);
    ModUnique(b % 16 * 4 + c / 64, b % 16, c / 64, 4);
  }

  lemma ThirdByte(b: Byte, c: Byte)
    ensures Third(S2(b, c), S3(c)) == c
  {
    ModUnique(b % 16 * 4 + c / 64, b % 16, c / 64, 4);
  }

  /** Sextet 4 * m + i of the encoding. */
  lemma SextetBack(raw: seq<Byte>, m: nat, i: nat)
    requires i < 4 && 6 * (4 * m + i) < 8 * |raw|
    ensures V(Sextets(raw), 4 * m + i) == SextetOf(B(raw, 3 * m), B(raw, 3 * m + 1), B(raw, 3 * m + 2), i)
  {
    CountIs(|raw|, 4 * m + i);
    SextetParts(raw, m, i);
  }

  lemma FirstBack(raw: seq<Byte>, m: nat)
    requires 3 * m < |raw|
    ensures First(V(Sextets(raw), 4 * m), V(Sextets(raw), 4 * m + 1)) == raw[3 * m]
  {
    SextetBack(raw, m, 0);
    SextetBack(raw, m, 1);
    FirstByte(raw[3 * m], B(raw, 3 * m + 1));
  }

  lemma SecondBack(raw: seq<Byte>, m: nat)
    requires 3 * m + 1 < |raw|
    ensures Second(V(Sextets(raw), 4 * m + 1), V(Sextets(raw), 4 * m + 2)) == raw[3 * m + 1]
  {
    SextetBack(raw, m, 1);
    SextetBack(raw, m, 2);
    SecondByte(raw[3 * m], raw[3 * m + 1], B(raw, 3 * m + 2));
  }

  lemma ThirdBack(raw: seq<Byte>, m: nat)
    requires 3 * m + 2 < |raw|
    ensures Third(V(Sextets(raw), 4 * m + 2), V(Sextets(raw), 4 * m + 3)) == raw[3 * m + 2]
  {
    SextetBack(raw, m, 2);
    SextetBack(raw, m, 3);
    ThirdByte(raw[3 * m + 1], raw[3 * m + 2]);
  }

  lemma ByteInBack(raw: seq<Byte>, n: nat, r: nat)
    requires r < 3 && 3 * n + r < |raw|
    ensures ByteIn(Sextets(raw), n, r) == raw[3 * n + r]
  {
    if r == 0 { FirstBack(raw, n); } else if r == 1 { SecondBack(raw, n); } else { ThirdBack(raw, n); }
  }

  lemma ByteBack(raw: seq<Byte>, j: nat)
    requires j < |raw|
    ensures ByteAt(Sextets(raw), j) == raw[j]
  {
    ByteInBack(raw, j / 3, j % 3);
  }

  lemma BytesBack(raw: seq<Byte>)
    ensures Bytes(Sextets(raw), |raw|) == raw
  {
    forall j: nat | j < |raw| ensures Bytes(Sextets(raw), |raw|)[j] == raw[j] { ByteBack(raw, j); }
  }

  lemma ScanEncoded(raw: seq<Byte>)
    ensures Scan(Scanned([], 0), Encode(raw)) == Scanned(Sextets(raw), PadCount(|raw|))
  {
    var vs := Sextets(raw);
    ScanConcat(Scanned([], 0), Chars(vs), Pads(PadCount(|raw|)));
    ScanChars([], vs);
    assert [] + vs == vs;
    ScanPads(vs, PadCount(|raw|));
  }

  lemma DecodeScanned(text: string, vs: seq<Sextet>, pads: nat, n: nat)
    requires Scan(Scanned([], 0), text) == Scanned(vs, pads) && 6 * |vs| - 2 * pads == 8 * n
    ensures Decode(text) == Some(Bytes(vs, n))
  {
  }

  lemma ScanCharShape(vs: seq<Sextet>, pads: nat, c: char, t: Scanned)
    requires t == ScanChar(Scanned(vs, pads), c) && t.Scanned? && pads <= 2
    ensures t.pads <= 2 && Chars(vs) + Pads(pads) + Kept(c) == Chars(t.vs) + Pads(t.pads)
  {
    if !IsSpace(c) {
      if c == '=' {
        PadsSnoc(pads);
        assert Chars(vs) + Pads(pads) + [c] == Chars(vs) + (Pads(pads) + [c]);
      } else {
        CharsSnoc(vs, ValueOf(c).value);
        ValueChar(c);
      }
    }
  }

  /** The text that a scan has read. */
  lemma {:induction false} ScanShape(vs: seq<Sextet>, pads: nat, text: string, s: Scanned)
    requires s == Scan(Scanned(vs, pads), text) && s.Scanned? && pads <= 2
    ensures s.pads <= 2 && Chars(vs) + Pads(pads) + Strip(text) == Chars(s.vs) + Pads(s.pads)
    decreases |text|
  {
    if text == [] {
      assert Chars(vs) + Pads(pads) + [] == Chars(vs) + Pads(pads);
    } else {
      var t := ScanChar(Scanned(vs, pads), text[0]);
      ScanBad(text[1..]);
      ScanCharShape(vs, pads, text[0], t);
      ScanShape(t.vs, t.pads, text[1..], s);
      assert Strip(text) == Kept(text[0]) + Strip(text[1..]);
      Associate(Chars(vs) + Pads(pads), Kept(text[0]), Strip(text[1..]));
    }
  }

  lemma Associate(x: string, y: string, z: string)
    ensures x + (y + z) == x + y + z
  {
  }

  lemma ValueChar(c: char)
    requires ValueOf(c).Some?
    ensures CharOf(ValueOf(c).value) == c
  {
  }

  lemma {:induction false} ScanBad(text: string)
    ensures Scan(Bad, text) == Bad
    decreases |text|
  {
    if text != [] { ScanBad(text[1..]); }
  }

  lemma {:induction false} CharsSnoc(vs: seq<Sextet>, v: Sextet)
    ensures Chars(vs + [v]) == Chars(vs) + [CharOf(v)]
  {
    if vs == [] {
      assert [v][1..] == [];
    } else {
      assert (vs + [v])[1..] == vs[1..] + [v];
      CharsSnoc(vs[1..], v);
    }
  }

  lemma {:induction false} PadsSnoc(n: nat)
    ensures Pads(n + 1) == Pads(n) + ['=']
  {
    if n > 0 { PadsSnoc(n - 1); }
  }

  /** A text of whole groups of four characters, of which at most the last two are padding. */
  ghost predicate Groups(text: string, vs: seq<Sextet>, pads: nat) {
    text == Chars(vs) + Pads(pads) && pads <= 2 && (|vs| + pads) % 4 == 0
  }

  lemma GroupBitsAt(g: nat, t: nat, pads: nat, bits: int)
    requires t < 4 && bits == 24 * g + 6 * t - 8 * pads
    ensures bits % 8 == 0 <==> t == 0
  {
    if t == 0 {
      ModUnique(bits, 3 * g - pads, 0, 8);
    } else if t == 1 {
      ModUnique(bits, 3 * g - pads, 6, 8);
    } else if t == 2 {
      ModUnique(bits, 3 * g - pads + 1, 4, 8);
    } else {
      ModUnique(bits, 3 * g - pads + 2, 2, 8);
    }
  }

  lemma GroupBits(q: nat, pads: nat)
    requires pads <= 2
    ensures (6 * q - 2 * pads) % 8 == 0 <==> (q + pads) % 4 == 0
    ensures (q + pads) % 4 == 0 ==> 6 * q >= 2 * pads
  {
    var g, t := (q + pads) / 4, (q + pads) % 4;
    assert q + pads == 4 * g + t;
    GroupBitsAt(g, t, pads, 6 * q - 2 * pads);
  }

  lemma ScanGroups(text: string, vs: seq<Sextet>, pads: nat)
    requires Groups(Strip(text), vs, pads)
    ensures Scan(Scanned([], 0), text) == Scanned(vs, pads)
  {
    ScanStrip(Scanned([], 0), text);
    ScanConcat(Scanned([], 0), Chars(vs), Pads(pads));
    ScanChars([], vs);
    assert [] + vs == vs;
    ScanPads(vs, pads);
  }

  /** The decoder accepts exactly the texts of whole groups, whitespace aside; unused bits may be anything. */
  lemma DecodeIff(text: string)
    ensures Decode(text).Some? <==> exists vs, pads :: Groups(Strip(text), vs, pads)
  {
    var s := Scan(Scanned([], 0), text);
    if s.Scanned? {
      ScanShape([], 0, text, s);
      assert Chars([]) + Pads(0) + Strip(text) == Strip(text);
      GroupBits(|s.vs|, s.pads);
      assert Decode(text).Some? ==> Groups(Strip(text), s.vs, s.pads);
    }
    if vs, pads :| Groups(Strip(text), vs, pads) {
      ScanGroups(text, vs, pads);
      GroupBits(|vs|, pads);
    }
  }

  /** Decoding an encoding gives the data back, wherever whitespace has been inserted. */
  lemma DecodeEncode(raw: seq<Byte>, text: string)
    requires Strip(text) == Encode(raw)
    ensures Decode(text) == Some(raw)
  {
    ScanStrip(Scanned([], 0), text);
    ScanEncoded(raw);
    Lengths(|raw|);
    DecodeScanned(text, Sextets(raw), PadCount(|raw|), |raw|);
    BytesBack(raw);
  }
}
