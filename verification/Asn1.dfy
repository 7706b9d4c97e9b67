/** ASN.1 objects: headers, cursors, and trees of objects. */
module Asn1 {
  import opened Options

  type Byte = x: nat | x < 256

  const ANY := -1
  const UINT := 0x1_0000_0000
  const INT_MAX := 0x8000_0000

  // Error numbers, with the variants of EINVAL told apart
  const EMPTY := -22
  const LEN_LEN := -1022
  const LEN := -2022
  const ENXIO := -6
  const ENOENT := -2
  const ENOMEM := -12

  // ---------------------------------------------------------------------
  // Length octets
  // ---------------------------------------------------------------------

  /** The big-endian digits of a number, without leading zeros. */
  function Digits(len: nat): seq<Byte> {
    if len == 0 then [] else Digits(len / 256) + [len % 256]
  }

  /** The number that an unsigned int holds after shifting in the bytes. */
  function Fold(s: seq<Byte>): nat {
    if s == [] then 0 else (Fold(s[..|s| - 1]) * 256 + s[|s| - 1]) % UINT
  }

  lemma {:induction false} FoldDigits(len: nat)
    requires len < UINT
    ensures Fold(Digits(len)) == len
  {
    if len > 0 {
      FoldDigits(len / 256);
      var d := Digits(len);
      assert d[..|d| - 1] == Digits(len / 256);
    }
  }

  /** Length octets are as few as possible: the first one is not zero, and n of them reach beyond n - 1. */
  lemma {:induction false} DigitsMinimal(len: nat)
    requires len > 0
    ensures Digits(len) != [] && Digits(len)[0] != 0
  {
    if len >= 256 { DigitsMinimal(len / 256); }
  }

  lemma DigitsShort(len: nat)
    requires len < UINT
    ensures |Digits(len)| <= 4
  {
    var a := len / 256;
    var b := a / 256;
    var c := b / 256;
    assert c / 256 == 0 && Digits(c / 256) == [];
    assert |Digits(c)| <= 1 && |Digits(b)| <= 2 && |Digits(a)| <= 3;
  }

  /** Identifier and length octets, sections 8.1.3 and 10.1 of X.690. */
  function Header(tag: Byte, len: nat): seq<Byte>
    requires len < UINT
  {
    DigitsShort(len);
    if len < 128 then [tag, len] else [tag, 128 + |Digits(len)|] + Digits(len)
  }

  // ---------------------------------------------------------------------
  // Parsing
  // ---------------------------------------------------------------------

  datatype Result = Ok(start: nat, len: nat) | Err(rc: int)

  /** Length of the length field, and where it starts. */
  function LenField(first: Byte): (nat, nat) {
    if first >= 128 then (first - 128, 2) else (1, 1)
  }

  /** asn1_start(): where the body starts and how long it is. */
  function Start(s: seq<Byte>, tag: int, extra: nat): (r: Result)
    ensures r.Ok? ==> 2 <= r.start <= |s| && r.start + r.len <= |s| + extra
  {
    if |s| < 2 then Err(EMPTY)
    else if tag != ANY && s[0] != tag then Err(ENXIO)
    else
      var (n, at) := LenField(s[1]);
      if |s| - at < n then Err(LEN_LEN)
      else
        var len := Fold(s[at..at + n]);
        if |s| - at - n + extra < len then Err(LEN) else Ok(at + n, len)
  }

  lemma StartShort(tag: Byte, len: nat, t: seq<Byte>, expected: int)
    requires len < 128 && len <= |t| && (expected == tag || expected == ANY)
    ensures Start([tag, len] + t, expected, 0) == Ok(2, len)
  {
    var s := [tag, len] + t;
    assert s[1..2] == [len] && [len][..0] == [];
    assert Fold([len]) == len;
  }

  lemma StartLong(tag: Byte, len: nat, t: seq<Byte>, expected: int)
    requires 128 <= len < UINT && len <= |t| && |Digits(len)| <= 4 && (expected == tag || expected == ANY)
    ensures Start([tag, 128 + |Digits(len)|] + Digits(len) + t, expected, 0) == Ok(2 + |Digits(len)|, len)
  {
    var d := Digits(len);
    var s := [tag, 128 + |d|] + d + t;
    assert s[2..2 + |d|] == d;
    FoldDigits(len);
  }

  /** Any number of length octets that there is room for is accepted, leading zeros included. */
  lemma StartAny(tag: Byte, d: seq<Byte>, t: seq<Byte>, expected: int)
    requires |d| < 128 && Fold(d) <= |t| && (expected == tag || expected == ANY)
    ensures Start([tag, 128 + |d|] + d + t, expected, 0) == Ok(2 + |d|, Fold(d))
  {
    var s := [tag, 128 + |d|] + d + t;
    assert s[2..2 + |d|] == d;
  }

  /** A header is read back exactly, whatever follows the body. */
  lemma StartHeader(tag: Byte, len: nat, t: seq<Byte>, expected: int)
    requires len < UINT && len <= |t| && (expected == tag || expected == ANY)
    ensures Start(Header(tag, len) + t, expected, 0) == Ok(|Header(tag, len)|, len)
  {
    DigitsShort(len);
    if len < 128 { StartShort(tag, len, t, expected); } else { StartLong(tag, len, t, expected); }
  }

  lemma {:induction false} DigitsOf(s: seq<Byte>)
    ensures |Digits(Fold(s))| <= |s|
  {
    if s != [] {
      var rest, last := s[..|s| - 1], s[|s| - 1];
      DigitsOf(rest);
      FoldSmall(rest);
      var x := Fold(rest) * 256 + last;
      if x < UINT {
        assert x / 256 == Fold(rest);
      } else {
        assert Fold(rest) >= 0x100_0000;
        FourDigits(Fold(rest));
        DigitsShort(x % UINT);
      }
    }
  }

  lemma FoldSmall(s: seq<Byte>)
    ensures Fold(s) < UINT
  {
  }

  lemma FourDigits(x: nat)
    requires x >= 0x100_0000
    ensures |Digits(x)| >= 4
  {
    var a := x / 256;
    var b := a / 256;
    var c := b / 256;
    assert c > 0 && |Digits(c)| >= 1;
    assert |Digits(b)| >= 2 && |Digits(a)| >= 3;
  }

  /** No shorter header is read back to the same length. */
  lemma HeaderShortest(h: seq<Byte>, t: seq<Byte>, len: nat)
    requires Start(h + t, ANY, 0) == Ok(|h|, len)
    ensures len < UINT && |h| >= 2 && |Header(h[0], len)| <= |h|
  {
    var s := h + t;
    var (n, at) := LenField(s[1]);
    FoldSmall(s[at..at + n]);
    DigitsOf(s[at..at + n]);
  }

  // ---------------------------------------------------------------------
  // Trees of objects
  // ---------------------------------------------------------------------

  datatype Tree = Leaf(tag: Byte, body: seq<Byte>) | Node(tag: Byte, children: Forest)
  datatype Forest = Nil | Cons(head: Tree, tail: Forest)

  function Body(t: Tree): seq<Byte>
    decreases t, 0
  {
    match t case Leaf(_, body) => body case Node(_, children) => EncodeAll(children)
  }

  /** An object: its header and its body. */
  function Encode(t: Tree): seq<Byte>
    decreases t, 1
  {
    if |Body(t)| < UINT then Header(t.tag, |Body(t)|) + Body(t) else []
  }

  function EncodeAll(f: Forest): seq<Byte>
    decreases f, 0
  {
    if f.Nil? then [] else Encode(f.head) + EncodeAll(f.tail)
  }

  /** Every body is shorter than 2^31 bytes. */
  predicate Fits(t: Tree) {
    |Body(t)| < INT_MAX && (t.Node? ==> AllFit(t.children))
  }

  predicate AllFit(f: Forest) {
    f.Cons? ==> Fits(f.head) && AllFit(f.tail)
  }

  /** What a parser expects: the tags, and which objects to enter. */
  datatype Shape = LeafShape(tag: Byte) | NodeShape(tag: Byte, children: Shapes)
  datatype Shapes = NilShape | ConsShape(head: Shape, tail: Shapes)

  function ShapeOf(t: Tree): Shape {
    match t case Leaf(tag, _) => LeafShape(tag) case Node(tag, children) => NodeShape(tag, ShapesOf(children))
  }

  function ShapesOf(f: Forest): Shapes {
    if f.Nil? then NilShape else ConsShape(ShapeOf(f.head), ShapesOf(f.tail))
  }

  /** asn1_enter() on the bytes of a cursor: the body; a length of 2^31 or more is negative as an int. */
  function Enter(s: seq<Byte>, tag: int): Option<seq<Byte>> {
    var r := Start(s, tag, 0);
    if r.Ok? && r.len < INT_MAX then Some(s[r.start..r.start + r.len]) else None
  }

  /** asn1_skip_if_exists() on the bytes of a cursor: what follows the object. */
  function Skip(s: seq<Byte>, tag: int): Option<seq<Byte>> {
    var r := Start(s, tag, 0);
    if r.Ok? && r.len < INT_MAX then Some(s[r.start + r.len..]) else None
  }

  /** Read a list of objects by entering each of them and then skipping it. */
  function Read(shapes: Shapes, s: seq<Byte>): Option<Forest> {
    match shapes
    case NilShape => if s == [] then Some(Nil) else None
    case ConsShape(head, tail) =>
      var body, rest := Enter(s, head.tag), Skip(s, head.tag);
      if body.None? || rest.None? then None
      else
        var t := ReadBody(head, body.value);
        var f := Read(tail, rest.value);
        if t.None? || f.None? then None else Some(Cons(t.value, f.value))
  }

  function ReadBody(shape: Shape, body: seq<Byte>): Option<Tree> {
    match shape
    case LeafShape(tag) => Some(Leaf(tag, body))
    case NodeShape(tag, children) =>
      var f := Read(children, body);
      if f.None? then None else Some(Node(tag, f.value))
  }

  lemma EnterSkip(tag: Byte, body: seq<Byte>, rest: seq<Byte>)
    requires |body| < INT_MAX
    ensures var s := Header(tag, |body|) + body + rest;
            Enter(s, tag) == Some(body) && Skip(s, tag) == Some(rest)
  {
    var h := Header(tag, |body|);
    var s := h + body + rest;
    StartHeader(tag, |body|, body + rest, tag);
    assert s == h + (body + rest);
    assert s[|h|..|h| + |body|] == body && s[|h| + |body|..] == rest;
  }

  /** Reading an encoded forest by its shape gives it back. */
  lemma {:induction false} ReadEncoded(f: Forest)
    requires AllFit(f)
    ensures Read(ShapesOf(f), EncodeAll(f)) == Some(f)
  {
    if f.Cons? {
      EnterSkip(f.head.tag, Body(f.head), EncodeAll(f.tail));
      ReadEncoded(f.tail);
      if f.head.Node? { ReadEncoded(f.head.children); }
    }
  }
}
