/** base64.c: the encoder and the decoder with their output buffers. */
module Base64Code {
  import opened Powers
  import opened Strings
  import opened Base64

  const EINVAL := -22

  /** As much of the text as the buffer has room for, not yet terminated. */
  predicate Written(b: string, len: nat, text: string) {
    len <= |b| && (var n := if |text| < len then |text| else len; b[..n] == text[..n])
  }

  /** Store the next character, if there is room for it. */
  method Put(data: array<char>, len: nat, ghost text: string, used: nat, c: char) returns (used': nat)
    requires Written(data[..], len, text) && used == |text|
    modifies data
    ensures Written(data[..], len, text + [c]) && used' == |text| + 1
  {
    if used < len {
      ghost var b := data[..];
      data[used] := c;
      assert data[..][..used] == b[..used] == text;
      assert data[..][..used + 1] == data[..][..used] + [c];
    } else {
      assert (text + [c])[..len] == text[..len];
    }
    used' := used + 1;
  }

  /** `bit` is an unsigned int, so that it can count the bits of fewer than LIMIT bytes. */
  const UINT := 0x1_0000_0000
  const LIMIT := 0x2000_0000

  /** The bit counter after k turns. */
  function BitAfter(k: nat): nat {
    6 * k % UINT
  }

  lemma NoWrap(n: nat, k: nat)
    requires n < LIMIT && 6 * k < 8 * n + 6
    ensures BitAfter(k) == 6 * k
  {
    ModUnique(6 * k, 0, 6 * k, UINT);
  }

  /** The loop over the data comes to an end exactly below that limit. */
  lemma EncodeEndsIff(n: nat)
    ensures (exists k :: BitAfter(k) >= 8 * n) <==> n < LIMIT
  {
    if n < LIMIT {
      var k := SextetCount(n);
      CountIs(n, k);
      if k > 0 { CountIs(n, k - 1); }
      NoWrap(n, k);
      assert BitAfter(k) >= 8 * n;
    }
  }

  /** The loop over the bits of the data. */
  method PutSextets(raw: seq<Byte>, data: array<char>, len: nat) returns (used: nat, bit: nat)
    requires |raw| < LIMIT && len <= data.Length
    modifies data
    ensures Written(data[..], len, Chars(Sextets(raw))) && used == SextetCount(|raw|) && bit == BitAfter(used)
  {
    used, bit := 0, 0;
    ghost var vs := Sextets(raw);
    assert vs[..0] == [];
    while bit < 8 * |raw|
      invariant used <= |vs| && bit == BitAfter(used) == 6 * used && Written(data[..], len, Chars(vs[..used]))
      decreases 8 * |raw| - bit
    {
      CountIs(|raw|, used);
      var tmp := SextetAt(raw, used);
      assert vs[..used + 1] == vs[..used] + [tmp];
      CharsSnoc(vs[..used], tmp);
      used := Put(data, len, Chars(vs[..used]), used, CharOf(tmp));
      bit := Advance(bit, used - 1);
      NoWrap(|raw|, used);
    }
    CountIs(|raw|, used);
    assert vs[..used] == vs;
  }

  /** The counter wraps at a multiple of eight. */
  lemma WrapKeepsEight(x: int)
    ensures x % UINT % 8 == x % 8
  {
    ModMod(x, LIMIT, 8);
  }

  lemma NextBit(k: nat)
    ensures (BitAfter(k) + 6) % UINT == BitAfter(k + 1) && BitAfter(k) % 8 == 6 * k % 8
  {
    var q, r := 6 * k / UINT, BitAfter(k);
    ModUnique(6 * (k + 1), q + (r + 6) / UINT, (r + 6) % UINT, UINT);
    WrapKeepsEight(6 * k);
  }

  lemma PadMore(n: nat, k: nat)
    requires SextetCount(n) <= k <= SextetCount(n) + PadCount(n)
    ensures 6 * k % 8 != 0 <==> k < SextetCount(n) + PadCount(n)
  {
    Lengths(n);
    var g, d := (n + 2) / 3, EncodedLen(n) - k;
    assert PadCount(n) <= 2;
    ModUnique(6 * k, 3 * g - d, 2 * d, 8);
  }

  /** Six bits further. */
  method Advance(bit: nat, ghost k: nat) returns (bit': nat)
    requires bit == BitAfter(k)
    ensures bit' == BitAfter(k + 1)
  {
    NextBit(k);
    bit' := (bit + 6) % UINT;
  }

  /** The test for a partial byte. */
  method Partial(bit: nat, ghost n: nat, ghost k: nat) returns (more: bool)
    requires bit == BitAfter(k) && SextetCount(n) <= k <= SextetCount(n) + PadCount(n)
    ensures more <==> k < SextetCount(n) + PadCount(n)
  {
    NextBit(k);
    PadMore(n, k);
    more := bit % 8 != 0;
  }

  /** The loop over the padding. */
  method PutPads(raw: seq<Byte>, data: array<char>, len: nat, from: nat, fromBit: nat) returns (used: nat)
    requires Written(data[..], len, Chars(Sextets(raw))) && from == SextetCount(|raw|) && fromBit == BitAfter(from)
    modifies data
    ensures Written(data[..], len, Encode(raw)) && used == |Encode(raw)|
  {
    used := from;
    var bit := fromBit;
    ghost var k: nat, pads: nat, text := 0, PadCount(|raw|), Chars(Sextets(raw));
    assert text + Pads(0) == text;
    var more := Partial(bit, |raw|, used);
    while more
      invariant k <= pads && used == from + k && bit == BitAfter(used) && (more <==> k < pads)
      invariant Written(data[..], len, text + Pads(k))
      decreases pads - k
    {
      PadsSnoc(k);
      assert text + Pads(k) + ['='] == text + Pads(k + 1);
      bit := Advance(bit, used);
      used := Put(data, len, text + Pads(k), used, '=');
      k := k + 1;
      more := Partial(bit, |raw|, used);
    }
  }

  /** base64_encode(), for data of which the loop comes to an end. */
  method EncodeBuffer(raw: seq<Byte>, data: array<char>, len: nat) returns (used: nat)
    requires |raw| < LIMIT && len <= data.Length
    modifies data
    ensures used == EncodedLen(|raw|) && Filled(data[..], len, Encode(raw))
  {
    var bit;
    used, bit := PutSextets(raw, data, len);
    used := PutPads(raw, data, len, used, bit);
    EncodeLength(raw);
    Terminate(data, len, used, Encode(raw));
  }

  /** Make sure that there is a terminator, at the end of the text or of the buffer. */
  method Terminate(data: array<char>, len: nat, used: nat, ghost text: string)
    requires Written(data[..], len, text) && used == |text|
    modifies data
    ensures Filled(data[..], len, text)
  {
    ghost var b := data[..];
    if used < len { data[used] := NUL; }
    if len > 0 {
      data[len - 1] := NUL;
      ghost var n := if used < len then used else len - 1;
      assert data[..][..n] == b[..n] == text[..n];
    }
  }

  // ---------------------------------------------------------------------
  // Decoding
  // ---------------------------------------------------------------------

  /** What a sextet at the given bit position adds to byte j. */
  function Contribution(offset: nat, shift: nat, v: Sextet, j: nat): Byte
    requires shift < 8
  {
    Shrinks(v * 4, Pow2(shift));
    if j == offset then v * 4 / Pow2(shift) else if j == offset + 1 then v * 4 * Pow2(8 - shift) % 256 else 0
  }

  lemma Shifted(v: Sextet)
    ensures v * 4 / 64 == v / 16 && v * 4 / 16 == v / 4 && v * 4 / 4 == v
    ensures v * 4 * 256 % 256 == 0 && v * 4 * 4 % 256 == v % 16 * 16 && v * 4 * 16 % 256 == v % 4 * 64 &&
            v * 4 * 64 % 256 == 0
  {
    ModUnique(v * 16, v / 16, v % 16 * 16, 256);
    ModUnique(v * 64, v / 4, v % 4 * 64, 256);
    ModUnique(v * 256, v, 0, 256);
  }

  /** The two parts of byte r of a group: the end of one sextet and the start of the next. */
  function Lead(r: nat, v: Sextet): Byte {
    if r == 0 then v * 4 else if r == 1 then v % 16 * 16 else v % 4 * 64
  }

  function Trail(r: nat, v: Sextet): Byte {
    if r == 0 then v / 16 else if r == 1 then v / 4 else v
  }

  /** What sextet q adds to byte r of group n. */
  function Part(q: nat, v: Sextet, n: nat, r: nat): Byte {
    if q == 4 * n + r then Lead(r, v) else if q == 4 * n + r + 1 then Trail(r, v) else 0
  }

  lemma ContributionIs(q: nat, v: Sextet, m: nat, i: nat, j: nat, n: nat, r: nat, offset: nat, shift: nat)
    requires q == 4 * m + i && i < 4 && j == 3 * n + r && r < 3
    requires offset == 3 * m + (if i == 0 then 0 else i - 1) && shift == (if i == 0 then 0 else 8 - 2 * i)
    ensures Contribution(offset, shift, v, j) == Part(q, v, n, r)
  {
    Eight();
    Shifted(v);
  }

  lemma BitPosition(q: nat) returns (m: nat, i: nat)
    ensures q == 4 * m + i && i < 4
    ensures 6 * q / 8 == 3 * m + (if i == 0 then 0 else i - 1) && 6 * q % 8 == (if i == 0 then 0 else 8 - 2 * i)
  {
    m, i := q / 4, q % 4;
    Position(m, i);
  }

  /** Bitwise "or" of numbers of a given number of bits. */
  function Or(x: nat, y: nat, bits: nat): (z: nat)
    ensures z < Pow2(bits)
  {
    if bits == 0 then 0 else 2 * Or(x / 2, y / 2, bits - 1) + if x % 2 == 1 || y % 2 == 1 then 1 else 0
  }

  lemma {:induction false} OrZero(x: nat, bits: nat)
    requires x < Pow2(bits)
    ensures Or(x, 0, bits) == x && Or(0, x, bits) == x
  {
    if bits > 0 { OrZero(x / 2, bits - 1); }
  }

  /** Numbers without a common bit are added. */
  lemma {:induction false} OrAdds(m: nat, y: nat, k: nat, bits: nat)
    requires k <= bits && y < Pow2(k) && m * Pow2(k) + y < Pow2(bits)
    ensures Or(m * Pow2(k) + 0, y, bits) == m * Pow2(k) + y
  {
    if k == 0 {
      OrZero(m, bits);
    } else {
      var x := m * Pow2(k);
      Doubled(m, k);
      OrAdds(m, y / 2, k - 1, bits - 1);
    }
  }

  lemma Doubled(m: nat, k: nat)
    requires k > 0
    ensures m * Pow2(k) == 2 * (m * Pow2(k - 1))
  {
  }

  function OrByte(x: Byte, y: Byte): Byte {
    Eight();
    Or(x, y, 8)
  }

  /** The end of one sextet and the start of the next have no bit in common. */
  lemma LeadTrail(r: nat, v: Sextet, w: Sextet)
    requires r < 3
    ensures Lead(r, v) + Trail(r, w) < 256 && OrByte(Lead(r, v), Trail(r, w)) == Lead(r, v) + Trail(r, w)
    ensures OrByte(0, Lead(r, v)) == Lead(r, v) && OrByte(Lead(r, v), 0) == Lead(r, v)
  {
    Eight();
    var k, m := if r == 0 then 2 else if r == 1 then 4 else 6, if r == 0 then v else if r == 1 then v % 16 else v % 4;
    OrAdds(m, Trail(r, w), k, 8);
    OrZero(Lead(r, v), 8);
  }

  lemma OrNothing(x: Byte)
    ensures OrByte(x, 0) == x
  {
    Eight();
    OrZero(x, 8);
  }

  lemma ByteIsParts(vs: seq<Sextet>, n: nat, r: nat)
    requires r < 3
    ensures ByteIn(vs, n, r) == Lead(r, V(vs, 4 * n + r)) + Trail(r, V(vs, 4 * n + r + 1))
  {
  }

  lemma GrowsIn(vs: seq<Sextet>, v: Sextet, n: nat, r: nat)
    requires r < 3
    ensures ByteIn(vs + [v], n, r) == OrByte(ByteIn(vs, n, r), Part(|vs|, v, n, r))
  {
    var q := |vs|;
    ByteIsParts(vs, n, r);
    ByteIsParts(vs + [v], n, r);
    LeadTrail(r, V(vs + [v], 4 * n + r), V(vs + [v], 4 * n + r + 1));
    OrNothing(ByteIn(vs, n, r));
  }

  /** Another sextet adds its bits to the bytes, which have zeros there. */
  lemma ByteGrows(vs: seq<Sextet>, v: Sextet, j: nat, offset: nat, shift: nat)
    requires offset == 6 * |vs| / 8 && shift == 6 * |vs| % 8
    ensures ByteAt(vs + [v], j) == OrByte(ByteAt(vs, j), Contribution(offset, shift, v, j))
  {
    var m, i := BitPosition(|vs|);
    GrowsIn(vs, v, j / 3, j % 3);
    ContributionIs(|vs|, v, m, i, j, j / 3, j % 3, offset, shift);
  }

  /** The output so far. */
  predicate Holds(b: seq<Byte>, len: nat, vs: seq<Sextet>) {
    len <= |b| && forall j :: 0 <= j < len ==> b[j] == ByteAt(vs, j)
  }

  /** What "or" of the two contributions does to the whole buffer. */
  lemma AllGrow(b: seq<Byte>, c: seq<Byte>, len: nat, vs: seq<Sextet>, v: Sextet, offset: nat, shift: nat)
    requires offset == 6 * |vs| / 8 && shift == 6 * |vs| % 8 && Holds(b, len, vs) && |c| == |b|
    requires forall j :: 0 <= j < len ==>
               c[j] == if j == offset || j == offset + 1 then OrByte(b[j], Contribution(offset, shift, v, j)) else b[j]
    ensures Holds(c, len, vs + [v])
  {
    forall j | 0 <= j < len ensures c[j] == ByteAt(vs + [v], j) {
      ByteGrows(vs, v, j, offset, shift);
      OrNothing(b[j]);
    }
  }

  /** Add a sextet to the raw data; the bytes are right as long as the bit counter has not wrapped. */
  method AddSextet(data: array<Byte>, len: nat, ghost vs: seq<Sextet>, bit: nat, v: Sextet)
    requires len <= data.Length && (bit == 6 * |vs| ==> Holds(data[..], len, vs))
    modifies data
    ensures bit == 6 * |vs| ==> Holds(data[..], len, vs + [v])
  {
    ghost var b := data[..];
    var offset, shift := bit / 8, bit % 8;
    if offset < len { data[offset] := OrByte(data[offset], Contribution(offset, shift, v, offset)); }
    if offset + 1 < len { data[offset + 1] := OrByte(data[offset + 1], Contribution(offset, shift, v, offset + 1)); }
    if bit == 6 * |vs| { AllGrow(b, data[..], len, vs, v, offset, shift); }
  }

  method Zero(data: array<Byte>, len: nat)
    requires len <= data.Length
    modifies data
    ensures Holds(data[..], len, [])
  {
    var i := 0;
    while i < len
      invariant 0 <= i <= len && forall j :: 0 <= j < i ==> data[j] == 0
    {
      data[i] := 0;
      i := i + 1;
    }
    forall j | 0 <= j < len ensures ByteAt([], j) == 0 { }
  }

  /** The bit counter after q sextets and some pads. */
  function BitCount(q: nat, pads: nat): nat {
    (6 * q - 2 * pads) % UINT
  }

  lemma CountStep(q: nat, pads: nat)
    ensures (BitCount(q, pads) + 6) % UINT == BitCount(q + 1, pads) &&
            (BitCount(q, pads) - 2) % UINT == BitCount(q, pads + 1)
    ensures BitCount(q, pads) % 8 == (6 * q - 2 * pads) % 8
  {
    var x := 6 * q - 2 * pads;
    var k, r := x / UINT, x % UINT;
    ModUnique(x + 6, k + (r + 6) / UINT, (r + 6) % UINT, UINT);
    ModUnique(x - 2, k + (r - 2) / UINT, (r - 2) % UINT, UINT);
    WrapKeepsEight(x);
  }

  lemma ByteCount(x: nat)
    requires x % 8 == 0
    ensures x % UINT / 8 == x / 8 % LIMIT
  {
    var n := x / 8;
    ModUnique(x, n / LIMIT, 8 * (n % LIMIT), UINT);
  }

  method CountSextet(bit: nat, ghost q: nat, ghost pads: nat) returns (bit': nat)
    requires bit == BitCount(q, pads)
    ensures bit' == BitCount(q + 1, pads)
  {
    CountStep(q, pads);
    bit' := (bit + 6) % UINT;
  }

  method CountPad(bit: nat, ghost q: nat, ghost pads: nat) returns (bit': nat)
    requires bit == BitCount(q, pads)
    ensures bit' == BitCount(q, pads + 1)
  {
    CountStep(q, pads);
    bit' := (bit - 2) % UINT;
  }

  lemma Unwrapped(q: nat)
    ensures BitCount(q, 0) == 6 * q <==> 6 * q < UINT
  {
    if 6 * q < UINT { ModUnique(6 * q, 0, 6 * q, UINT); }
  }

  /** The check for a whole number of bytes, and their number. */
  method CountBytes(bit: nat, ghost q: nat, ghost pads: nat) returns (r: int)
    requires bit == BitCount(q, pads) && pads <= 2
    ensures if (6 * q - 2 * pads) % 8 != 0 then r == EINVAL
            else 6 * q >= 2 * pads && r == (6 * q - 2 * pads) / 8 % LIMIT
  {
    CountStep(q, pads);
    if bit % 8 != 0 { return EINVAL; }
    PadsNeedSextets(q, pads);
    ByteCount(6 * q - 2 * pads);
    r := bit / 8;
  }

  /** base64_decode(): right below the limit; beyond it even the length is not. */
  method DecodeBuffer(text: string, data: array<Byte>, len: nat) returns (r: int)
    requires len <= data.Length
    modifies data
    ensures Decode(text).None? ==> r == EINVAL
    ensures Decode(text).Some? ==>
              var bs := Decode(text).value;
              && r == |bs| % LIMIT && (r == |bs| <==> |bs| < LIMIT)
              && (|bs| < LIMIT ==> var n := if |bs| < len then |bs| else len; data[..][..n] == bs[..n])
  {
    Zero(data, len);
    var i, bit, pads := 0, 0, 0;
    ghost var s, end := Scanned([], 0), Scan(Scanned([], 0), text);
    assert text[0..] == text;
    while i < |text|
      invariant 0 <= i <= |text| && s.Scanned? && pads == s.pads <= 2 && bit == BitCount(|s.vs|, pads) &&
                Scan(s, text[i..]) == end
      invariant 6 * |s.vs| < UINT ==> Holds(data[..], len, s.vs)
    {
      var c := text[i];
      ghost var t := ScanChar(s, c);
      assert text[i..][1..] == text[i + 1..];
      i := i + 1;
      if IsSpace(c) { continue; }
      if c == '=' {
        if pads >= 2 { ScanBad(text[i..]); return EINVAL; }
        bit := CountPad(bit, |s.vs|, pads);
        pads := pads + 1;
      } else {
        if pads > 0 { ScanBad(text[i..]); return EINVAL; }
        var v := ValueOf(c);
        if v.None? { ScanBad(text[i..]); return EINVAL; }
        Unwrapped(|s.vs|);
        AddSextet(data, len, s.vs, bit, v.value);
        bit := CountSextet(bit, |s.vs|, pads);
      }
      s := t;
    }
    r := CountBytes(bit, |s.vs|, pads);
  }

  /** At most two pads can only follow sextets if the number of bits comes out right. */
  lemma PadsNeedSextets(q: nat, pads: nat)
    requires pads <= 2 && (6 * q - 2 * pads) % 8 == 0
    ensures 6 * q >= 2 * pads
  {
  }
}
