/** asn1.c: the cursor that walks through objects, and the builder that puts them together back to front. */
module Asn1Code {
  import opened Asn1

  /** An unsigned int returned as an int. */
  function ToInt(len: nat): int {
    if len < INT_MAX then len else len - UINT
  }

  /** What asn1_start() returns. */
  function Code(s: seq<Byte>, tag: int): int {
    var r := Start(s, tag, 0);
    if r.Ok? then ToInt(r.len) else r.rc
  }

  /** The data is long enough and has the expected tag, so that the cursor moves. */
  predicate Tagged(s: seq<Byte>, tag: int) {
    |s| >= 2 && (tag == ANY || tag == s[0])
  }

  lemma FoldNext(s: seq<Byte>, k: nat)
    requires k < |s|
    ensures Fold(s[..k + 1]) == (Fold(s[..k]) * 256 + s[k]) % UINT
  {
    assert s[..k + 1][..k] == s[..k];
  }

  lemma SubView(buf: seq<Byte>, off: nat, len: nat, a: nat, b: nat)
    requires off + len <= |buf| && a <= b <= len
    ensures buf[off..off + len][a..b] == buf[off + a..off + b]
  {
    var v := buf[off..off + len];
    forall k | a <= k < b ensures v[k] == buf[off + k] { }
    forall k | 0 <= k < b - a ensures v[a..b][k] == buf[off + a..off + b][k] { assert v[a..b][k] == v[a + k]; }
  }

  class Cursor {
    const buf: seq<Byte>
    var off: nat
    var len: nat

    ghost predicate Valid()
      reads this
    {
      off + len <= |buf|
    }

    /** The bytes from the cursor to its end. */
    ghost function View(): seq<Byte>
      requires Valid()
      reads this
    {
      buf[off..off + len]
    }

    /** The loop that extracts the length. */
    method ReadLength(n: nat) returns (r: nat)
      requires Valid() && n <= len
      modifies this
      ensures off == old(off) + n && len == old(len) - n && r == Fold(buf[old(off)..old(off) + n])
    {
      ghost var s := buf[off..off + n];
      var k := 0;
      r := 0;
      assert s[..0] == [];
      while k < n
        invariant 0 <= k <= n && off == old(off) + k && len == old(len) - k && r == Fold(s[..k])
      {
        FoldNext(s, k);
        r := (r * 256 + buf[off]) % UINT;
        off, len := off + 1, len - 1;
        k := k + 1;
      }
      assert s[..n] == s;
    }

    /** asn1_start(): on an error the cursor stays where it was only if the tag was not even passed. */
    method StartObject(tag: int, extra: nat) returns (r: int)
      requires Valid()
      modifies this
      ensures Valid() && old(off) <= off && off + len == old(off + len)
      ensures var s := Start(old(View()), tag, extra);
              if s.Ok? then r == ToInt(s.len) && off == old(off) + s.start
              else r == s.rc && (off == old(off) <==> !Tagged(old(View()), tag))
    {
      ghost var view := View();
      if len < 2 { return EMPTY; }
      assert view[0] == buf[off] && view[1] == buf[off + 1];
      if tag != ANY && tag != buf[off] { return ENXIO; }
      off, len := off + 1, len - 1;
      var n: nat := buf[off];
      if n >= 128 {
        n := n - 128;
        off, len := off + 1, len - 1;
      } else {
        n := 1;
      }
      if len < n { return LEN_LEN; }
      ghost var at := off - old(off);
      SubView(buf, old(off), old(len), at, at + n);
      var length := ReadLength(n);
      if len + extra < length { return LEN; }
      r := ToInt(length);
    }

    /** asn1_enter() */
    method EnterObject(tag: int) returns (rc: int)
      requires Valid()
      modifies this
      ensures Valid() && old(off) <= off && off + len <= old(off + len)
      ensures rc == 0 <==> Enter(old(View()), tag).Some?
      ensures rc == 0 ==> View() == Enter(old(View()), tag).value
      ensures rc != 0 ==> len == 0 && rc == Code(old(View()), tag)
    {
      ghost var view := View();
      var r := StartObject(tag, 0);
      if r < 0 {
        len := 0;
        return r;
      }
      ghost var s := Start(view, tag, 0);
      FoldedLen(view, tag);
      len := r;
      SubView(buf, old(off), old(len), s.start, s.start + s.len);
      rc := 0;
    }

    /** asn1_skip_if_exists(): the end of the data after the object is an error of its own. */
    method SkipIfExists(tag: int) returns (rc: int)
      requires Valid()
      modifies this
      ensures Valid() && old(off) <= off && off + len == old(off + len)
      ensures var s := Skip(old(View()), tag);
              if s.Some? then View() == s.value && rc == (if s.value == [] then ENOENT else 0)
              else rc == Code(old(View()), tag) < 0 && (off == old(off) <==> !Tagged(old(View()), tag))
    {
      ghost var view := View();
      var r := StartObject(tag, 0);
      FoldedLen(view, tag);
      if r < 0 { return r; }
      ghost var s := Start(view, tag, 0);
      off, len := off + r, len - r;
      SubView(buf, old(off), old(len), s.start + s.len, old(len));
      assert view[s.start + s.len..old(len)] == view[s.start + s.len..];
      rc := if len == 0 then ENOENT else 0;
    }

    /** asn1_skip() */
    method SkipObject(tag: int) returns (rc: int)
      requires Valid()
      modifies this
      ensures Valid() && old(off) <= off && off + len <= old(off + len)
      ensures var s := Skip(old(View()), tag);
              if s.Some? && s.value != [] then rc == 0 && View() == s.value
              else len == 0 && rc == (if s.Some? then ENOENT else Code(old(View()), tag)) < 0
    {
      rc := SkipIfExists(tag);
      if rc != 0 { len := 0; }
    }

    /** asn1_shrink(): keep only the first object. */
    method Shrink(tag: int) returns (rc: int)
      requires Valid()
      modifies this
      ensures Valid() && off == old(off) && off + len <= old(off + len)
      ensures var s := Start(old(View()), tag, 0);
              if s.Ok? && s.len < INT_MAX then rc == 0 && View() == old(View())[..s.start + s.len]
              else len == 0 && rc == Code(old(View()), tag) < 0
    {
      ghost var view := View();
      var from, total := off, len;
      var r := StartObject(tag, 0);
      FoldedLen(view, tag);
      var end := off + r;
      off, len := from, total;
      if r < 0 {
        len := 0;
        return r;
      }
      len := end - off;
      SubView(buf, off, total, 0, len);
      rc := 0;
    }
  }

  /** A length that has been read is an unsigned int, so that it is negative as an int from 2^31 on. */
  lemma FoldedLen(s: seq<Byte>, tag: int)
    ensures var r := Start(s, tag, 0);
            r.Ok? ==>
              && r.len < UINT && (ToInt(r.len) < 0 <==> r.len >= INT_MAX)
              && (r.len < INT_MAX ==> ToInt(r.len) == r.len)
  {
  }

  // ---------------------------------------------------------------------
  // The builder
  // ---------------------------------------------------------------------

  lemma {:induction false} DigitsCount(len: nat)
    ensures |Digits(len)| == if len == 0 then 0 else 1 + |Digits(len / 256)|
  {
  }

  /** asn1_header() */
  method MakeHeader(tag: Byte, len: nat) returns (header: array<Byte>, headerLen: nat)
    requires len < UINT
    ensures fresh(header) && headerLen <= header.Length && header[..headerLen] == Header(tag, len)
  {
    header := new Byte[10](i => 0);
    header[0] := tag;
    DigitsShort(len);
    if len < 128 {
      header[1] := len;
      headerLen := 2;
      assert header[..2] == [tag, len];
      return;
    }
    var lenLen := CountDigits(len);
    header[1] := 128 + lenLen;
    headerLen := 2 + lenLen;
    var temp, k := len, lenLen;
    while temp > 0
      invariant 0 <= k <= lenLen && |Digits(temp)| == k && header[0] == tag && header[1] == 128 + lenLen
      invariant Digits(temp) + header[2 + k..2 + lenLen] == Digits(len)
      decreases temp
    {
      DigitsCount(temp);
      ghost var tail := header[2 + k..2 + lenLen];
      header[1 + k] := temp % 256;
      assert header[1 + k..2 + lenLen] == [temp % 256] + tail;
      assert Digits(temp / 256) + ([temp % 256] + tail) == Digits(temp) + tail;
      temp, k := temp / 256, k - 1;
    }
    assert header[..2 + lenLen] == [tag, 128 + lenLen] + header[2..2 + lenLen];
  }

  method CountDigits(len: nat) returns (n: nat)
    ensures n == |Digits(len)|
  {
    n := 0;
    var temp := len;
    while temp > 0
      invariant n + |Digits(temp)| == |Digits(len)|
      decreases temp
    {
      temp := temp / 256;
      n := n + 1;
    }
  }

  function Overwrite(s: seq<Byte>, at: nat, t: seq<Byte>): seq<Byte>
    requires at + |t| <= |s|
  {
    s[..at] + t + s[at + |t|..]
  }

  lemma OverwriteTwice(s: seq<Byte>, t: seq<Byte>, u: seq<Byte>)
    requires |t| + |u| <= |s|
    ensures Overwrite(Overwrite(s, 0, t), |t|, u) == t + u + s[|t| + |u|..]
  {
  }

  class Builder {
    // The buffer; null with a nonzero length once an allocation has failed
    var data: array?<Byte>
    var len: nat

    ghost predicate Valid()
      reads this
    {
      data != null ==> data.Length == len
    }

    ghost predicate Failed()
      reads this
    {
      data == null && len > 0
    }

    ghost function Contents(): seq<Byte>
      requires Valid()
      reads this, data
    {
      if data == null then [] else data[..]
    }

    /**
    asn1_grow(): move the data up to make room in front of it.  An empty builder needs no memory to stay empty, and
    it forgets a failure; any other remembers it.
    */
    method Grow(extra: nat, memory: bool) returns (rc: int)
      requires Valid()
      modifies this
      ensures Valid() && rc == if !old(Failed()) && (memory || old(len) + extra == 0) then 0 else ENOMEM
      ensures Failed() <==> rc != 0 && old(len) > 0
      ensures rc == 0 ==> data != null && fresh(data) && len == old(len) + extra && data[extra..] == old(Contents())
      ensures rc != 0 ==> data == null && len == old(len)
    {
      if len > 0 && data == null { return ENOMEM; }
      var newLen := len + extra;
      if !memory && newLen > 0 {
        data := null;
        return ENOMEM;
      }
      var buffer := new Byte[newLen](i => 0);
      if data != null {
        forall i | 0 <= i < len { buffer[extra + i] := data[i]; }
      }
      assert buffer[extra..] == Contents();
      data := buffer;
      len := newLen;
      rc := 0;
    }

    /** memcpy() to an offset in the buffer, leaving the rest of it alone. */
    method Fill(at: nat, s: seq<Byte>)
      requires Valid() && data != null && at + |s| <= len
      modifies data
      ensures data[..] == Overwrite(old(data[..]), at, s)
    {
      forall i | 0 <= i < |s| { data[at + i] := s[i]; }
    }

    /** asn1_prepend_raw() */
    method PrependRaw(s: seq<Byte>, memory: bool) returns (rc: int)
      requires Valid()
      modifies this
      ensures Valid() && rc == if !old(Failed()) && (memory || old(len) + |s| == 0) then 0 else ENOMEM
      ensures rc == 0 ==> data != null && fresh(data) && Contents() == s + old(Contents())
      ensures rc != 0 ==> data == null && len == old(len)
    {
      rc := Grow(|s|, memory);
      if rc == 0 { Fill(0, s); }
    }

    /** asn1_prepend(): a whole object in front. */
    method Prepend(tag: Byte, body: seq<Byte>, memory: bool) returns (rc: int)
      requires Valid() && |body| < UINT
      modifies this
      ensures Valid() && rc == if memory && !old(Failed()) then 0 else ENOMEM
      ensures rc == 0 ==> data != null && fresh(data) && Contents() == Header(tag, |body|) + body + old(Contents())
      ensures rc != 0 ==> data == null && len == old(len)
    {
      var header, n := MakeHeader(tag, |body|);
      rc := Grow(n + |body|, memory);
      if rc == 0 {
        OverwriteTwice(data[..], header[..n], body);
        Fill(0, header[..n]);
        Fill(n, body);
      }
    }

    /** asn1_wrap(): a header for everything so far. */
    method Wrap(tag: Byte, memory: bool) returns (rc: int)
      requires Valid() && len < UINT
      modifies this
      ensures Valid() && rc == if memory && !old(Failed()) then 0 else ENOMEM
      ensures rc == 0 ==> data != null && fresh(data) && Contents() == Header(tag, |old(Contents())|) + old(Contents())
      ensures rc != 0 ==> data == null && len == old(len)
    {
      var header, n := MakeHeader(tag, len);
      rc := Grow(n, memory);
      if rc == 0 {
        Fill(0, header[..n]);
      }
    }
  }

  /** Whether each allocation succeeds, in order. */
  type Memory = nat -> bool

  /**
  A list of objects put together with prepend and wrap, last object first, with the status of every call looked
  at.  Success means the whole encoding, and only lack of memory prevents it.
  */
  method BuildAll(f: Forest, b: Builder, memory: Memory, from: nat) returns (rc: int, to: nat)
    requires b.Valid() && b.data == null && b.len == 0 && AllFit(f)
    modifies b
    ensures b.Valid() && from <= to
    ensures rc == 0 ==> b.Contents() == EncodeAll(f) && !b.Failed()
    ensures rc != 0 ==> rc == ENOMEM && exists k: nat :: from <= k < to && !memory(k)
    decreases f
  {
    rc, to := 0, from;
    if f.Nil? { return; }
    rc, to := BuildAll(f.tail, b, memory, to);
    if rc != 0 { return; }
    match f.head {
      case Leaf(tag, body) =>
        rc := b.Prepend(tag, body, memory(to));
      case Node(tag, children) =>
        var inner := new Builder;
        inner.data, inner.len := null, 0;
        rc, to := BuildAll(children, inner, memory, to);
        if rc != 0 { return; }
        rc := inner.Wrap(tag, memory(to));
        to := to + 1;
        if rc != 0 { return; }
        rc := b.PrependRaw(inner.data[..], memory(to));
    }
    to := to + 1;
  }
}
