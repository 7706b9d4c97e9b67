/** The lookup tables of the AES implementation and the rounds that use them. */
module AesTables {
  import opened Powers
  import opened Algebra
  import opened Field
  import opened Aes

  /** Byte i of a state, in memory order. */
  function ByteAt(m: Matrix, i: nat): bv8
    requires i < 16
  {
    match i
    case 0 => m.a.a case 1 => m.a.b case 2 => m.a.c case 3 => m.a.d
    case 4 => m.b.a case 5 => m.b.b case 6 => m.b.c case 7 => m.b.d
    case 8 => m.c.a case 9 => m.c.b case 10 => m.c.c case 11 => m.c.d
    case 12 => m.d.a case 13 => m.d.b case 14 => m.d.c case _ => m.d.d
  }

  function Set<T>(w: Vec<T>, i: nat, x: T): Vec<T>
    requires i < 4
  {
    match i case 0 => w.(a := x) case 1 => w.(b := x) case 2 => w.(c := x) case _ => w.(d := x)
  }

  function SetByte(m: Matrix, i: nat, x: bv8): Matrix
    requires i < 16
  {
    if i < 4 then m.(a := Set(m.a, i, x))
    else if i < 8 then m.(b := Set(m.b, i - 4, x))
    else if i < 12 then m.(c := Set(m.c, i - 8, x))
    else m.(d := Set(m.d, i - 12, x))
  }

  lemma SetByteAt(m: Matrix, i: nat, x: bv8, j: nat)
    requires i < 16 && j < 16
    ensures ByteAt(SetByte(m, i, x), j) == if i == j then x else ByteAt(m, j)
  {
  }

  const SHIFT_ROWS := 5
  const INV_SHIFT_ROWS := -3

  predicate Stride(stride: int) {
    stride == SHIFT_ROWS || stride == INV_SHIFT_ROWS
  }

  /** The input byte that a row shift moves to byte o: (stride * o) & 0xf for the two strides in use. */
  function Source(stride: int, o: nat): (i: nat)
    ensures i < 16
  {
    if stride == SHIFT_ROWS then (SHIFT_ROWS * o) % 16 else (INV_SHIFT_ROWS * o) % 16
  }

  function Shift(stride: int, m: Matrix): Matrix {
    if stride == SHIFT_ROWS then ShiftRows(m) else InvShiftRows(m)
  }

  lemma ShiftRowsAt(m: Matrix, o: nat)
    requires o < 16
    ensures ByteAt(ShiftRows(m), o) == ByteAt(m, (SHIFT_ROWS * o) % 16)
  {
  }

  lemma InvShiftRowsAt(m: Matrix, o: nat)
    requires o < 16
    ensures ByteAt(InvShiftRows(m), o) == ByteAt(m, (INV_SHIFT_ROWS * o) % 16)
  {
  }

  /** Stepping through memory with the given stride performs the row shift. */
  lemma ShiftAt(stride: int, m: Matrix, o: nat)
    requires Stride(stride) && o < 16
    ensures ByteAt(Shift(stride, m), o) == ByteAt(m, Source(stride, o))
  {
    if stride == SHIFT_ROWS { ShiftRowsAt(m, o); } else { InvShiftRowsAt(m, o); }
  }

  lemma RemainderStep(x: int, step: int)
    ensures (x + step) % 16 == (x % 16 + step) % 16
  {
    var y := x % 16 + step;
    ModUnique(x + step, x / 16 + y / 16, y % 16, 16);
  }

  lemma SourceStep(stride: int, o: nat)
    requires Stride(stride)
    ensures Source(stride, o + 1) == (Source(stride, o) + stride) % 16
  {
    if stride == SHIFT_ROWS { RemainderStep(5 * o, 5); } else { RemainderStep(-3 * o, -3); }
  }

  lemma SameBytes(m: Matrix, n: Matrix)
    requires forall i: nat | i < 16 :: ByteAt(m, i) == ByteAt(n, i)
    ensures m == n
  {
    assert ByteAt(m, 0) == ByteAt(n, 0) && ByteAt(m, 1) == ByteAt(n, 1) && ByteAt(m, 2) == ByteAt(n, 2) &&
           ByteAt(m, 3) == ByteAt(n, 3);
    assert ByteAt(m, 4) == ByteAt(n, 4) && ByteAt(m, 5) == ByteAt(n, 5) && ByteAt(m, 6) == ByteAt(n, 6) &&
           ByteAt(m, 7) == ByteAt(n, 7);
    assert ByteAt(m, 8) == ByteAt(n, 8) && ByteAt(m, 9) == ByteAt(n, 9) && ByteAt(m, 10) == ByteAt(n, 10) &&
           ByteAt(m, 11) == ByteAt(n, 11);
    assert ByteAt(m, 12) == ByteAt(n, 12) && ByteAt(m, 13) == ByteAt(n, 13) && ByteAt(m, 14) == ByteAt(n, 14) &&
           ByteAt(m, 15) == ByteAt(n, 15);
  }

  /** The eight bytes of a table entry: s times the vector {1, d, c, b, a, d, c, b} of matrix coefficients. */
  ghost predicate EntryIs(t: array2<bv8>, i: nat, k: Vec<Poly>, s: bv8)
    requires Shape(t) && i < 256
    reads t
  {
    && t[i, 0] == s
    && t[i, 1] == t[i, 5] == Times(BYTES, k.d, s)
    && t[i, 2] == t[i, 6] == Times(BYTES, k.c, s)
    && t[i, 3] == t[i, 7] == Times(BYTES, k.b, s)
    && t[i, 4] == Times(BYTES, k.a, s)
  }

  predicate Shape(t: array2<bv8>) {
    t.Length0 == 256 && t.Length1 == 8
  }

  /** The table holds the products of the matrix k with the values of the substitution f. */
  ghost predicate Holds(t: array2<bv8>, k: Vec<Poly>, f: bv8 -> bv8)
    reads t
  {
    Shape(t) && forall x: bv8 :: EntryIs(t, x as int, k, f(x))
  }

  /** aes_entry_column(): four consecutive bytes of an entry. */
  function EntryColumn(t: array2<bv8>, byte: bv8, column: nat): Column
    requires Shape(t) && column < 4
    reads t
  {
    var i := byte as int;
    Vec(t[i, 4 - column], t[i, 5 - column], t[i, 6 - column], t[i, 7 - column])
  }

  /** aes_column() */
  function TableColumn(t: array2<bv8>, stride: int, m: Matrix, offset: nat): Column
    requires Shape(t)
    reads t
  {
    EntryColumn(t, ByteAt(m, Source(stride, offset)), offset % 4)
  }

  /** aes_output() */
  function Output(t: array2<bv8>, stride: int, m: Matrix, key: Matrix, column: nat): Column
    requires Shape(t) && column < 4
    reads t
  {
    var offset := column * 4;
    AddColumn(AddColumn(AddColumn(AddColumn(
      TableColumn(t, stride, m, offset), TableColumn(t, stride, m, offset + 1)),
      TableColumn(t, stride, m, offset + 2)), TableColumn(t, stride, m, offset + 3)), At(key, column))
  }

  lemma SumLeft<T(!new)>(v: Space<T>, p: T, q: T, r: T, s: T)
    requires Laws(v)
    ensures v.add(v.add(v.add(p, q), r), s) == v.add(v.add(p, q), v.add(r, s))
  {
    assert v.Interchange(v.add(p, q), r, v.zero, s) && v.Unit(s) && v.Unit(v.add(p, q));
  }

  /** Four matrix columns, each multiplied by the substituted byte of w, added up. */
  function Columns(t: array2<bv8>, w: Column): Column
    requires Shape(t)
    reads t
  {
    AddColumn(AddColumn(AddColumn(EntryColumn(t, w.a, 0), EntryColumn(t, w.b, 1)), EntryColumn(t, w.c, 2)),
      EntryColumn(t, w.d, 3))
  }

  /** They are the circulant matrix applied to the substituted column. */
  lemma ColumnsMix(t: array2<bv8>, k: Vec<Poly>, f: bv8 -> bv8, w: Column)
    requires Holds(t, k, f)
    ensures Columns(t, w) == Circulant(BYTES, k, MapVec(f, w))
  {
    BytesLaws();
    var s := MapVec(f, w);
    assert EntryIs(t, w.a as int, k, s.a) && EntryIs(t, w.b as int, k, s.b) && EntryIs(t, w.c as int, k, s.c) &&
           EntryIs(t, w.d as int, k, s.d);
    RowOne(BYTES, k, s);
    RowTwo(BYTES, k, s);
    RowThree(BYTES, k, s);
    RowFour(BYTES, k, s);
  }

  lemma RowOne<T(!new)>(v: Space<T>, k: Vec<Poly>, s: Vec<T>)
    requires Laws(v)
    ensures v.add(v.add(v.add(Times(v, k.a, s.a), Times(v, k.b, s.b)), Times(v, k.c, s.c)), Times(v, k.d, s.d)) ==
            Circulant(v, k, s).a
  {
    SumLeft(v, Times(v, k.a, s.a), Times(v, k.b, s.b), Times(v, k.c, s.c), Times(v, k.d, s.d));
  }

  lemma RowTwo<T(!new)>(v: Space<T>, k: Vec<Poly>, s: Vec<T>)
    requires Laws(v)
    ensures v.add(v.add(v.add(Times(v, k.d, s.a), Times(v, k.a, s.b)), Times(v, k.b, s.c)), Times(v, k.c, s.d)) ==
            Circulant(v, k, s).b
  {
    SumLeft(v, Times(v, k.d, s.a), Times(v, k.a, s.b), Times(v, k.b, s.c), Times(v, k.c, s.d));
    SumTurn(v, Vec(Times(v, k.d, s.a), Times(v, k.a, s.b), Times(v, k.b, s.c), Times(v, k.c, s.d)));
  }

  lemma RowThree<T(!new)>(v: Space<T>, k: Vec<Poly>, s: Vec<T>)
    requires Laws(v)
    ensures v.add(v.add(v.add(Times(v, k.c, s.a), Times(v, k.d, s.b)), Times(v, k.a, s.c)), Times(v, k.b, s.d)) ==
            Circulant(v, k, s).c
  {
    var w := Vec(Times(v, k.c, s.a), Times(v, k.d, s.b), Times(v, k.a, s.c), Times(v, k.b, s.d));
    SumLeft(v, w.a, w.b, w.c, w.d);
    SumTurn(v, w);
    SumTurn(v, Turn(w));
  }

  lemma RowFour<T(!new)>(v: Space<T>, k: Vec<Poly>, s: Vec<T>)
    requires Laws(v)
    ensures v.add(v.add(v.add(Times(v, k.b, s.a), Times(v, k.c, s.b)), Times(v, k.d, s.c)), Times(v, k.a, s.d)) ==
            Circulant(v, k, s).d
  {
    var w := Vec(Times(v, k.b, s.a), Times(v, k.c, s.b), Times(v, k.d, s.c), Times(v, k.a, s.d));
    SumLeft(v, w.a, w.b, w.c, w.d);
    SumTurn(v, w);
    SumTurn(v, Turn(w));
    SumTurn(v, Turn(Turn(w)));
  }

  /** Row r of the shifted column selects column r of the matrix. */
  lemma TableColumnAt(t: array2<bv8>, stride: int, m: Matrix, column: nat, w: Column, r: nat, o: nat, x: bv8)
    requires Shape(t) && Stride(stride) && column < 4 && r < 4 && w == At(Shift(stride, m), column)
    requires o == column * 4 + r && x == At(w, r)
    ensures TableColumn(t, stride, m, o) == EntryColumn(t, x, r)
  {
    ShiftAt(stride, m, o);
  }

  lemma TableColumnsAt(t: array2<bv8>, stride: int, m: Matrix, column: nat, w: Column)
    requires Shape(t) && Stride(stride) && column < 4 && w == At(Shift(stride, m), column)
    ensures TableColumn(t, stride, m, column * 4) == EntryColumn(t, w.a, 0)
    ensures TableColumn(t, stride, m, column * 4 + 1) == EntryColumn(t, w.b, 1)
    ensures TableColumn(t, stride, m, column * 4 + 2) == EntryColumn(t, w.c, 2)
    ensures TableColumn(t, stride, m, column * 4 + 3) == EntryColumn(t, w.d, 3)
  {
    TableColumnAt(t, stride, m, column, w, 0, column * 4, w.a);
    TableColumnAt(t, stride, m, column, w, 1, column * 4 + 1, w.b);
    TableColumnAt(t, stride, m, column, w, 2, column * 4 + 2, w.c);
    TableColumnAt(t, stride, m, column, w, 3, column * 4 + 3, w.d);
  }

  lemma OutputMix(t: array2<bv8>, k: Vec<Poly>, f: bv8 -> bv8, stride: int, m: Matrix, key: Matrix, column: nat,
                  w: Column)
    requires Holds(t, k, f) && Stride(stride) && column < 4 && w == At(Shift(stride, m), column)
    ensures Output(t, stride, m, key, column) == AddColumn(Circulant(BYTES, k, MapVec(f, w)), At(key, column))
  {
    TableColumnsAt(t, stride, m, column, w);
    assert Output(t, stride, m, key, column) == AddColumn(Columns(t, w), At(key, column));
    ColumnsMix(t, k, f, w);
  }

}
