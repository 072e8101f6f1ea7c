/**
 * What the field window shows: the addition and multiplication tables
 * (one row per field element, headed by it, with one cell per element)
 * and the listing of the powers of the primitive element.
 */
module FieldTables {
  import opened Wrappers
  import opened NumberTheory
  import opened Polynomials
  import opened PolyArith
  import opened PolyDivision
  import opened PolyRing
  import opened PolyPower
  import opened PolyText
  import opened FieldElements

  /** A DataRow: the row header (the "+" or "*" column) and the cells of the columns "0", "1", .... */
  datatype TableRow = TableRow(header: Polynomial, cells: seq<Polynomial>)

  /** Reduced polynomials over p, as the field elements are. */
  predicate Elements(elems: seq<Polynomial>, p: int)
  {
    forall i :: 0 <= i < |elems| ==> InFp(elems[i]) && elems[i].p == p
  }

  /** Row i of the addition table: elems[i] + elems[j] in column j. */
  function AdditionRow(elems: seq<Polynomial>, p: int, i: int): TableRow
    requires Elements(elems, p) && 0 <= i < |elems|
  {
    TableRow(elems[i], seq(|elems|, j requires 0 <= j < |elems| => Plus(elems[i], elems[j])))
  }

  /** The addition table, one row per element. */
  function AdditionTable(elems: seq<Polynomial>, p: int): seq<TableRow>
    requires Elements(elems, p)
  {
    seq(|elems|, i requires 0 <= i < |elems| => AdditionRow(elems, p, i))
  }

  /** Row i of the multiplication table: Multiply(elems[i], elems[j], h) in column j. */
  function MultiplicationRow(elems: seq<Polynomial>, p: int, h: Polynomial, i: int): TableRow
    requires Elements(elems, p) && InFp(h) && h.p == p && Degree(h) >= 0 && 0 <= i < |elems|
  {
    TableRow(elems[i], seq(|elems|, j requires 0 <= j < |elems| => MulMod(elems[i], elems[j], h)))
  }

  /** The multiplication table, one row per element. */
  function MultiplicationTable(elems: seq<Polynomial>, p: int, h: Polynomial): seq<TableRow>
    requires Elements(elems, p) && InFp(h) && h.p == p && Degree(h) >= 0
  {
    seq(|elems|, i requires 0 <= i < |elems| => MultiplicationRow(elems, p, h, i))
  }

  /** Cell (i, j) of the addition table, and the shape around it. */
  lemma AdditionCellAt(elems: seq<Polynomial>, p: int, i: int, j: int)
    requires Elements(elems, p) && 0 <= i < |elems| && 0 <= j < |elems|
    ensures |AdditionTable(elems, p)| == |elems| && AdditionTable(elems, p)[i].header == elems[i]
    ensures |AdditionTable(elems, p)[i].cells| == |elems|
    ensures AdditionTable(elems, p)[i].cells[j] == Plus(elems[i], elems[j])
  {
  }

  /** Cell (i, j) of the multiplication table, and the shape around it. */
  lemma MultiplicationCellAt(elems: seq<Polynomial>, p: int, h: Polynomial, i: int, j: int)
    requires Elements(elems, p) && InFp(h) && h.p == p && Degree(h) >= 0
    requires 0 <= i < |elems| && 0 <= j < |elems|
    ensures |MultiplicationTable(elems, p, h)| == |elems| && MultiplicationTable(elems, p, h)[i].header == elems[i]
    ensures |MultiplicationTable(elems, p, h)[i].cells| == |elems|
    ensures MultiplicationTable(elems, p, h)[i].cells[j] == MulMod(elems[i], elems[j], h)
  {
  }

  /** Appending the next entry to a prefix gives the next prefix. */
  lemma PrefixStep<T>(s: seq<T>, prefix: seq<T>, k: nat, x: T)
    requires k < |s| && prefix == s[..k] && x == s[k]
    ensures prefix + [x] == s[..k + 1]
  {
  }

  /** The field elements are reduced polynomials over p. */
  lemma FieldElementsAreElements(p: int, k: nat)
    requires Prime(p) && k >= 1
    ensures Elements(FieldElementsOf(p, k), p)
  {
    var elems := FieldElementsOf(p, k);
    forall i | 0 <= i < |elems| ensures InFp(elems[i]) && elems[i].p == p {
      FieldElementsMembers(p, k, elems[i]);
    }
  }

  /** A sum of two polynomials of degree below k has degree below k. */
  lemma PlusDegreeBelow(f: Polynomial, g: Polynomial, k: int)
    requires InFp(f) && InFp(g) && g.p == f.p && Degree(f) < k && Degree(g) < k
    ensures Degree(Plus(f, g)) < k
  {
    var r := Plus(f, g);
    forall i | i >= k && i >= 0 ensures Coef(r, i) == 0 {
      PlusCoefReduced(f, g, i);
    }
  }

  /** The addition table is symmetric, and each of its cells is again a field element. */
  lemma AdditionTableCells(p: int, k: nat, i: int, j: int)
    requires Prime(p) && k >= 1
    requires 0 <= i < |FieldElementsOf(p, k)| && 0 <= j < |FieldElementsOf(p, k)|
    ensures Elements(FieldElementsOf(p, k), p)
    ensures var t := AdditionTable(FieldElementsOf(p, k), p);
      |t| == |FieldElementsOf(p, k)| && |t[i].cells| == |t| &&
      t[i].header == FieldElementsOf(p, k)[i] &&
      t[i].cells[j] == t[j].cells[i] && t[i].cells[j] in FieldElementsOf(p, k)
  {
    var elems := FieldElementsOf(p, k);
    FieldElementsAreElements(p, k);
    var x, y := elems[i], elems[j];
    FieldElementsMembers(p, k, x);
    FieldElementsMembers(p, k, y);
    PlusCommutative(x, y);
    PlusInFp(x, y);
    PlusDegreeBelow(x, y, k);
    FieldElementsMembers(p, k, Plus(x, y));
  }

  /** Adding zero changes nothing: the row headed by zero repeats the column order. */
  lemma AdditionRowOfZero(p: int, k: nat, i: int)
    requires Prime(p) && k >= 1
    requires 0 <= i < |FieldElementsOf(p, k)| && FieldElementsOf(p, k)[i] == Zero(p)
    ensures Elements(FieldElementsOf(p, k), p)
    ensures AdditionTable(FieldElementsOf(p, k), p)[i].cells == FieldElementsOf(p, k)
  {
    var elems := FieldElementsOf(p, k);
    FieldElementsAreElements(p, k);
    var row := AdditionTable(elems, p)[i].cells;
    forall j | 0 <= j < |elems| ensures row[j] == elems[j] {
      PlusZero(elems[j]);
      PlusCommutative(elems[j], Zero(p));
    }
  }

  /**
   * Modulo an h of degree k the multiplication table is symmetric, and each
   * of its cells is again a field element.
   */
  lemma MultiplicationTableCells(p: int, k: nat, h: Polynomial, i: int, j: int)
    requires Prime(p) && k >= 1 && InFp(h) && h.p == p && Degree(h) == k
    requires 0 <= i < |FieldElementsOf(p, k)| && 0 <= j < |FieldElementsOf(p, k)|
    ensures Elements(FieldElementsOf(p, k), p)
    ensures var t := MultiplicationTable(FieldElementsOf(p, k), p, h);
      |t| == |FieldElementsOf(p, k)| && |t[i].cells| == |t| &&
      t[i].header == FieldElementsOf(p, k)[i] &&
      t[i].cells[j] == t[j].cells[i] && t[i].cells[j] in FieldElementsOf(p, k)
  {
    var elems := FieldElementsOf(p, k);
    FieldElementsAreElements(p, k);
    var x, y := elems[i], elems[j];
    MulModCommutative(x, y, h);
    FieldElementsMembers(p, k, MulMod(x, y, h));
  }

  /** Multiplying by one changes nothing: the row headed by one repeats the column order. */
  lemma MultiplicationRowOfOne(p: int, k: nat, h: Polynomial, i: int)
    requires Prime(p) && k >= 1 && InFp(h) && h.p == p && Degree(h) == k
    requires 0 <= i < |FieldElementsOf(p, k)| && FieldElementsOf(p, k)[i] == One(p)
    ensures Elements(FieldElementsOf(p, k), p)
    ensures MultiplicationTable(FieldElementsOf(p, k), p, h)[i].cells == FieldElementsOf(p, k)
  {
    var elems := FieldElementsOf(p, k);
    FieldElementsAreElements(p, k);
    var row := MultiplicationTable(elems, p, h)[i].cells;
    forall j | 0 <= j < |elems| ensures row[j] == elems[j] {
      OneTimesElement(p, k, h, elems[j]);
    }
  }

  /** 1 * e mod h is e for a field element e. */
  lemma OneTimesElement(p: int, k: nat, h: Polynomial, e: Polynomial)
    requires Prime(p) && k >= 1 && InFp(h) && h.p == p && Degree(h) == k
    requires e in FieldElementsOf(p, k)
    ensures InFp(e) && e.p == p && MulMod(One(p), e, h) == e
  {
    FieldElementsMembers(p, k, e);
    MulModCommutative(One(p), e, h);
    MulModOne(e, h);
    ModOfSmaller(e, h);
  }

  /** Multiplying by zero gives zero: the row headed by zero is all zeros. */
  lemma MultiplicationRowOfZero(p: int, k: nat, h: Polynomial, i: int)
    requires Prime(p) && k >= 1 && InFp(h) && h.p == p && Degree(h) == k
    requires 0 <= i < |FieldElementsOf(p, k)| && FieldElementsOf(p, k)[i] == Zero(p)
    ensures Elements(FieldElementsOf(p, k), p)
    ensures var row := MultiplicationTable(FieldElementsOf(p, k), p, h)[i].cells;
      forall j :: 0 <= j < |row| ==> row[j] == Zero(p)
  {
    var elems := FieldElementsOf(p, k);
    FieldElementsAreElements(p, k);
    var row := MultiplicationTable(elems, p, h)[i].cells;
    forall j | 0 <= j < |row| ensures row[j] == Zero(p) {
      ZeroTimesElement(p, h, elems[j]);
    }
  }

  /** 0 * e mod h is 0. */
  lemma ZeroTimesElement(p: int, h: Polynomial, e: Polynomial)
    requires Prime(p) && InFp(h) && h.p == p && Degree(h) >= 0 && InFp(e) && e.p == p
    ensures MulMod(Zero(p), e, h) == Zero(p)
  {
    ProductWithZero(e, p);
    ModOfSmaller(Zero(p), h);
  }

  // ---------------------------------------------------------------------
  // The listing of the powers of the primitive element
  // ---------------------------------------------------------------------

  /** The line for a^n, n >= 2: the exponent, then the reduced power. */
  function PowerLine(pe: Polynomial, h: Polynomial, n: nat): string
    requires InFp(pe) && InFp(h) && h.p == pe.p && Degree(h) >= 0
  {
    "a^" + IntToString(n) + "  =  " + Text(PowMod(pe, n, h))
  }

  /** The listing: "0", the line for a itself, then a^2, ..., a^(order - 1). */
  function PEView(pe: Polynomial, h: Polynomial, order: int): seq<string>
    requires InFp(pe) && InFp(h) && h.p == pe.p && Degree(h) >= 0 && order >= 2
  {
    seq(order, n requires 0 <= n < order =>
      if n == 0 then IntToString(0)
      else if n == 1 then "a       =  " + Text(pe)
      else PowerLine(pe, h, n))
  }

  /**
   * The listing has one line per field element: "0" first, then a, then for
   * each n from 2 to order - 1 the line naming n and showing a^n mod h.
   */
  lemma PEViewLines(pe: Polynomial, h: Polynomial, order: int)
    requires InFp(pe) && InFp(h) && h.p == pe.p && Degree(h) >= 0 && order >= 2
    ensures var v := PEView(pe, h, order);
      |v| == order && v[0] == "0" && v[1] == "a       =  " + Text(pe) &&
      forall n :: 2 <= n < order ==>
        v[n] == "a^" + IntToString(n) + "  =  " + Text(PowMod(pe, n, h))
  {
    var v := PEView(pe, h, order);
    assert v[0] == IntToString(0);
    forall n | 2 <= n < order
      ensures v[n] == "a^" + IntToString(n) + "  =  " + Text(PowMod(pe, n, h))
    {
      PEViewLine(pe, h, order, n);
    }
  }

  /** Line n >= 2 of the listing is the power line for n. */
  lemma PEViewLine(pe: Polynomial, h: Polynomial, order: int, n: int)
    requires InFp(pe) && InFp(h) && h.p == pe.p && Degree(h) >= 0 && 2 <= n < order
    ensures PEView(pe, h, order)[n] == PowerLine(pe, h, n)
  {
  }

  /** The listing starts with "0" and the line for a. */
  lemma PEViewHead(pe: Polynomial, h: Polynomial, order: int)
    requires InFp(pe) && InFp(h) && h.p == pe.p && Degree(h) >= 0 && order >= 2
    ensures |PEView(pe, h, order)| == order
    ensures PEView(pe, h, order)[..2] == [IntToString(0), "a       =  " + Text(pe)]
  {
  }

  /** A reduced a is its own first power: the line for a shows a^1 mod h. */
  lemma PEViewFirstPower(pe: Polynomial, h: Polynomial, order: int)
    requires InFp(pe) && InFp(h) && h.p == pe.p && Degree(pe) < Degree(h) && order >= 2
    ensures PEView(pe, h, order)[1] == "a       =  " + Text(PowMod(pe, 1, h))
  {
    PowModFirst(pe, 1, h);
    ModOfSmaller(pe, h);
  }
}
