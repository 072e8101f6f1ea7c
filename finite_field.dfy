/**
 * FiniteFieldVM: the view model of GF(p^k). Construction enumerates and
 * sorts the field elements and searches for the irreducible modulus and a
 * primitive element; initialization fills the two tables and the listing
 * of the powers of the primitive element.
 */
module FiniteFields {
  import opened Wrappers
  import opened ModArith
  import opened NumberTheory
  import Combinatorics
  import opened Searches
  import opened Polynomials
  import opened PolyArith
  import opened PolyDivision
  import opened PolyRing
  import opened PolyPower
  import opened PolyText
  import opened FieldElements
  import opened Irreducibles
  import opened FieldOrders
  import opened FieldTables

  /** One more factor a: Multiply(a^e mod h, a, h) == a^(e + 1) mod h. */
  lemma PowModNext(f: Polynomial, e: nat, next: nat, h: Polynomial)
    requires InFp(f) && InFp(h) && h.p == f.p && Degree(h) >= 0 && next == e + 1
    ensures MulMod(PowMod(f, e, h), f, h) == PowMod(f, next, h)
  {
    PowModStep(f, next, h);
    PowModSame(f, Pred(next), e, h);
  }

  /** A copy of a reduced a, made by the list constructor, is a^1 mod h. */
  lemma CopyIsFirstPower(pe: Polynomial, h: Polynomial)
    requires InFp(pe) && InFp(h) && h.p == pe.p && Degree(pe) < Degree(h)
    ensures Make(pe.coeffs, pe.p) == PowMod(pe, 1, h)
  {
    TrimCanonical(pe.coeffs);
    PowModFirst(pe, 1, h);
    ModOfSmaller(pe, h);
  }

  /**
   * The shape the view model's loops rely on: a prime base, an order of at
   * least 2 that fits in an int, reduced elements, a reduced modulus of
   * degree k when one was found, and a reduced primitive element below it.
   */
  ghost predicate Shaped(p: int, k: int, elems: seq<Polynomial>, irr: Option<Polynomial>, prim: Result<Polynomial>)
  {
    Prime(p) && k >= 1 && 2 <= Pow(p, k) && IsInt32(Pow(p, k)) &&
    Elements(elems, p) &&
    (irr.Some? ==> InFp(irr.value) && irr.value.p == p && Degree(irr.value) == k) &&
    (prim.Success? ==>
      irr.Some? && InFp(prim.value) && prim.value.p == p && Degree(prim.value) < k)
  }

  /** The enumeration and both searches produce values of that shape. */
  lemma SearchesShaped(p: int, k: int)
    requires Prime(p) && k >= 1 && IsInt32(Pow(p, k))
    ensures Shaped(p, k, FieldElementsOf(p, k), IrreducibleSearch(p, k), PrimitiveOf(p, k))
  {
    FieldElementsAreElements(p, k);
    IrreducibleSearchCorrect(p, k);
    PowAtLeastBase(p, k);
    if PrimitiveOf(p, k).Success? {
      var h := IrreducibleSearch(p, k).value;
      PrimitiveOfSuccess(p, k, h, PrimitiveOf(p, k).value, Pow(p, k));
    }
  }

  class FiniteFieldVM {
    const characteristic: int
    const degreeOfExtension: int
    var fieldElements: seq<Polynomial>
    /** None stands for the null the search returns when no candidate passes. */
    var irreducibleElement: Option<Polynomial>
    /** A Failure stands for the exception GetPrimitiveElement throws. */
    var primitiveElement: Result<Polynomial>
    var additionTable: seq<TableRow>
    var multiplicationTable: seq<TableRow>
    var peView: seq<string>

    /** Order: Characteristic to the power DegreeOfExtension. */
    function Order(): int
      requires degreeOfExtension >= 0
    {
      Pow(characteristic, degreeOfExtension)
    }

    /** What the loops rely on: the base, the order, reduced elements, and the shape of both search results. */
    ghost predicate Built()
      reads this`fieldElements, this`irreducibleElement, this`primitiveElement
    {
      Shaped(characteristic, degreeOfExtension, fieldElements, irreducibleElement, primitiveElement)
    }

    /** Construction done: the elements and both searches are as the functions describe them. */
    ghost predicate Valid()
      reads this`fieldElements, this`irreducibleElement, this`primitiveElement
    {
      Built() &&
      fieldElements == FieldElementsOf(characteristic, degreeOfExtension) &&
      irreducibleElement == IrreducibleSearch(characteristic, degreeOfExtension) &&
      primitiveElement == PrimitiveOf(characteristic, degreeOfExtension)
    }

    /** The private constructor: elements first, then the irreducible, then the primitive element. */
    constructor (p: int, k: int)
      requires Prime(p) && k >= 1 && IsInt32(Pow(p, k))
      ensures characteristic == p && degreeOfExtension == k
      ensures Valid()
      ensures additionTable == [] && multiplicationTable == [] && peView == []
    {
      characteristic := p;
      degreeOfExtension := k;
      additionTable := [];
      multiplicationTable := [];
      peView := [];
      new;
      SetFieldElements();
      irreducibleElement := IrreducibleSearch(p, k);
      primitiveElement := PrimitiveOf(p, k);
      SearchesShaped(p, k);
    }

    /** SetFieldElements: one polynomial per coefficient tuple, appended in enumeration order, then sorted. */
    method SetFieldElements()
      requires characteristic >= 0 && degreeOfExtension >= 1
      modifies this
      ensures fieldElements == FieldElementsOf(characteristic, degreeOfExtension)
      ensures irreducibleElement == old(irreducibleElement) && primitiveElement == old(primitiveElement)
      ensures additionTable == old(additionTable) && multiplicationTable == old(multiplicationTable)
      ensures peView == old(peView)
    {
      var p, k := characteristic, degreeOfExtension;
      var elements := [];
      var perm := Combinatorics.GetPermutationsWithRept(Residues(p), k).value;
      ghost var polys := ResiduePolys(p, k);
      for i := 0 to |perm|
        invariant elements == polys[..i]
      {
        elements := elements + [Make(perm[i], p)];
      }
      assert elements == polys;
      fieldElements := Sorted(elements);
    }

    /**
     * GetMultiplicativeOrder: 1 for one, else the first factor of Order - 1
     * (all but the last) whose power is one, else Order - 1.
     */
    method GetMultiplicativeOrder(f: Polynomial) returns (r: int)
      requires Built() && irreducibleElement.Some? && InFp(f) && f.p == characteristic
      ensures r == MultiplicativeOrder(f, Order(), irreducibleElement.value)
    {
      var order := Order();
      var h := irreducibleElement.value;
      var factors := Factors(order);
      var oneP := One(characteristic);
      var isOne := Equal(f, oneP);
      if isOne {
        return 1;
      }
      ghost var tested := TestedFactors(order);
      TestedFactorsMembers(order);
      var i := 0;
      while i < |factors| - 1
        invariant 0 <= i <= |tested| && |tested| == if |factors| == 0 then 0 else |factors| - 1
        invariant forall j :: 0 <= j < i ==> PowerOf(f, tested[j], h) != Success(oneP)
      {
        assert factors[i] == tested[i] && tested[i] in tested;
        var power := Power(f, factors[i], h);
        var isUnit := false;
        if power.Success? {
          isUnit := Equal(power.value, oneP);
        }
        if isUnit {
          FirstUnitFactorAt(f, h, order, i);
          return factors[i];
        }
        i := i + 1;
      }
      FirstUnitFactorAt(f, h, order, i);
      return order - 1;
    }

    /** The cells of ComputeAdditionTableAsync: row i headed by element i, cell (i, j) the sum of elements i and j. */
    method ComputeAdditionTable() returns (table: seq<TableRow>)
      requires Built()
      ensures table == AdditionTable(fieldElements, characteristic)
    {
      var elems := fieldElements;
      var p := characteristic;
      table := [];
      ghost var full := AdditionTable(elems, p);
      for i := 0 to |elems|
        invariant |full| == |elems| && table == full[..i]
      {
        var cells := [];
        ghost var row := full[i].cells;
        for k := 0 to |elems|
          invariant |row| == |elems| && cells == row[..k]
        {
          var cell := Plus(elems[i], elems[k]);
          AdditionCellAt(elems, p, i, k);
          PrefixStep(row, cells, k, cell);
          cells := cells + [cell];
        }
        assert cells == row;
        PrefixStep(full, table, i, TableRow(elems[i], cells));
        table := table + [TableRow(elems[i], cells)];
      }
    }

    /** The cells of ComputeMultiplicationTableAsync: cell (i, j) is Multiply(element i, element j, irreducible). */
    method ComputeMultiplicationTable() returns (table: seq<TableRow>)
      requires Built() && irreducibleElement.Some?
      ensures table == MultiplicationTable(fieldElements, characteristic, irreducibleElement.value)
    {
      var elems := fieldElements;
      var p := characteristic;
      var h := irreducibleElement.value;
      table := [];
      ghost var full := MultiplicationTable(elems, p, h);
      for i := 0 to |elems|
        invariant |full| == |elems| && table == full[..i]
      {
        var cells := [];
        ghost var row := full[i].cells;
        for k := 0 to |elems|
          invariant |row| == |elems| && cells == row[..k]
        {
          var cell := MulMod(elems[i], elems[k], h);
          MultiplicationCellAt(elems, p, h, i, k);
          PrefixStep(row, cells, k, cell);
          cells := cells + [cell];
        }
        assert cells == row;
        PrefixStep(full, table, i, TableRow(elems[i], cells));
        table := table + [TableRow(elems[i], cells)];
      }
    }

    /**
     * CreatePEViewAsync: "0", the line for a, then for each i from 1 to
     * Order - 2 a fresh copy of a multiplied i times by a modulo the
     * irreducible, shown as a^(i + 1).
     */
    method CreatePEView() returns (output: seq<string>)
      requires Built() && primitiveElement.Success?
      ensures output == PEView(primitiveElement.value, irreducibleElement.value, Order())
    {
      var pe := primitiveElement.value;
      var h := irreducibleElement.value;
      var order := Order();
      var peText := ToString(pe);
      ghost var lines := PEView(pe, h, order);
      PEViewHead(pe, h, order);
      output := [IntToString(0), "a       =  " + peText];
      for i := 1 to order - 1
        invariant output == lines[..i + 1]
      {
        var it := Make(pe.coeffs, characteristic);
        CopyIsFirstPower(pe, h);
        ghost var e: nat := 1;
        for n := 0 to i
          invariant e == n + 1 && it == PowMod(pe, e, h)
        {
          ghost var next := e + 1;
          PowModNext(pe, e, next, h);
          it := MulMod(it, pe, h);
          e := next;
        }
        var s := ToString(it);
        var exponent := i + 1;
        var line := "a^" + IntToString(exponent) + "  =  " + s;
        PEViewLine(pe, h, order, exponent);
        PrefixStep(lines, output, exponent, line);
        output := output + [line];
      }
      assert output == lines;
    }

    /** InitializeAsync: all three computations start from the constructed state, then the tables and the listing are stored. */
    method Initialize()
      requires Built() && primitiveElement.Success?
      modifies this
      ensures Built()
      ensures fieldElements == old(fieldElements) && irreducibleElement == old(irreducibleElement)
      ensures primitiveElement == old(primitiveElement)
      ensures additionTable == AdditionTable(fieldElements, characteristic)
      ensures multiplicationTable == MultiplicationTable(fieldElements, characteristic, irreducibleElement.value)
      ensures peView == PEView(primitiveElement.value, irreducibleElement.value, Order())
    {
      var addition := ComputeAdditionTable();
      var multiplication := ComputeMultiplicationTable();
      var view := CreatePEView();
      additionTable, multiplicationTable, peView := addition, multiplication, view;
    }

    /**
     * CreateAsync: construct, then initialize. The exception of a failed
     * primitive-element search (or a missing irreducible) is returned as
     * the Failure.
     */
    static method Create(p: int, k: int) returns (r: Result<FiniteFieldVM>)
      requires Prime(p) && k >= 1 && IsInt32(Pow(p, k))
      ensures r.Failure? <==> PrimitiveOf(p, k).Failure?
      ensures r.Failure? ==> r.error == PrimitiveOf(p, k).error
      ensures r.Success? ==>
        var vm := r.value;
        fresh(vm) && vm.Valid() && vm.characteristic == p && vm.degreeOfExtension == k &&
        vm.primitiveElement.Success? &&
        vm.additionTable == AdditionTable(vm.fieldElements, p) &&
        vm.multiplicationTable == MultiplicationTable(vm.fieldElements, p, vm.irreducibleElement.value) &&
        vm.peView == PEView(vm.primitiveElement.value, vm.irreducibleElement.value, vm.Order())
    {
      var vm := new FiniteFieldVM(p, k);
      if vm.primitiveElement.Failure? {
        return Failure(vm.primitiveElement.error);
      }
      vm.Initialize();
      return Success(vm);
    }
  }
}
