/** Row-major numbering of the coordinates of an n-dimensional shape. */
module RowMajor {
  import opened MachineInt

  function Init<T>(s: seq<T>): seq<T>
    requires s != []
  {
    s[..|s| - 1]
  }

  function Last<T>(s: seq<T>): T
    requires s != []
  {
    s[|s| - 1]
  }

  function Product(shape: seq<nat>): nat {
    if shape == [] then 1 else Times(Product(Init(shape)), Last(shape))
  }

  predicate InRange(coords: seq<nat>, shape: seq<nat>) {
    && |coords| == |shape|
    && forall i :: 0 <= i < |coords| ==> coords[i] < shape[i]
  }

  /** Sum of coordinate times stride over the leading axes that have a coordinate. */
  function Dot(coords: seq<nat>, strides: seq<nat>): nat
    requires |coords| <= |strides|
  {
    if coords == [] then 0
    else Dot(Init(coords), strides) + Times(Last(coords), strides[|coords| - 1])
  }

  /** Position of a coordinate when the last axis varies fastest. */
  function Rank(coords: seq<nat>, shape: seq<nat>): nat
    requires |coords| == |shape|
  {
    if coords == [] then 0
    else Times(Rank(Init(coords), Init(shape)), Last(shape)) + Last(coords)
  }

  /** Division by repeated subtraction; `QuotientIsDivision` ties it to `/` and `%`. */
  function Quotient(n: nat, d: nat): nat
    requires d > 0
  {
    if n < d then 0 else 1 + Quotient(n - d, d)
  }

  function Remainder(n: nat, d: nat): nat
    requires d > 0
  {
    if n < d then n else Remainder(n - d, d)
  }

  /** Mixed-radix digits of a flat index; an empty axis contributes the digit 0. */
  function Unrank(flat: nat, shape: seq<nat>): (coords: seq<nat>)
    ensures |coords| == |shape|
    decreases shape
  {
    if shape == [] then []
    else if Last(shape) == 0 then Unrank(0, Init(shape)) + [0]
    else Unrank(Quotient(flat, Last(shape)), Init(shape)) + [Remainder(flat, Last(shape))]
  }

  /** Strides of a contiguous buffer: how many elements one step along an axis skips. */
  function ContiguousStride(shape: seq<nat>, axis: nat): nat
    requires axis < |shape|
  {
    Product(shape[axis + 1..])
  }

  function ContiguousStrideList(shape: seq<nat>): seq<nat> {
    seq(|shape|, axis requires 0 <= axis < |shape| => ContiguousStride(shape, axis))
  }

  lemma {:induction false} QuotientSplits(n: nat, d: nat)
    requires d > 0
    ensures n == Times(Quotient(n, d), d) + Remainder(n, d) && Remainder(n, d) < d
  {
    if n >= d {
      QuotientSplits(n - d, d);
    }
  }

  lemma {:induction false} QuotientIsUnique(q: nat, r: nat, d: nat)
    requires r < d
    ensures Quotient(Times(q, d) + r, d) == q && Remainder(Times(q, d) + r, d) == r
  {
    if q != 0 {
      QuotientIsUnique(q - 1, r, d);
    }
  }

  lemma QuotientIsDivision(n: nat, d: nat)
    requires d > 0
    ensures n / d == Quotient(n, d) && n % d == Remainder(n, d)
  {
    var q, r := n / d, n % d;
    DivisionSplits(n, d, q, r);
    QuotientIsUnique(q, r, d);
  }

  lemma DivisionSplits(n: nat, d: nat, q: nat, r: nat)
    requires d > 0 && q == n / d && r == n % d
    ensures n == Times(q, d) + r && r < d
  {
    TimesIsProduct(q, d);
  }

  lemma QuotientBound(n: nat, q: nat, d: nat)
    requires n < Times(q, d) && d > 0
    ensures Quotient(n, d) < q && Remainder(n, d) < d
  {
    QuotientSplits(n, d);
    if Quotient(n, d) >= q {
      TimesMonotone(q, Quotient(n, d), d);
    }
  }

  lemma TimesAddBound(r: nat, q: nat, d: nat, k: nat)
    requires r < q && k < d
    ensures Times(r, d) + k < Times(q, d)
  {
    TimesMonotone(r + 1, q, d);
  }

  lemma EmptyAxis(q: nat)
    ensures Times(q, 0) == 0
  {
    TimesIsProduct(q, 0);
  }

  /** Flat indices below the product of the shape and in-range coordinates are in bijection:
      `Unrank` lands in range ... */
  lemma {:induction false} UnrankInRange(flat: nat, shape: seq<nat>)
    requires flat < Product(shape)
    ensures InRange(Unrank(flat, shape), shape)
    decreases shape
  {
    if shape != [] {
      EmptyAxis(Product(Init(shape)));
      QuotientBound(flat, Product(Init(shape)), Last(shape));
      UnrankInRange(Quotient(flat, Last(shape)), Init(shape));
    }
  }

  lemma RankAppend(coords: seq<nat>, k: nat, shape: seq<nat>)
    requires shape != [] && |coords| == |shape| - 1
    ensures Rank(coords + [k], shape) == Times(Rank(coords, Init(shape)), Last(shape)) + k
  {
    assert Init(coords + [k]) == coords;
  }

  /** ... `Rank` undoes it ... */
  lemma {:induction false} RankOfUnrank(flat: nat, shape: seq<nat>)
    requires flat < Product(shape)
    ensures Rank(Unrank(flat, shape), shape) == flat
    decreases shape
  {
    if shape != [] {
      EmptyAxis(Product(Init(shape)));
      QuotientBound(flat, Product(Init(shape)), Last(shape));
      var q, r := Quotient(flat, Last(shape)), Remainder(flat, Last(shape));
      RankOfUnrank(q, Init(shape));
      RankAppend(Unrank(q, Init(shape)), r, shape);
      QuotientSplits(flat, Last(shape));
    }
  }

  /** ... the rank of an in-range coordinate is below the product ... */
  lemma {:induction false} RankBelowProduct(coords: seq<nat>, shape: seq<nat>)
    requires InRange(coords, shape)
    ensures Rank(coords, shape) < Product(shape)
  {
    if shape != [] {
      RankBelowProduct(Init(coords), Init(shape));
      TimesAddBound(Rank(Init(coords), Init(shape)), Product(Init(shape)), Last(shape), Last(coords));
    }
  }

  lemma RankDigits(coords: seq<nat>, shape: seq<nat>)
    requires shape != [] && InRange(coords, shape)
    ensures Quotient(Rank(coords, shape), Last(shape)) == Rank(Init(coords), Init(shape))
    ensures Remainder(Rank(coords, shape), Last(shape)) == Last(coords)
  {
    QuotientIsUnique(Rank(Init(coords), Init(shape)), Last(coords), Last(shape));
  }

  /** ... and `Unrank` undoes `Rank`. */
  lemma {:induction false} UnrankOfRank(coords: seq<nat>, shape: seq<nat>)
    requires InRange(coords, shape)
    ensures Unrank(Rank(coords, shape), shape) == coords
  {
    if shape != [] {
      UnrankOfRank(Init(coords), Init(shape));
      RankDigits(coords, shape);
      assert coords == Init(coords) + [Last(coords)];
    }
  }

  /** A full-rank coordinate dotted with the contiguous strides is its row-major position. */
  lemma {:induction false} DotContiguous(coords: seq<nat>, shape: seq<nat>)
    requires |coords| == |shape|
    ensures Dot(coords, ContiguousStrideList(shape)) == Rank(coords, shape)
  {
    if shape != [] {
      var init := Init(shape);
      var inner, strides := ContiguousStrideList(init), ContiguousStrideList(shape);
      forall axis | 0 <= axis < |init| ensures strides[axis] == Times(inner[axis], Last(shape)) {
        assert Init(shape[axis + 1..]) == init[axis + 1..];
      }
      DotContiguous(Init(coords), init);
      DotScaled(Init(coords), inner, strides, Last(shape));
      assert shape[|shape|..] == [];
      TimesOne(Last(coords));
    }
  }

  lemma {:induction false} DotScaled(coords: seq<nat>, a: seq<nat>, b: seq<nat>, factor: nat)
    requires |coords| <= |a| && |coords| <= |b|
    requires forall i :: 0 <= i < |coords| ==> b[i] == Times(a[i], factor)
    ensures Dot(coords, b) == Times(Dot(coords, a), factor)
  {
    if coords != [] {
      var n := |coords| - 1;
      DotScaled(Init(coords), a, b, factor);
      TimesAssociates(coords[n], a[n], factor);
      TimesDistributes(Dot(Init(coords), a), Times(coords[n], a[n]), factor);
    }
  }

  lemma {:induction false} ProductFront(shape: seq<nat>)
    requires shape != []
    ensures Product(shape) == Times(shape[0], Product(shape[1..]))
  {
    if |shape| == 1 {
      assert shape[1..] == [] && Init(shape) == [];
      TimesOne(shape[0]);
    } else {
      ProductFront(Init(shape));
      assert Init(shape)[1..] == Init(shape[1..]);
      TimesAssociates(shape[0], Product(Init(shape[1..])), Last(shape));
    }
  }
}
