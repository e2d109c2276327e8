/** The integer widths of the generated C++: `std::size_t` and `std::uint64_t` wrap modulo
    2^64, `std::int64_t` ranges over [INT64_MIN, INT64_MAX]. */
module MachineInt {
  const TWO64: int := 0x1_0000_0000_0000_0000
  const INT64_MAX: int := 0x7fff_ffff_ffff_ffff
  const INT64_MIN: int := -0x8000_0000_0000_0000

  predicate IsInt64(x: int) {
    INT64_MIN <= x <= INT64_MAX
  }

  /** The `std::size_t` that an exact integer result is stored as. */
  function Wrap(x: int): nat {
    x % TWO64
  }

  lemma WrapAdd(x: int, y: int)
    ensures Wrap(Wrap(x) + y) == Wrap(x + y)
  {
  }

  /** The product of two sizes, by repeated addition. Specifications use it in place of `*`, which
      keeps nonlinear arithmetic inside the few lemmas that need it. */
  function Times(x: nat, y: nat): nat {
    if x == 0 then 0 else y + Times(x - 1, y)
  }

  lemma {:induction false} TimesIsProduct(x: nat, y: nat)
    ensures Times(x, y) == x * y
  {
    if x != 0 {
      TimesIsProduct(x - 1, y);
      assert (x - 1) * y + y == x * y;
    }
  }

  lemma TimesCommutes(x: nat, y: nat)
    ensures Times(x, y) == Times(y, x)
  {
    TimesIsProduct(x, y);
    TimesIsProduct(y, x);
  }

  lemma TimesOne(k: nat)
    ensures Times(k, 1) == k && Times(1, k) == k
  {
    TimesIsProduct(k, 1);
  }

  lemma {:induction false} TimesDistributes(a: nat, b: nat, y: nat)
    ensures Times(a + b, y) == Times(a, y) + Times(b, y)
  {
    if a != 0 {
      TimesDistributes(a - 1, b, y);
    }
  }

  lemma TimesDistributesRight(a: nat, x: nat, y: nat)
    ensures Times(a, x + y) == Times(a, x) + Times(a, y)
  {
    TimesCommutes(a, x + y);
    TimesDistributes(x, y, a);
    TimesCommutes(a, x);
    TimesCommutes(a, y);
  }

  lemma {:induction false} TimesAssociates(a: nat, b: nat, y: nat)
    ensures Times(Times(a, b), y) == Times(a, Times(b, y))
  {
    if a != 0 {
      TimesAssociates(a - 1, b, y);
      TimesDistributes(b, Times(a - 1, b), y);
    }
  }

  lemma TimesMonotone(a: nat, b: nat, y: nat)
    requires a <= b
    ensures Times(a, y) <= Times(b, y)
  {
    TimesDistributes(a, b - a, y);
  }

  lemma TimesMonotoneRight(a: nat, x: nat, y: nat)
    requires x <= y
    ensures Times(a, x) <= Times(a, y)
  {
    TimesDistributesRight(a, x, y - x);
  }

  /** Multiplying by a wrapped factor or by the exact one gives the same wrapped product. */
  lemma {:induction false} WrapTimes(x: nat, y: nat)
    ensures Wrap(Times(x, Wrap(y))) == Wrap(Times(x, y))
  {
    if x != 0 {
      WrapTimes(x - 1, y);
      WrapAdd(Times(x - 1, Wrap(y)), Wrap(y));
      WrapAdd(Times(x - 1, y), Wrap(y));
      WrapAdd(y, Times(x - 1, y));
    }
  }

  /** The `std::size_t` product; `exact` is the value that `y` is the wrapped form of. */
  method MulSize(x: nat, y: nat, ghost exact: nat) returns (product: nat)
    requires y == Wrap(exact)
    ensures product == Wrap(Times(x, exact))
  {
    TimesIsProduct(x, y);
    WrapTimes(x, exact);
    product := (x * y) % TWO64;
  }

  /** The `std::size_t` sum plus product; `total` and `exact` are the unwrapped operands. */
  method MulAddSize(sum: nat, x: nat, y: nat, ghost total: nat, ghost exact: nat) returns (result: nat)
    requires sum == Wrap(total) && y == Wrap(exact)
    ensures result == Wrap(total + Times(x, exact))
  {
    TimesIsProduct(x, y);
    WrapTimes(x, exact);
    WrapAdd(total, Times(x, y));
    WrapAdd(Times(x, y), total);
    WrapAdd(Times(x, exact), total);
    result := (sum + x * y) % TWO64;
  }
}
