/** Integer and slice helpers shared by both pagination calculators:
    positive sizes, minimum and clamping, the ceiling division that turns an
    item count into a page count, and a model of a Go slice of pointers whose
    slots may still be nil. */
module PageCommon {

  /** A strictly positive integer, such as a normalised page size. */
  type Pos = x: int | x > 0 witness 1

  function Min(a: int, b: int): int
  {
    if a <= b then a else b
  }

  /** `x` pushed into the closed range `[lo, hi]`. */
  function Clamp(x: int, lo: int, hi: int): int
    requires lo <= hi
  {
    if x < lo then lo else if x > hi then hi else x
  }

  /** `k` pages of `size` items hold exactly `total` items: the first `k - 1`
      pages are not enough and `k` pages are. For `total > 0` this pins `k`
      down to the ceiling of `total / size`. */
  ghost predicate IsPageCount(total: nat, size: Pos, k: int)
  {
    (k - 1) * size < total <= k * size
  }

  lemma MulMonotone(a: int, b: int, c: Pos)
    requires a <= b
    ensures a * c <= b * c
  {
  }

  /** At most one page count fits a given total: the ceiling is unique. */
  lemma PageCountUnique(total: nat, size: Pos, j: int, k: int)
    requires IsPageCount(total, size, j) && IsPageCount(total, size, k)
    ensures j == k
  {
    if j < k {
      MulMonotone(j, k - 1, size);
    } else if k < j {
      MulMonotone(k, j - 1, size);
    }
  }

  /** Floor division plus one when a remainder is left is the ceiling. */
  lemma CeilingByRemainder(total: nat, size: Pos)
    requires total > 0
    ensures IsPageCount(total, size, if total % size == 0 then total / size else total / size + 1)
  {
    var q, m := total / size, total % size;
    assert total == q * size + m;
    if m == 0 {
      assert (q - 1) * size == q * size - size;
    } else {
      assert (q + 1) * size == q * size + size;
    }
  }

  /** A slot of a Go slice of pointers: still nil, or pointing at a value. */
  datatype Slot<T> = Nil | Ref(target: T)

  ghost predicate AllFilled<T>(slots: seq<Slot<T>>)
  {
    forall i :: 0 <= i < |slots| ==> slots[i].Ref?
  }

  /** The values a fully written slice of pointers points at. */
  function Deref<T>(slots: seq<Slot<T>>): (r: seq<T>)
    requires AllFilled(slots)
    ensures |r| == |slots|
    ensures forall i :: 0 <= i < |slots| ==> slots[i] == Ref(r[i])
  {
    seq(|slots|, i requires 0 <= i < |slots| => slots[i].target)
  }
}
