/**
 * The ordering predicates of C++/Tools/Utility.cpp, stated in exact integer
 * arithmetic.  The C++ compares doubles: the ratio value/weight, and the
 * score value^3 / weight^1.5.  Here a ratio comparison is a
 * cross-multiplication, and a score comparison compares the squares of the
 * scores, value^6 / weight^3, cross-multiplied.  The Meaning lemmas tie each
 * form back to the real-valued quantity the C++ computes.
 */
module Comparators {
  import opened Items

  function Cube(n: int): int {
    n * n * n
  }

  /** n^6, the square of n^3. */
  function Pow6(n: int): int {
    Cube(n) * Cube(n)
  }

  /** compareByScoreAscending: the item with the lower score comes first. */
  predicate CompareByScoreAscending(a: Item, b: Item) {
    Pow6(a.value) * Cube(b.weight) < Pow6(b.value) * Cube(a.weight)
  }

  /** compareByValue: the item with the higher value comes first. */
  predicate CompareByValue(a: Item, b: Item) {
    a.value > b.value
  }

  /** compareByWeight: the lighter item comes first. */
  predicate CompareByWeight(a: Item, b: Item) {
    a.weight < b.weight
  }

  /** compareByRatio: the item with the higher value/weight comes first. */
  predicate CompareByRatio(a: Item, b: Item) {
    a.value * b.weight > b.value * a.weight
  }

  /** compareByScore: the item with the higher value^3/weight^1.5 comes first. */
  predicate CompareByScore(a: Item, b: Item) {
    Pow6(a.value) * Cube(b.weight) > Pow6(b.value) * Cube(a.weight)
  }

  /** The comparator a std::sort call is given. */
  datatype Order = ByScoreAscending | ByValue | ByWeight | ByRatio | ByScore

  /** "a goes strictly before b" under the given comparator. */
  predicate Less(ord: Order, a: Item, b: Item) {
    match ord
    case ByScoreAscending => CompareByScoreAscending(a, b)
    case ByValue => CompareByValue(a, b)
    case ByWeight => CompareByWeight(a, b)
    case ByRatio => CompareByRatio(a, b)
    case ByScore => CompareByScore(a, b)
  }

  predicate ValidItem(a: Item) {
    a.value >= 0 && a.weight >= 0
  }

  predicate PositiveItem(a: Item) {
    a.value >= 0 && a.weight > 0
  }

  // ---------------------------------------------------------------------
  // Meaning of the integer forms

  /** For positive weights the cross-multiplication is the comparison of the real ratios. */
  lemma RatioComparatorMeaning(a: Item, b: Item)
    requires a.weight > 0 && b.weight > 0
    ensures CompareByRatio(a, b) <==>
      (a.value as real) / (a.weight as real) > (b.value as real) / (b.weight as real)
  {
    var ra := (a.value as real) / (a.weight as real);
    var rb := (b.value as real) / (b.weight as real);
    var aw, bw := a.weight as real, b.weight as real;
    assert ra * aw == a.value as real;
    assert rb * bw == b.value as real;
    var k := aw * bw;
    assert k > 0.0;
    assert (a.value * b.weight) as real == ra * k;
    assert (b.value * a.weight) as real == rb * k;
    RealScale(ra, rb, k);
  }

  /**
   * sa is the score value^3 / weight^1.5 of a exactly when sa >= 0 and
   * sa^2 * weight^3 == value^6; for such scores compareByScore is their
   * comparison.
   */
  lemma ScoreComparatorMeaning(a: Item, b: Item, sa: real, sb: real)
    requires PositiveItem(a) && PositiveItem(b)
    requires sa >= 0.0 && sa * sa * (Cube(a.weight) as real) == Pow6(a.value) as real
    requires sb >= 0.0 && sb * sb * (Cube(b.weight) as real) == Pow6(b.value) as real
    ensures CompareByScore(a, b) <==> sa > sb
  {
    var ca, cb := Cube(a.weight) as real, Cube(b.weight) as real;
    CubePositive(a.weight);
    CubePositive(b.weight);
    var k := ca * cb;
    assert k > 0.0;
    assert (Pow6(a.value) * Cube(b.weight)) as real == (sa * sa) * k;
    assert (Pow6(b.value) * Cube(a.weight)) as real == (sb * sb) * k;
    RealScale(sa * sa, sb * sb, k);
    SquareMonotone(sa, sb);
  }

  /** The ascending score order is the descending one read backwards. */
  lemma ScoreAscendingIsConverse(a: Item, b: Item)
    ensures CompareByScoreAscending(a, b) == CompareByScore(b, a)
  {
  }

  lemma RealScale(x: real, y: real, k: real)
    requires k > 0.0
    ensures x * k > y * k <==> x > y
  {
    if x > y {
      assert (x - y) * k > 0.0;
    } else {
      assert (y - x) * k >= 0.0;
    }
  }

  lemma SquareMonotone(x: real, y: real)
    requires x >= 0.0 && y >= 0.0
    ensures x * x > y * y <==> x > y
  {
    if x > y {
      var d := x - y;
      assert x * d > 0.0;
      assert d * y >= 0.0;
      assert x * x == x * d + x * y;
      assert x * y == d * y + y * y;
      assert x * x - y * y == x * d + d * y;
    } else {
      assert y * y >= y * x >= x * x;
    }
  }

  lemma CubePositive(n: int)
    requires n > 0
    ensures Cube(n) > 0
  {
    assert n * n > 0;
  }

  lemma CubeNonNegative(n: int)
    requires n >= 0
    ensures Cube(n) >= 0
  {
    assert n * n >= 0;
  }

  lemma Pow6NonNegative(n: int)
    ensures Pow6(n) >= 0
  {
    var c := Cube(n);
    assert c * c >= 0;
  }

  // ---------------------------------------------------------------------
  // Order properties

  /** p1/q1 > p2/q2 > p3/q3 implies p1/q1 > p3/q3, all in cross-multiplied form. */
  lemma FractionTransitive(p1: int, q1: int, p2: int, q2: int, p3: int, q3: int)
    requires p1 >= 0 && q1 >= 0 && p2 >= 0 && q2 >= 0 && p3 >= 0 && q3 >= 0
    requires p1 * q2 > p2 * q1 && p2 * q3 > p3 * q2
    ensures p1 * q3 > p3 * q1
  {
    assert p2 * q1 >= 0 && p3 * q2 >= 0;
    assert q2 > 0 && q3 > 0 && p2 > 0;
    assert (p1 * q2) * q3 > (p2 * q1) * q3;
    assert (p2 * q3) * q1 >= (p3 * q2) * q1;
    assert (p2 * q1) * q3 == (p2 * q3) * q1;
    assert q2 * (p1 * q3) > q2 * (p3 * q1) by {
      assert (p1 * q2) * q3 == q2 * (p1 * q3);
      assert (p3 * q2) * q1 == q2 * (p3 * q1);
    }
    IntScale(p1 * q3, p3 * q1, q2);
  }

  /** Equal cross products are transitive when the denominators are positive. */
  lemma FractionEqualTransitive(p1: int, q1: int, p2: int, q2: int, p3: int, q3: int)
    requires q1 > 0 && q2 > 0 && q3 > 0
    requires p1 * q2 == p2 * q1 && p2 * q3 == p3 * q2
    ensures p1 * q3 == p3 * q1
  {
    assert q2 * (p1 * q3) == (p1 * q2) * q3 == (p2 * q1) * q3 == (p2 * q3) * q1 == (p3 * q2) * q1 == q2 * (p3 * q1);
    if p1 * q3 > p3 * q1 {
      IntScale(p1 * q3, p3 * q1, q2);
    } else if p1 * q3 < p3 * q1 {
      IntScale(p3 * q1, p1 * q3, q2);
    }
  }

  lemma IntScale(x: int, y: int, k: int)
    requires k > 0
    ensures k * x > k * y <==> x > y
  {
    if x > y {
      assert k * (x - y) > 0;
    } else {
      assert k * (y - x) >= 0;
    }
  }

  lemma ScoreKeysNonNegative(a: Item)
    requires ValidItem(a)
    ensures Pow6(a.value) >= 0 && Cube(a.weight) >= 0
  {
    Pow6NonNegative(a.value);
    CubeNonNegative(a.weight);
  }

  /** No item goes before itself. */
  lemma LessIrreflexive(ord: Order, a: Item)
    ensures !Less(ord, a, a)
  {
  }

  /** Every comparator is transitive on items with non-negative fields. */
  lemma LessTransitive(ord: Order, a: Item, b: Item, c: Item)
    requires ValidItem(a) && ValidItem(b) && ValidItem(c)
    requires Less(ord, a, b) && Less(ord, b, c)
    ensures Less(ord, a, c)
  {
    match ord
    case ByRatio =>
      FractionTransitive(a.value, a.weight, b.value, b.weight, c.value, c.weight);
    case ByScore =>
      ScoreKeysNonNegative(a);
      ScoreKeysNonNegative(b);
      ScoreKeysNonNegative(c);
      FractionTransitive(Pow6(a.value), Cube(a.weight), Pow6(b.value), Cube(b.weight),
                         Pow6(c.value), Cube(c.weight));
    case ByScoreAscending =>
      ScoreKeysNonNegative(a);
      ScoreKeysNonNegative(b);
      ScoreKeysNonNegative(c);
      FractionTransitive(Pow6(c.value), Cube(c.weight), Pow6(b.value), Cube(b.weight),
                         Pow6(a.value), Cube(a.weight));
    case ByValue =>
    case ByWeight =>
  }

  /**
   * With positive weights every comparator is a strict weak order, as the
   * std::sort calls require: irreflexive, transitive, and "neither goes
   * before the other" is transitive too.
   */
  lemma LessIsStrictWeakOrder(ord: Order, a: Item, b: Item, c: Item)
    requires PositiveItem(a) && PositiveItem(b) && PositiveItem(c)
    ensures !Less(ord, a, a)
    ensures Less(ord, a, b) && Less(ord, b, c) ==> Less(ord, a, c)
    ensures !Less(ord, a, b) && !Less(ord, b, a) && !Less(ord, b, c) && !Less(ord, c, b) ==>
      !Less(ord, a, c) && !Less(ord, c, a)
  {
    if Less(ord, a, b) && Less(ord, b, c) {
      LessTransitive(ord, a, b, c);
    }
    if !Less(ord, a, b) && !Less(ord, b, a) && !Less(ord, b, c) && !Less(ord, c, b) {
      match ord
      case ByRatio =>
        FractionEqualTransitive(a.value, a.weight, b.value, b.weight, c.value, c.weight);
      case ByScore =>
        CubePositive(a.weight);
        CubePositive(b.weight);
        CubePositive(c.weight);
        FractionEqualTransitive(Pow6(a.value), Cube(a.weight), Pow6(b.value), Cube(b.weight),
                                Pow6(c.value), Cube(c.weight));
      case ByScoreAscending =>
        CubePositive(a.weight);
        CubePositive(b.weight);
        CubePositive(c.weight);
        FractionEqualTransitive(Pow6(a.value), Cube(a.weight), Pow6(b.value), Cube(b.weight),
                                Pow6(c.value), Cube(c.weight));
      case ByValue =>
      case ByWeight =>
    }
  }
}
