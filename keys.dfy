/** Keys stored in the skip list and the comparator every traversal uses. */
module Keys {

  /** A key is a number, or one of the two sentinel tags that bound every layer. */
  datatype Key = LeftSentinel | RightSentinel | Val(n: int)

  /**
   * SkipList.compareKeys: the first argument's sentinel tag decides before
   * the second's, and only two numbers are compared numerically.
   */
  function CompareKeys(k1: Key, k2: Key): (r: int)
    ensures -1 <= r <= 1
    ensures r == 0 ==> k1.Val? && k1 == k2
    ensures k1.Val? && k2.Val? ==> (r == 0 <==> k1 == k2)
  {
    if k1 == LeftSentinel then -1
    else if k1 == RightSentinel then 1
    else if k2 == LeftSentinel then 1
    else if k2 == RightSentinel then -1
    else if k1.n == k2.n then 0
    else if k1.n < k2.n then -1
    else 1
  }

  /** The place of a key in the order the sentinels stand for: -infinity, the numbers, +infinity. */
  function Rank(k: Key): nat
  {
    match k
    case LeftSentinel => 0
    case Val(_) => 1
    case RightSentinel => 2
  }

  /** The strict order the layers are kept in. */
  predicate Before(a: Key, b: Key)
  {
    Rank(a) < Rank(b) || (a.Val? && b.Val? && a.n < b.n)
  }

  /** A key that a search for `key` may stop on: the left sentinel or a number not above `key`. */
  predicate AtMost(k: Key, key: int)
  {
    k == LeftSentinel || (k.Val? && k.n <= key)
  }

  /** Before is a strict total order. */
  lemma BeforeIsStrictTotal(a: Key, b: Key, c: Key)
    ensures !Before(a, a)
    ensures Before(a, b) ==> !Before(b, a)
    ensures Before(a, b) && Before(b, c) ==> Before(a, c)
    ensures a == b || Before(a, b) || Before(b, a)
  {
  }

  /**
   * Whenever one side is a number, compareKeys is the three-way comparison
   * of the order Before.
   */
  lemma CompareAgreesWithOrder(k1: Key, k2: Key)
    requires k1.Val? || k2.Val?
    ensures CompareKeys(k1, k2) < 0 <==> Before(k1, k2)
    ensures CompareKeys(k1, k2) == 0 <==> k1 == k2
    ensures CompareKeys(k1, k2) > 0 <==> Before(k2, k1)
  {
  }

  /** The sentinel cases of compareKeys, including the two sentinel-against-itself answers. */
  lemma SentinelComparisons(k: Key)
    ensures CompareKeys(LeftSentinel, k) == -1
    ensures CompareKeys(RightSentinel, k) == 1
    ensures k.Val? ==> CompareKeys(k, LeftSentinel) == 1 && CompareKeys(k, RightSentinel) == -1
  {
  }

  /** On two numbers compareKeys is antisymmetric. */
  lemma CompareAntisymmetric(a: int, b: int)
    ensures CompareKeys(Val(a), Val(b)) == -CompareKeys(Val(b), Val(a))
    ensures CompareKeys(Val(a), Val(b)) == -1 <==> a < b
  {
  }
}
