/**
 * The rollout arithmetic of deploymentutil.go and the readiness threshold of ready.go, with Go's 32-bit conversions.
 */
module Rollout {
  import opened Wrappers

  /** IntOrString: a number, a percentage, or text that is neither. */
  datatype Setting = Int(n: int) | Percent(p: int) | Malformed

  const INT32: int := 0x8000_0000

  /** The conversion int32(x). */
  function ToInt32(x: int): int {
    (x + INT32) % (2 * INT32) - INT32
  }

  /** GetValueFromIntOrPercent; a percentage is rounded up or down. */
  function Resolve(setting: Setting, total: nat, roundUp: bool): Option<int> {
    match setting
    case Int(n) => Some(n)
    case Percent(p) => Some(if roundUp then -((-(p * total)) / 100) else p * total / 100)
    case Malformed => None
  }

  /** What both settings resolve to before they are narrowed, and whether unavailable had to be raised to 1. */
  function Fenceposts(maxSurge: Setting, maxUnavailable: Setting, desired: nat): Option<(int, int)> {
    var surge, unavailable := Resolve(maxSurge, desired, true), Resolve(maxUnavailable, desired, false);
    if surge.None? || unavailable.None? then None
    else Some((surge.value, if surge.value == 0 && unavailable.value == 0 then 1 else unavailable.value))
  }

  /** On an error the code goes on with zeroes. */
  function ResolveFenceposts(maxSurge: Setting, maxUnavailable: Setting, desired: nat): (int, int) {
    match Fenceposts(maxSurge, maxUnavailable, desired)
    case None => (0, 0)
    case Some(posts) => (ToInt32(posts.0), ToInt32(posts.1))
  }

  function MaxUnavailable(rolling: bool, maxSurge: Setting, maxUnavailable: Setting, replicas: nat): int {
    if !rolling || replicas == 0 then 0
    else
      var value := ResolveFenceposts(maxSurge, maxUnavailable, replicas).1;
      if value > replicas then replicas else value
  }

  /** deploymentReady compares the ready replicas with this. */
  function Threshold(rolling: bool, maxSurge: Setting, maxUnavailable: Setting, replicas: nat): int {
    replicas - MaxUnavailable(rolling, maxSurge, maxUnavailable, replicas)
  }

  /** A setting the API can carry: numbers are 32-bit, percentages are any non-negative number. */
  predicate NonNegative(setting: Setting) {
    match setting
    case Int(n) => 0 <= n < INT32
    case Percent(p) => 0 <= p
    case Malformed => true
  }

  /** A percentage of this many replicas, in the low 32 bits, reads as a negative number. */
  predicate Wraps(setting: Setting, replicas: nat) {
    setting.Percent? && setting.p * replicas / 100 % (2 * INT32) >= INT32
  }

  /** A percentage is the least number of hundredths that covers it, or the greatest that it covers. */
  lemma ResolveMeaning(p: nat, total: nat)
    ensures exists up: nat :: Resolve(Percent(p), total, true) == Some(up) && 100 * (up - 1) < p * total <= 100 * up
    ensures exists down: nat ::
      Resolve(Percent(p), total, false) == Some(down) && 100 * down <= p * total < 100 * (down + 1)
  {
    var x := p * total;
    assert x >= 0;
    var up, down := -((-x) / 100), x / 100;
    assert up >= 0 && 100 * (up - 1) < x <= 100 * up;
    assert down >= 0 && 100 * down <= x < 100 * (down + 1);
    assert Resolve(Percent(p), total, true) == Some(up) && Resolve(Percent(p), total, false) == Some(down);
  }

  /** A number stands for itself, whatever the total; text that is neither a number nor a percentage is an error. */
  lemma ResolveOthers(n: int, total: nat, roundUp: bool)
    ensures Resolve(Int(n), total, roundUp) == Some(n) && Resolve(Malformed, total, roundUp) == None
  {
  }

  /** The conversion keeps the low 32 bits, read with a sign; it keeps the numbers that fit. */
  lemma ToInt32Exactly(x: int)
    ensures -INT32 <= ToInt32(x) < INT32 && (ToInt32(x) - x) % (2 * INT32) == 0
    ensures -INT32 <= x < INT32 ==> ToInt32(x) == x
  {
    var m := 2 * INT32;
    var q, r := (x + INT32) / m, (x + INT32) % m;
    assert x + INT32 == q * m + r;
    assert ToInt32(x) - x == -q * m;
    assert (-q * m) % m == 0;
  }

  /** Both limits, raised and narrowed; zeroes where a setting is malformed. */
  lemma FencepostsExactly(maxSurge: Setting, maxUnavailable: Setting, desired: nat)
    ensures maxSurge.Malformed? || maxUnavailable.Malformed? ==>
      ResolveFenceposts(maxSurge, maxUnavailable, desired) == (0, 0)
    ensures !maxSurge.Malformed? && !maxUnavailable.Malformed? ==>
      var surge, limit := Resolve(maxSurge, desired, true).value, Resolve(maxUnavailable, desired, false).value;
      && ResolveFenceposts(maxSurge, maxUnavailable, desired).0 == ToInt32(surge)
      && (surge != 0 || limit != 0 ==> ResolveFenceposts(maxSurge, maxUnavailable, desired).1 == ToInt32(limit))
      && (surge == 0 && limit == 0 ==> ResolveFenceposts(maxSurge, maxUnavailable, desired) == (0, 1))
  {
    ToInt32Exactly(0);
    ToInt32Exactly(1);
  }

  /**
   * What a rolling deployment can do without: nothing if a setting is malformed, one replica if both limits resolve to
   * zero, and otherwise the limit for unavailable replicas, but no more than there are. Without rolling updates, or
   * without replicas, it is nothing.
   */
  lemma MaxUnavailableExactly(rolling: bool, maxSurge: Setting, maxUnavailable: Setting, replicas: nat)
    ensures !rolling || replicas == 0 || maxSurge.Malformed? || maxUnavailable.Malformed? ==>
      MaxUnavailable(rolling, maxSurge, maxUnavailable, replicas) == 0
    ensures rolling && replicas > 0 && !maxSurge.Malformed? && !maxUnavailable.Malformed? ==>
      var surge, limit := Resolve(maxSurge, replicas, true).value, Resolve(maxUnavailable, replicas, false).value;
      && (surge == 0 && limit == 0 ==> MaxUnavailable(rolling, maxSurge, maxUnavailable, replicas) == 1)
      && (!(surge == 0 && limit == 0) && -INT32 <= limit < INT32 ==>
          MaxUnavailable(rolling, maxSurge, maxUnavailable, replicas) == if limit > replicas then replicas else limit)
    ensures Threshold(rolling, maxSurge, maxUnavailable, replicas) ==
      replicas - MaxUnavailable(rolling, maxSurge, maxUnavailable, replicas)
  {
    if !maxSurge.Malformed? && !maxUnavailable.Malformed? {
      ToInt32Exactly(Resolve(maxUnavailable, replicas, false).value);
      ToInt32Exactly(1);
    }
  }

  /** A limit that is not zero but reads as zero in its low 32 bits. */
  predicate Vanishes(value: Option<int>) {
    value.Some? && value.value != 0 && value.value % (2 * INT32) == 0
  }

  /**
   * Surge and unavailable both come out as zero exactly when a setting is malformed, or one of them vanishes in 32
   * bits and the other one vanishes or is zero. Short of that, unavailable is raised to 1 when both are zero.
   */
  lemma BothZeroExactly(maxSurge: Setting, maxUnavailable: Setting, desired: nat)
    ensures
      var surge, unavailable := Resolve(maxSurge, desired, true), Resolve(maxUnavailable, desired, false);
      ResolveFenceposts(maxSurge, maxUnavailable, desired) == (0, 0) <==>
        || maxSurge.Malformed? || maxUnavailable.Malformed?
        || (Vanishes(surge) && (Vanishes(unavailable) || unavailable == Some(0)))
        || (Vanishes(unavailable) && surge == Some(0))
  {
    var surge, unavailable := Resolve(maxSurge, desired, true), Resolve(maxUnavailable, desired, false);
    if surge.Some? && unavailable.Some? {
      NarrowsToZero(surge.value);
      NarrowsToZero(unavailable.value);
      NarrowsToZero(1);
    }
  }

  lemma NarrowsToZero(x: int)
    ensures ToInt32(x) == 0 <==> x % (2 * INT32) == 0
  {
    var m := 2 * INT32;
    var q, r := x / m, x % m;
    assert x == q * m + r;
    if r < INT32 {
      assert (x + INT32) % m == r + INT32;
    } else {
      assert x + INT32 == (q + 1) * m + (r - INT32);
      assert (x + INT32) % m == r - INT32;
    }
  }

  /** The input that shows it: a percentage of 2^32 * 100 lets no replica be unavailable and none be added. */
  lemma HugePercentageVanishes()
    ensures ResolveFenceposts(Int(0), Percent(4_294_967_296 * 100), 1) == (0, 0)
  {
    assert 4_294_967_296 * 100 * 1 / 100 == 4_294_967_296;
    NarrowsToZero(4_294_967_296);
  }

  /** At most all replicas may be unavailable, and at least none, exactly when the percentage does not wrap around. */
  lemma MaxUnavailableInRangeExactly(rolling: bool, maxSurge: Setting, maxUnavailable: Setting, replicas: nat)
    requires NonNegative(maxSurge) && NonNegative(maxUnavailable)
    ensures 0 <= MaxUnavailable(rolling, maxSurge, maxUnavailable, replicas) <= replicas <==>
      !rolling || maxSurge.Malformed? || !Wraps(maxUnavailable, replicas)
    ensures 0 <= Threshold(rolling, maxSurge, maxUnavailable, replicas) <= replicas <==>
      !rolling || maxSurge.Malformed? || !Wraps(maxUnavailable, replicas)
  {
    if maxUnavailable.Percent? {
      var x := maxUnavailable.p * replicas / 100;
      Narrowing(x);
      assert x >= 0 by {
        assert maxUnavailable.p * replicas >= 0;
      }
    }
  }

  lemma Narrowing(x: int)
    ensures ToInt32(x) >= 0 <==> x % (2 * INT32) < INT32
    ensures 0 <= x < INT32 ==> ToInt32(x) == x
  {
    var m := 2 * INT32;
    var q, r := x / m, x % m;
    assert x == q * m + r;
    if r < INT32 {
      assert (x + INT32) / m == q && (x + INT32) % m == r + INT32;
    } else {
      assert x + INT32 == (q + 1) * m + (r - INT32);
      assert (x + INT32) % m == r - INT32;
    }
  }

  /**
   * The input that shows it: three thousand million percent asks for more ready than desired, and for fewer when
   * there are more.
   */
  lemma HugePercentage()
    ensures Threshold(true, Int(1), Percent(3_000_000_000), 100) > 100
    ensures Threshold(true, Int(1), Percent(3_000_000_000), 120) < Threshold(true, Int(1), Percent(3_000_000_000), 100)
  {
    assert Resolve(Percent(3_000_000_000), 100, false) == Some(3_000_000_000);
    assert Resolve(Percent(3_000_000_000), 120, false) == Some(3_600_000_000);
    assert ToInt32(3_000_000_000) == -1_294_967_296 && ToInt32(3_600_000_000) == -694_967_296;
  }

  /** One more replica never lowers the number that must be ready. */
  lemma {:induction false} ThresholdMonotonic(rolling: bool, maxSurge: Setting, maxUnavailable: Setting, fewer: nat,
                                              more: nat)
    requires NonNegative(maxSurge) && NonNegative(maxUnavailable) && fewer <= more
    requires maxUnavailable.Percent? ==> maxUnavailable.p * more / 100 < INT32
    ensures Threshold(rolling, maxSurge, maxUnavailable, fewer) <= Threshold(rolling, maxSurge, maxUnavailable, more)
    decreases more
  {
    if rolling && fewer < more {
      if maxUnavailable.Percent? {
        PercentGrows(maxUnavailable.p, more - 1);
      }
      ThresholdStep(maxSurge, maxUnavailable, more - 1);
      ThresholdMonotonic(rolling, maxSurge, maxUnavailable, fewer, more - 1);
    }
  }

  lemma PercentGrows(p: nat, total: nat)
    ensures 0 <= p * total / 100 <= p * (total + 1) / 100
    ensures p < 100 ==> p * (total + 1) / 100 <= p * total / 100 + 1
    ensures p >= 100 ==> p * total / 100 >= total
  {
    assert p * (total + 1) == p * total + p;
    assert p * total >= 0;
    if p >= 100 {
      assert p * total == 100 * total + (p - 100) * total;
      assert (p - 100) * total >= 0;
    }
  }

  /** Whether the surge is zero does not depend on the number of replicas. */
  lemma SurgeZero(maxSurge: Setting, total: nat)
    requires NonNegative(maxSurge) && !maxSurge.Malformed? && total > 0
    ensures Resolve(maxSurge, total, true) == Some(0) <==> maxSurge == Int(0) || maxSurge == Percent(0)
  {
    if maxSurge.Percent? {
      var x := maxSurge.p * total;
      assert maxSurge.p > 0 ==> x > 0;
      assert -((-x) / 100) == 0 <==> x == 0;
    }
  }

  lemma ThresholdStep(maxSurge: Setting, maxUnavailable: Setting, replicas: nat)
    requires NonNegative(maxSurge) && NonNegative(maxUnavailable)
    requires maxUnavailable.Percent? ==> maxUnavailable.p * (replicas + 1) / 100 < INT32
    ensures Threshold(true, maxSurge, maxUnavailable, replicas) <=
      Threshold(true, maxSurge, maxUnavailable, replicas + 1)
  {
    if replicas > 0 && !maxSurge.Malformed? && !maxUnavailable.Malformed? {
      SurgeZero(maxSurge, replicas);
      SurgeZero(maxSurge, replicas + 1);
      var before := Fenceposts(maxSurge, maxUnavailable, replicas).value.1;
      var after := Fenceposts(maxSurge, maxUnavailable, replicas + 1).value.1;
      if maxUnavailable.Percent? {
        PercentGrows(maxUnavailable.p, replicas);
      }
      Narrowing(before);
      Narrowing(after);
    }
  }
}
