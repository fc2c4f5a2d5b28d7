/**
 * The divisor enumeration of the stand-alone factors script: for one number
 * read from standard input it lists every divisor in [1, num], counts them
 * and reports "Prime Number" when the count is two.
 */
module Factors {

  /** Divisibility in the sense of the script's test `num % i == 0`. */
  predicate Divides(d: int, n: int)
    requires d >= 1
  {
    n % d == 0
  }

  /** The textbook definition of a prime, independent of the script. */
  predicate IsPrime(n: int) {
    n >= 2 && forall d :: 2 <= d < n ==> !Divides(d, n)
  }

  predicate StrictlyAscending(s: seq<int>) {
    forall j, k :: 0 <= j < k < |s| ==> s[j] < s[k]
  }

  /**
   * What the script does with one number: it either refuses a number that is
   * not positive, or prints the divisor list, their count, and whether the
   * "Prime Number" line follows.
   */
  datatype Report =
    | NotPositive
    | Factored(factors: seq<int>, count: int, prime: bool)

  /**
   * `factors` is the ascending list of the divisors of `num` below `bound`:
   * what the script's loop has collected when its counter reaches `bound`.
   */
  predicate DivisorList(num: int, factors: seq<int>, bound: int) {
    && (forall k :: 0 <= k < |factors| ==> 1 <= factors[k] < bound && Divides(factors[k], num))
    && (forall d :: 1 <= d < bound && Divides(d, num) ==> d in factors)
    && StrictlyAscending(factors)
  }

  /** The body of the script's read loop for one number `num`. */
  method Factors(num: int) returns (r: Report)
    ensures r.NotPositive? <==> num <= 0
    ensures r.Factored? ==> r.count == |r.factors|
    ensures r.Factored? ==> forall k :: 0 <= k < |r.factors| ==>
                              1 <= r.factors[k] <= num && Divides(r.factors[k], num)
    ensures r.Factored? ==> forall d :: 1 <= d <= num && Divides(d, num) ==> d in r.factors
    ensures r.Factored? ==> StrictlyAscending(r.factors)
    ensures r.Factored? ==> |r.factors| >= 1 && r.factors[0] == 1 && r.factors[|r.factors| - 1] == num
    ensures r.Factored? ==> (r.prime <==> r.count == 2)
    ensures r.Factored? ==> (r.prime <==> IsPrime(num))
  {
    if num <= 0 {
      return NotPositive;
    }
    var factors: seq<int> := [];
    var count := 0;
    var i := 1;
    while i <= num
      invariant 1 <= i <= num + 1
      invariant count == |factors|
      invariant DivisorList(num, factors, i)
    {
      DivisorListStep(num, factors, i);
      if num % i == 0 {
        factors := factors + [i];
        count := count + 1;
      }
      i := i + 1;
    }
    CompleteDivisorList(num, factors);
    r := Factored(factors, count, count == 2);
  }

  /** One turn of the loop keeps `DivisorList`, with the bound moved up by one. */
  lemma DivisorListStep(num: int, factors: seq<int>, i: int)
    requires 1 <= i && DivisorList(num, factors, i)
    ensures num % i == 0 ==> DivisorList(num, factors + [i], i + 1)
    ensures num % i != 0 ==> DivisorList(num, factors, i + 1)
  {
    var f := factors + [i];
    if num % i == 0 {
      forall d | 1 <= d < i + 1 && Divides(d, num) ensures d in f {
        if d < i {
          assert d in factors;
        } else {
          assert f[|factors|] == d;
        }
      }
    }
  }

  /** When the loop exits, the list has every property the script's output promises. */
  lemma CompleteDivisorList(num: int, factors: seq<int>)
    requires num >= 1 && DivisorList(num, factors, num + 1)
    ensures forall k :: 0 <= k < |factors| ==> 1 <= factors[k] <= num && Divides(factors[k], num)
    ensures forall d :: 1 <= d <= num && Divides(d, num) ==> d in factors
    ensures StrictlyAscending(factors)
    ensures |factors| >= 1 && factors[0] == 1 && factors[|factors| - 1] == num
    ensures |factors| == 2 <==> IsPrime(num)
  {
    assert Divides(1, num) && Divides(num, num);
    EndsAreOneAndNum(num, factors);
    CountTwoIffPrime(num, factors);
  }

  /** A complete, ascending divisor list of `num` starts with 1 and ends with `num`. */
  lemma EndsAreOneAndNum(num: int, factors: seq<int>)
    requires num >= 1
    requires forall k :: 0 <= k < |factors| ==> 1 <= factors[k] <= num && Divides(factors[k], num)
    requires 1 in factors && num in factors
    requires StrictlyAscending(factors)
    ensures |factors| >= 1 && factors[0] == 1 && factors[|factors| - 1] == num
  {
    var a :| 0 <= a < |factors| && factors[a] == 1;
    var b :| 0 <= b < |factors| && factors[b] == num;
  }

  /**
   * For the complete ascending divisor list of a positive number, a list of
   * length two, the script's prime test, is the same as primality.
   */
  lemma CountTwoIffPrime(num: int, factors: seq<int>)
    requires num >= 1
    requires forall k :: 0 <= k < |factors| ==> 1 <= factors[k] <= num && Divides(factors[k], num)
    requires forall d :: 1 <= d <= num && Divides(d, num) ==> d in factors
    requires StrictlyAscending(factors)
    ensures |factors| == 2 <==> IsPrime(num)
  {
    assert Divides(1, num) && Divides(num, num);
    EndsAreOneAndNum(num, factors);
    var n := |factors|;
    if n == 2 {
      assert factors == [1, num];
      forall d | 2 <= d < num
        ensures !Divides(d, num)
      {
        assert d !in factors;
      }
    } else if n == 1 {
      assert num == 1;
    } else {
      assert factors[0] < factors[1] < factors[n - 1];
      assert Divides(factors[1], num) && 2 <= factors[1] < num;
    }
  }

  // The script's loop counter is a Go `int`, a 64-bit signed integer whose
  // increment wraps from the largest value to the smallest.

  const MinInt64: int := -0x8000_0000_0000_0000
  const MaxInt64: int := 0x7FFF_FFFF_FFFF_FFFF

  predicate IsInt64(x: int) {
    MinInt64 <= x <= MaxInt64
  }

  /** Go's `i++` on an `int`. */
  function Inc64(i: int): (r: int)
    requires IsInt64(i)
    ensures IsInt64(r)
    ensures i < MaxInt64 ==> r == i + 1
    ensures i == MaxInt64 ==> r == MinInt64
  {
    if i == MaxInt64 then MinInt64 else i + 1
  }

  /** How the loop as written stops, if it stops within the iterations allowed. */
  datatype LoopEnd =
    | GuardFails     // `i <= num` is false: the loop exits normally
    | DivideByZero   // the body evaluates `num % i` with i == 0: a Go run-time panic
    | StillRunning   // neither happened within the iterations allowed

  /**
   * The loop `for i := 1; i <= num; i++ { if num%i == 0 { ... } }` as
   * written, from counter value `i`, for at most `fuel` completed turns.
   * Only how it stops is modelled, not the list it builds on the way.
   */
  function RunLoop(num: int, i: int, fuel: nat): (r: LoopEnd)
    requires IsInt64(num) && IsInt64(i)
    ensures r == DivideByZero ==> num >= 0
    ensures r == GuardFails ==> num < MaxInt64
    decreases fuel
  {
    if !(i <= num) then GuardFails
    else if i == 0 then DivideByZero
    else if fuel == 0 then StillRunning
    else RunLoop(num, Inc64(i), fuel - 1)
  }

  /** With `num` the largest `int`, the guard `i <= num` never fails. */
  lemma {:induction false} LoopNeverExitsAtMaxInt64(i: int, fuel: nat)
    requires IsInt64(i)
    ensures RunLoop(MaxInt64, i, fuel) != GuardFails
    decreases fuel
  {
    if fuel > 0 && i != 0 {
      LoopNeverExitsAtMaxInt64(Inc64(i), fuel - 1);
    }
  }

  /** From a counter at or below zero, the loop at `num` = MaxInt64 reaches i == 0 and panics. */
  lemma {:induction false} NegativeCounterPanics(i: int, fuel: nat)
    requires MinInt64 <= i <= 0 && fuel >= -i
    ensures RunLoop(MaxInt64, i, fuel) == DivideByZero
    decreases -i
  {
    if i < 0 {
      NegativeCounterPanics(Inc64(i), fuel - 1);
    }
  }

  /**
   * Started at i = 1 with `num` = MaxInt64, the loop climbs to MaxInt64,
   * wraps to MinInt64, climbs through the negative values and panics at
   * i == 0, after 2^64 - 1 turns.
   */
  lemma {:induction false} LoopPanicsAtMaxInt64(i: int, fuel: nat)
    requires 1 <= i <= MaxInt64
    requires fuel >= MaxInt64 - i + 1 - MinInt64
    ensures RunLoop(MaxInt64, i, fuel) == DivideByZero
    decreases MaxInt64 - i
  {
    if i < MaxInt64 {
      LoopPanicsAtMaxInt64(Inc64(i), fuel - 1);
    } else {
      NegativeCounterPanics(Inc64(i), fuel - 1);
    }
  }

  /** The whole run from i = 1: no normal exit, and a panic after 2^64 - 1 turns. */
  lemma ScriptPanicsAtMaxInt64()
    ensures RunLoop(MaxInt64, 1, 0x1_0000_0000_0000_0000 - 1) == DivideByZero
  {
    LoopPanicsAtMaxInt64(1, 0x1_0000_0000_0000_0000 - 1);
  }

  /** Below the largest `int` the loop exits normally after `num + 1 - i` more turns. */
  lemma {:induction false} LoopExitsBelowMaxInt64(num: int, i: int, fuel: nat)
    requires 1 <= i <= num + 1 && num < MaxInt64
    requires fuel >= num + 1 - i
    ensures RunLoop(num, i, fuel) == GuardFails
    decreases num + 1 - i
  {
    if i <= num {
      LoopExitsBelowMaxInt64(num, Inc64(i), fuel - 1);
    }
  }
}
