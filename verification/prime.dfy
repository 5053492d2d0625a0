/**
  The prime-number example job: `is_prime`, the `number_source` data source
  that hands out work units, and the map and reduce tasks.

  Integers are unbounded; `long` overflow is not modelled. The `double`
  square root of `is_prime` is an integer floor square root here.
 */
module PrimeCalculator {

  /** `d` is a positive divisor of `n`. */
  predicate Divides(d: int, n: int)
  {
    d >= 1 && n % d == 0
  }

  /** The mathematical notion the job is after. */
  ghost predicate Prime(n: int)
  {
    n >= 2 && forall d :: 2 <= d < n ==> !Divides(d, n)
  }

  /** Integer floor square root, standing in for
      `static_cast<long>(std::sqrt(static_cast<double>(n)))`. */
  function Isqrt(n: nat): (r: nat)
    ensures r * r <= n < (r + 1) * (r + 1)
  {
    if n == 0 then 0
    else
      var s := Isqrt(n - 1);
      assert (s + 2) * (s + 2) == (s + 1) * (s + 1) + 2 * s + 3;
      if (s + 1) * (s + 1) <= n then s + 1 else s
  }

  lemma SquareMonotone(a: nat, b: nat)
    requires a <= b
    ensures a * a <= b * b
  {
    assert a * a <= a * b <= b * b;
  }

  /** `Isqrt(n)` is the only `r` with `r * r <= n < (r + 1) * (r + 1)`. */
  lemma IsqrtUnique(n: nat, r: nat)
    requires r * r <= n < (r + 1) * (r + 1)
    ensures Isqrt(n) == r
  {
    var s := Isqrt(n);
    if s < r {
      SquareMonotone(s + 1, r);
    } else if s > r {
      SquareMonotone(r + 1, s);
    }
  }

  /** Whatever squares to at most `n` is at most `Isqrt(n)`. */
  lemma BelowIsqrt(n: nat, a: nat)
    requires a * a <= n
    ensures a <= Isqrt(n)
  {
    if a > Isqrt(n) {
      SquareMonotone(Isqrt(n) + 1, a);
    }
  }

  /** The trial-division loop `for (i = from; i < bound; i += 2)`: whether
      it meets an `i` dividing `n` (and so returns false). */
  function TrialFinds(n: int, from: int, bound: int): (found: bool)
    requires from >= 1
    ensures found <==> exists j :: from <= j < bound && (j - from) % 2 == 0 && Divides(j, n)
    decreases bound - from
  {
    if from < bound then
      if Divides(from, n) then true
      else
        var rest := TrialFinds(n, from + 2, bound);
        assert forall j :: from <= j < bound && (j - from) % 2 == 0 && j != from && Divides(j, n) ==>
                             from + 2 <= j && (j - (from + 2)) % 2 == 0;
        rest
    else false
  }

  /** `is_prime` as written. Numbers below 2 other than 0 and 1 (the
      negatives) are reported prime, even numbers above 2 are not, and an odd
      `n > 2` is reported prime unless an odd `i` with `3 <= i < Isqrt(n)`
      divides it; the bound is strict. */
  function IsPrime(number: int): (r: bool)
    ensures number < 0 ==> r
    ensures number == 0 || number == 1 ==> !r
    ensures number == 2 ==> r
    ensures number > 2 && number % 2 == 0 ==> !r
    ensures number > 2 && number % 2 == 1 ==>
              (r <==> !exists i :: 3 <= i < Isqrt(number) && i % 2 == 1 && Divides(i, number))
  {
    if number > 2 then
      if number % 2 == 0 then false
      else
        var found := TrialFinds(number, 3, Isqrt(number));
        assert forall j :: 3 <= j ==> ((j - 3) % 2 == 0 <==> j % 2 == 1);
        !found
    else
      !(number == 0 || number == 1)
  }

  /** `is_prime` with the loop bound the algorithm needs, `i <= Isqrt(n)`. */
  function IsPrimeIntended(number: int): (r: bool)
    ensures number < 0 ==> r
    ensures number > 2 && number % 2 == 1 ==>
              (r <==> !exists i :: 3 <= i <= Isqrt(number) && i % 2 == 1 && Divides(i, number))
  {
    if number > 2 then
      if number % 2 == 0 then false
      else
        var found := TrialFinds(number, 3, Isqrt(number) + 1);
        assert forall j :: 3 <= j ==> ((j - 3) % 2 == 0 <==> j % 2 == 1);
        !found
    else
      !(number == 0 || number == 1)
  }

  /** A multiple of an even number is even. */
  lemma EvenMultiple(a: int, q: int)
    requires a % 2 == 0
    ensures (a * q) % 2 == 0
  {
    var h := a / 2;
    assert a * q == 2 * (h * q);
    MultipleDivisible(2, h * q);
  }

  /** Every divisor of an odd number is odd. */
  lemma OddDivisor(n: int, a: int)
    requires n % 2 == 1 && Divides(a, n)
    ensures a % 2 == 1
  {
    var q := n / a;
    assert n == a * q;
    if a % 2 == 0 {
      EvenMultiple(a, q);
    }
  }

  lemma MulMonotone(a: int, b: int, c: int)
    requires a <= b && c >= 0
    ensures a * c <= b * c
  {
  }

  lemma Distributes(a: int, x: int, y: int)
    ensures a * (x - y) == a * x - a * y
  {
  }

  /** A multiple of `a` is divisible by `a`. */
  lemma MultipleDivisible(a: int, q: int)
    requires a >= 1
    ensures Divides(a, a * q)
  {
    var n := a * q;
    var q' := n / a;
    var r := n % a;
    assert n == a * q' + r;
    Distributes(a, q, q');
    if q - q' >= 1 {
      MulMonotone(1, q - q', a);
    } else if q' - q >= 1 {
      MulMonotone(1, q' - q, a);
      Distributes(a, q', q);
    }
  }

  /** A number with a divisor strictly between 1 and itself has one whose
      square does not exceed it. */
  lemma SmallDivisor(n: int, d: int) returns (a: int)
    requires 2 <= d < n && Divides(d, n)
    ensures 2 <= a && a * a <= n && Divides(a, n)
  {
    var e := n / d;
    assert n == d * e + n % d;
    assert e >= 2 by {
      if e < 2 {
        MulMonotone(e, 1, d);
      }
    }
    if d <= e {
      a := d;
      MulMonotone(d, e, d);
    } else {
      a := e;
      MulMonotone(e, d, e);
      MultipleDivisible(e, d);
    }
  }

  /** An odd `n > 2` without an odd divisor in `3..Isqrt(n)` is prime. */
  lemma NoSmallOddDivisorPrime(n: int)
    requires n > 2 && n % 2 == 1
    requires !exists i :: 3 <= i <= Isqrt(n) && i % 2 == 1 && Divides(i, n)
    ensures Prime(n)
  {
    forall d | 2 <= d < n ensures !Divides(d, n) {
      if Divides(d, n) {
        var a := SmallDivisor(n, d);
        BelowIsqrt(n, a);
        OddDivisor(n, a);
        assert false;
      }
    }
  }

  /** An odd divisor `i` with `3 <= i <= Isqrt(n)` is a proper divisor. */
  lemma SmallOddDivisorNotPrime(n: int, i: int)
    requires n > 2 && 3 <= i <= Isqrt(n) && Divides(i, n)
    ensures !Prime(n)
  {
    SquareMonotone(i, Isqrt(n));
    MulMonotone(3, i, i);
    assert 2 <= i < n;
  }

  /** The corrected predicate decides primality exactly on the
      non-negative numbers. */
  lemma IsPrimeIntendedExact(n: int)
    requires n >= 0
    ensures IsPrimeIntended(n) <==> Prime(n)
  {
    if n > 2 && n % 2 == 1 {
      if IsPrimeIntended(n) {
        NoSmallOddDivisorPrime(n);
      } else {
        var i :| 3 <= i <= Isqrt(n) && i % 2 == 1 && Divides(i, n);
        SmallOddDivisorNotPrime(n, i);
      }
    } else if n > 2 {
      assert Divides(2, n);
    } else if n == 2 {
      assert Prime(2);
    }
  }

  /** The strict bound only loses divisors: every prime is still reported
      prime by `is_prime` as written. */
  lemma IsPrimeKeepsPrimes(n: int)
    requires Prime(n)
    ensures IsPrime(n)
  {
    if n > 2 {
      assert !Divides(2, n);
      if !IsPrime(n) {
        var i :| 3 <= i < Isqrt(n) && i % 2 == 1 && Divides(i, n);
        SmallOddDivisorNotPrime(n, i);
      }
    }
  }

  /** 9 = 3 * 3 is reported prime: `Isqrt(9) == 3` and the loop
      `for (i = 3; i < 3; ...)` never runs. */
  lemma NineReportedPrime()
    ensures IsPrime(9) && !Prime(9)
    ensures !IsPrimeIntended(9)
  {
    IsqrtUnique(9, 3);
    assert Divides(3, 9);
  }

  /** So is 15 = 3 * 5: `Isqrt(15) == 3`. */
  lemma FifteenReportedPrime()
    ensures IsPrime(15) && !Prime(15)
  {
    IsqrtUnique(15, 3);
    assert Divides(3, 15);
  }

  /** So is 25 = 5 * 5: `Isqrt(25) == 5`, and 3 does not divide it. */
  lemma TwentyFiveReportedPrime()
    ensures IsPrime(25) && !Prime(25)
  {
    IsqrtUnique(25, 5);
    assert forall i :: 3 <= i < 5 && i % 2 == 1 ==> i == 3;
    assert !Divides(3, 25);
    assert Divides(5, 25);
  }

  /** The integers `lo..hi` inclusive, ascending. */
  function Interval(lo: int, hi: int): (r: seq<int>)
    ensures |r| == if lo <= hi then hi - lo + 1 else 0
    ensures forall i :: 0 <= i < |r| ==> r[i] == lo + i
    decreases if lo <= hi then hi - lo + 1 else 0
  {
    if lo > hi then [] else [lo] + Interval(lo + 1, hi)
  }

  /** Two adjacent intervals make one. */
  lemma IntervalSplit(lo: int, mid: int, hi: int)
    requires lo <= mid <= hi + 1
    ensures Interval(lo, mid - 1) + Interval(mid, hi) == Interval(lo, hi)
  {
    var a := Interval(lo, mid - 1);
    var b := Interval(mid, hi);
    assert |a + b| == |Interval(lo, hi)|;
    forall i | 0 <= i < |a + b| ensures (a + b)[i] == Interval(lo, hi)[i] {
      if i >= |a| {
        assert (a + b)[i] == b[i - |a|];
      }
    }
  }

  /** The state of a `number_source`: the key counter and the parameters
      `first`, `last` and `step`. */
  datatype NumberSource = NumberSource(sequence: int, first: int, last: int, step: int)

  /** A freshly constructed source: the counter starts at 0. */
  function NewSource(first: int, last: int, step: int): NumberSource
  {
    NumberSource(0, first, last, step)
  }

  /** What one `setup_key` call yields: the key, the updated source, and
      whether the key is accepted. */
  datatype KeySetup = KeySetup(key: int, source: NumberSource, accepted: bool)

  /** `setup_key`: hands out the counter's value, advances the counter on
      every call, and accepts the key while `key * step <= last`. */
  function SetupKey(s: NumberSource): (r: KeySetup)
    ensures r.key == s.sequence
    ensures r.source.sequence == s.sequence + 1
    ensures r.source.(sequence := s.sequence) == s
    ensures r.accepted <==> r.key * s.step <= s.last
  {
    var key := s.sequence;
    KeySetup(key, s.(sequence := s.sequence + 1), key * s.step <= s.last)
  }

  /** A work unit: the inclusive range `first..second`. */
  datatype Range = Range(first: int, second: int)

  /** `get_data` (which always returns true): the work unit of `key`. */
  function GetData(s: NumberSource, key: int): (r: Range)
    ensures r.first == s.first + key * s.step
    ensures r.second <= r.first + s.step - 1 && r.second <= s.last
    ensures r.second == r.first + s.step - 1 || r.second == s.last
  {
    var lo := s.first + key * s.step;
    Range(lo, if lo + s.step - 1 <= s.last then lo + s.step - 1 else s.last)
  }

  /** For a positive step, `key * step <= last` exactly when `key` is at
      most `last / step`. */
  lemma AcceptedBelow(key: int, last: int, step: int)
    requires step >= 1
    ensures key * step <= last <==> key <= last / step
  {
    var q := last / step;
    assert last == q * step + last % step;
    if key <= q {
      assert key * step <= q * step;
    } else {
      assert key * step >= (q + 1) * step;
    }
  }

  /** The keys accepted by calling `setup_key` until it returns false. */
  function Keys(s: NumberSource): seq<int>
    requires s.step >= 1
    decreases if s.sequence <= s.last / s.step then s.last / s.step - s.sequence + 1 else 0
  {
    var r := SetupKey(s);
    AcceptedBelow(r.key, s.last, s.step);
    if r.accepted then [r.key] + Keys(r.source) else []
  }

  /** From counter `k`, the accepted keys are `k, k + 1, …, last / step`. */
  lemma {:induction false} KeysFrom(s: NumberSource)
    requires s.step >= 1
    ensures Keys(s) == Interval(s.sequence, s.last / s.step)
    decreases if s.sequence <= s.last / s.step then s.last / s.step - s.sequence + 1 else 0
  {
    var r := SetupKey(s);
    AcceptedBelow(r.key, s.last, s.step);
    if r.accepted {
      KeysFrom(r.source);
    }
  }

  /** A new source accepts the keys `0..last / step`: `last / step + 1` of
      them when `last >= 0`, none otherwise. */
  lemma KeysOfNewSource(first: int, last: int, step: int)
    requires step >= 1
    ensures Keys(NewSource(first, last, step)) == Interval(0, last / step)
    ensures |Keys(NewSource(first, last, step))| == if last >= 0 then last / step + 1 else 0
  {
    KeysFrom(NewSource(first, last, step));
    if last < 0 {
      assert last / step < 0 by {
        assert last == (last / step) * step + last % step;
      }
    }
  }

  /** With `last = 999` and `step = 100` there are exactly ten work units. */
  lemma TenWorkUnits()
    ensures Keys(NewSource(0, 999, 100)) == Interval(0, 9)
    ensures |Keys(NewSource(0, 999, 100))| == 10
  {
    KeysOfNewSource(0, 999, 100);
  }

  /** The work units of the accepted keys, for `first == 0`: each is
      non-empty, the first starts at 0, each next one starts right after its
      predecessor ends, and the last ends at `last`. */
  lemma WorkUnitsTile(last: int, step: int, key: int)
    requires step >= 1 && 0 <= key <= last / step
    ensures var s := NewSource(0, last, step);
            && GetData(s, key).first <= GetData(s, key).second
            && (key == 0 ==> GetData(s, key).first == 0)
            && (key < last / step ==> GetData(s, key + 1).first == GetData(s, key).second + 1)
            && (key == last / step ==> GetData(s, key).second == last)
  {
    var q := last / step;
    AcceptedBelow(key, last, step);
    assert last == q * step + last % step;
    if key < q {
      assert (key + 1) * step <= q * step;
    } else {
      assert (q + 1) * step == q * step + step;
    }
  }

  /** Every number the work units of keys `k..` cover, in order. */
  function Covered(s: NumberSource, keys: seq<int>): seq<int>
  {
    if |keys| == 0 then []
    else
      var g := GetData(s, keys[0]);
      Interval(g.first, g.second) + Covered(s, keys[1..])
  }

  lemma {:induction false} CoveredFrom(last: int, step: int, k: int)
    requires step >= 1 && 0 <= k <= last / step + 1
    ensures Covered(NewSource(0, last, step), Interval(k, last / step)) == Interval(k * step, last)
    decreases last / step + 1 - k
  {
    var s := NewSource(0, last, step);
    var keys := Interval(k, last / step);
    if k <= last / step {
      assert keys[1..] == Interval(k + 1, last / step);
      CoveredFrom(last, step, k + 1);
      WorkUnitsTile(last, step, k);
      var g := GetData(s, k);
      if k < last / step {
        WorkUnitsTile(last, step, k + 1);
        assert (k + 1) * step == g.second + 1;
        IntervalSplit(k * step, g.second + 1, last);
      } else {
        assert (k + 1) * step > last by {
          AcceptedBelow(k + 1, last, step);
        }
        assert Interval(k * step, last) + [] == Interval(k * step, last);
      }
    } else {
      assert last < k * step by {
        AcceptedBelow(k, last, step);
      }
    }
  }

  /** For `first == 0`, the work units of the accepted keys cover `0..last`
      exactly: every number once, in ascending order, and nothing else. */
  lemma WorkUnitsCover(last: int, step: int)
    requires step >= 1 && last >= 0
    ensures Covered(NewSource(0, last, step), Keys(NewSource(0, last, step))) == Interval(0, last)
  {
    KeysOfNewSource(0, last, step);
    CoveredFrom(last, step, 0);
  }

  /** An intermediate or final key/value pair. */
  datatype Pair = Pair(key: bool, value: int)

  /** `map_task`: for each `x` of the work unit, in ascending order, emits
      `(classify(x), x)`. The classifier is `IsPrime` in the program; it is a
      parameter so that the job can be stated for the corrected one too. */
  function MapTask(classify: int -> bool, value: Range): (r: seq<Pair>)
    ensures |r| == if value.first <= value.second then value.second - value.first + 1 else 0
    ensures forall i :: 0 <= i < |r| ==> r[i] == Pair(classify(value.first + i), value.first + i)
    decreases if value.first <= value.second then value.second - value.first + 1 else 0
  {
    if value.first > value.second then []
    else [Pair(classify(value.first), value.first)] + MapTask(classify, Range(value.first + 1, value.second))
  }

  /** `reduce_task`: for the key `true`, re-emits every value with key
      `true`, in order; for the key `false`, emits nothing. */
  function ReduceTask(key: bool, values: seq<int>): (r: seq<Pair>)
    ensures key ==> |r| == |values| && forall i :: 0 <= i < |r| ==> r[i] == Pair(true, values[i])
    ensures !key ==> r == []
  {
    if !key || |values| == 0 then []
    else [Pair(true, values[0])] + ReduceTask(key, values[1..])
  }

  /** Each number paired with its classification. */
  function Classified(classify: int -> bool, xs: seq<int>): seq<Pair>
  {
    if |xs| == 0 then [] else [Pair(classify(xs[0]), xs[0])] + Classified(classify, xs[1..])
  }

  lemma {:induction false} ClassifiedAppend(classify: int -> bool, a: seq<int>, b: seq<int>)
    ensures Classified(classify, a + b) == Classified(classify, a) + Classified(classify, b)
  {
    if |a| > 0 {
      assert (a + b)[1..] == a[1..] + b;
      ClassifiedAppend(classify, a[1..], b);
    } else {
      assert a + b == b;
    }
  }

  lemma {:induction false} MapTaskClassifies(classify: int -> bool, value: Range)
    ensures MapTask(classify, value) == Classified(classify, Interval(value.first, value.second))
    decreases if value.first <= value.second then value.second - value.first + 1 else 0
  {
    if value.first <= value.second {
      MapTaskClassifies(classify, Range(value.first + 1, value.second));
      assert Interval(value.first, value.second)[1..] == Interval(value.first + 1, value.second);
    }
  }

  /** Everything the map tasks of the given keys emit, unit by unit. */
  function MapAll(classify: int -> bool, s: NumberSource, keys: seq<int>): seq<Pair>
  {
    if |keys| == 0 then [] else MapTask(classify, GetData(s, keys[0])) + MapAll(classify, s, keys[1..])
  }

  lemma {:induction false} MapAllClassifies(classify: int -> bool, s: NumberSource, keys: seq<int>)
    ensures MapAll(classify, s, keys) == Classified(classify, Covered(s, keys))
  {
    if |keys| > 0 {
      var g := GetData(s, keys[0]);
      MapAllClassifies(classify, s, keys[1..]);
      MapTaskClassifies(classify, g);
      ClassifiedAppend(classify, Interval(g.first, g.second), Covered(s, keys[1..]));
    }
  }

  /** The values the job groups under the key `true`, in emission order. */
  function TrueValues(ps: seq<Pair>): seq<int>
  {
    if |ps| == 0 then []
    else (if ps[0].key then [ps[0].value] else []) + TrueValues(ps[1..])
  }

  lemma {:induction false} TrueValuesOfClassified(classify: int -> bool, xs: seq<int>, x: int)
    ensures x in TrueValues(Classified(classify, xs)) <==> x in xs && classify(x)
  {
    if |xs| > 0 {
      TrueValuesOfClassified(classify, xs[1..], x);
      assert xs == [xs[0]] + xs[1..];
    }
  }

  /** The values the reduce task for `true` emits when the whole range
      `0..last` is mapped with `classify`. */
  function JobResults(classify: int -> bool, last: int, step: int): seq<Pair>
    requires step >= 1
  {
    var s := NewSource(0, last, step);
    ReduceTask(true, TrueValues(MapAll(classify, s, Keys(s))))
  }

  /** The job reports `(true, x)` exactly for the `x` in `0..last` that
      `classify` accepts. */
  lemma JobReports(classify: int -> bool, last: int, step: int, x: int)
    requires step >= 1 && last >= 0
    ensures Pair(true, x) in JobResults(classify, last, step) <==> 0 <= x <= last && classify(x)
  {
    var s := NewSource(0, last, step);
    var vs := TrueValues(MapAll(classify, s, Keys(s)));
    var r := JobResults(classify, last, step);
    WorkUnitsCover(last, step);
    MapAllClassifies(classify, s, Keys(s));
    TrueValuesOfClassified(classify, Interval(0, last), x);
    if Pair(true, x) in r {
      var i :| 0 <= i < |r| && r[i] == Pair(true, x);
      assert vs[i] == x;
    }
    if 0 <= x <= last {
      assert Interval(0, last)[x] == x;
    }
  }

  /** With the corrected predicate the job finds exactly the primes up to
      `last`. */
  lemma JobFindsPrimes(last: int, step: int, x: int)
    requires step >= 1 && last >= 0
    ensures Pair(true, x) in JobResults(IsPrimeIntended, last, step) <==> 0 <= x <= last && Prime(x)
  {
    JobReports(IsPrimeIntended, last, step, x);
    if 0 <= x {
      IsPrimeIntendedExact(x);
    }
  }

  /** As written, the job reports every prime up to `last`, and also 9 once
      `last >= 9`. */
  lemma JobAsWritten(last: int, step: int, x: int)
    requires step >= 1 && last >= 9
    ensures 0 <= x <= last && Prime(x) ==> Pair(true, x) in JobResults(IsPrime, last, step)
    ensures Pair(true, 9) in JobResults(IsPrime, last, step) && !Prime(9)
  {
    JobReports(IsPrime, last, step, x);
    JobReports(IsPrime, last, step, 9);
    NineReportedPrime();
    if 0 <= x <= last && Prime(x) {
      IsPrimeKeepsPrimes(x);
    }
  }
}
