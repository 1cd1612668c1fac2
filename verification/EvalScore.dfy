/**
  backend/core/eval_runner.py, `score_json_match`: structural similarity of two JSON values.

  Text similarity, text normalisation and `str()` are library code and enter as functions.
 */
module EvalScore {
  import opened Wrappers
  import opened Json

  datatype Library = Library(
    normalise: string -> string, ratio: (string, string) -> real, show: Json -> string)

  ghost predicate Lawful(lib: Library) {
    forall s, t :: 0.0 <= lib.ratio(s, t) <= 1.0
  }

  ghost predicate SymmetricRatio(lib: Library) {
    forall s, t :: lib.ratio(s, t) == lib.ratio(t, s)
  }

  function TextScore(lib: Library, expected: string, actual: string): real {
    if expected == "" && actual == "" then 1.0
    else if expected == "" || actual == "" then 0.0
    else lib.ratio(lib.normalise(expected), lib.normalise(actual))
  }

  function Abs(x: real): real { if x < 0.0 then -x else x }

  function Max(x: real, y: real): real { if x < y then y else x }

  /** Numbers within one percent score 1, within ten percent 0.8. */
  function NumberScore(x: real, y: real): real {
    if x == 0.0 && y == 0.0 then 1.0
    else
      var difference := Abs(x - y) / Max(Max(Abs(x), Abs(y)), 0.000000001);
      if difference < 0.01 then 1.0 else if difference < 0.1 then 0.8 else 0.0
  }

  predicate IsNumber(j: Json) { j.Bool? || j.Int? || j.Float? }

  /** A boolean counts as 0 or 1. */
  function NumberOf(j: Json): real
    requires IsNumber(j)
  {
    match j
    case Bool(b) => if b then 1.0 else 0.0
    case Int(n) => n as real
    case Float(x) => x
  }

  predicate SameType(a: Json, b: Json) {
    || (a.Null? && b.Null?) || (a.Bool? && b.Bool?) || (a.Int? && b.Int?) || (a.Float? && b.Float?)
    || (a.Str? && b.Str?) || (a.List? && b.List?) || (a.Obj? && b.Obj?)
  }

  function ScalarScore(lib: Library, expected: Json, actual: Json): real {
    if expected == actual then 1.0
    else if IsNumber(expected) && IsNumber(actual) then NumberScore(NumberOf(expected), NumberOf(actual))
    else if expected.Str? && actual.Str? then TextScore(lib, expected.s, actual.s)
    else 0.0
  }

  function AllKeys(a: Json, b: Json): set<string>
    requires a.Obj? && b.Obj?
  {
    Keys(a.fields) + Keys(b.fields)
  }

  function MaxLen(a: Json, b: Json): nat
    requires a.List? && b.List?
  {
    if |a.items| < |b.items| then |b.items| else |a.items|
  }

  ghost function Score(lib: Library, expected: Json, actual: Json): real
    decreases expected, 2
  {
    if expected.Null? && actual.Null? then 1.0
    else if expected.Null? || actual.Null? then 0.0
    else if !SameType(expected, actual) then TextScore(lib, lib.show(expected), lib.show(actual)) * 0.5
    else if expected.Obj? then
      if AllKeys(expected, actual) == {} then 1.0
      else KeySum(lib, expected, actual, AllKeys(expected, actual)) / |AllKeys(expected, actual)| as real
    else if expected.List? then
      if MaxLen(expected, actual) == 0 then 1.0
      else IndexSum(lib, expected, actual, MaxLen(expected, actual)) / MaxLen(expected, actual) as real
    else ScalarScore(lib, expected, actual)
  }

  /** A key missing on either side contributes nothing. */
  ghost function KeyScore(lib: Library, expected: Json, actual: Json, key: string): real
    requires expected.Obj? && actual.Obj?
    decreases expected, 0
  {
    if Child(expected, key).Some? && Child(actual, key).Some? then
      Score(lib, Child(expected, key).value, Child(actual, key).value)
    else 0.0
  }

  ghost function KeySum(lib: Library, expected: Json, actual: Json, keys: set<string>): real
    requires expected.Obj? && actual.Obj?
    decreases expected, 1, |keys|
  {
    if keys == {} then 0.0
    else
      var key :| key in keys;
      KeyScore(lib, expected, actual, key) + KeySum(lib, expected, actual, keys - {key})
  }

  ghost function IndexScore(lib: Library, expected: Json, actual: Json, i: nat): real
    requires expected.List? && actual.List?
    decreases expected, 0
  {
    if i < |expected.items| && i < |actual.items| then Score(lib, expected.items[i], actual.items[i]) else 0.0
  }

  ghost function IndexSum(lib: Library, expected: Json, actual: Json, n: nat): real
    requires expected.List? && actual.List?
    decreases expected, 1, n
  {
    if n == 0 then 0.0 else IndexSum(lib, expected, actual, n - 1) + IndexScore(lib, expected, actual, n - 1)
  }

  /** The sum over a set does not depend on the order in which its keys are taken. */
  lemma {:induction false} KeySumTakes(lib: Library, expected: Json, actual: Json, keys: set<string>, key: string)
    requires expected.Obj? && actual.Obj? && key in keys
    ensures KeySum(lib, expected, actual, keys)
            == KeyScore(lib, expected, actual, key) + KeySum(lib, expected, actual, keys - {key})
    decreases |keys|
  {
    var first :| first in keys
      && KeySum(lib, expected, actual, keys)
         == KeyScore(lib, expected, actual, first) + KeySum(lib, expected, actual, keys - {first});
    if first != key {
      KeySumTakes(lib, expected, actual, keys - {first}, key);
      KeySumTakes(lib, expected, actual, keys - {key}, first);
      assert keys - {first} - {key} == keys - {key} - {first};
    }
  }

  // --------------------------------------------------------------- the method

  method ScoreJsonMatch(lib: Library, expected: Json, actual: Json) returns (score: real)
    ensures score == Score(lib, expected, actual)
    decreases expected, 1
  {
    if expected.Null? && actual.Null? {
      return 1.0;
    }
    if expected.Null? || actual.Null? {
      return 0.0;
    }
    if !SameType(expected, actual) {
      return TextScore(lib, lib.show(expected), lib.show(actual)) * 0.5;
    }
    if expected.Obj? {
      score := ScoreObjects(lib, expected, actual);
    } else if expected.List? {
      score := ScoreLists(lib, expected, actual);
    } else {
      score := ScalarScore(lib, expected, actual);
    }
  }

  method ScoreObjects(lib: Library, expected: Json, actual: Json) returns (score: real)
    requires expected.Obj? && actual.Obj?
    ensures score == Score(lib, expected, actual)
    ensures Lawful(lib) && score == 1.0 ==> Keys(expected.fields) == Keys(actual.fields)
    decreases expected, 0
  {
    var allKeys := AllKeys(expected, actual);
    if allKeys == {} {
      return 1.0;
    }
    var total := 0.0;
    var left := allKeys;
    while left != {}
      invariant total + KeySum(lib, expected, actual, left) == KeySum(lib, expected, actual, allKeys)
      decreases left
    {
      var key :| key in left;
      KeySumTakes(lib, expected, actual, left, key);
      var e, a := Child(expected, key), Child(actual, key);
      if e.Some? && a.Some? {
        var part := ScoreJsonMatch(lib, e.value, a.value);
        total := total + part;
      }
      left := left - {key};
    }
    score := total / |allKeys| as real;
    FullMarksNeedKeys(lib, expected, actual);
  }

  method ScoreLists(lib: Library, expected: Json, actual: Json) returns (score: real)
    requires expected.List? && actual.List?
    ensures score == Score(lib, expected, actual)
    decreases expected, 0
  {
    var maxLen := MaxLen(expected, actual);
    if maxLen == 0 {
      return 1.0;
    }
    var total := 0.0;
    for i := 0 to maxLen
      invariant total == IndexSum(lib, expected, actual, i)
    {
      if i < |expected.items| && i < |actual.items| {
        var part := ScoreJsonMatch(lib, expected.items[i], actual.items[i]);
        total := total + part;
      }
    }
    score := total / maxLen as real;
  }

  // -------------------------------------------------------------- properties

  lemma Average(total: real, n: nat)
    requires n > 0 && 0.0 <= total <= n as real
    ensures 0.0 <= total / n as real <= 1.0
  {
    CompareQuotient(total, n, 0.0);
    CompareQuotient(total, n, 1.0);
  }

  lemma CompareQuotient(total: real, n: nat, bound: real)
    requires n > 0
    ensures total / n as real <= bound <==> total <= bound * n as real
    ensures bound <= total / n as real <==> bound * n as real <= total
  {
    var q, d := total / n as real, n as real;
    assert q * d == total;
    assert (bound - q) * d == bound * d - total;
    if q < bound {
      assert (bound - q) * d > 0.0;
    } else if bound < q {
      assert (q - bound) * d > 0.0;
      assert (q - bound) * d == total - bound * d;
    }
  }

  /** Every score lies between 0 and 1. */
  lemma {:induction false} ScoreInRange(lib: Library, expected: Json, actual: Json)
    requires Lawful(lib)
    ensures 0.0 <= Score(lib, expected, actual) <= 1.0
    decreases expected, 1
  {
    if expected.Null? || actual.Null? || !SameType(expected, actual) {
    } else if expected.Obj? {
      var keys := AllKeys(expected, actual);
      KeySumInRange(lib, expected, actual, keys);
      if keys != {} {
        Average(KeySum(lib, expected, actual, keys), |keys|);
      }
    } else if expected.List? {
      var n := MaxLen(expected, actual);
      IndexSumInRange(lib, expected, actual, n);
      if n > 0 {
        Average(IndexSum(lib, expected, actual, n), n);
      }
    }
  }

  lemma {:induction false} KeySumInRange(lib: Library, expected: Json, actual: Json, keys: set<string>)
    requires Lawful(lib) && expected.Obj? && actual.Obj?
    ensures 0.0 <= KeySum(lib, expected, actual, keys) <= |keys| as real
    decreases expected, 0, |keys|
  {
    if keys != {} {
      var key :| key in keys;
      KeySumTakes(lib, expected, actual, keys, key);
      KeySumInRange(lib, expected, actual, keys - {key});
      if Child(expected, key).Some? && Child(actual, key).Some? {
        ScoreInRange(lib, Child(expected, key).value, Child(actual, key).value);
      }
    }
  }

  lemma {:induction false} IndexSumInRange(lib: Library, expected: Json, actual: Json, n: nat)
    requires Lawful(lib) && expected.List? && actual.List?
    ensures 0.0 <= IndexSum(lib, expected, actual, n) <= n as real
    decreases expected, 0, n
  {
    if n > 0 {
      IndexSumInRange(lib, expected, actual, n - 1);
      if n - 1 < |expected.items| && n - 1 < |actual.items| {
        ScoreInRange(lib, expected.items[n - 1], actual.items[n - 1]);
      }
    }
  }

  /** A value matches itself fully, whatever the text similarity. */
  lemma {:induction false} ScoreReflexive(lib: Library, j: Json)
    ensures Score(lib, j, j) == 1.0
    decreases j, 1
  {
    if j.Obj? {
      var keys := AllKeys(j, j);
      assert keys == Keys(j.fields);
      FullKeySum(lib, j, keys);
      if keys != {} {
        assert |keys| > 0;
        SelfQuotient(|keys|);
        assert Score(lib, j, j) == KeySum(lib, j, j, keys) / |keys| as real;
      }
    } else if j.List? {
      var n := MaxLen(j, j);
      FullIndexSum(lib, j, n);
      if n > 0 {
        SelfQuotient(n);
        assert Score(lib, j, j) == IndexSum(lib, j, j, n) / n as real;
      }
    }
  }

  lemma SelfQuotient(n: nat)
    requires n > 0
    ensures n as real / n as real == 1.0
  {
  }

  lemma {:induction false} FullKeySum(lib: Library, j: Json, keys: set<string>)
    requires j.Obj? && keys <= Keys(j.fields)
    ensures KeySum(lib, j, j, keys) == |keys| as real
    decreases j, 0, |keys|
  {
    if keys != {} {
      var key :| key in keys;
      KeySumTakes(lib, j, j, keys, key);
      FullKeySum(lib, j, keys - {key});
      ScoreReflexive(lib, Child(j, key).value);
    }
  }

  lemma {:induction false} FullIndexSum(lib: Library, j: Json, n: nat)
    requires j.List? && n <= |j.items|
    ensures IndexSum(lib, j, j, n) == n as real
    decreases j, 0, n
  {
    if n > 0 {
      FullIndexSum(lib, j, n - 1);
      ScoreReflexive(lib, j.items[n - 1]);
    }
  }

  /** With a symmetric text similarity the score is symmetric. */
  lemma {:induction false} ScoreSymmetric(lib: Library, a: Json, b: Json)
    requires SymmetricRatio(lib)
    ensures Score(lib, a, b) == Score(lib, b, a)
    decreases a, 1
  {
    if a.Null? || b.Null? || !SameType(a, b) {
    } else if a.Obj? {
      var keys := AllKeys(a, b);
      assert keys == AllKeys(b, a);
      KeySumSymmetric(lib, a, b, keys);
      assert keys != {} ==> Score(lib, a, b) == KeySum(lib, a, b, keys) / |keys| as real;
      assert keys != {} ==> Score(lib, b, a) == KeySum(lib, b, a, keys) / |keys| as real;
    } else if a.List? {
      IndexSumSymmetric(lib, a, b, MaxLen(a, b));
    } else if IsNumber(a) {
      NumberScoreSymmetric(NumberOf(a), NumberOf(b));
    }
  }

  lemma NumberScoreSymmetric(x: real, y: real)
    ensures NumberScore(x, y) == NumberScore(y, x)
  {
    assert Abs(x - y) == Abs(y - x);
    assert Max(Abs(x), Abs(y)) == Max(Abs(y), Abs(x));
  }

  lemma {:induction false} KeySumSymmetric(lib: Library, a: Json, b: Json, keys: set<string>)
    requires SymmetricRatio(lib) && a.Obj? && b.Obj?
    ensures KeySum(lib, a, b, keys) == KeySum(lib, b, a, keys)
    decreases a, 0, |keys|
  {
    if keys != {} {
      var key :| key in keys;
      KeySumTakes(lib, a, b, keys, key);
      KeySumTakes(lib, b, a, keys, key);
      KeySumSymmetric(lib, a, b, keys - {key});
      if Child(a, key).Some? && Child(b, key).Some? {
        ScoreSymmetric(lib, Child(a, key).value, Child(b, key).value);
      }
    }
  }

  lemma {:induction false} IndexSumSymmetric(lib: Library, a: Json, b: Json, n: nat)
    requires SymmetricRatio(lib) && a.List? && b.List?
    ensures IndexSum(lib, a, b, n) == IndexSum(lib, b, a, n)
    decreases a, 0, n
  {
    if n > 0 {
      IndexSumSymmetric(lib, a, b, n - 1);
      if n - 1 < |a.items| && n - 1 < |b.items| {
        ScoreSymmetric(lib, a.items[n - 1], b.items[n - 1]);
      }
    }
  }

  /** Values of different types never score above one half, so they can never pass. */
  lemma TypeMismatchCapped(lib: Library, a: Json, b: Json)
    requires Lawful(lib) && !SameType(a, b)
    ensures Score(lib, a, b) <= 0.5
  {
  }

  /** And they score exactly half of what their texts would. */
  lemma TypeMismatchIsHalf(lib: Library, a: Json, b: Json)
    requires !SameType(a, b)
    ensures a.Null? || b.Null? ==> Score(lib, a, b) == 0.0
    ensures !a.Null? && !b.Null? && lib.show(a) == "" && lib.show(b) == "" ==> Score(lib, a, b) == 0.5
    ensures !a.Null? && !b.Null? && (lib.show(a) == "") != (lib.show(b) == "") ==> Score(lib, a, b) == 0.0
    ensures !a.Null? && !b.Null? && lib.show(a) != "" && lib.show(b) != "" ==>
              2.0 * Score(lib, a, b) == lib.ratio(lib.normalise(lib.show(a)), lib.normalise(lib.show(b)))
  {
  }

  // ------------------------------------------------ what missing parts cost

  function SharedKeys(a: Json, b: Json): set<string>
    requires a.Obj? && b.Obj?
  {
    Keys(a.fields) * Keys(b.fields)
  }

  lemma SharedWithout(keys: set<string>, shared: set<string>, key: string)
    requires key in keys
    ensures |keys * shared| == |(keys - {key}) * shared| + if key in shared then 1 else 0
  {
    var rest := (keys - {key}) * shared;
    if key in shared {
      assert keys * shared == rest + {key};
    } else {
      assert keys * shared == rest;
    }
  }

  lemma {:induction false} KeySumCapped(lib: Library, a: Json, b: Json, keys: set<string>)
    requires Lawful(lib) && a.Obj? && b.Obj?
    ensures KeySum(lib, a, b, keys) <= |keys * SharedKeys(a, b)| as real
    decreases |keys|
  {
    if keys != {} {
      var key :| key in keys;
      var rest, shared := keys - {key}, SharedKeys(a, b);
      KeySumTakes(lib, a, b, keys, key);
      KeySumCapped(lib, a, b, rest);
      SharedWithout(keys, shared, key);
      if key in shared {
        ScoreInRange(lib, Child(a, key).value, Child(b, key).value);
      }
    }
  }

  lemma SubsetOfSize<T>(a: set<T>, b: set<T>)
    requires a <= b
    ensures |a| <= |b| && (|a| == |b| ==> a == b)
  {
    assert b == a + (b - a);
    if |a| == |b| {
      assert |b - a| == 0;
    }
  }

  /**
    Objects score at most the share of keys that both have: full marks need the same keys, and
    objects without a common key score nothing.
   */
  lemma ObjectsCapped(lib: Library, a: Json, b: Json)
    requires Lawful(lib) && a.Obj? && b.Obj? && AllKeys(a, b) != {}
    ensures Score(lib, a, b) <= |SharedKeys(a, b)| as real / |AllKeys(a, b)| as real
    ensures Score(lib, a, b) == 1.0 ==> Keys(a.fields) == Keys(b.fields)
    ensures SharedKeys(a, b) == {} ==> Score(lib, a, b) == 0.0
  {
    var all, shared := AllKeys(a, b), SharedKeys(a, b);
    KeySumCapped(lib, a, b, all);
    KeySumInRange(lib, a, b, all);
    ScoreInRange(lib, a, b);
    assert all * shared == shared;
    SubsetOfSize(shared, all);
    SharesOut(KeySum(lib, a, b, all), |shared|, |all|);
  }

  lemma FullMarksNeedKeys(lib: Library, a: Json, b: Json)
    requires a.Obj? && b.Obj? && AllKeys(a, b) != {}
    ensures Lawful(lib) && Score(lib, a, b) == 1.0 ==> Keys(a.fields) == Keys(b.fields)
  {
    if Lawful(lib) {
      ObjectsCapped(lib, a, b);
    }
  }

  /** A total of at most `part` over `whole`. */
  lemma SharesOut(total: real, part: nat, whole: nat)
    requires whole > 0 && 0.0 <= total <= part as real && part <= whole
    ensures total / whole as real <= part as real / whole as real
    ensures total / whole as real == 1.0 ==> part == whole
    ensures part == 0 ==> total / whole as real == 0.0
  {
    var bound := part as real / whole as real;
    assert bound * whole as real == part as real;
    CompareQuotient(total, whole, bound);
    CompareQuotient(total, whole, 1.0);
  }

  lemma {:induction false} KeySumSame(lib: Library, e: Json, a: Json, b: Json, keys: set<string>)
    requires e.Obj? && a.Obj? && b.Obj? && forall k :: k in keys ==> Child(a, k) == Child(b, k)
    ensures KeySum(lib, e, a, keys) == KeySum(lib, e, b, keys)
    decreases |keys|
  {
    if keys != {} {
      var key :| key in keys;
      KeySumTakes(lib, e, a, keys, key);
      KeySumTakes(lib, e, b, keys, key);
      KeySumSame(lib, e, a, b, keys - {key});
    }
  }

  lemma SameDivisor(x: real, y: real, n: real)
    requires n > 0.0
    ensures (x / n - y / n) * n == x - y
    ensures x / n > y / n <==> x > y
  {
    var p, q := x / n, y / n;
    assert p * n == x && q * n == y;
    assert (p - q) * n == p * n - q * n;
    if p > q {
      assert (p - q) * n > 0.0;
    } else {
      assert (q - p) * n >= 0.0;
    }
  }

  lemma SameQuotient(p: real, q: real, n: real)
    requires n > 0.0 && p * n == q * n
    ensures p == q
  {
    assert (p - q) * n == 0.0;
  }

  /** Two averages over the same number of parts whose totals differ in one part. */
  lemma AveragesDiffer(s: real, t: real, total: real, other: real, n: nat, x: real, y: real)
    requires n > 0 && total - other == x - y && s == total / n as real && t == other / n as real
    ensures s - t == (x - y) / n as real
    ensures s > t <==> x > y
  {
    SameDivisor(total, other, n as real);
    assert (s - t) * n as real == x - y;
    assert ((x - y) / n as real) * n as real == x - y;
    SameQuotient(s - t, (x - y) / n as real, n as real);
  }

  lemma ObjectScore(lib: Library, a: Json, b: Json)
    requires a.Obj? && b.Obj? && AllKeys(a, b) != {}
    ensures |AllKeys(a, b)| > 0
    ensures Score(lib, a, b) == KeySum(lib, a, b, AllKeys(a, b)) / |AllKeys(a, b)| as real
  {
  }

  lemma ListScore(lib: Library, a: Json, b: Json)
    requires a.List? && b.List? && MaxLen(a, b) > 0
    ensures Score(lib, a, b) == IndexSum(lib, a, b, MaxLen(a, b)) / MaxLen(a, b) as real
  {
  }

  lemma KeySumDiffers(lib: Library, e: Json, a: Json, b: Json, key: string)
    requires e.Obj? && a.Obj? && b.Obj? && Keys(a.fields) == Keys(b.fields) && key in SharedKeys(e, a)
    requires forall k :: k != key ==> Child(a, k) == Child(b, k)
    ensures KeySum(lib, e, a, AllKeys(e, a)) - KeySum(lib, e, b, AllKeys(e, a))
            == Score(lib, Child(e, key).value, Child(a, key).value)
               - Score(lib, Child(e, key).value, Child(b, key).value)
  {
    var all := AllKeys(e, a);
    KeySumTakes(lib, e, a, all, key);
    KeySumTakes(lib, e, b, all, key);
    KeySumSame(lib, e, a, b, all - {key});
  }

  /**
    When answers differ in the value of one expected key only, their scores differ by the difference
    in that value's score, divided among all keys: a better value makes a better score.
   */
  lemma OneKeyCounts(lib: Library, e: Json, a: Json, b: Json, key: string, x: real, y: real)
    requires e.Obj? && a.Obj? && b.Obj? && Keys(a.fields) == Keys(b.fields) && key in SharedKeys(e, a)
    requires AllKeys(e, a) != {} && forall k :: k != key ==> Child(a, k) == Child(b, k)
    requires x == Score(lib, Child(e, key).value, Child(a, key).value)
    requires y == Score(lib, Child(e, key).value, Child(b, key).value)
    ensures Score(lib, e, a) - Score(lib, e, b) == (x - y) / |AllKeys(e, a)| as real
    ensures Score(lib, e, a) > Score(lib, e, b) <==> x > y
  {
    var all := AllKeys(e, a);
    assert key in all && AllKeys(e, b) == all;
    KeySumDiffers(lib, e, a, b, key);
    ObjectScore(lib, e, a);
    ObjectScore(lib, e, b);
    AveragesDiffer(Score(lib, e, a), Score(lib, e, b), KeySum(lib, e, a, all), KeySum(lib, e, b, all), |all|, x, y);
  }

  function MinLen(a: Json, b: Json): nat
    requires a.List? && b.List?
  {
    if |a.items| < |b.items| then |a.items| else |b.items|
  }

  lemma {:induction false} IndexSumCapped(lib: Library, a: Json, b: Json, n: nat)
    requires Lawful(lib) && a.List? && b.List?
    ensures IndexSum(lib, a, b, n) <= if n < MinLen(a, b) then n as real else MinLen(a, b) as real
    decreases n
  {
    if n > 0 {
      IndexSumCapped(lib, a, b, n - 1);
      if n - 1 < MinLen(a, b) {
        ScoreInRange(lib, a.items[n - 1], b.items[n - 1]);
      }
    }
  }

  /** Lists score at most the shorter length over the longer: full marks need equal lengths. */
  lemma ListsCapped(lib: Library, a: Json, b: Json)
    requires Lawful(lib) && a.List? && b.List? && MaxLen(a, b) > 0
    ensures Score(lib, a, b) <= MinLen(a, b) as real / MaxLen(a, b) as real
    ensures Score(lib, a, b) == 1.0 ==> |a.items| == |b.items|
    ensures MinLen(a, b) == 0 ==> Score(lib, a, b) == 0.0
  {
    IndexSumCapped(lib, a, b, MaxLen(a, b));
    IndexSumInRange(lib, a, b, MaxLen(a, b));
    SharesOut(IndexSum(lib, a, b, MaxLen(a, b)), MinLen(a, b), MaxLen(a, b));
  }

  lemma {:induction false} IndexSumDiffers(lib: Library, e: Json, a: Json, b: Json, i: nat, n: nat)
    requires e.List? && a.List? && b.List? && |a.items| == |b.items| && i < |e.items| && i < |a.items|
    requires forall k :: 0 <= k < |a.items| && k != i ==> a.items[k] == b.items[k]
    ensures IndexSum(lib, e, a, n) - IndexSum(lib, e, b, n)
            == if n <= i then 0.0 else Score(lib, e.items[i], a.items[i]) - Score(lib, e.items[i], b.items[i])
    decreases n
  {
    if n > 0 {
      IndexSumDiffers(lib, e, a, b, i, n - 1);
    }
  }

  /** The same for one item of a list. */
  lemma OneItemCounts(lib: Library, e: Json, a: Json, b: Json, i: nat, x: real, y: real)
    requires e.List? && a.List? && b.List? && |a.items| == |b.items| && i < |e.items| && i < |a.items|
    requires MaxLen(e, a) > 0 && forall k :: 0 <= k < |a.items| && k != i ==> a.items[k] == b.items[k]
    requires x == Score(lib, e.items[i], a.items[i]) && y == Score(lib, e.items[i], b.items[i])
    ensures Score(lib, e, a) - Score(lib, e, b) == (x - y) / MaxLen(e, a) as real
    ensures Score(lib, e, a) > Score(lib, e, b) <==> x > y
  {
    var n := MaxLen(e, a);
    IndexSumDiffers(lib, e, a, b, i, n);
    ListScore(lib, e, a);
    ListScore(lib, e, b);
    AveragesDiffer(Score(lib, e, a), Score(lib, e, b), IndexSum(lib, e, a, n), IndexSum(lib, e, b, n), n, x, y);
  }

  // ----------------------------------------------------------------- scalars

  /**
    Numbers: full marks when they are less than one percent of the larger magnitude apart, 0.8 below ten
    percent, else nothing; magnitudes below a billionth count as a billionth.
   */
  lemma NumberTolerance(lib: Library, a: Json, b: Json)
    requires IsNumber(a) && SameType(a, b)
    ensures var x, y := NumberOf(a), NumberOf(b);
            var apart, size := Abs(x - y), Max(Max(Abs(x), Abs(y)), 0.000000001);
            && (Score(lib, a, b) == 1.0 <==> 100.0 * apart < size)
            && (Score(lib, a, b) == 0.8 <==> size <= 100.0 * apart && 10.0 * apart < size)
            && (Score(lib, a, b) == 0.0 <==> size <= 10.0 * apart)
  {
    var x, y := NumberOf(a), NumberOf(b);
    NumberThresholds(Abs(x - y), Max(Max(Abs(x), Abs(y)), 0.000000001));
    assert a == b ==> x == y;
  }

  lemma BooleansScore(lib: Library, a: bool, b: bool)
    ensures Score(lib, Bool(a), Bool(b)) == if a == b then 1.0 else 0.0
  {
    NumberTolerance(lib, Bool(a), Bool(b));
  }

  lemma NumberThresholds(apart: real, size: real)
    requires size > 0.0
    ensures apart / size < 0.01 <==> 100.0 * apart < size
    ensures apart / size < 0.1 <==> 10.0 * apart < size
  {
    QuotientBelow(apart, size, 0.01);
    QuotientBelow(apart, size, 0.1);
  }

  lemma QuotientBelow(x: real, n: real, bound: real)
    requires n > 0.0
    ensures x / n < bound <==> x < bound * n
  {
    var q := x / n;
    assert q * n == x;
    if q < bound {
      assert (bound - q) * n > 0.0;
      assert (bound - q) * n == bound * n - q * n;
    } else {
      assert (q - bound) * n >= 0.0;
      assert (q - bound) * n == q * n - bound * n;
    }
  }

  /** Texts: full marks when equal, nothing when one is empty, else their similarity after normalising. */
  lemma TextsScore(lib: Library, s: string, t: string)
    ensures s == t ==> Score(lib, Str(s), Str(t)) == 1.0
    ensures s != t && (s == "" || t == "") ==> Score(lib, Str(s), Str(t)) == 0.0
    ensures s != t && s != "" && t != "" ==>
              Score(lib, Str(s), Str(t)) == lib.ratio(lib.normalise(s), lib.normalise(t))
  {
  }
}
