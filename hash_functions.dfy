/**
 * The two sample string hashes of hash_map_oa.py. Either one (as a function
 * value) is what a `HashMapOA.HashMap` is built with; the methods are the
 * accumulator loops of the source, proved to compute the functions.
 */
module HashFunctions {

  /** hash_function_1: the sum of the character codes of the key. */
  function SumOfCodes(key: string): nat {
    if |key| == 0 then 0
    else SumOfCodes(key[..|key| - 1]) + key[|key| - 1] as nat
  }

  /** hash_function_2: the sum of (i + 1) * code(key[i]) over the positions i. */
  function WeightedSum(key: string): nat {
    if |key| == 0 then 0
    else WeightedSum(key[..|key| - 1]) + |key| * (key[|key| - 1] as nat)
  }

  method HashFunction1(key: string) returns (hash: int)
    ensures hash == SumOfCodes(key)
  {
    hash := 0;
    for i := 0 to |key|
      invariant hash == SumOfCodes(key[..i])
    {
      assert key[..i + 1][..i] == key[..i];
      hash := hash + key[i] as int;
    }
    assert key[..|key|] == key;
  }

  method HashFunction2(key: string) returns (hash: int)
    ensures hash == WeightedSum(key)
  {
    hash := 0;
    var index := 0;
    while index < |key|
      invariant 0 <= index <= |key|
      invariant hash == WeightedSum(key[..index])
    {
      assert key[..index + 1][..index] == key[..index];
      hash := hash + (index + 1) * key[index] as int;
      index := index + 1;
    }
    assert key[..|key|] == key;
  }

  lemma {:induction false} SumOfCodesAppend(a: string, b: string)
    ensures SumOfCodes(a + b) == SumOfCodes(a) + SumOfCodes(b)
    decreases |b|
  {
    if |b| == 0 {
      assert a + b == a;
    } else {
      assert (a + b)[..|a + b| - 1] == a + b[..|b| - 1];
      SumOfCodesAppend(a, b[..|b| - 1]);
    }
  }

  /** The first hash ignores order: a key and any rotation of it collide. */
  lemma SumOfCodesRotation(a: string, b: string)
    ensures SumOfCodes(a + b) == SumOfCodes(b + a)
  {
    SumOfCodesAppend(a, b);
    SumOfCodesAppend(b, a);
  }

  /** The second hash weighs every character of `b` by its shifted position. */
  lemma {:induction false} WeightedSumAppend(a: string, b: string)
    ensures WeightedSum(a + b) == WeightedSum(a) + WeightedSum(b) + |a| * SumOfCodes(b)
    decreases |b|
  {
    if |b| == 0 {
      assert a + b == a;
    } else {
      var n, m := |b|, |a|;
      var c := b[n - 1] as nat;
      var prefix := b[..n - 1];
      assert (a + b)[..|a + b| - 1] == a + prefix;
      assert (a + b)[|a + b| - 1] == b[n - 1];
      WeightedSumAppend(a, prefix);
      assert WeightedSum(a + b) == WeightedSum(a + prefix) + (m + n) * c;
      assert WeightedSum(b) == WeightedSum(prefix) + n * c;
      assert SumOfCodes(b) == SumOfCodes(prefix) + c;
      Regroup(WeightedSum(a), WeightedSum(prefix), SumOfCodes(prefix), m, n, c);
    }
  }

  lemma Regroup(wa: int, wp: int, sp: int, m: int, n: int, c: int)
    ensures wa + wp + m * sp + (m + n) * c == wa + (wp + n * c) + m * (sp + c)
  {
  }

  /** Every weight is at least 1, so the second hash is never below the first. */
  lemma {:induction false} SumOfCodesAtMostWeighted(key: string)
    ensures SumOfCodes(key) <= WeightedSum(key)
  {
    if |key| > 0 {
      SumOfCodesAtMostWeighted(key[..|key| - 1]);
    }
  }
}
