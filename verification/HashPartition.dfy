/** Hash partitioning: hash modulo the number of partitions, by a bit mask where that
    number is a power of two. */
module HashPartition {

  import opened Powers

  ghost predicate IsPowerOfTwo(n: nat) {
    exists k: nat :: n == Pow2(k)
  }

  /** Bitwise and of unsigned words, bit by bit from the lowest. */
  function BitAnd(a: nat, b: nat): nat {
    if a == 0 || b == 0 then 0
    else 2 * BitAnd(a / 2, b / 2) + (if a % 2 == 1 && b % 2 == 1 then 1 else 0)
  }

  /** `!(n & (n - 1))`, the test made once when the scheme is created. */
  predicate TestPowerOfTwo(n: nat)
    requires n > 0
  {
    BitAnd(n, n - 1) == 0
  }

  lemma {:induction false} TestIsExact(n: nat)
    requires n > 0
    ensures TestPowerOfTwo(n) <==> IsPowerOfTwo(n)
  {
    if n == 1 {
      assert Pow2(0) == 1;
    } else if n % 2 == 0 {
      TestIsExact(n / 2);
      assert (n - 1) / 2 == n / 2 - 1;
      if IsPowerOfTwo(n / 2) {
        var k: nat :| n / 2 == Pow2(k);
        assert n == Pow2(k + 1);
      }
      if IsPowerOfTwo(n) {
        var k: nat :| n == Pow2(k);
        assert n / 2 == Pow2(k - 1);
      }
    } else {
      assert (n - 1) / 2 == n / 2;
      AndSelf(n / 2);
      assert BitAnd(n, n - 1) == 2 * BitAnd(n / 2, n / 2);
      assert forall k: nat :: Pow2(k) == 1 || Pow2(k) % 2 == 0;
    }
  }

  lemma {:induction false} AndSelf(a: nat)
    ensures BitAnd(a, a) == a
  {
    if a > 0 {
      AndSelf(a / 2);
    }
  }

  lemma {:induction false} MaskIsModulo(h: nat, k: nat)
    ensures BitAnd(h, Pow2(k) - 1) == h % Pow2(k)
  {
    if k > 0 {
      var p := Pow2(k - 1);
      MaskIsModulo(h / 2, k - 1);
      HalvedModulo(h, p);
      if h > 0 {
        assert (2 * p - 1) / 2 == p - 1 && (2 * p - 1) % 2 == 1;
      }
    }
  }

  lemma HalvedModulo(h: nat, p: nat)
    requires p > 0
    ensures h % (2 * p) == 2 * (h / 2 % p) + h % 2
  {
    var q, r := h / 2 / p, h / 2 % p;
    assert h / 2 == p * q + r;
    assert h == 2 * (h / 2) + h % 2;
    assert h == (2 * p) * q + (2 * r + h % 2);
    ModuloUnique(h, 2 * p, q, 2 * r + h % 2);
  }

  lemma ModuloUnique(h: nat, m: nat, q: nat, r: nat)
    requires m > 0 && h == m * q + r && r < m
    ensures h % m == r
  {
    var q1, r1 := h / m, h % m;
    assert h == m * q1 + r1;
    if q < q1 {
      StepUp(m, q, q1);
    } else if q1 < q {
      StepUp(m, q1, q);
    }
  }

  lemma {:induction false} StepUp(m: nat, a: nat, b: nat)
    requires a < b
    ensures m * a + m <= m * b
  {
    assert m * b == m * (b - 1) + m;
    if a < b - 1 {
      StepUp(m, a, b - 1);
    }
  }

  function GetPartitionId(numPartitions: nat, hashCode: nat): (id: nat)
    requires numPartitions > 0
  {
    if TestPowerOfTwo(numPartitions) then BitAnd(hashCode, numPartitions - 1)
    else if hashCode >= numPartitions then hashCode % numPartitions
    else hashCode
  }

  /** Both paths are the hash modulo the number of partitions, for every hash. */
  lemma RoutingIsModulo(numPartitions: nat, hashCode: nat)
    requires numPartitions > 0
    ensures GetPartitionId(numPartitions, hashCode) == hashCode % numPartitions < numPartitions
  {
    if TestPowerOfTwo(numPartitions) {
      TestIsExact(numPartitions);
      var k: nat :| numPartitions == Pow2(k);
      MaskIsModulo(hashCode, k);
    } else if hashCode < numPartitions {
      ModuloUnique(hashCode, numPartitions, 0, hashCode);
    }
  }
}
