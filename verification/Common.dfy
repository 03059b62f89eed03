// Shared vocabulary: bytes, strings of bytes, 64-bit hashes and optional values.
module Common {
  type Byte = b: int | 0 <= b < 256
  type Str = seq<Byte>

  const TWO64: int := 0x1_0000_0000_0000_0000

  // A Go uint64 used as a key hash.
  type Hash = h: int | 0 <= h < 0x1_0000_0000_0000_0000

  datatype Option<+T> = None | Some(value: T)

  predicate IsPrefix(p: Str, s: Str) { |p| <= |s| && s[..|p|] == p }

  // ----- the sum of a map's values -----

  ghost function Sum<K>(m: map<K, int>): int
    decreases |m|
  {
    if m == map[] then 0
    else
      var k :| k in m;
      assert m.Keys == (m - {k}).Keys + {k};
      m[k] + Sum(m - {k})
  }

  lemma {:induction false} SumTakeOut<K>(m: map<K, int>, k: K)
    requires k in m
    ensures Sum(m) == m[k] + Sum(m - {k})
    decreases |m|
  {
    var c :| c in m && Sum(m) == m[c] + Sum(m - {c});
    if c != k {
      assert m.Keys == (m - {c}).Keys + {c};
      SumTakeOut(m - {c}, k);
      assert m.Keys == (m - {k}).Keys + {k};
      SumTakeOut(m - {k}, c);
      assert m - {c} - {k} == m - {k} - {c};
    }
  }

  lemma SumPut<K>(m: map<K, int>, k: K, v: int)
    ensures Sum(m[k := v]) == Sum(m) + v - (if k in m then m[k] else 0)
  {
    SumTakeOut(m[k := v], k);
    assert m[k := v] - {k} == m - {k};
    if k in m { SumTakeOut(m, k); } else { assert m - {k} == m; }
  }

  lemma SumRemove<K>(m: map<K, int>, k: K)
    ensures Sum(m - {k}) == Sum(m) - (if k in m then m[k] else 0)
  {
    if k in m { SumTakeOut(m, k); } else { assert m - {k} == m; }
  }

  // ----- division with remainder -----

  lemma RemainderIs(n: nat, q: nat, r: nat, m: nat)
    requires r < m && n == q * m + r
    ensures n % m == r
  {
    var d := n / m - q;
    assert d * m == r - n % m;
    assert d >= 1 ==> d * m >= m;
    assert d <= -1 ==> d * m + m <= 0;
  }
}
