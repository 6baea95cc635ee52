/** Small shared vocabulary: an optional value and integer maximum. */
module Common {

  /** A present-or-absent value; `None` stands for the C++ null pointer or
      the "not found" result of a lookup. */
  datatype Option<+T> = None | Some(value: T)

  function Max(a: int, b: int): (m: int)
    ensures m >= a && m >= b
    ensures m == a || m == b
  {
    if a >= b then a else b
  }

  /** Updating the first of three maps joined by `+` is updating the join,
      when the later two do not mention the key. */
  lemma UpdateBeforeUnion<K, V>(a: map<K, V>, b: map<K, V>, c: map<K, V>, k: K, v: V)
    requires k !in b && k !in c
    ensures a[k := v] + b + c == (a + b + c)[k := v]
  {
  }

  /** Updating the last of three maps joined by `+` is updating the join. */
  lemma UpdateAfterUnion<K, V>(a: map<K, V>, b: map<K, V>, c: map<K, V>, k: K, v: V)
    ensures a + b + c[k := v] == (a + b + c)[k := v]
  {
  }

  /** Replacing the middle entry of `a + {k: u} + c` is updating the join. */
  lemma ReplaceMiddle<K, V>(a: map<K, V>, k: K, u: V, v: V, c: map<K, V>)
    requires k !in c
    ensures a + map[k := v] + c == (a + map[k := u] + c)[k := v]
  {
  }

  lemma RemoveBeforeUnion<K, V>(a: map<K, V>, b: map<K, V>, c: map<K, V>, k: K)
    requires k !in b && k !in c
    ensures (a - {k}) + b + c == (a + b + c) - {k}
  {
  }

  lemma RemoveAfterUnion<K, V>(a: map<K, V>, b: map<K, V>, c: map<K, V>, k: K)
    requires k !in a && k !in b
    ensures a + b + (c - {k}) == (a + b + c) - {k}
  {
  }

  /** Dropping the middle entry `k` of `a + {k: u} + c` and moving the entry
      `m` of `c` into the middle leaves the same association. */
  lemma SuccessorCopy<K, V>(a: map<K, V>, k: K, u: V, m: K, mv: V, c: map<K, V>)
    requires k !in a && k !in c && m !in a
    requires m in c && c[m] == mv
    ensures a + map[m := mv] + (c - {m}) == (a + map[k := u] + c) - {k}
  {
  }

  /** The number of `true` flags, as a `vector<bool> visited` would count them. */
  function CountTrue(flags: seq<bool>): (c: nat)
    ensures c <= |flags|
  {
    if |flags| == 0 then 0 else CountTrue(flags[..|flags| - 1]) + if flags[|flags| - 1] then 1 else 0
  }

  /** Setting one more flag raises the count by one. */
  lemma {:induction false} CountTrueSet(flags: seq<bool>, u: nat)
    requires u < |flags| && !flags[u]
    ensures CountTrue(flags[u := true]) == CountTrue(flags) + 1
    decreases |flags|
  {
    var n := |flags|;
    if u < n - 1 {
      assert flags[u := true][..n - 1] == flags[..n - 1][u := true];
      CountTrueSet(flags[..n - 1], u);
    } else {
      assert flags[u := true][..n - 1] == flags[..n - 1];
    }
  }

  /** No flag set, no count. */
  lemma CountTrueNone(n: nat)
    ensures CountTrue(seq(n, v => false)) == 0
  {
    if n > 0 {
      assert seq(n, v => false)[..n - 1] == seq(n - 1, v => false);
      CountTrueNone(n - 1);
    }
  }
}
