/** The rule pool (update/main.go:154-157): every distinct rule string gets
    the next dense index the first time it is seen, and only then is a row of
    the `posix[]` table printed. The pool after a sequence of rules is
    described by `Dedup`: the distinct rules in first-seen order, the rule at
    position `i` having index `i`. */
module Pool {

  /** A POSIX TZ rule string, as the bytes of the file's last line. */
  type Rule = seq<bv8>

  /** One printed row of the `posix[]` table: a pool index and its rule. */
  datatype PoolRow = PoolRow(index: nat, rule: Rule)

  predicate Distinct(s: seq<Rule>) {
    forall i, j :: 0 <= i < j < |s| ==> s[i] != s[j]
  }

  /** The distinct elements of `rs`, in the order of their first occurrence. */
  function Dedup(rs: seq<Rule>): (d: seq<Rule>)
    ensures Distinct(d)
    ensures forall x :: x in d <==> x in rs
    ensures |d| <= |rs|
  {
    if |rs| == 0 then []
    else
      var init, x := rs[..|rs| - 1], rs[|rs| - 1];
      assert rs == init + [x];
      var d := Dedup(init);
      if x in d then d else d + [x]
  }

  /** The number of elements of a duplicate-free sequence. */
  lemma {:induction false} DistinctCard(s: seq<Rule>)
    requires Distinct(s)
    ensures |set x | x in s| == |s|
  {
    if |s| > 0 {
      var init, x := s[..|s| - 1], s[|s| - 1];
      assert s == init + [x];
      assert Distinct(init);
      DistinctCard(init);
      assert (set y | y in s) == (set y | y in init) + {x};
      assert x !in (set y | y in init);
    }
  }

  /** The pool holds exactly as many rules as there are distinct rules seen. */
  lemma PoolSize(rs: seq<Rule>)
    ensures |Dedup(rs)| == |set x | x in rs|
  {
    DistinctCard(Dedup(rs));
    assert (set x | x in Dedup(rs)) == (set x | x in rs);
  }

  /** Indices are stable: the pool after a prefix of the rules is a prefix
      of the pool after all of them. */
  lemma {:induction false} DedupPrefix(rs: seq<Rule>, k: nat)
    requires k <= |rs|
    ensures Dedup(rs[..k]) <= Dedup(rs)
    decreases |rs| - k
  {
    if k < |rs| {
      var init := rs[..|rs| - 1];
      assert init[..k] == rs[..k];
      DedupPrefix(init, k);
    } else {
      assert rs[..k] == rs;
    }
  }

  /** A rule seen for the first time at position `k` gets index
      `|Dedup(rs[..k])|`, the number of distinct rules seen before it, and
      keeps it whatever follows. */
  lemma FirstSightIndex(rs: seq<Rule>, k: nat)
    requires k < |rs|
    requires rs[k] !in rs[..k]
    ensures |Dedup(rs[..k])| < |Dedup(rs)|
    ensures Dedup(rs)[|Dedup(rs[..k])|] == rs[k]
  {
    var pre := rs[..k + 1];
    assert pre[..k] == rs[..k];
    assert Dedup(pre) == Dedup(rs[..k]) + [rs[k]];
    DedupPrefix(rs, k + 1);
  }

  /** A rule seen again adds nothing to the pool. */
  lemma RepeatAddsNothing(rs: seq<Rule>, x: Rule)
    requires x in rs
    ensures Dedup(rs + [x]) == Dedup(rs)
  {
    assert (rs + [x])[..|rs|] == rs;
  }

  /** A new rule is appended to the pool, at index the old pool size. */
  lemma NewRuleAppended(rs: seq<Rule>, x: Rule)
    requires x !in rs
    ensures Dedup(rs + [x]) == Dedup(rs) + [x]
    ensures |Dedup(rs + [x])| == |Dedup(rs)| + 1
  {
    assert (rs + [x])[..|rs|] == rs;
  }
}
