/** Zone entries and the ordering of the final `zones[]` table
    (update/main.go:92-115, 204-210). */
module Table {

  /** One zone: its relative path, its hash (full while the table is being
      built, masked once it is finalised) and the pool index of its rule. */
  datatype NameEnt = NameEnt(name: seq<bv8>, hash: bv32, posix: nat)

  /** A comparator over entries, as the Go type `By`. */
  type By = (NameEnt, NameEnt) -> bool

  /** The comparator handed to `By(...).Sort`: ascending by hash, compared as
      unsigned 32-bit integers. */
  predicate HashLess(n1: NameEnt, n2: NameEnt): (less: bool)
    ensures less ==> n1.hash != n2.hash
  {
    n1.hash as int < n2.hash as int
  }

  /** What `sort.Sort` asks of `Less`: it is asymmetric, and "not less" is
      transitive, so the rows fall into ordered classes of equivalent rows. */
  ghost predicate StrictWeakOrder(less: By) {
    && (forall x, y :: less(x, y) ==> !less(y, x))
    && (forall x, y, z :: !less(y, x) && !less(z, y) ==> !less(z, x))
  }

  /** No row is less than a row before it, by `less`. */
  predicate SortedBy(s: seq<NameEnt>, less: By) {
    forall i, j :: 0 <= i < j < |s| ==> !less(s[j], s[i])
  }

  /** Each row's hash, as an unsigned number, is below the next one's. */
  predicate StrictlyAscending(s: seq<NameEnt>) {
    forall i, j :: 0 <= i < j < |s| ==> s[i].hash as int < s[j].hash as int
  }

  predicate DistinctHashes(s: seq<NameEnt>) {
    forall i, j :: 0 <= i < j < |s| ==> s[i].hash != s[j].hash
  }

  /** Different 32-bit hashes have different unsigned values. */
  lemma HashValueInjective(x: bv32, y: bv32)
    requires x as int == y as int
    ensures x == y
  {
    assert (x as int) as bv32 == x;
    assert (y as int) as bv32 == y;
  }

  /** The hash comparator is a valid `Less` for `sort.Sort`. */
  lemma HashLessIsStrictWeakOrder()
    ensures StrictWeakOrder(HashLess)
  {
    forall x, y, z | !HashLess(y, x) && !HashLess(z, y)
      ensures !HashLess(z, x)
    {
    }
  }

  /** Rows sorted by hash whose hashes are all different are in strictly
      ascending order of hash. */
  lemma SortedDistinctIsStrict(s: seq<NameEnt>)
    requires SortedBy(s, HashLess)
    requires DistinctHashes(s)
    ensures StrictlyAscending(s)
  {
    forall i, j | 0 <= i < j < |s|
      ensures s[i].hash as int < s[j].hash as int
    {
      assert !HashLess(s[j], s[i]);
      if s[i].hash as int == s[j].hash as int {
        HashValueInjective(s[i].hash, s[j].hash);
      }
    }
  }

  /** `nameSorter.Swap`: exchange two rows and leave the others alone. */
  method Swap(a: array<NameEnt>, i: int, j: int)
    requires 0 <= i < a.Length && 0 <= j < a.Length
    modifies a
    ensures a[i] == old(a[j]) && a[j] == old(a[i])
    ensures forall k :: 0 <= k < a.Length && k != i && k != j ==> a[k] == old(a[k])
    ensures multiset(a[..]) == multiset(old(a[..]))
  {
    a[i], a[j] := a[j], a[i];
  }

  /** The first `n` rows of `a` are sorted by `less`. */
  predicate SortedPrefix(a: array<NameEnt>, n: int, less: By)
    requires 0 <= n <= a.Length
    reads a
  {
    forall p, q :: 0 <= p < q < n ==> !less(a[q], a[p])
  }

  /** `By.Sort`: sort the rows with `less` as `Less`, moving them through `Swap`
      alone (an insertion sort standing in for `sort.Sort`). The result is
      sorted and a permutation of the input. */
  method Sort(a: array<NameEnt>, less: By)
    requires StrictWeakOrder(less)
    modifies a
    ensures SortedBy(a[..], less)
    ensures multiset(a[..]) == multiset(old(a[..]))
  {
    var i := 0;
    while i < a.Length
      invariant 0 <= i <= a.Length
      invariant SortedPrefix(a, i, less)
      invariant multiset(a[..]) == multiset(old(a[..]))
    {
      InsertAt(a, i, less);
      i := i + 1;
    }
  }

  /** One pass of the insertion sort: move row `i` down past every row of the
      sorted prefix that it is less than. */
  method InsertAt(a: array<NameEnt>, i: int, less: By)
    requires StrictWeakOrder(less)
    requires 0 <= i < a.Length
    requires SortedPrefix(a, i, less)
    modifies a
    ensures SortedPrefix(a, i + 1, less)
    ensures multiset(a[..]) == multiset(old(a[..]))
  {
    var j := i;
    while 0 < j && less(a[j], a[j - 1])
      invariant 0 <= j <= i
      invariant forall p, q :: 0 <= p < q <= i && q != j ==> !less(a[q], a[p])
      invariant forall q :: j < q <= i ==> less(a[j], a[q])
      invariant multiset(a[..]) == multiset(old(a[..]))
    {
      Swap(a, j - 1, j);
      j := j - 1;
    }
  }

  /** Removing the same first row from two permutations of each other leaves
      permutations of each other. */
  lemma Cancel(x: NameEnt, a: seq<NameEnt>, b: seq<NameEnt>)
    requires multiset([x] + a) == multiset([x] + b)
    ensures multiset(a) == multiset(b)
  {
    assert multiset([x] + a) == multiset{x} + multiset(a);
    assert multiset([x] + b) == multiset{x} + multiset(b);
    forall y
      ensures multiset(a)[y] == multiset(b)[y]
    {
      assert (multiset{x} + multiset(a))[y] == (multiset{x} + multiset(b))[y];
    }
  }

  /** `b` without its row at `p`. */
  function Without(b: seq<NameEnt>, p: int): (r: seq<NameEnt>)
    requires 0 <= p < |b|
    ensures |r| == |b| - 1
    ensures forall k :: 0 <= k < |r| ==> r[k] == b[if k < p then k else k + 1]
  {
    b[..p] + b[p + 1..]
  }

  /** Taking one row out front is a rearrangement. */
  lemma WithoutPermutes(b: seq<NameEnt>, p: int)
    requires 0 <= p < |b|
    ensures multiset([b[p]] + Without(b, p)) == multiset(b)
  {
    assert b[..p] + [b[p]] + b[p + 1..] == b;
    assert multiset(b) == multiset(b[..p]) + multiset([b[p]]) + multiset(b[p + 1..]);
  }

  /** Every row left after taking out row `p` has a hash different from
      row `p`'s, when all hashes of `b` are different. */
  lemma WithoutApart(b: seq<NameEnt>, p: int)
    requires 0 <= p < |b|
    requires DistinctHashes(b)
    ensures DistinctHashes(Without(b, p))
    ensures forall y: NameEnt :: y in multiset(Without(b, p)) ==> y.hash != b[p].hash
  {
    var rest := Without(b, p);
    forall y: NameEnt | y in multiset(rest)
      ensures y.hash != b[p].hash
    {
      var r :| 0 <= r < |rest| && rest[r] == y;
    }
  }

  /** Rows with distinct hashes keep distinct hashes under any permutation. */
  lemma {:induction false} PermutationKeepsDistinct(a: seq<NameEnt>, b: seq<NameEnt>)
    requires multiset(a) == multiset(b)
    requires DistinctHashes(b)
    ensures DistinctHashes(a)
    decreases |a|
  {
    if |a| > 0 {
      var x := a[0];
      assert x in multiset(b);
      var p :| 0 <= p < |b| && b[p] == x;
      var rest := Without(b, p);
      WithoutPermutes(b, p);
      WithoutApart(b, p);
      assert [x] + a[1..] == a;
      Cancel(x, a[1..], rest);
      PermutationKeepsDistinct(a[1..], rest);
      forall k | 1 <= k < |a|
        ensures a[k].hash != x.hash
      {
        assert a[k] == a[1..][k - 1];
        assert a[k] in multiset(a[1..]);
      }
    }
  }

  /** Two strictly ascending sequences holding the same rows start with the
      same row: the one with the smallest hash. */
  lemma SameFirst(a: seq<NameEnt>, b: seq<NameEnt>)
    requires forall x :: x in a <==> x in b
    requires StrictlyAscending(a) && StrictlyAscending(b)
    requires 0 < |a| && 0 < |b|
    ensures a[0] == b[0]
  {
    assert a[0] in b;
    var p :| 0 <= p < |b| && b[p] == a[0];
    assert b[0] in a;
    var q :| 0 <= q < |a| && a[q] == b[0];
    assert a[0].hash as int <= a[q].hash as int;
    assert b[0].hash as int <= b[p].hash as int;
    assert p == 0;
  }

  /** Two strictly ascending sequences holding the same rows are the same
      sequence: the rows fix their own order. */
  lemma {:induction false} StrictlyAscendingUnique(a: seq<NameEnt>, b: seq<NameEnt>)
    requires forall x :: x in a <==> x in b
    requires StrictlyAscending(a) && StrictlyAscending(b)
    ensures a == b
    decreases |a|
  {
    if 0 < |a| && 0 < |b| {
      SameFirst(a, b);
      forall x
        ensures x in a[1..] <==> x in b[1..]
      {
        TailMembers(a, x);
        TailMembers(b, x);
      }
      StrictlyAscendingUnique(a[1..], b[1..]);
      assert a == [a[0]] + a[1..];
      assert b == [b[0]] + b[1..];
    } else {
      FirstIsMember(a);
      FirstIsMember(b);
    }
  }

  /** A non-empty sequence holds its first row. */
  lemma FirstIsMember(a: seq<NameEnt>)
    ensures 0 < |a| ==> a[0] in a
  {
  }

  /** In a strictly ascending sequence, the rows after the first are the rows
      other than the first. */
  lemma TailMembers(a: seq<NameEnt>, x: NameEnt)
    requires StrictlyAscending(a) && 0 < |a|
    ensures x in a[1..] <==> x in a && x != a[0]
  {
    if x in a[1..] {
      var k :| 0 <= k < |a[1..]| && a[1..][k] == x;
      assert a[k + 1] == x;
    }
    if x in a && x != a[0] {
      var k :| 0 <= k < |a| && a[k] == x;
      assert a[1..][k - 1] == x;
    }
  }
}
