/** The generator's state while it walks the zoneinfo tree
    (update/main.go:117-185), and the `zones[]` table it builds at the end
    (update/main.go:204-210). */
module Builder {
  import opened Fnv
  import opened Mask
  import opened Footer
  import opened Pool
  import opened Table

  /** The hashes stored for the names in `ks`. */
  function HashesIn(names: map<seq<bv8>, NameEnt>, ks: set<seq<bv8>>): set<bv32> {
    set k | k in ks && k in names :: names[k].hash
  }

  /** Every stored hash. */
  function HashesOf(names: map<seq<bv8>, NameEnt>): set<bv32> {
    HashesIn(names, names.Keys)
  }

  /** The hashes of a sequence of names. */
  function HashSet(ns: seq<seq<bv8>>): set<bv32> {
    set n | n in ns :: Hash(n)
  }

  /** The rows of the `posix[]` table for a pool: rule `i` at index `i`. */
  function PoolRows(rs: seq<Rule>): seq<PoolRow> {
    seq(|rs|, i requires 0 <= i < |rs| => PoolRow(i, rs[i]))
  }

  /** The mask after recording the names `ns` in order, starting from 1: each
      name widens the mask until it is told apart from all names before it. */
  function MaskAfter(ns: seq<seq<bv8>>): (m: bv32)
    ensures IsMask(m)
  {
    if |ns| == 0 then
      GrowIsMask(0);
      Initial
    else
      var init := ns[..|ns| - 1];
      LeastMask(MaskAfter(init), Hash(ns[|ns| - 1]), HashSet(init))
  }

  /** No two names of `ns` have the same full hash. */
  predicate HashesDiffer(ns: seq<seq<bv8>>) {
    forall i, j :: 0 <= i < j < |ns| ==> Hash(ns[i]) != Hash(ns[j])
  }

  /** The mask after recording names with different full hashes is the least
      mask that tells all their hashes apart. */
  lemma {:induction false} MaskAfterIsLeast(ns: seq<seq<bv8>>)
    requires HashesDiffer(ns)
    ensures SeparatesAll(MaskAfter(ns), HashSet(ns))
    ensures forall w :: IsMask(w) && SeparatesAll(w, HashSet(ns)) ==> Within(MaskAfter(ns), w)
  {
    if |ns| == 0 {
      forall w | IsMask(w) && SeparatesAll(w, HashSet(ns))
        ensures Within(MaskAfter(ns), w)
      {
        InitialIsLeast(w);
      }
    } else {
      var init, x := ns[..|ns| - 1], ns[|ns| - 1];
      var p, h := MaskAfter(init), Hash(x);
      assert HashesDiffer(init) by {
        forall i, j | 0 <= i < j < |init|
          ensures Hash(init[i]) != Hash(init[j])
        {
          assert init[i] == ns[i] && init[j] == ns[j];
        }
      }
      MaskAfterIsLeast(init);
      NewHashNotIn(ns);
      var m := LeastMask(p, h, HashSet(init));
      assert HashSet(ns) == HashSet(init) + {h} by {
        assert ns == init + [x];
      }
      LeastMaskSeparates(p, h, HashSet(init));
      SeparatesAllAdd(p, m, h, HashSet(init));
      forall w | IsMask(w) && SeparatesAll(w, HashSet(ns))
        ensures Within(m, w)
      {
        assert SeparatesAll(w, HashSet(init));
        assert Separates(w, h, HashSet(init));
        WithinIsBelow(p, w);
        LeastMaskBelow(p, w, h, HashSet(init));
      }
    }
  }

  /** The last name's hash is not among the earlier names' hashes. */
  lemma NewHashNotIn(ns: seq<seq<bv8>>)
    requires HashesDiffer(ns) && 0 < |ns|
    ensures Hash(ns[|ns| - 1]) !in HashSet(ns[..|ns| - 1])
  {
    var init := ns[..|ns| - 1];
    forall n | n in init
      ensures Hash(n) != Hash(ns[|ns| - 1])
    {
      var i :| 0 <= i < |init| && init[i] == n;
      assert ns[i] == n;
    }
  }

  /** Widening `p` to `m`, which separates `h` from `hs`, separates all of
      `hs` and `h` when `p` separated all of `hs`. */
  lemma SeparatesAllAdd(p: bv32, m: bv32, h: bv32, hs: set<bv32>)
    requires IsLowMask(p) && IsLowMask(m) && p <= m
    requires SeparatesAll(p, hs) && Separates(m, h, hs)
    ensures SeparatesAll(m, hs + {h})
  {
    forall a, b | a in hs + {h} && b in hs + {h} && a != b
      ensures Apart(a, b, m)
    {
      if a == h {
        assert Apart(h, b, m);
      } else if b == h {
        assert Apart(h, a, m);
      } else {
        WidenKeepsApart(p, m, a, b);
      }
    }
  }

  /** The final mask depends only on the set of recorded hashes, not on the
      order the walk visits the names in. */
  lemma MaskOrderIndependent(ns1: seq<seq<bv8>>, ns2: seq<seq<bv8>>)
    requires HashesDiffer(ns1) && HashesDiffer(ns2)
    requires HashSet(ns1) == HashSet(ns2)
    ensures MaskAfter(ns1) == MaskAfter(ns2)
  {
    MaskAfterIsLeast(ns1);
    MaskAfterIsLeast(ns2);
    WithinAntisymmetric(MaskAfter(ns1), MaskAfter(ns2));
  }

  /** An entry as it appears in the final table: its hash ANDed with the mask. */
  function Masked(e: NameEnt, m: bv32): (r: NameEnt)
    ensures r.name == e.name && r.posix == e.posix
    ensures Within(r.hash, m) && Within(r.hash, e.hash)
  {
    AndWithin(e.hash, m);
    NameEnt(e.name, e.hash & m, e.posix)
  }

  /** The pool built from the rules `rs` is `Dedup(rs)`: the printed rows are
      its rules with their indices, and the map gives each of them its index. */
  ghost predicate PoolMatches(rs: seq<Rule>, rows: seq<PoolRow>, posix: map<Rule, nat>) {
    var d := Dedup(rs);
    && rows == PoolRows(d)
    && (forall r :: r in posix <==> r in d)
    && (forall i :: 0 <= i < |d| ==> posix[d[i]] == i)
  }

  /** Interning a new rule appends one row at the next index. */
  lemma InternNew(rs: seq<Rule>, rows: seq<PoolRow>, posix: map<Rule, nat>, rule: Rule)
    requires PoolMatches(rs, rows, posix)
    requires rule !in posix
    ensures PoolMatches(rs + [rule], rows + [PoolRow(|rows|, rule)], posix[rule := |rows|])
  {
    NewRuleAppended(rs, rule);
    var d := Dedup(rs);
    assert PoolRows(d + [rule]) == PoolRows(d) + [PoolRow(|rows|, rule)];
  }

  /** Interning a rule already in the pool changes nothing. */
  lemma InternKnown(rs: seq<Rule>, rows: seq<PoolRow>, posix: map<Rule, nat>, rule: Rule)
    requires PoolMatches(rs, rows, posix)
    requires rule in posix
    ensures PoolMatches(rs + [rule], rows, posix)
    ensures posix[rule] < |rows| && rows[posix[rule]] == PoolRow(posix[rule], rule)
  {
    RepeatAddsNothing(rs, rule);
    var d := Dedup(rs);
    var i :| 0 <= i < |d| && d[i] == rule;
  }

  /** The names recorded in `order` are the keys of `names`, each with its own hash and a pool index below `poolSize`; the mask is the one
      their recording produced, and it tells every two stored hashes apart. */
  ghost predicate NamesMatch(order: seq<seq<bv8>>, names: map<seq<bv8>, NameEnt>, mask: bv32, poolSize: nat) {
    && mask == MaskAfter(order)
    && (forall k :: k in names <==> k in order)
    && (forall k :: k in names ==>
          names[k].name == k && names[k].hash == Hash(k) && names[k].posix < poolSize)
    && (forall k1, k2 :: k1 in names && k2 in names && k1 != k2 ==>
          Apart(names[k1].hash, names[k2].hash, mask))
  }

  /** The stored hashes are the hashes of the recorded names. */
  lemma HashesOfOrder(order: seq<seq<bv8>>, names: map<seq<bv8>, NameEnt>, mask: bv32, poolSize: nat)
    requires NamesMatch(order, names, mask, poolSize)
    ensures HashesOf(names) == HashSet(order)
  {
    forall x | x in HashSet(order)
      ensures x in HashesOf(names)
    {
      var n :| n in order && Hash(n) == x;
      assert names[n].hash == x;
    }
  }

  /** Recording a new name with the mask the widening loop stops at keeps
      the names matching their record, and every stored hash apart from every
      other. */
  lemma RecordKeepsApart(order: seq<seq<bv8>>, names: map<seq<bv8>, NameEnt>, mask: bv32, poolSize: nat,
                         base: seq<bv8>, index: nat)
    requires NamesMatch(order, names, mask, poolSize)
    requires base !in names && Hash(base) !in HashesOf(names) && index < poolSize
    ensures NamesMatch(order + [base], names[base := NameEnt(base, Hash(base), index)],
                       LeastMask(mask, Hash(base), HashesOf(names)), poolSize)
  {
    var h := Hash(base);
    var m := LeastMask(mask, h, HashesOf(names));
    HashesOfOrder(order, names, mask, poolSize);
    MaskAfterSnoc(order, base);
    LeastMaskSeparates(mask, h, HashesOf(names));
    SeparatedPairs(names, mask, m);
    NewHashApart(names, h, m);
    AddApart(names, m, base, NameEnt(base, h, index), names[base := NameEnt(base, h, index)]);
  }

  /** The mask after one more name is the widening for that name. */
  lemma MaskAfterSnoc(order: seq<seq<bv8>>, base: seq<bv8>)
    ensures MaskAfter(order + [base]) == LeastMask(MaskAfter(order), Hash(base), HashSet(order))
  {
    var o := order + [base];
    assert o[..|o| - 1] == order;
  }

  /** A mask that separates `h` from the stored hashes tells it apart from
      each stored entry. */
  lemma NewHashApart(names: map<seq<bv8>, NameEnt>, h: bv32, m: bv32)
    requires Separates(m, h, HashesOf(names))
    ensures forall k :: k in names ==> Apart(h, names[k].hash, m)
  {
    forall k | k in names
      ensures Apart(h, names[k].hash, m)
    {
      assert names[k].hash in HashesOf(names);
    }
  }

  /** Storing an entry apart from every stored one keeps all pairs apart. */
  lemma AddApart(names: map<seq<bv8>, NameEnt>, m: bv32, base: seq<bv8>, e: NameEnt,
                 n: map<seq<bv8>, NameEnt>)
    requires base !in names && n == names[base := e]
    requires forall k1, k2 :: k1 in names && k2 in names && k1 != k2 ==>
      Apart(names[k1].hash, names[k2].hash, m)
    requires forall k :: k in names ==> Apart(e.hash, names[k].hash, m)
    ensures forall k1, k2 :: k1 in n && k2 in n && k1 != k2 ==> Apart(n[k1].hash, n[k2].hash, m)
  {
    forall k1, k2 | k1 in n && k2 in n && k1 != k2
      ensures Apart(n[k1].hash, n[k2].hash, m)
    {
      if k1 == base {
        assert Apart(e.hash, names[k2].hash, m);
      } else if k2 == base {
        assert Apart(e.hash, names[k1].hash, m);
      }
    }
  }

  /** Stored hashes told apart by a mask stay apart under a wider one. */
  lemma SeparatedPairs(names: map<seq<bv8>, NameEnt>, m: bv32, m': bv32)
    requires IsLowMask(m) && IsLowMask(m') && m <= m'
    requires forall k1, k2 :: k1 in names && k2 in names && k1 != k2 ==>
      Apart(names[k1].hash, names[k2].hash, m)
    ensures forall k1, k2 :: k1 in names && k2 in names && k1 != k2 ==>
      Apart(names[k1].hash, names[k2].hash, m')
  {
    forall k1, k2 | k1 in names && k2 in names && k1 != k2
      ensures Apart(names[k1].hash, names[k2].hash, m')
    {
      WidenKeepsApart(m, m', names[k1].hash, names[k2].hash);
    }
  }

  /** Line 162-165: widen the mask while `h` collides with one stored hash
      `x`. It stops at the least widening that tells the two apart. */
  method WidenPast(m0: bv32, h: bv32, x: bv32) returns (m: bv32)
    requires IsLowMask(m0)
    requires h != x
    ensures m == LeastMask(m0, h, {x})
  {
    m := m0;
    while !Apart(h, x, m)
      invariant IsLowMask(m)
      invariant LeastMask(m, h, {x}) == LeastMask(m0, h, {x})
      decreases 0xffff_ffff - m
    {
      FullMaskKeepsApart(h, x);
      GrowIncreases(m);
      GrowIsMask(m);
      m := Grow(m);
    }
    LeastMaskStops(m, h, {x});
  }

  /** Adding one name to a set of names adds its hash to their hashes. */
  lemma HashesInAdd(names: map<seq<bv8>, NameEnt>, done: set<seq<bv8>>, k: seq<bv8>)
    requires k in names
    ensures HashesIn(names, done + {k}) == HashesIn(names, done) + {names[k].hash}
  {
  }

  /** Lines 161-166: for every stored entry, in whatever order the map hands
      them out, widen the mask while `h` collides with that entry's hash. The
      result is the least widening that tells `h` apart from all of them. */
  method Widen(names: map<seq<bv8>, NameEnt>, mask: bv32, h: bv32) returns (m: bv32)
    requires IsLowMask(mask)
    requires h !in HashesOf(names)
    ensures m == LeastMask(mask, h, HashesOf(names))
  {
    m := mask;
    var keys := names.Keys;
    ghost var done: set<seq<bv8>> := {};
    LeastMaskStops(m, h, {});
    while keys != {}
      invariant keys + done == names.Keys
      invariant IsLowMask(m)
      invariant m == LeastMask(mask, h, HashesIn(names, done))
      decreases keys
    {
      var k :| k in keys;
      var v := names[k];
      assert v.hash in HashesOf(names);
      LeastMaskCompose(mask, h, HashesIn(names, done), {v.hash});
      HashesInAdd(names, done, k);
      m := WidenPast(m, h, v.hash);
      keys := keys - {k};
      done := done + {k};
    }
    assert done == names.Keys;
  }

  /** What one visited file did: it was skipped (no "TZif" magic or no
      footer line), it was recorded, or its full hash equals a stored one and
      the widening loop of lines 162-165 would never end. */
  datatype Outcome = Skipped | Recorded | Hangs

  /** The global state of the generator: `posix`, `names` and `mask`, plus the
      rows of the `posix[]` table printed so far. */
  class Generator {
    /** The uniqueness mask. */
    var mask: bv32
    /** Rule string to pool index. */
    var posix: map<Rule, nat>
    /** The rows of the `posix[]` table printed so far. */
    var rows: seq<PoolRow>
    /** Relative path to entry, with the full (unmasked) hash. */
    var names: map<seq<bv8>, NameEnt>
    /** Every rule taken from a file so far, in walk order. */
    ghost var rules: seq<Rule>
    /** Every recorded name, in walk order. */
    ghost var order: seq<seq<bv8>>

    ghost predicate Valid()
      reads this
    {
      PoolMatches(rules, rows, posix) && NamesMatch(order, names, mask, |rows|)
    }

    /** The state before the walk: mask 1, both maps empty. */
    constructor ()
      ensures Valid()
      ensures mask == 1 && posix == map[] && names == map[] && rows == []
      ensures rules == [] && order == []
    {
      mask := Initial;
      posix := map[];
      rows := [];
      names := map[];
      rules := [];
      order := [];
    }

    /** Lines 154-157: give `rule` the next index if it is new, printing its
        row, and return its index. */
    method Intern(rule: Rule) returns (index: nat)
      requires Valid()
      modifies this
      ensures Valid()
      ensures rules == old(rules) + [rule]
      ensures rule in old(posix) ==> rows == old(rows) && posix == old(posix)
      ensures rule !in old(posix) ==>
        rows == old(rows) + [PoolRow(|old(rows)|, rule)] && posix == old(posix)[rule := |old(rows)|]
      ensures index < |rows| && rows[index] == PoolRow(index, rule)
      ensures names == old(names) && mask == old(mask) && order == old(order)
    {
      if rule !in posix {
        InternNew(rules, rows, posix, rule);
        posix := posix[rule := |rows|];
        rows := rows + [PoolRow(|rows|, rule)];
      } else {
        InternKnown(rules, rows, posix, rule);
      }
      rules := rules + [rule];
      index := posix[rule];
    }

    /** Lines 159-167: widen the mask until `h` is told apart from every stored
        hash, then store the entry. */
    method Record(base: seq<bv8>, h: bv32, index: nat)
      requires Valid()
      requires h == Hash(base)
      requires base !in names
      requires h !in HashesOf(names)
      requires index < |rows|
      modifies this
      ensures Valid()
      ensures names == old(names)[base := NameEnt(base, h, index)]
      ensures mask == LeastMask(old(mask), h, HashesOf(old(names)))
      ensures order == old(order) + [base]
      ensures rows == old(rows) && posix == old(posix) && rules == old(rules)
    {
      var m := Widen(names, mask, h);
      RecordKeepsApart(order, names, mask, |rows|, base, index);
      var names' := names[base := NameEnt(base, h, index)];
      assert NamesMatch(order + [base], names', m, |rows|);
      mask := m;
      names := names';
      order := order + [base];
    }

    /** Lines 141-167, the part of `walkDirFn` after the file is read: skip
        the file unless it has a footer line, intern its rule, hash its
        relative path and record it. */
    method Visit(base: seq<bv8>, contents: seq<bv8>) returns (outcome: Outcome)
      requires Valid()
      requires base !in names
      modifies this
      ensures Valid()
      ensures outcome == Skipped <==> ExtractRule(contents).None?
      ensures ExtractRule(contents).None? ==>
        && outcome == Skipped && rules == old(rules) && rows == old(rows)
        && names == old(names) && mask == old(mask) && order == old(order)
      ensures ExtractRule(contents).Some? ==>
        rules == old(rules) + [ExtractRule(contents).value] && old(rows) <= rows
      ensures outcome == Hangs <==>
        ExtractRule(contents).Some? && Hash(base) in HashesOf(old(names))
      ensures outcome == Hangs ==>
        names == old(names) && mask == old(mask) && order == old(order)
      ensures outcome == Recorded ==>
        && base in names
        && names == old(names)[base := NameEnt(base, Hash(base), names[base].posix)]
        && rows[names[base].posix].rule == ExtractRule(contents).value
        && mask == LeastMask(old(mask), Hash(base), HashesOf(old(names)))
        && order == old(order) + [base]
    {
      var rule := ExtractRule(contents);
      if rule.None? {
        return Skipped;
      }
      var index := Intern(rule.value);
      var h := FnvHash(base);
      if h in HashesOf(names) {
        return Hangs;
      }
      Record(base, h, index);
      return Recorded;
    }

    /** Lines 204-210: copy every entry with its hash ANDed with the final
        mask, and sort the copies by hash. `names` itself is left alone. */
    method Finalize() returns (zones: array<NameEnt>)
      requires Valid()
      ensures fresh(zones)
      ensures IsTable(zones[..], names, mask)
    {
      var copies := CopyMasked(names, mask);
      zones := new NameEnt[|copies|](j requires 0 <= j < |copies| => copies[j]);
      assert zones[..] == copies;
      MaskedDistinct(names, mask, copies);
      HashLessIsStrictWeakOrder();
      Sort(zones, HashLess);
      FinishTable(names, mask, copies, zones[..]);
    }
  }

  /** Every row of `zs` is the masked copy of the stored entry of its name,
      and every stored name has a row. */
  ghost predicate CopiesOf(zs: seq<NameEnt>, names: map<seq<bv8>, NameEnt>, mask: bv32) {
    && (forall j :: 0 <= j < |zs| ==> zs[j].name in names && zs[j] == Masked(names[zs[j].name], mask))
    && (forall k :: k in names ==> exists j :: 0 <= j < |zs| && zs[j].name == k)
  }

  /** `zs` is the finished `zones[]` table for `names` under `mask`: one row
      per stored name, holding its masked hash and its pool index, in strictly
      ascending order of hash. */
  ghost predicate IsTable(zs: seq<NameEnt>, names: map<seq<bv8>, NameEnt>, mask: bv32) {
    |zs| == |names| && CopiesOf(zs, names, mask) && StrictlyAscending(zs)
  }

  /** There is only one finished table for given entries and mask, so the
      order in which the Go map hands the entries out cannot change it. */
  lemma TableUnique(names: map<seq<bv8>, NameEnt>, mask: bv32, zs1: seq<NameEnt>, zs2: seq<NameEnt>)
    requires IsTable(zs1, names, mask) && IsTable(zs2, names, mask)
    ensures zs1 == zs2
  {
    forall x
      ensures x in zs1 <==> x in zs2
    {
      if x in zs1 {
        SameRowIn(names, mask, zs1, zs2, x);
      }
      if x in zs2 {
        SameRowIn(names, mask, zs2, zs1, x);
      }
    }
    StrictlyAscendingUnique(zs1, zs2);
  }

  /** A row of one table is a row of any other table for the same entries. */
  lemma SameRowIn(names: map<seq<bv8>, NameEnt>, mask: bv32, zs1: seq<NameEnt>, zs2: seq<NameEnt>, x: NameEnt)
    requires CopiesOf(zs1, names, mask) && CopiesOf(zs2, names, mask)
    requires x in zs1
    ensures x in zs2
  {
    var i :| 0 <= i < |zs1| && zs1[i] == x;
    var j :| 0 <= j < |zs2| && zs2[j].name == x.name;
  }

  /** Lines 204-208: one copy of every entry, with its hash ANDed with `mask`,
      in whatever order the map hands them out. */
  method CopyMasked(names: map<seq<bv8>, NameEnt>, mask: bv32) returns (copies: seq<NameEnt>)
    requires forall k :: k in names ==> names[k].name == k
    ensures |copies| == |names|
    ensures CopiesOf(copies, names, mask)
    ensures forall j1, j2 :: 0 <= j1 < j2 < |copies| ==> copies[j1].name != copies[j2].name
  {
    var keys := names.Keys;
    copies := [];
    ghost var filled: seq<seq<bv8>> := [];
    while keys != {}
      invariant CopiedSoFar(names, mask, keys, filled, copies)
      decreases keys
    {
      var k :| k in keys;
      CopyOne(names, mask, keys, filled, copies, k);
      copies := copies + [Masked(names[k], mask)];
      filled := filled + [k];
      keys := keys - {k};
    }
    CopiesCover(names, mask, filled, copies);
  }

  /** The loop state of `CopyMasked`: `copies` holds the masked entries of the
      names `filled`, each once, and `keys` the names still to copy. */
  ghost predicate CopiedSoFar(names: map<seq<bv8>, NameEnt>, mask: bv32, keys: set<seq<bv8>>,
                              filled: seq<seq<bv8>>, copies: seq<NameEnt>) {
    && |filled| == |copies|
    && keys <= names.Keys
    && |copies| + |keys| == |names|
    && (forall k :: k in filled <==> k in names && k !in keys)
    && (forall j :: 0 <= j < |copies| ==> copies[j] == Masked(names[filled[j]], mask))
    && (forall j1, j2 :: 0 <= j1 < j2 < |filled| ==> filled[j1] != filled[j2])
  }

  /** Copying one more name keeps the loop state. */
  lemma CopyOne(names: map<seq<bv8>, NameEnt>, mask: bv32, keys: set<seq<bv8>>,
                filled: seq<seq<bv8>>, copies: seq<NameEnt>, k: seq<bv8>)
    requires CopiedSoFar(names, mask, keys, filled, copies)
    requires k in keys
    ensures CopiedSoFar(names, mask, keys - {k}, filled + [k], copies + [Masked(names[k], mask)])
  {
  }

  /** Copies made in the order `filled`, which lists every name once, hold
      one row for every name. */
  lemma CopiesCover(names: map<seq<bv8>, NameEnt>, mask: bv32, filled: seq<seq<bv8>>, zs: seq<NameEnt>)
    requires forall k :: k in names ==> names[k].name == k
    requires CopiedSoFar(names, mask, {}, filled, zs)
    ensures CopiesOf(zs, names, mask)
    ensures forall j1, j2 :: 0 <= j1 < j2 < |zs| ==> zs[j1].name != zs[j2].name
  {
    forall j | 0 <= j < |zs|
      ensures zs[j].name == filled[j] && filled[j] in names
    {
      assert zs[j] == Masked(names[filled[j]], mask);
    }
    forall k | k in names
      ensures exists j :: 0 <= j < |zs| && zs[j].name == k
    {
      var j :| 0 <= j < |zs| && filled[j] == k;
      assert zs[j].name == k;
    }
  }

  /** Sorting the masked copies, whose hashes are all different, by hash
      gives the finished table. */
  lemma FinishTable(names: map<seq<bv8>, NameEnt>, mask: bv32, before: seq<NameEnt>, after: seq<NameEnt>)
    requires |before| == |names| && CopiesOf(before, names, mask) && DistinctHashes(before)
    requires multiset(after) == multiset(before)
    requires SortedBy(after, HashLess)
    ensures IsTable(after, names, mask)
  {
    assert |after| == |multiset(after)| == |before|;
    PermutationKeepsDistinct(after, before);
    SortedDistinctIsStrict(after);
    forall j | 0 <= j < |after|
      ensures after[j].name in names && after[j] == Masked(names[after[j].name], mask)
    {
      assert after[j] in multiset(before);
    }
    forall k | k in names
      ensures exists j :: 0 <= j < |after| && after[j].name == k
    {
      var j0 :| 0 <= j0 < |before| && before[j0].name == k;
      assert before[j0] in multiset(after);
      var j :| 0 <= j < |after| && after[j] == before[j0];
    }
  }

  /** Copies of stored entries with different names have different masked
      hashes. */
  lemma MaskedDistinct(names: map<seq<bv8>, NameEnt>, mask: bv32, s: seq<NameEnt>)
    requires forall k1, k2 :: k1 in names && k2 in names && k1 != k2 ==>
      Apart(names[k1].hash, names[k2].hash, mask)
    requires CopiesOf(s, names, mask)
    requires forall j1, j2 :: 0 <= j1 < j2 < |s| ==> s[j1].name != s[j2].name
    ensures DistinctHashes(s)
  {
    forall j1, j2 | 0 <= j1 < j2 < |s|
      ensures s[j1].hash != s[j2].hash
    {
      assert Apart(names[s[j1].name].hash, names[s[j2].name].hash, mask);
    }
  }
}
