/** A whole run of the generator (update/main.go:117-216): the directory walk
    hands every entry under the zoneinfo root to `walkDirFn` in walk order,
    then `main` builds the sorted `zones[]` table. */
module Update {
  import opened Fnv
  import opened Mask
  import opened Footer
  import opened Pool
  import opened Table
  import opened Builder

  /** One entry the walk visits: its path relative to the root, whether it is
      a regular file, and its bytes. */
  datatype ZoneFile = ZoneFile(path: seq<bv8>, regular: bool, contents: seq<bv8>)

  /** What the generator prints: the rows of `posix[]`, the mask and the rows
      of `zones[]`; or nothing, because the widening loop never ends. */
  datatype Output = Hung | Done(posix: seq<PoolRow>, mask: bv32, zones: seq<NameEnt>)

  /** The file is a regular TZif file with a footer line, so it is recorded. */
  predicate Kept(f: ZoneFile) {
    f.regular && ExtractRule(f.contents).Some?
  }

  /** The rules of the kept files, in walk order. */
  function RulesOf(fs: seq<ZoneFile>): seq<Rule> {
    if |fs| == 0 then []
    else
      var f := fs[|fs| - 1];
      RulesOf(fs[..|fs| - 1]) + (if Kept(f) then [ExtractRule(f.contents).value] else [])
  }

  /** The paths of the kept files, in walk order. */
  function PathsOf(fs: seq<ZoneFile>): seq<seq<bv8>> {
    if |fs| == 0 then []
    else
      var f := fs[|fs| - 1];
      PathsOf(fs[..|fs| - 1]) + (if Kept(f) then [f.path] else [])
  }

  /** The rule of the last kept file with path `p`, if any. */
  function RuleFor(fs: seq<ZoneFile>, p: seq<bv8>): Option<Rule> {
    if |fs| == 0 then None
    else
      var f := fs[|fs| - 1];
      if Kept(f) && f.path == p then Some(ExtractRule(f.contents).value)
      else RuleFor(fs[..|fs| - 1], p)
  }

  /** Two kept files have the same full hash. */
  predicate Collides(fs: seq<ZoneFile>) {
    exists i, j :: 0 <= i < j < |fs| && Kept(fs[i]) && Kept(fs[j]) && Hash(fs[i].path) == Hash(fs[j].path)
  }

  /** No two entries of the walk share a path. */
  predicate DistinctPaths(fs: seq<ZoneFile>) {
    forall i, j :: 0 <= i < j < |fs| ==> fs[i].path != fs[j].path
  }

  /** Every stored entry's pool index names the rule of the file it came from. */
  ghost predicate RulesRecorded(fs: seq<ZoneFile>, names: map<seq<bv8>, NameEnt>, rows: seq<PoolRow>) {
    forall k :: k in names ==> names[k].posix < |rows| && RuleFor(fs, k) == Some(rows[names[k].posix].rule)
  }

  /** The path of a kept file is among the kept paths. */
  lemma {:induction false} KeptPathListed(fs: seq<ZoneFile>, j: int)
    requires 0 <= j < |fs| && Kept(fs[j])
    ensures fs[j].path in PathsOf(fs)
    decreases |fs|
  {
    var init := fs[..|fs| - 1];
    if j < |fs| - 1 {
      assert init[j] == fs[j];
      KeptPathListed(init, j);
    }
  }

  /** Every kept path comes from a kept file. */
  lemma {:induction false} ListedPathKept(fs: seq<ZoneFile>, p: seq<bv8>)
    requires p in PathsOf(fs)
    ensures exists j :: 0 <= j < |fs| && Kept(fs[j]) && fs[j].path == p
    decreases |fs|
  {
    var init := fs[..|fs| - 1];
    if p in PathsOf(init) {
      ListedPathKept(init, p);
      var j :| 0 <= j < |init| && Kept(init[j]) && init[j].path == p;
      assert fs[j] == init[j];
    } else {
      assert Kept(fs[|fs| - 1]) && fs[|fs| - 1].path == p;
    }
  }

  /** With distinct paths, the kept paths are distinct. */
  lemma {:induction false} PathsOfDistinct(fs: seq<ZoneFile>)
    requires DistinctPaths(fs)
    ensures Distinct(PathsOf(fs))
    decreases |fs|
  {
    if |fs| > 0 {
      var init := fs[..|fs| - 1];
      var f := fs[|fs| - 1];
      assert DistinctPaths(init);
      PathsOfDistinct(init);
      if f.path in PathsOf(init) {
        ListedPathKept(init, f.path);
      }
    }
  }

  /** A rule is found for exactly the kept paths. */
  lemma {:induction false} RuleForKept(fs: seq<ZoneFile>, p: seq<bv8>)
    ensures RuleFor(fs, p).Some? <==> p in PathsOf(fs)
    decreases |fs|
  {
    if |fs| > 0 {
      RuleForKept(fs[..|fs| - 1], p);
    }
  }

  /** Walking one more entry extends the rules, the paths and the rule lookup. */
  lemma WalkSnoc(fs: seq<ZoneFile>, i: int)
    requires 0 <= i < |fs|
    ensures var pre, f := fs[..i], fs[i];
      && RulesOf(fs[..i + 1]) == RulesOf(pre) + (if Kept(f) then [ExtractRule(f.contents).value] else [])
      && PathsOf(fs[..i + 1]) == PathsOf(pre) + (if Kept(f) then [f.path] else [])
      && forall p :: p != f.path ==> RuleFor(fs[..i + 1], p) == RuleFor(pre, p)
  {
    assert fs[..i + 1][..i] == fs[..i];
  }

  /** A kept file whose hash is that of an earlier kept path is a collision. */
  lemma CollisionFound(fs: seq<ZoneFile>, i: int)
    requires 0 <= i < |fs| && Kept(fs[i])
    requires Hash(fs[i].path) in HashSet(PathsOf(fs[..i]))
    ensures Collides(fs)
  {
    var p :| p in PathsOf(fs[..i]) && Hash(p) == Hash(fs[i].path);
    ListedPathKept(fs[..i], p);
    var j :| 0 <= j < i && Kept(fs[..i][j]) && fs[..i][j].path == p;
    assert fs[j] == fs[..i][j];
  }

  /** A kept file whose hash is new adds no collision. */
  lemma NoCollisionAdded(fs: seq<ZoneFile>, i: int)
    requires 0 <= i < |fs|
    requires !Collides(fs[..i])
    requires Kept(fs[i]) ==> Hash(fs[i].path) !in HashSet(PathsOf(fs[..i]))
    ensures !Collides(fs[..i + 1])
  {
    var s := fs[..i + 1];
    forall a, b | 0 <= a < b < |s| && Kept(s[a]) && Kept(s[b])
      ensures Hash(s[a].path) != Hash(s[b].path)
    {
      if b == i {
        assert s[a] == fs[..i][a];
        KeptPathListed(fs[..i], a);
      } else {
        assert s[a] == fs[..i][a] && s[b] == fs[..i][b];
      }
    }
  }

  /** Without a collision, the kept paths have different full hashes. */
  lemma {:induction false} NoCollisionHashesDiffer(fs: seq<ZoneFile>)
    requires !Collides(fs)
    ensures HashesDiffer(PathsOf(fs))
    decreases |fs|
  {
    if |fs| > 0 {
      var init, f := fs[..|fs| - 1], fs[|fs| - 1];
      assert !Collides(init) by {
        forall a, b | 0 <= a < b < |init| && Kept(init[a]) && Kept(init[b])
          ensures Hash(init[a].path) != Hash(init[b].path)
        {
          assert init[a] == fs[a] && init[b] == fs[b];
        }
      }
      NoCollisionHashesDiffer(init);
      if Kept(f) {
        var ps := PathsOf(init);
        forall k | 0 <= k < |ps|
          ensures Hash(ps[k]) != Hash(f.path)
        {
          ListedPathKept(init, ps[k]);
          var j :| 0 <= j < |init| && Kept(init[j]) && init[j].path == ps[k];
          assert fs[j] == init[j];
        }
        AppendHashesDiffer(ps, f.path);
      }
    }
  }

  /** Appending a name whose hash is new keeps the hashes different. */
  lemma AppendHashesDiffer(ps: seq<seq<bv8>>, p: seq<bv8>)
    requires HashesDiffer(ps)
    requires forall k :: 0 <= k < |ps| ==> Hash(ps[k]) != Hash(p)
    ensures HashesDiffer(ps + [p])
  {
    var qs := ps + [p];
    forall i, j | 0 <= i < j < |qs|
      ensures Hash(qs[i]) != Hash(qs[j])
    {
      assert qs[i] == ps[i];
    }
  }

  /** Lines 117-185 and 187-216: walk the entries in order, handing each
      regular file to `walkDirFn`, then mask and sort the entries. The run
      hangs exactly when two kept files have the same full hash; otherwise
      the pool holds the distinct rules in first-seen order, the mask is the
      one the recorded paths widen it to, and the table has one row per kept
      path, strictly ascending by masked hash, naming that path's rule. */
  method Run(files: seq<ZoneFile>) returns (out: Output)
    requires DistinctPaths(files)
    ensures out.Hung? <==> Collides(files)
    ensures out.Done? ==>
      && out.posix == PoolRows(Dedup(RulesOf(files)))
      && out.mask == MaskAfter(PathsOf(files))
      && SeparatesAll(out.mask, HashSet(PathsOf(files)))
      && (forall w :: IsMask(w) && SeparatesAll(w, HashSet(PathsOf(files))) ==> Within(out.mask, w))
      && |out.zones| == |PathsOf(files)|
      && StrictlyAscending(out.zones)
      && (forall j :: 0 <= j < |out.zones| ==>
            var z := out.zones[j];
            && z.name in PathsOf(files)
            && z.hash == Hash(z.name) & out.mask
            && z.posix < |out.posix|
            && RuleFor(files, z.name) == Some(out.posix[z.posix].rule))
      && (forall p :: p in PathsOf(files) ==> exists j :: 0 <= j < |out.zones| && out.zones[j].name == p)
  {
    var g := new Generator();
    var i := 0;
    assert files[..0] == [];
    while i < |files|
      invariant 0 <= i <= |files|
      invariant WalkedTo(g, files, i)
    {
      var hung := WalkEntry(g, files, i);
      if hung {
        return Hung;
      }
      i := i + 1;
    }
    assert files[..i] == files;
    var zones := g.Finalize();
    out := Done(g.rows, g.mask, zones[..]);
    DoneTable(files, g.order, g.names, g.mask, g.rows, out.zones);
    NoCollisionHashesDiffer(files);
    MaskAfterIsLeast(PathsOf(files));
  }

  /** The generator's state after the first `i` entries of the walk. */
  ghost predicate WalkedTo(g: Generator, fs: seq<ZoneFile>, i: int)
    reads g
  {
    && 0 <= i <= |fs|
    && g.Valid()
    && g.rules == RulesOf(fs[..i])
    && g.order == PathsOf(fs[..i])
    && RulesRecorded(fs[..i], g.names, g.rows)
    && !Collides(fs[..i])
  }

  /** Lines 127-131: hand entry `i` to `walkDirFn` when it is a regular
      file, and report whether the walk hangs on it. */
  method WalkEntry(g: Generator, files: seq<ZoneFile>, i: int) returns (hung: bool)
    requires 0 <= i < |files|
    requires DistinctPaths(files)
    requires WalkedTo(g, files, i)
    modifies g
    ensures hung ==> Collides(files)
    ensures !hung ==> WalkedTo(g, files, i + 1)
  {
    var f := files[i];
    WalkSnoc(files, i);
    HashesOfOrder(g.order, g.names, g.mask, |g.rows|);
    if f.path in g.names {
      ListedPathKept(files[..i], f.path);
    }
    ghost var names0, rows0 := g.names, g.rows;
    hung := false;
    if f.regular {
      var outcome := g.Visit(f.path, f.contents);
      if outcome == Hangs {
        CollisionFound(files, i);
        return true;
      }
    }
    RecordedRules(files, i, names0, rows0, g.names, g.rows);
    NoCollisionAdded(files, i);
  }

  /** After one more visited file, every stored entry still names its file's rule. */
  lemma RecordedRules(fs: seq<ZoneFile>, i: int, names0: map<seq<bv8>, NameEnt>, rows0: seq<PoolRow>,
                      names: map<seq<bv8>, NameEnt>, rows: seq<PoolRow>)
    requires 0 <= i < |fs|
    requires RulesRecorded(fs[..i], names0, rows0)
    requires fs[i].path !in names0
    requires rows0 <= rows
    requires !Kept(fs[i]) ==> names == names0
    requires Kept(fs[i]) ==>
      && fs[i].path in names
      && names == names0[fs[i].path := names[fs[i].path]]
      && names[fs[i].path].posix < |rows|
      && rows[names[fs[i].path].posix].rule == ExtractRule(fs[i].contents).value
    ensures RulesRecorded(fs[..i + 1], names, rows)
  {
    WalkSnoc(fs, i);
    assert fs[..i + 1][i] == fs[i];
    forall k | k in names
      ensures names[k].posix < |rows| && RuleFor(fs[..i + 1], k) == Some(rows[names[k].posix].rule)
    {
      if k != fs[i].path {
        assert rows[names[k].posix] == rows0[names[k].posix];
      }
    }
  }

  /** The finished table, read in terms of the walked files. */
  lemma DoneTable(fs: seq<ZoneFile>, order: seq<seq<bv8>>, names: map<seq<bv8>, NameEnt>, mask: bv32,
               rows: seq<PoolRow>, zones: seq<NameEnt>)
    requires DistinctPaths(fs)
    requires order == PathsOf(fs)
    requires NamesMatch(order, names, mask, |rows|)
    requires RulesRecorded(fs, names, rows)
    requires IsTable(zones, names, mask)
    ensures mask == MaskAfter(PathsOf(fs))
    ensures |zones| == |PathsOf(fs)|
    ensures forall j :: 0 <= j < |zones| ==>
      var z := zones[j];
      && z.name in PathsOf(fs)
      && z.hash == Hash(z.name) & mask
      && z.posix < |rows|
      && RuleFor(fs, z.name) == Some(rows[z.posix].rule)
    ensures forall p :: p in PathsOf(fs) ==> exists j :: 0 <= j < |zones| && zones[j].name == p
  {
    TableSize(fs, order, names, mask, |rows|, zones);
    TableRows(fs, order, names, mask, rows, zones);
  }

  /** The table has one row per kept path. */
  lemma TableSize(fs: seq<ZoneFile>, order: seq<seq<bv8>>, names: map<seq<bv8>, NameEnt>, mask: bv32,
                  poolSize: nat, zones: seq<NameEnt>)
    requires DistinctPaths(fs)
    requires order == PathsOf(fs)
    requires NamesMatch(order, names, mask, poolSize)
    requires |zones| == |names|
    ensures |zones| == |order|
  {
    PathsOfDistinct(fs);
    DistinctCard(order);
    assert names.Keys == set x | x in order;
  }

  /** Each row of the table is a kept path with its masked hash and the pool
      index of its own rule. */
  lemma TableRows(fs: seq<ZoneFile>, order: seq<seq<bv8>>, names: map<seq<bv8>, NameEnt>, mask: bv32,
                  rows: seq<PoolRow>, zones: seq<NameEnt>)
    requires order == PathsOf(fs)
    requires NamesMatch(order, names, mask, |rows|)
    requires RulesRecorded(fs, names, rows)
    requires CopiesOf(zones, names, mask)
    ensures forall j :: 0 <= j < |zones| ==>
      var z := zones[j];
      && z.name in PathsOf(fs)
      && z.hash == Hash(z.name) & mask
      && z.posix < |rows|
      && RuleFor(fs, z.name) == Some(rows[z.posix].rule)
  {
    forall j | 0 <= j < |zones|
      ensures zones[j].name in PathsOf(fs) && zones[j].hash == Hash(zones[j].name) & mask
      ensures zones[j].posix < |rows| && RuleFor(fs, zones[j].name) == Some(rows[zones[j].posix].rule)
    {
      var z := zones[j];
      assert z == Masked(names[z.name], mask);
    }
  }
}
