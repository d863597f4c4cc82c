# microtzdb table generator, modelled in Dafny

`update/main.go` walks a zoneinfo directory and writes three C tables for
microtzdb:

- `posix[]` holds every distinct POSIX TZ rule string found in the footers of
  the TZif files.
- `mask` is a run of low one bits. It is widened until the FNV-1a hashes of
  all zone paths are different once ANDed with it.
- `zones[]` has one row per zone. Each row holds the masked hash and the index
  of the zone's rule in `posix[]`, and the rows are sorted by hash.

The model covers the generator's core in the form the Go code has.

- `fnv.dfy` (module `Fnv`) is 32-bit FNV-1a. `Hash` is the specification, and
  the loop of `fnvHash` is the method `FnvHash`. The `uint32` arithmetic wraps
  around, and `bv32` reproduces that.
- `footer.dfy` (module `Footer`) takes the rule string out of a TZif file
  (sections 3.1 and 3.3 of RFC 8536). It checks the "TZif" magic and then
  takes the bytes between the last newline before the final byte and the final
  byte.
- `pool.dfy` (module `Pool`) covers rule interning. The pool after a sequence
  of rules is `Dedup`: the distinct rules in first-seen order, each at its
  position.
- `mask.dfy` (module `Mask`) covers the mask.
  - The mask is always `2^k - 1` (`IsLowMask`), and `Grow` is `(m << 1) | 1`.
  - `LeastMask(m, h, hs)` is the mask the widening loop stops at. It is a
    function of the *set* of stored hashes, so Go's unspecified map iteration
    order cannot change it.
- `table.dfy` (module `Table`) covers the `NameEnt` rows and the `By` and
  `nameSorter` sort.
  - `Swap` is the in-place exchange on an array.
  - `Sort` sorts in place through the comparator passed as a function value,
    as `By(hash).Sort` does.
- `builder.dfy` (module `Builder`) holds the generator state as the class
  `Generator`.
  - The fields are the package-level `mask`, `posix` and `names` of the Go
    code, plus the `posix[]` rows printed so far.
  - `Visit` is the body of `walkDirFn` once the file has been read.
  - `Finalize` is the masking and sorting at the end of `main`.
  - The loops over Go maps pick their next key with `:|`, so the proofs hold
    for every iteration order.
- `run.dfy` (module `Update`) covers a whole run. It hands each entry of the
  walk to `walkDirFn` in walk order, then builds the table.

The main results:

- **Pool.** Rules get dense indices in first-seen order, and a repeated rule
  adds nothing.
- **Separation.** After every recorded zone, the mask tells every two stored
  hashes apart (`Builder.NamesMatch`, kept by `Generator.Record`).
- **Least mask.** The final mask is the *least* mask that tells the hashes of
  all recorded paths apart (`Builder.MaskAfterIsLeast`). It therefore does not
  depend on the order of the walk (`Builder.MaskOrderIndependent`).
- **Table.** The finished `zones[]` rows are strictly ascending by masked hash,
  with exactly one row per zone (`Builder.IsTable`). There is only one such
  table (`Builder.TableUnique`).
- **Hang.** The Go widening loop never ends when two zone paths have the same
  full 32-bit hash. The model reports this as `Hangs` or `Hung`, exactly in
  that case (`Update.Run`).

## Model

| member | source | states |
|---|---|---|
| Fnv.FnvHash | update/main.go:83-90 | the loop returns `Hash(s)`, FNV-1a over the name's bytes starting from the offset basis |
| Fnv.Step | update/main.go:86-87 | one round xors the byte into the accumulator and multiplies by the FNV prime modulo 2^32; the odd prime keeps the low bit of the xor |
| Fnv.HashSnoc | update/main.go:85-88 | one more byte is one more round: xor it in, then multiply by the FNV prime modulo 2^32 |
| Fnv.HashAppend | update/main.go:83-90 | hashing `a + b` continues from the hash of `a` |
| Fnv.KnownVectors | update/main.go:80-81 | with these constants the hash gives the published 32-bit FNV-1a values for "", "a" and "foobar" |
| Footer.LastIndexOf | update/main.go:145 | the result is -1 or an index holding the byte, and no later index holds it |
| Footer.Head | update/main.go:139-141 | `b[0:4]` reads the file's first four bytes, padded with zero bytes when the file is shorter, because the read buffer has spare zeroed capacity |
| Footer.HeadIsMagic | update/main.go:141-142 | the first four bytes read as "TZif" exactly when the file has at least four bytes and starts with "TZif", so a file of 0 to 3 bytes is skipped |
| Footer.ExtractRule | update/main.go:141-153 | no rule exactly when the file is shorter than four bytes, the magic is not "TZif" or no newline comes before the final byte; otherwise the rule is the newline-free run just before the final byte, preceded by a newline |
| Footer.ExtractRuleRoundTrip | update/main.go:141-153 | a file made of a "TZif" header, a newline, a newline-free rule and one final byte yields that rule |
| Footer.MagicPlusOneByteSkipped | update/main.go:145-148 | "TZif" followed by one byte has no footer and is skipped |
| Pool.Dedup | update/main.go:154-157 | the pool has no duplicates, holds exactly the rules seen, and is no longer than the rule sequence |
| Pool.PoolSize | update/main.go:154-157 | the pool size is the number of distinct rules seen |
| Pool.DedupPrefix | update/main.go:155 | indices are stable: the pool after a prefix of the rules is a prefix of the final pool |
| Pool.FirstSightIndex | update/main.go:155 | a rule seen first at position k gets, for good, the index equal to the number of distinct rules before it |
| Pool.RepeatAddsNothing | update/main.go:154 | a rule already in the pool leaves the pool unchanged |
| Pool.NewRuleAppended | update/main.go:155-156 | a new rule is appended at index equal to the old pool size |
| Mask.GrowIsMask | update/main.go:125 | the initial mask 1 and every widening of a low mask are masks of the form 2^k - 1 with k >= 1 |
| Mask.Grow | update/main.go:164 | shift the mask left by one and set bit 0: bit 0 is always set, and a mask of low ones keeps all its bits |
| Mask.GrowIncreases | update/main.go:164 | widening strictly increases the mask until all 32 bits are set, and then leaves it fixed |
| Mask.NoMaskBetween | update/main.go:164 | no mask lies strictly between a mask and its widening, so the loop skips no candidate |
| Mask.WidenKeepsApart | update/main.go:161-166 | two hashes told apart by a mask stay apart under any wider mask |
| Mask.LeastMask | update/main.go:161-166 | the loop's final mask is a mask, contains every bit of the starting mask, and is non-zero when the start is |
| Mask.LeastMaskSeparates | update/main.go:162-165 | when the new hash differs from every stored hash, the final mask tells it apart from all of them |
| Mask.BelowLeastMaskFails | update/main.go:162-165 | every mask from the start up to below the final one fails to separate the new hash |
| Mask.LeastMaskUnique | update/main.go:162-165 | a separating mask with only failing masks below it is the final mask |
| Mask.LeastMaskBelow | update/main.go:162-165 | the final mask lies within every mask at or above the start that separates the new hash |
| Mask.LeastMaskCompose | update/main.go:161-166 | widening against one group of stored hashes and then another ends where widening against both at once does |
| Mask.FullCollisionNeverSeparates | update/main.go:162-165 | a stored hash equal to the new one collides under every mask, so the loop cannot end |
| Table.HashLessIsStrictWeakOrder | update/main.go:209 | the `hash` comparator is asymmetric and its negation is transitive, which `sort.Sort` requires of `Less` |
| Table.NameEnt | update/main.go:92-96 | a zone entry: its name, its hash (full while building, masked once finalised) and its rule's pool index |
| Table.HashLess | update/main.go:209 | the `hash` closure: `n1.Hash < n2.Hash` as unsigned 32-bit values; it holds only between different hashes |
| Table.SortedDistinctIsStrict | update/main.go:209-210 | rows sorted by hash with pairwise different hashes are strictly ascending |
| Table.Swap | update/main.go:114 | the two rows are exchanged, every other row is unchanged, and the rows are a permutation of the old ones |
| Table.Sort | update/main.go:100-106 | after sorting with a strict weak order, no row is less than an earlier one, and the rows are a permutation of the input |
| Table.InsertAt | update/main.go:100-106 | one insertion step extends the sorted prefix by one row and permutes the rows |
| Table.PermutationKeepsDistinct | update/main.go:204-210 | rearranging rows with pairwise different hashes keeps the hashes pairwise different |
| Table.StrictlyAscendingUnique | update/main.go:209-210 | two strictly ascending sequences with the same rows are equal |
| Builder.MaskAfter | update/main.go:125 | the mask after recording any sequence of names is of the form 2^k - 1 with k >= 1 |
| Builder.Masked | update/main.go:206 | `k.Hash &= mask` on a copy: name and rule index unchanged, the new hash lies within both the mask and the old hash |
| Builder.MaskAfterIsLeast | update/main.go:159-167 | when the names' hashes differ, the mask after recording them separates all of them and lies within every mask that does |
| Builder.MaskOrderIndependent | update/main.go:161-166 | two recordings of names with the same set of hashes end with the same mask |
| Builder.InternNew | update/main.go:154-157 | interning an unseen rule appends row `(|rows|, rule)` and maps the rule to that index |
| Builder.InternKnown | update/main.go:154-157 | interning a known rule changes nothing, and its index points at its row |
| Builder.RecordKeepsApart | update/main.go:159-167 | storing a name with the final mask of its widening keeps every two stored hashes apart under the new mask |
| Builder.WidenPast | update/main.go:162-165 | the inner loop ends at the least widening that tells `h` from one stored hash |
| Builder.Widen | update/main.go:161-166 | in any map order, the loops end at the least widening that tells `h` from every stored hash |
| Builder.Generator.constructor | update/main.go:117-125 | the walk starts with mask 1, empty maps and no printed rows |
| Builder.Generator.Intern | update/main.go:154-157 | a new rule gets the next index and one printed row; a known rule changes nothing; the index returned is the rule's row |
| Builder.Generator.Record | update/main.go:159-167 | the mask becomes the least widening separating the new hash, the entry is stored, and all stored hashes stay pairwise apart |
| Builder.Generator.Visit | update/main.go:141-167 | a file without magic or footer is skipped and changes nothing; otherwise its rule is interned; it hangs exactly when its full hash is already stored; otherwise it is recorded with the index of its rule |
| Builder.Generator.Finalize | update/main.go:204-210 | the new array is the table: one masked copy of each entry, strictly ascending by hash |
| Builder.CopyMasked | update/main.go:204-208 | in any map order, the copies are one masked copy of each stored entry, with no name repeated |
| Builder.MaskedDistinct | update/main.go:204-207 | masked copies of different entries have different hashes, because the mask keeps the stored hashes apart |
| Builder.FinishTable | update/main.go:204-210 | sorting the masked copies by hash gives the table |
| Builder.TableUnique | update/main.go:204-210 | for given entries and mask there is only one table, so the map order does not change `zones[]` |
| Update.WalkEntry | update/main.go:127-133 | a non-regular entry is ignored; a regular one is visited, and it hangs only on a full-hash collision among kept files |
| Update.CollisionFound | update/main.go:159-165 | a kept file whose hash equals an earlier kept path's is a collision of the walk |
| Update.NoCollisionHashesDiffer | update/main.go:159-167 | without a collision, the recorded paths have pairwise different hashes |
| Update.DoneTable | update/main.go:204-215 | each table row is a kept path with its masked hash and the pool index of its own rule, and each kept path has a row |
| Update.Run | update/main.go:187-216 | the run hangs exactly when two kept files share a full hash; otherwise it prints the distinct rules in first-seen order, the least separating mask, and the strictly ascending table |

## Left out

- The participle grammar for POSIX TZ strings (update/main.go:24-67) is left out. The parser is built at start-up, but the only call to it is commented out.
- The kong command line (lines 69-71, 188) is left out. The root directory is implicit, and the walk is given as a sequence of `ZoneFile` entries in walk order.
- `filepath.WalkDir`, `os.Open`, `ioutil.ReadFile`, `checkErr` and `log.Fatal` (lines 18-22, 128-140, 190-191) are I/O. Each entry arrives as its relative path, a regular-file flag and its bytes. Walk errors and failures to open or read a file are not modelled.
- `filepath.Rel` (line 134) is left out: `ZoneFile.path` is already the relative path.
- The printf output (lines 156, 189-193, 211-215) is left out. `Output` carries the rows that would be printed: `posix[]` rows, the mask and the `zones[]` rows.
- The narrowing of `zones[]` to a 24-bit hash field and an 8-bit rule field by the C struct (line 211) is not modelled.
- Table.Sort: `sort.Sort`'s own algorithm is not modelled. An insertion sort that moves rows only through `Swap` and compares only through the `By` comparator stands in for it, with the same contract (sorted and a permutation).
- Update.Run: requires distinct paths, which the walk guarantees. Files shorter than four bytes need no precondition: `b[0:4]` reads zero padding from the read buffer's spare capacity, which never matches "TZif", so they are skipped (`Footer.Head`).
- Builder.Generator.Record: requires that the new full hash is not already stored. In that case the Go loop runs forever, because the mask saturates at all ones. `Visit` and `Run` report that case as `Hangs` or `Hung` instead of diverging. `Hung` carries no output: the `posix[]` header and the rule rows printed before the loop started, including the colliding file's rule when it was new, are not part of it.
- Builder.Generator.Visit: requires the path to be new, because the walk visits each path once.
- Builder.Generator.Finalize: returns a fresh array rather than appending to a slice. The `names` map is left untouched, as in the Go code, which changes only the loop's copies.
