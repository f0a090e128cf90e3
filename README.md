# Grouping of paparazzi modules into documentation subsections

The documentation generator for paparazzi reads one XML descriptor per
airborne module. Each descriptor carries a `dir` attribute. The draft parser
`PaparazziParser` groups the parsed modules into subsections by that
attribute, in a dictionary `module_dirs` from directory name to bucket list.
This project models that grouping and proves what it does.

- **First pass.** The dictionary is seeded with an empty `"misc"` bucket.
  Each module, in scan order, is appended to the bucket of its own
  directory. The bucket is created the first time that directory is seen.
- **Second pass.** The pass runs over a snapshot of the dictionary's keys,
  in the dictionary's unspecified order. It demotes every bucket whose
  lower-cased name is not `"misc"` and whose length is exactly one: that
  bucket is appended to `"misc"` and its key is deleted. The model lower-cases
  ASCII letters only.

Three details of the code (`sw/tools/doxygen_gen/test_autodoc.py:105-108`)
shape the model:

- The code appends the one-element bucket list itself to `"misc"`, not the
  module inside it. `Entry.Moved` models such an entry, and
  `Autodoc.MiscEntries` states what each `"misc"` entry is.
- A directory called `"MISC"` or `"Misc"` is never demoted, because the
  test is on the lower-cased name. It also stays a separate key from
  `"misc"`.
- Buckets are ordered lists in input order, not sets.

Files:

- `module_dirs.dfy` (module `ModuleDirs`) holds:
  - the data model;
  - the two passes as methods (`BucketByDir`, `ShiftLonelyToMisc`);
  - the functions that specify them (`Grouped`, and `Shift` over a key
    order);
  - the conservation measure `Members`, with its lemmas.
- `autodoc.dfy` (module `Autodoc`) holds:
  - the `PaparazziParser` class, whose constructor runs both passes;
  - the properties of the finished grouping, stated in terms of the scanned
    module list.

The dictionary's key order is not fixed by the language version the code
targets. The model therefore treats it as arbitrary:

- `ShiftLonelyToMisc` returns the order it used as a ghost out-parameter.
- Every property about the finished grouping holds for every key order
  (`IsKeyOrder`).
- `ShiftOrderIndependent` shows that the order affects only the order of the
  entries appended to `"misc"`.

## Model

| member | source | states |
|---|---|---|
| ModuleDirs.MiscNames | sw/tools/doxygen_gen/test_autodoc.py:105 | A directory name escapes demotion exactly when it is four characters spelling m-i-s-c in any mix of upper and lower case |
| ModuleDirs.BucketAppend | sw/tools/doxygen_gen/test_autodoc.py:98-102 | Appending modules one by one keeps input order: the bucket of a concatenation is the concatenation of the buckets |
| ModuleDirs.BucketCount | sw/tools/doxygen_gen/test_autodoc.py:98-102 | A directory's bucket holds every module of that directory as many times as the input does, and no module of another directory |
| ModuleDirs.BucketMember | sw/tools/doxygen_gen/test_autodoc.py:98-102 | A module is in the bucket of d exactly when it is an input module whose dir is d |
| ModuleDirs.BucketSnoc | sw/tools/doxygen_gen/test_autodoc.py:102 | Appending one more module extends only its own directory's bucket, at the end |
| ModuleDirs.BucketEmpty | sw/tools/doxygen_gen/test_autodoc.py:100-101 | A directory that no module names gets an empty bucket |
| ModuleDirs.NoneInSlice | sw/tools/doxygen_gen/test_autodoc.py:98-102 | A run of modules none of which lives in d contributes nothing to d's bucket |
| ModuleDirs.BucketSplitAt | sw/tools/doxygen_gen/test_autodoc.py:98-102 | A module's bucket is the bucket of the modules before it, then the module, then the bucket of those after it |
| ModuleDirs.GroupedSnoc | sw/tools/doxygen_gen/test_autodoc.py:100-102 | One iteration of the first loop creates the module's bucket if missing and appends the module to it; no other key changes |
| ModuleDirs.BucketByDir | sw/tools/doxygen_gen/test_autodoc.py:97-102 | The first pass yields the grouping of all modules, with a "misc" key, and every module sits in its own directory's bucket |
| ModuleDirs.GroupedHoldsEach | sw/tools/doxygen_gen/test_autodoc.py:98-102 | After the first pass every module's directory is a key and the module is in that bucket |
| ModuleDirs.GroupedBucketsAreOwnDir | sw/tools/doxygen_gen/test_autodoc.py:98-102 | After the first pass every bucket holds only plain modules whose dir is the bucket's key |
| ModuleDirs.Shift | sw/tools/doxygen_gen/test_autodoc.py:104-109 | The second pass over a given key order, one Step per key; it never deletes "misc" because "misc" is a misc name (its full effect is ShiftOutcome) |
| ModuleDirs.LonelyKeys | sw/tools/doxygen_gen/test_autodoc.py:105-106 | The keys the second pass demotes are exactly the visited keys that are not misc names and hold one entry, each listed once |
| ModuleDirs.VisitStep | sw/tools/doxygen_gen/test_autodoc.py:104-109 | One iteration of the second loop deletes the key and extends "misc" exactly when the key is lonely, leaving other buckets alone |
| ModuleDirs.ShiftPrefix | sw/tools/doxygen_gen/test_autodoc.py:104-109 | After visiting any prefix of the key order, the lonely keys seen so far are gone and their buckets are at the end of "misc" in visiting order |
| ModuleDirs.ShiftOutcome | sw/tools/doxygen_gen/test_autodoc.py:104-109 | After the second pass, exactly the lonely keys are deleted, every other bucket is unchanged, and "misc" is its old contents plus one Moved entry per lonely key, each once |
| ModuleDirs.ShiftMovesLonely | sw/tools/doxygen_gen/test_autodoc.py:106-109 | A lonely key is deleted and its bucket list is found in "misc" |
| ModuleDirs.ShiftLeavesNoLonely | sw/tools/doxygen_gen/test_autodoc.py:104-109 | After the second pass no bucket except a misc name holds exactly one entry |
| ModuleDirs.MovedGroupsPermutation | sw/tools/doxygen_gen/test_autodoc.py:104 | Visiting the lonely keys in a different order yields the same Moved entries up to order |
| ModuleDirs.ShiftOrderIndependent | sw/tools/doxygen_gen/test_autodoc.py:104 | Any two key orders give the same keys, the same non-misc buckets, and "misc" buckets that are permutations of each other |
| ModuleDirs.ShiftLonelyToMisc | sw/tools/doxygen_gen/test_autodoc.py:103-109 | The second pass visits every key once in some order, produces the Shift of that order, keeps "misc", and leaves no lonely bucket |
| ModuleDirs.FlattenAppend | sw/tools/doxygen_gen/test_autodoc.py:107-108 | The modules held by two concatenated bucket lists are those of the first followed by those of the second |
| ModuleDirs.MembersRemove | sw/tools/doxygen_gen/test_autodoc.py:109 | The modules held by a dictionary are those of any one bucket plus those of the dictionary without that key |
| ModuleDirs.MembersAppendModule | sw/tools/doxygen_gen/test_autodoc.py:100-102 | Appending a module to a bucket, created if missing, adds exactly that module to the dictionary's contents |
| ModuleDirs.GroupedConserves | sw/tools/doxygen_gen/test_autodoc.py:97-102 | The first pass holds exactly the input modules, counted with multiplicity |
| ModuleDirs.MembersGrowMisc | sw/tools/doxygen_gen/test_autodoc.py:107-108 | Appending a bucket list to "misc" adds that bucket's modules to the dictionary's contents |
| ModuleDirs.MembersMoveToMisc | sw/tools/doxygen_gen/test_autodoc.py:107-109 | Appending a bucket to "misc" and then deleting its key neither loses nor duplicates a module |
| ModuleDirs.StepConserves | sw/tools/doxygen_gen/test_autodoc.py:105-109 | One iteration of the second loop keeps the dictionary's contents |
| ModuleDirs.ShiftConserves | sw/tools/doxygen_gen/test_autodoc.py:104-109 | The whole second pass, in any key order, keeps the dictionary's contents |
| Autodoc.PaparazziParser.constructor | sw/tools/doxygen_gen/test_autodoc.py:90-109 | The parser keeps the scanned modules and a grouping equal to `Subsections` of them for the key order it used (the second pass over the first); it has a "misc" key, no lonely bucket, and every scanned module exactly once |
| Autodoc.Subsections | sw/tools/doxygen_gen/test_autodoc.py:97-109 | The finished grouping of a module list for a key order; it always has the seeded "misc" key |
| Autodoc.GroupedLonely | sw/tools/doxygen_gen/test_autodoc.py:105-106 | A directory is demoted exactly when its name is not a misc name and exactly one module names it |
| Autodoc.GroupingConserves | sw/tools/doxygen_gen/test_autodoc.py:97-109 | Every scanned module is still in the finished grouping, counted with multiplicity, either directly or inside a Moved entry |
| Autodoc.SharedDirKept | sw/tools/doxygen_gen/test_autodoc.py:106 | A directory of two or more modules keeps its key, with its modules in scan order |
| Autodoc.MiscVariantKept | sw/tools/doxygen_gen/test_autodoc.py:105 | A directory named "misc" in another case keeps its key and its modules, even with a single module |
| Autodoc.LonelyDirDemoted | sw/tools/doxygen_gen/test_autodoc.py:106-109 | A directory with a single module loses its key, and "misc" gains the one-element list holding that module |
| Autodoc.MiscContents | sw/tools/doxygen_gen/test_autodoc.py:97-109 | "misc" holds the "misc" modules in scan order, then one Moved entry per demoted directory, each once, in visiting order; exactly the single-module non-misc directories are demoted |
| Autodoc.MiscEntries | sw/tools/doxygen_gen/test_autodoc.py:107-108 | Each "misc" entry is either a scanned module whose dir is "misc" or a one-element list of the only module of a demoted directory |
| Autodoc.OtherBucketsOwnDir | sw/tools/doxygen_gen/test_autodoc.py:98-109 | Every remaining bucket other than "misc" holds only plain modules of its own directory |
| Autodoc.SoleModuleBucket | sw/tools/doxygen_gen/test_autodoc.py:98-102 | A module whose directory no other module shares is alone in its bucket |
| Autodoc.DistinctDirsAllMisc | sw/tools/doxygen_gen/test_autodoc.py:97-109 | When no two modules share a directory other than "misc" and none names a case variant of "misc", "misc" is the only subsection left |
| Autodoc.PairAndSingleGrouped | sw/tools/doxygen_gen/test_autodoc.py:97-102 | Two modules of one directory and one of another give an empty "misc", the pair's bucket in order, and a one-module bucket |
| Autodoc.ShiftKeptAndLonely | sw/tools/doxygen_gen/test_autodoc.py:104-109 | Over an empty "misc", a kept bucket and a lonely one, the second pass leaves "misc" holding the lonely bucket and the kept bucket unchanged, in any key order |
| Autodoc.PairAndSingle | sw/tools/doxygen_gen/test_autodoc.py:97-109 | Two modules sharing a directory other than "misc" (a case variant of "misc" included) and one alone in another end as that directory with both modules and "misc" holding the lone module's one-element list |

## Left out

- Choosing the module directory is not modelled: a caller-supplied path or `default_modules_dir` under `get_paparazzi_home()`, lines 81-84 and 111-115. It is file-system input.
- Rejecting a missing directory with `InvalidModuleInputDirError` is not modelled (lines 85-86). It is file-system input.
- Scanning the directory is not modelled: `os.getcwd`, `os.chdir` and `glob("*.xml")`, lines 89-94. The constructor receives the resulting module list as a parameter, in scan order.
- Parsing a descriptor (`Module(file)`) is not modelled: XML validation, the name and dir defaults, the description. A module is its identity plus its `dir` string.
- The logger and the `logger.debug(m.dir)` call (lines 80 and 99) are left out. They are output only.
- The `Generator` class is not part of this model: templates, rendering, the output directory and the command line.
- Emitting the subsections sorted with "misc" last is left out. The grouping code never sorts.
- Aliasing is not modelled. The code appends the very list object of a demoted bucket to "misc". The model stores its value, which is indistinguishable here because the key is deleted right after.
- `ModuleDirs.Lower`: case folding is ASCII only. The model does not capture Unicode case mapping of a `unicode` `dir` value from the XML reader (for example U+0130 lower-cases to `i`, so a one-module directory "MİSC" is kept by the code but demoted by the model).
- The dictionary's key order is not modelled as any concrete hash order. It is an arbitrary order of the keys, chosen once over the snapshot of keys.
