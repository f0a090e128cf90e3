/**
 * The draft documentation parser: it holds the scanned module list and the
 * grouping of those modules into subsections (`module_dirs`), and the
 * properties of that grouping stated in terms of the module list.
 */
module Autodoc {
  import opened ModuleDirs

  /** The parser's state once constructed. The directory scan that produces
      the module list works on the file system and is not modelled: the
      constructor receives its outcome as `scanned`. */
  class PaparazziParser {
    var modules: seq<Module>
    var moduleDirs: Dirs
    /** The order in which the second pass visited the dictionary's keys. */
    ghost var keyOrder: seq<string>

    /** Group the scanned modules: both passes, lines 96-109. The module list
        is only read. */
    constructor (scanned: seq<Module>)
      ensures modules == scanned
      ensures IsKeyOrder(keyOrder, Grouped(scanned))
      ensures moduleDirs == Subsections(scanned, keyOrder)
      ensures Misc in moduleDirs
      ensures forall d :: d in moduleDirs && !IsMiscName(d) ==> |moduleDirs[d]| != 1
      ensures Members(moduleDirs) == multiset(scanned)
    {
      modules := scanned;
      var dirs := BucketByDir(scanned);
      var shifted, order := ShiftLonelyToMisc(dirs);
      moduleDirs := shifted;
      keyOrder := order;
      GroupingConserves(scanned, order);
    }
  }

  /** The subsections of `ms` once both passes have run with key order `order`. */
  function Subsections(ms: seq<Module>, order: seq<string>): (r: Dirs)
    ensures Misc in r
  {
    Shift(Grouped(ms), order)
  }

  /** A directory is demoted exactly when it is not a misc name and holds one
      module. */
  lemma GroupedLonely(ms: seq<Module>, d: string)
    ensures Lonely(Grouped(ms), d) <==> !IsMiscName(d) && |Bucket(ms, d)| == 1
  {
    if d !in DirsOf(ms) + {Misc} {
      BucketEmpty(ms, d);
    }
  }

  /** Every input module is kept, counted with multiplicity: each sits either
      directly in a bucket or inside a Moved entry of "misc". */
  lemma GroupingConserves(ms: seq<Module>, order: seq<string>)
    ensures Members(Subsections(ms, order)) == multiset(ms)
  {
    GroupedConserves(ms);
    ShiftConserves(Grouped(ms), order);
  }

  /** A directory that is not "misc" and holds two or more modules keeps its
      key, with the same modules in their input order. */
  lemma SharedDirKept(ms: seq<Module>, order: seq<string>, d: string)
    requires IsKeyOrder(order, Grouped(ms))
    requires d != Misc && |Bucket(ms, d)| >= 2
    ensures d in Subsections(ms, order)
    ensures Subsections(ms, order)[d] == Wrap(Bucket(ms, d))
  {
    if d !in DirsOf(ms) {
      BucketEmpty(ms, d);
    }
    GroupedLonely(ms, d);
    ShiftOutcome(Grouped(ms), order);
  }

  /** A directory named "misc" in another case ("MISC", "Misc") is never
      demoted or deleted, even when it holds a single module. */
  lemma MiscVariantKept(ms: seq<Module>, order: seq<string>, d: string)
    requires IsKeyOrder(order, Grouped(ms))
    requires d != Misc && IsMiscName(d) && d in DirsOf(ms)
    ensures d in Subsections(ms, order)
    ensures Subsections(ms, order)[d] == Wrap(Bucket(ms, d))
  {
    ShiftOutcome(Grouped(ms), order);
  }

  /** A directory holding a single module loses its key, and "misc" gains
      the one-element list holding that module. */
  lemma LonelyDirDemoted(ms: seq<Module>, order: seq<string>, d: string)
    requires IsKeyOrder(order, Grouped(ms))
    requires !IsMiscName(d) && |Bucket(ms, d)| == 1
    ensures d !in Subsections(ms, order)
    ensures Moved([Mod(Bucket(ms, d)[0])]) in Subsections(ms, order)[Misc]
  {
    var g := Grouped(ms);
    GroupedLonely(ms, d);
    ShiftMovesLonely(g, order, d);
    assert g[d] == [Mod(Bucket(ms, d)[0])];
  }

  /** "misc" holds the modules whose directory is exactly "misc", in input
      order, followed by one Moved entry per demoted directory, each directory
      appearing once, in the order its key was visited; nothing else. */
  lemma MiscContents(ms: seq<Module>, order: seq<string>)
    requires IsKeyOrder(order, Grouped(ms))
    ensures var g := Grouped(ms);
      && Subsections(ms, order)[Misc] == Wrap(Bucket(ms, Misc)) + MovedGroups(g, LonelyKeys(g, order))
      && NoDup(LonelyKeys(g, order))
      && forall d :: d in LonelyKeys(g, order) <==> !IsMiscName(d) && |Bucket(ms, d)| == 1
  {
    var g := Grouped(ms);
    ShiftOutcome(g, order);
    forall d
      ensures d in LonelyKeys(g, order) <==> !IsMiscName(d) && |Bucket(ms, d)| == 1
    {
      GroupedLonely(ms, d);
    }
  }

  /** What each entry of "misc" is: a module whose directory is "misc", or
      the one-element bucket LIST of a demoted directory (not the module
      itself). */
  lemma MiscEntries(ms: seq<Module>, order: seq<string>, i: nat)
    requires IsKeyOrder(order, Grouped(ms))
    requires i < |Subsections(ms, order)[Misc]|
    ensures var e := Subsections(ms, order)[Misc][i];
      || (e.Mod? && e.m.dir == Misc && e.m in ms)
      || (e.Moved? && |e.group| == 1 && e.group[0].Mod?
          && !IsMiscName(e.group[0].m.dir) && Bucket(ms, e.group[0].m.dir) == [e.group[0].m])
  {
    var g := Grouped(ms);
    MiscContents(ms, order);
    var head := Wrap(Bucket(ms, Misc));
    if i < |head| {
      BucketMember(ms, Misc, Bucket(ms, Misc)[i]);
    } else {
      var ks := LonelyKeys(g, order);
      var d := ks[i - |head|];
      assert d in ks;
      GroupedLonely(ms, d);
      assert |g[d]| == 1;
      GroupedBucketsAreOwnDir(ms, d, 0);
    }
  }

  /** Every bucket other than "misc" holds only modules of its own directory. */
  lemma OtherBucketsOwnDir(ms: seq<Module>, order: seq<string>, d: string, i: nat)
    requires IsKeyOrder(order, Grouped(ms))
    requires d in Subsections(ms, order) && d != Misc && i < |Subsections(ms, order)[d]|
    ensures Subsections(ms, order)[d][i].Mod? && Subsections(ms, order)[d][i].m.dir == d
  {
    ShiftOutcome(Grouped(ms), order);
    GroupedBucketsAreOwnDir(ms, d, i);
  }

  /** When no two modules share a directory other than "misc", and no module
      names a case variant of "misc", the only subsection left is "misc". */
  lemma DistinctDirsAllMisc(ms: seq<Module>, order: seq<string>)
    requires IsKeyOrder(order, Grouped(ms))
    requires forall i, j :: 0 <= i < j < |ms| && ms[i].dir == ms[j].dir ==> ms[i].dir == Misc
    requires forall i :: 0 <= i < |ms| && IsMiscName(ms[i].dir) ==> ms[i].dir == Misc
    ensures Subsections(ms, order).Keys == {Misc}
  {
    var g := Grouped(ms);
    ShiftOutcome(g, order);
    forall d | d in DirsOf(ms) && d != Misc
      ensures Lonely(g, d)
    {
      var i :| 0 <= i < |ms| && ms[i].dir == d;
      forall j | 0 <= j < |ms| && j != i
        ensures ms[j].dir != d
      {
      }
      SoleModuleBucket(ms, i);
      GroupedLonely(ms, d);
    }
    assert Subsections(ms, order).Keys == {Misc};
  }

  /** A module whose directory no other module shares is alone in its bucket. */
  lemma SoleModuleBucket(ms: seq<Module>, i: nat)
    requires i < |ms|
    requires forall j :: 0 <= j < |ms| && j != i ==> ms[j].dir != ms[i].dir
    ensures Bucket(ms, ms[i].dir) == [ms[i]]
  {
    BucketSplitAt(ms, i);
    NoneInSlice(ms, 0, i, ms[i].dir);
    NoneInSlice(ms, i + 1, |ms|, ms[i].dir);
  }

  lemma BucketOfThree(a: Module, b: Module, c: Module, d: string)
    ensures Bucket([a, b, c], d)
      == (if a.dir == d then [a] else []) + (if b.dir == d then [b] else []) + (if c.dir == d then [c] else [])
  {
    assert [a, b, c] == [a] + [b] + [c];
    BucketAppend([a] + [b], [c], d);
    BucketAppend([a], [b], d);
    assert [a][..0] == [] && [b][..0] == [] && [c][..0] == [];
  }

  lemma SingleKey(ks: seq<string>, x: string)
    requires NoDup(ks) && forall k :: k in ks <==> k == x
    ensures ks == [x]
  {
    forall y
      ensures multiset(ks)[y] == multiset{x}[y]
    {
      NoDupMultiset(ks, y);
    }
    assert multiset(ks) == multiset{x};
    assert |ks| == |multiset(ks)| == 1;
    assert ks[0] in ks;
  }

  /** Two modules sharing a directory and one alone in another, before the
      second pass. */
  lemma PairAndSingleGrouped(x: Module, y: Module, z: Module)
    requires x.dir == y.dir && x.dir != z.dir && x.dir != Misc && z.dir != Misc
    ensures Grouped([x, y, z]) == map[Misc := [], x.dir := [Mod(x), Mod(y)], z.dir := [Mod(z)]]
  {
    var ms := [x, y, z];
    BucketOfThree(x, y, z, x.dir);
    BucketOfThree(x, y, z, z.dir);
    BucketOfThree(x, y, z, Misc);
    assert DirsOf(ms) == {x.dir, z.dir};
    var g := Grouped(ms);
    var want := map[Misc := [], x.dir := [Mod(x), Mod(y)], z.dir := [Mod(z)]];
    assert g.Keys == want.Keys;
    assert g[x.dir] == Wrap([x, y]) == want[x.dir];
    assert g[z.dir] == Wrap([z]) == want[z.dir];
    assert g[Misc] == Wrap([]) == want[Misc];
  }

  /** The second pass over an empty "misc", one kept bucket and one lonely bucket. */
  lemma ShiftKeptAndLonely(a: string, kept: seq<Entry>, b: string, lone: Entry, order: seq<string>)
    requires a != Misc && b != Misc && a != b
    requires |kept| != 1 && !IsMiscName(b)
    requires IsKeyOrder(order, map[Misc := [], a := kept, b := [lone]])
    ensures Shift(map[Misc := [], a := kept, b := [lone]], order) == map[Misc := [Moved([lone])], a := kept]
  {
    var g := map[Misc := [], a := kept, b := [lone]];
    KeptAndLonelyKeys(a, kept, b, lone, order);
    ShiftOutcome(g, order);
    var r := Shift(g, order);
    var want := map[Misc := [Moved([lone])], a := kept];
    assert r.Keys == want.Keys;
    assert r[Misc] == [] + [Moved([lone])];
    assert r[a] == kept;
    forall k | k in r
      ensures r[k] == want[k]
    {
      assert k == Misc || k == a;
    }
    assert r == want;
  }

  lemma KeptAndLonelyKeys(a: string, kept: seq<Entry>, b: string, lone: Entry, order: seq<string>)
    requires a != Misc && b != Misc && a != b
    requires |kept| != 1 && !IsMiscName(b)
    requires IsKeyOrder(order, map[Misc := [], a := kept, b := [lone]])
    ensures var g := map[Misc := [], a := kept, b := [lone]];
      && (forall k :: Lonely(g, k) <==> k == b)
      && LonelyKeys(g, order) == [b]
      && MovedGroups(g, [b]) == [Moved([lone])]
  {
    var g := map[Misc := [], a := kept, b := [lone]];
    assert IsMiscName(Misc);
    assert forall k :: Lonely(g, k) <==> k == b;
    SingleKey(LonelyKeys(g, order), b);
  }

  /** Two modules in one directory ("nav") and one in another ("gps"): the
      shared directory stays with both modules in order, and "misc" holds the
      one-element list of the lone module. */
  lemma PairAndSingle(x: Module, y: Module, z: Module, order: seq<string>)
    requires x.dir == y.dir && x.dir != z.dir && x.dir != Misc && !IsMiscName(z.dir)
    requires IsKeyOrder(order, Grouped([x, y, z]))
    ensures Subsections([x, y, z], order) == map[Misc := [Moved([Mod(z)])], x.dir := [Mod(x), Mod(y)]]
  {
    assert IsMiscName(Misc);
    assert z.dir != Misc;
    PairAndSingleGrouped(x, y, z);
    ShiftKeptAndLonely(x.dir, [Mod(x), Mod(y)], z.dir, Mod(z), order);
  }
}
