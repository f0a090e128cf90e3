/**
 * Grouping of parsed paparazzi module descriptors into documentation
 * subsections, keyed by each module's `dir` attribute.
 *
 * The grouping works on a dictionary from directory name to a list of
 * entries. A first pass seeds the "misc" bucket and appends every module to
 * the bucket of its own directory; a second pass, over a snapshot of the
 * keys taken in the dictionary's (unspecified) key order, moves every bucket
 * that holds exactly one entry into "misc" and deletes its key. Directories
 * whose lower-cased name is "misc" are never moved; the model lower-cases
 * ASCII letters only.
 *
 * The second pass appends the one-element bucket LIST itself to "misc", not
 * the module inside it; `Entry.Moved` records that.
 */
module ModuleDirs {

  /** A parsed module descriptor. `id` stands for the descriptor file it was
      read from; `dir` is its grouping key. */
  datatype Module = Module(id: nat, dir: string)

  /** An element of a bucket: a module appended by the first pass, or a whole
      bucket list appended to "misc" by the second pass. */
  datatype Entry = Mod(m: Module) | Moved(group: seq<Entry>)

  /** The dictionary from directory name to bucket. */
  type Dirs = map<string, seq<Entry>>

  /** The name of the catch-all bucket, seeded before the first pass. */
  const Misc: string := "misc"

  // ---------------------------------------------------------------------
  // Case folding of directory names
  // ---------------------------------------------------------------------

  /** ASCII lower-casing of one character. */
  function LowerChar(c: char): char {
    if 'A' <= c <= 'Z' then (c as int + 32) as char else c
  }

  function Lower(s: string): string {
    seq(|s|, i requires 0 <= i < |s| => LowerChar(s[i]))
  }

  /** The names the second pass leaves alone: those whose (ASCII) lower-cased
      form is "misc". */
  predicate IsMiscName(d: string) {
    Lower(d) == Misc
  }

  lemma LowerCharIs(c: char, l: char)
    requires 'a' <= l <= 'z'
    ensures LowerChar(c) == l <==> c == l || c as int == l as int - 32
  {
  }

  /** Exactly the four-letter spellings of "misc" in mixed case are misc names. */
  lemma {:induction false} MiscNames(d: string)
    ensures IsMiscName(d) <==>
      && |d| == 4
      && (d[0] == 'm' || d[0] == 'M')
      && (d[1] == 'i' || d[1] == 'I')
      && (d[2] == 's' || d[2] == 'S')
      && (d[3] == 'c' || d[3] == 'C')
  {
    if |d| == 4 {
      LowerCharIs(d[0], 'm');
      LowerCharIs(d[1], 'i');
      LowerCharIs(d[2], 's');
      LowerCharIs(d[3], 'c');
      assert IsMiscName(d) <==>
        Lower(d)[0] == 'm' && Lower(d)[1] == 'i' && Lower(d)[2] == 's' && Lower(d)[3] == 'c';
    } else {
      assert |Lower(d)| != |Misc|;
    }
  }

  // ---------------------------------------------------------------------
  // First pass: every module into the bucket of its own directory
  // ---------------------------------------------------------------------

  /** The modules of `ms` whose directory is `d`, in their order in `ms`. */
  function Bucket(ms: seq<Module>, d: string): (r: seq<Module>)
    decreases |ms|
  {
    if ms == [] then []
    else Bucket(ms[..|ms| - 1], d) + (if ms[|ms| - 1].dir == d then [ms[|ms| - 1]] else [])
  }

  /** The bucket list the first pass builds from those modules. */
  function Wrap(ms: seq<Module>): (r: seq<Entry>) {
    seq(|ms|, i requires 0 <= i < |ms| => Mod(ms[i]))
  }

  /** The directories named by `ms`. */
  function DirsOf(ms: seq<Module>): (r: set<string>) {
    set m | m in ms :: m.dir
  }

  /** The dictionary after the first pass over `ms`. */
  function Grouped(ms: seq<Module>): (r: Dirs) {
    map d | d in DirsOf(ms) + {Misc} :: Wrap(Bucket(ms, d))
  }

  /** Bucketing keeps the input order: the bucket of a concatenation is the
      concatenation of the buckets. */
  lemma {:induction false} BucketAppend(a: seq<Module>, b: seq<Module>, d: string)
    ensures Bucket(a + b, d) == Bucket(a, d) + Bucket(b, d)
    decreases |b|
  {
    if b == [] {
      assert a + b == a;
    } else {
      var b' := b[..|b| - 1];
      assert (a + b)[..|a + b| - 1] == a + b';
      BucketAppend(a, b', d);
    }
  }

  /** No module is dropped or duplicated: the bucket of `d` holds each module
      of directory `d` as often as `ms` does, and nothing else. */
  lemma {:induction false} BucketCount(ms: seq<Module>, d: string, x: Module)
    ensures multiset(Bucket(ms, d))[x] == if x.dir == d then multiset(ms)[x] else 0
    decreases |ms|
  {
    if ms != [] {
      var ms' := ms[..|ms| - 1];
      assert ms == ms' + [ms[|ms| - 1]];
      BucketCount(ms', d, x);
    }
  }

  lemma BucketMember(ms: seq<Module>, d: string, x: Module)
    ensures x in Bucket(ms, d) <==> x in ms && x.dir == d
  {
    BucketCount(ms, d, x);
  }

  lemma BucketSnoc(ms: seq<Module>, m: Module, d: string)
    ensures Bucket(ms + [m], d) == Bucket(ms, d) + (if m.dir == d then [m] else [])
  {
    assert (ms + [m])[..|ms|] == ms;
  }

  lemma BucketEmpty(ms: seq<Module>, d: string)
    requires d !in DirsOf(ms)
    ensures Bucket(ms, d) == []
  {
    if Bucket(ms, d) != [] {
      BucketMember(ms, d, Bucket(ms, d)[0]);
    }
  }

  /** A stretch of modules none of which lives in d adds nothing to d's bucket. */
  lemma NoneInSlice(ms: seq<Module>, lo: nat, hi: nat, d: string)
    requires lo <= hi <= |ms|
    requires forall j :: lo <= j < hi ==> ms[j].dir != d
    ensures Bucket(ms[lo..hi], d) == []
  {
    var s := ms[lo..hi];
    forall k | 0 <= k < |s|
      ensures s[k].dir != d
    {
      assert s[k] == ms[lo + k];
    }
    NoneInDir(s, d);
  }

  /** The bucket of a module's own directory keeps it between its neighbours. */
  lemma BucketSplitAt(ms: seq<Module>, i: nat)
    requires i < |ms|
    ensures Bucket(ms, ms[i].dir) == Bucket(ms[0..i], ms[i].dir) + [ms[i]] + Bucket(ms[i + 1..|ms|], ms[i].dir)
  {
    Reassemble(ms, i);
    BucketAround(ms[0..i], ms[i], ms[i + 1..|ms|]);
  }

  lemma Reassemble(ms: seq<Module>, i: nat)
    requires i < |ms|
    ensures ms[0..i] + [ms[i]] + ms[i + 1..|ms|] == ms
  {
  }

  lemma BucketAround(before: seq<Module>, x: Module, after: seq<Module>)
    ensures Bucket(before + [x] + after, x.dir) == Bucket(before, x.dir) + [x] + Bucket(after, x.dir)
  {
    BucketSnoc(before, x, x.dir);
    BucketAppend(before + [x], after, x.dir);
  }

  lemma NoneInDir(ms: seq<Module>, d: string)
    requires forall k :: 0 <= k < |ms| ==> ms[k].dir != d
    ensures Bucket(ms, d) == []
  {
    if Bucket(ms, d) != [] {
      BucketMember(ms, d, Bucket(ms, d)[0]);
    }
  }

  /** One iteration of the first pass: the module's bucket is created if
      missing, then the module is appended to it. */
  lemma GroupedSnoc(ms: seq<Module>, m: Module)
    ensures var g := Grouped(ms);
      Grouped(ms + [m]) == g[m.dir := (if m.dir in g then g[m.dir] else []) + [Mod(m)]]
  {
    var g, g' := Grouped(ms), Grouped(ms + [m]);
    var h := g[m.dir := (if m.dir in g then g[m.dir] else []) + [Mod(m)]];
    assert DirsOf(ms + [m]) == DirsOf(ms) + {m.dir};
    assert g'.Keys == h.Keys;
    forall d | d in g'
      ensures g'[d] == h[d]
    {
      BucketSnoc(ms, m, d);
      if d !in g {
        BucketEmpty(ms, d);
      }
    }
  }

  /** The first pass, lines 97-102: seed "misc", then append each module to
      the bucket of its directory, creating the bucket on first use. */
  method BucketByDir(modules: seq<Module>) returns (dirs: Dirs)
    ensures dirs == Grouped(modules)
    ensures Misc in dirs
    ensures forall m :: m in modules ==> m.dir in dirs && Mod(m) in dirs[m.dir]
  {
    dirs := map[Misc := []];
    assert Grouped(modules[..0]) == dirs;
    for i := 0 to |modules|
      invariant dirs == Grouped(modules[..i])
    {
      var m := modules[i];
      ghost var before := dirs;
      if m.dir !in dirs {
        dirs := dirs[m.dir := []];
      }
      dirs := dirs[m.dir := dirs[m.dir] + [Mod(m)]];
      assert dirs == before[m.dir := (if m.dir in before then before[m.dir] else []) + [Mod(m)]];
      assert modules[..i + 1] == modules[..i] + [m];
      GroupedSnoc(modules[..i], m);
    }
    assert modules[..|modules|] == modules;
    GroupedHoldsEach(modules);
  }

  /** After the first pass each module sits in the bucket of its own directory. */
  lemma GroupedHoldsEach(ms: seq<Module>)
    ensures forall m :: m in ms ==> m.dir in Grouped(ms) && Mod(m) in Grouped(ms)[m.dir]
  {
    forall m | m in ms
      ensures m.dir in Grouped(ms) && Mod(m) in Grouped(ms)[m.dir]
    {
      BucketMember(ms, m.dir, m);
      var j :| 0 <= j < |Bucket(ms, m.dir)| && Bucket(ms, m.dir)[j] == m;
      assert Grouped(ms)[m.dir][j] == Mod(m);
    }
  }

  /** Every bucket after the first pass holds only modules, each of the
      bucket's own directory. */
  lemma GroupedBucketsAreOwnDir(ms: seq<Module>, d: string, i: nat)
    requires d in Grouped(ms) && i < |Grouped(ms)[d]|
    ensures Grouped(ms)[d][i].Mod? && Grouped(ms)[d][i].m.dir == d
  {
    var x := Bucket(ms, d)[i];
    BucketMember(ms, d, x);
  }

  // ---------------------------------------------------------------------
  // Second pass: singleton buckets demoted into "misc"
  // ---------------------------------------------------------------------

  /** The second pass moves bucket `d` of `dirs` when it holds exactly one
      entry and `d` is not a misc name. */
  predicate Lonely(dirs: Dirs, d: string) {
    d in dirs && !IsMiscName(d) && |dirs[d]| == 1
  }

  /** One iteration of the second pass, for key `d`. */
  function Step(dirs: Dirs, d: string): (r: Dirs)
    requires Misc in dirs
  {
    if Lonely(dirs, d) then dirs[Misc := dirs[Misc] + [Moved(dirs[d])]] - {d} else dirs
  }

  /** The dictionary after the second pass has visited the keys `order`. */
  function Shift(dirs: Dirs, order: seq<string>): (r: Dirs)
    requires Misc in dirs
    ensures Misc in r
    decreases |order|
  {
    if order == [] then dirs
    else
      var before := Shift(dirs, order[..|order| - 1]);
      assert IsMiscName(Misc);
      Step(before, order[|order| - 1])
  }

  predicate NoDup(s: seq<string>) {
    forall i, j :: 0 <= i < j < |s| ==> s[i] != s[j]
  }

  /** `order` lists every key of `dirs` exactly once: a possible key order of
      the dictionary. */
  ghost predicate IsKeyOrder(order: seq<string>, dirs: Dirs) {
    NoDup(order) && forall k :: k in order <==> k in dirs
  }

  /** The keys of `p` that the second pass moves, in the order of `p`. */
  function LonelyKeys(dirs: Dirs, p: seq<string>): (ks: seq<string>)
    ensures forall k :: k in ks <==> k in p && Lonely(dirs, k)
    ensures NoDup(p) ==> NoDup(ks)
    decreases |p|
  {
    if p == [] then []
    else
      var last := p[|p| - 1];
      var rest := LonelyKeys(dirs, p[..|p| - 1]);
      assert last !in p[..|p| - 1] ==> last !in rest;
      rest + (if Lonely(dirs, last) then [last] else [])
  }

  /** The entries the second pass appends to "misc" for the keys `ks`. */
  function MovedGroups(dirs: Dirs, ks: seq<string>): (r: seq<Entry>)
    requires forall k :: k in ks ==> k in dirs
  {
    seq(|ks|, i requires 0 <= i < |ks| => Moved(dirs[ks[i]]))
  }

  /** The state after visiting the keys `p`: the lonely keys of `p` are
      gone, every other bucket except "misc" is as it was, and "misc" has
      gained one Moved entry per lonely key of `p`, in the order of `p`. */
  ghost predicate Visited(dirs: Dirs, p: seq<string>, r: Dirs)
    requires forall k :: k in p ==> k in dirs
  {
    && (forall k :: k in r <==> k in dirs && !(k in p && Lonely(dirs, k)))
    && (forall k :: k in r && k != Misc ==> r[k] == dirs[k])
    && Misc in dirs && Misc in r
    && r[Misc] == dirs[Misc] + MovedGroups(dirs, LonelyKeys(dirs, p))
  }

  /** One iteration of the second pass, on a key not visited before. */
  lemma VisitStep(dirs: Dirs, p: seq<string>, d: string, before: Dirs)
    requires (forall k :: k in p ==> k in dirs) && d in dirs && d !in p
    requires Visited(dirs, p, before)
    ensures Visited(dirs, p + [d], Step(before, d))
  {
    var p2 := p + [d];
    assert p2[..|p|] == p && p2[|p|] == d;
    assert IsMiscName(Misc);
    assert d in before && (d != Misc ==> before[d] == dirs[d]);
    assert Lonely(before, d) == Lonely(dirs, d);
    var ks, ks2 := LonelyKeys(dirs, p), LonelyKeys(dirs, p2);
    var r := Step(before, d);
    if Lonely(dirs, d) {
      assert ks2 == ks + [d];
      assert MovedGroups(dirs, ks2) == MovedGroups(dirs, ks) + [Moved(dirs[d])];
      assert r == before[Misc := before[Misc] + [Moved(dirs[d])]] - {d};
    } else {
      assert ks2 == ks;
      assert r == before;
    }
  }

  lemma {:induction false} ShiftPrefix(dirs: Dirs, p: seq<string>)
    requires Misc in dirs
    requires NoDup(p) && forall k :: k in p ==> k in dirs
    ensures Visited(dirs, p, Shift(dirs, p))
    decreases |p|
  {
    if p == [] {
      assert MovedGroups(dirs, []) == [];
    } else {
      var p', d := p[..|p| - 1], p[|p| - 1];
      assert p == p' + [d];
      ShiftPrefix(dirs, p');
      VisitStep(dirs, p', d, Shift(dirs, p'));
    }
  }

  /** The second pass over a whole key order: exactly the lonely keys are
      removed, the other buckets are untouched, and "misc" is extended by one
      Moved entry per lonely key, in the order the keys were visited. */
  lemma ShiftOutcome(dirs: Dirs, order: seq<string>)
    requires Misc in dirs && IsKeyOrder(order, dirs)
    ensures var r := Shift(dirs, order);
      && (forall k :: k in r <==> k in dirs && !Lonely(dirs, k))
      && (forall k :: k in r && k != Misc ==> r[k] == dirs[k])
      && r[Misc] == dirs[Misc] + MovedGroups(dirs, LonelyKeys(dirs, order))
      && NoDup(LonelyKeys(dirs, order))
      && (forall k :: k in LonelyKeys(dirs, order) <==> Lonely(dirs, k))
  {
    ShiftPrefix(dirs, order);
  }

  /** A lonely key is deleted and its bucket list appears in "misc". */
  lemma ShiftMovesLonely(dirs: Dirs, order: seq<string>, d: string)
    requires Misc in dirs && IsKeyOrder(order, dirs) && Lonely(dirs, d)
    ensures d !in Shift(dirs, order)
    ensures Moved(dirs[d]) in Shift(dirs, order)[Misc]
  {
    ShiftOutcome(dirs, order);
    var r, ks := Shift(dirs, order), LonelyKeys(dirs, order);
    var k :| 0 <= k < |ks| && ks[k] == d;
    var tail := MovedGroups(dirs, ks);
    assert tail[k] == Moved(dirs[d]);
    assert r[Misc][|dirs[Misc]| + k] == tail[k];
  }

  /** After the second pass no bucket other than a misc name holds exactly
      one entry. */
  lemma ShiftLeavesNoLonely(dirs: Dirs, order: seq<string>)
    requires Misc in dirs && IsKeyOrder(order, dirs)
    ensures forall k :: k in Shift(dirs, order) && !IsMiscName(k) ==> |Shift(dirs, order)[k]| != 1
  {
    ShiftOutcome(dirs, order);
  }

  lemma {:induction false} NoDupMultiset(s: seq<string>, x: string)
    requires NoDup(s)
    ensures multiset(s)[x] == if x in s then 1 else 0
    decreases |s|
  {
    if s != [] {
      assert s == [s[0]] + s[1..];
      NoDupMultiset(s[1..], x);
    }
  }

  lemma MovedGroupsAppend(dirs: Dirs, a: seq<string>, b: seq<string>)
    requires forall k :: k in a + b ==> k in dirs
    ensures MovedGroups(dirs, a + b) == MovedGroups(dirs, a) + MovedGroups(dirs, b)
  {
  }

  lemma MovedGroupsTakeOut(dirs: Dirs, left: seq<string>, x: string, right: seq<string>)
    requires forall k :: k in left + [x] + right ==> k in dirs
    ensures multiset(MovedGroups(dirs, left + [x] + right))
      == multiset{Moved(dirs[x])} + multiset(MovedGroups(dirs, left + right))
  {
    MovedGroupsAppend(dirs, left + [x], right);
    MovedGroupsAppend(dirs, left, [x]);
    MovedGroupsAppend(dirs, left, right);
    var ml, mr := MovedGroups(dirs, left), MovedGroups(dirs, right);
    assert MovedGroups(dirs, left + [x] + right) == ml + [Moved(dirs[x])] + mr;
    assert multiset(ml + [Moved(dirs[x])] + mr) == multiset(ml) + multiset{Moved(dirs[x])} + multiset(mr);
  }

  /** Two key sequences that are permutations of each other give the same
      Moved entries, up to order. */
  lemma {:induction false} MovedGroupsPermutation(dirs: Dirs, a: seq<string>, b: seq<string>)
    requires forall k :: k in a ==> k in dirs
    requires multiset(a) == multiset(b)
    ensures forall k :: k in b ==> k in dirs
    ensures multiset(MovedGroups(dirs, a)) == multiset(MovedGroups(dirs, b))
    decreases |a|
  {
    forall k | k in b
      ensures k in dirs
    {
      assert k in multiset(b);
    }
    if a == [] {
      assert |b| == |multiset(b)| == 0;
    } else {
      var x := a[0];
      assert x in multiset(b);
      var j :| 0 <= j < |b| && b[j] == x;
      var left, right := b[..j], b[j + 1..];
      assert b == left + [x] + right;
      assert multiset(a[1..]) == multiset(left + right) by {
        assert a == [x] + a[1..];
        assert multiset(a) == multiset{x} + multiset(a[1..]);
        assert multiset(b) == multiset(left) + multiset{x} + multiset(right);
        assert multiset(left + right) == multiset(left) + multiset(right);
        assert multiset(a[1..]) == multiset(a) - multiset{x};
        assert multiset(left + right) == multiset(b) - multiset{x};
      }
      MovedGroupsPermutation(dirs, a[1..], left + right);
      MovedGroupsCons(dirs, a);
      MovedGroupsTakeOut(dirs, left, x, right);
    }
  }

  lemma MovedGroupsCons(dirs: Dirs, a: seq<string>)
    requires a != [] && forall k :: k in a ==> k in dirs
    ensures multiset(MovedGroups(dirs, a)) == multiset{Moved(dirs[a[0]])} + multiset(MovedGroups(dirs, a[1..]))
  {
    assert MovedGroups(dirs, a) == [Moved(dirs[a[0]])] + MovedGroups(dirs, a[1..]);
  }

  /** The dictionary's key order does not matter beyond the order of the
      entries appended to "misc": any two key orders give the same keys, the
      same buckets, and "misc" buckets that are permutations of each other. */
  lemma ShiftOrderIndependent(dirs: Dirs, o1: seq<string>, o2: seq<string>)
    requires Misc in dirs && IsKeyOrder(o1, dirs) && IsKeyOrder(o2, dirs)
    ensures Shift(dirs, o1).Keys == Shift(dirs, o2).Keys
    ensures forall k :: k in Shift(dirs, o1) && k != Misc ==> Shift(dirs, o1)[k] == Shift(dirs, o2)[k]
    ensures multiset(Shift(dirs, o1)[Misc]) == multiset(Shift(dirs, o2)[Misc])
  {
    ShiftOutcome(dirs, o1);
    ShiftOutcome(dirs, o2);
    var l1, l2 := LonelyKeys(dirs, o1), LonelyKeys(dirs, o2);
    forall x ensures multiset(l1)[x] == multiset(l2)[x] {
      NoDupMultiset(l1, x);
      NoDupMultiset(l2, x);
    }
    assert multiset(l1) == multiset(l2);
    MovedGroupsPermutation(dirs, l1, l2);
  }

  /** The second pass, lines 103-109: visit a snapshot of the keys in an
      unspecified order (the ghost `order` records it); for each key other
      than a misc name whose bucket has length one, append that bucket to
      "misc" and delete the key. */
  method ShiftLonelyToMisc(dirs: Dirs) returns (result: Dirs, ghost order: seq<string>)
    requires Misc in dirs
    ensures IsKeyOrder(order, dirs)
    ensures result == Shift(dirs, order)
    ensures Misc in result
    ensures forall k :: k in result && !IsMiscName(k) ==> |result[k]| != 1
  {
    result := dirs;
    order := [];
    var pending := dirs.Keys;
    while pending != {}
      invariant pending <= dirs.Keys
      invariant NoDup(order)
      invariant forall k :: k in order <==> k in dirs && k !in pending
      invariant forall k :: k in pending ==> k in result
      invariant result == Shift(dirs, order)
      decreases pending
    {
      var d :| d in pending;
      ghost var prev := result;
      if !IsMiscName(d) && |result[d]| == 1 {
        result := result[Misc := result[Misc] + [Moved(result[d])]];
        result := result - {d};
      }
      assert result == Step(prev, d);
      assert (order + [d])[..|order|] == order;
      order := order + [d];
      pending := pending - {d};
    }
    ShiftLeavesNoLonely(dirs, order);
  }

  // ---------------------------------------------------------------------
  // Conservation: the modules held by a dictionary
  // ---------------------------------------------------------------------

  /** The modules held by a bucket list, looking inside Moved entries. */
  function Flatten(es: seq<Entry>): (r: seq<Module>)
    decreases es
  {
    if es == [] then []
    else
      (match es[0]
       case Mod(m) => [m]
       case Moved(g) => Flatten(g))
      + Flatten(es[1..])
  }

  lemma {:induction false} FlattenAppend(a: seq<Entry>, b: seq<Entry>)
    ensures Flatten(a + b) == Flatten(a) + Flatten(b)
    decreases |a|
  {
    if a == [] {
      assert a + b == b;
    } else {
      assert (a + b)[0] == a[0] && (a + b)[1..] == a[1..] + b;
      FlattenAppend(a[1..], b);
    }
  }

  /** The modules held by one bucket, counted with multiplicity. */
  function Held(es: seq<Entry>): (r: multiset<Module>) {
    multiset(Flatten(es))
  }

  /** Some key of a non-empty key set. */
  ghost function PickKey(keys: set<string>): (k: string)
    requires keys != {}
    ensures k in keys
  {
    var k :| k in keys; k
  }

  /** All modules held by the dictionary, counted with multiplicity. */
  ghost function Members(dirs: Dirs): (r: multiset<Module>)
    decreases dirs.Keys
  {
    if dirs == map[] then multiset{}
    else
      var k := PickKey(dirs.Keys);
      assert (dirs - {k}).Keys < dirs.Keys;
      Held(dirs[k]) + Members(dirs - {k})
  }

  lemma MultisetSwap(all: multiset<Module>, hc: multiset<Module>, hk: multiset<Module>,
                     mc: multiset<Module>, mk: multiset<Module>, rest: multiset<Module>)
    requires all == hc + mc && mc == hk + rest && mk == hc + rest
    ensures all == hk + mk
  {
  }

  /** Taking two keys out of a dictionary does not depend on their order. */
  lemma RemoveTwo(dirs: Dirs, c: string, k: string)
    requires c in dirs && k in dirs && c != k
    ensures (dirs - {c}).Keys < dirs.Keys && (dirs - {k}).Keys < dirs.Keys
    ensures k in dirs - {c} && (dirs - {c})[k] == dirs[k]
    ensures c in dirs - {k} && (dirs - {k})[c] == dirs[c]
    ensures (dirs - {c}) - {k} == (dirs - {k}) - {c}
  {
  }

  /** Members may be computed by taking out any key first. */
  lemma {:induction false} MembersRemove(dirs: Dirs, k: string)
    requires k in dirs
    ensures Members(dirs) == Held(dirs[k]) + Members(dirs - {k})
    decreases dirs.Keys
  {
    var c := PickKey(dirs.Keys);
    if c != k {
      RemoveTwo(dirs, c, k);
      var dc, dk := dirs - {c}, dirs - {k};
      MembersRemove(dc, k);
      MembersRemove(dk, c);
      MultisetSwap(Members(dirs), Held(dirs[c]), Held(dirs[k]), Members(dc), Members(dk), Members(dc - {k}));
    }
  }

  lemma HeldAppend(a: seq<Entry>, b: seq<Entry>)
    ensures Held(a + b) == Held(a) + Held(b)
  {
    FlattenAppend(a, b);
  }

  /** Replacing a bucket swaps its modules for those of the new bucket. */
  lemma MembersReplace(dirs: Dirs, k: string, v: seq<Entry>)
    requires k in dirs
    ensures Members(dirs[k := v]) + Held(dirs[k]) == Members(dirs) + Held(v)
  {
    var updated, rest := dirs[k := v], dirs - {k};
    assert updated - {k} == rest;
    MembersRemove(updated, k);
    MembersRemove(dirs, k);
    var t := Members(rest);
    assert Members(updated) == Held(v) + t;
    assert Members(dirs) == Held(dirs[k]) + t;
  }

  /** Adding a bucket under a new key adds its modules. */
  lemma MembersAdd(dirs: Dirs, k: string, v: seq<Entry>)
    requires k !in dirs
    ensures Members(dirs[k := v]) == Members(dirs) + Held(v)
  {
    var updated := dirs[k := v];
    MembersRemove(updated, k);
    assert updated - {k} == dirs;
  }

  /** Appending one module to a bucket, created if missing, adds that module. */
  lemma MembersAppendModule(g: Dirs, k: string, m: Module)
    ensures Members(g[k := (if k in g then g[k] else []) + [Mod(m)]]) == Members(g) + multiset{m}
  {
    var prior := if k in g then g[k] else [];
    HeldAppend(prior, [Mod(m)]);
    assert Flatten([Mod(m)]) == [m];
    assert Held(prior + [Mod(m)]) == Held(prior) + multiset{m};
    if k in g {
      MembersReplace(g, k, prior + [Mod(m)]);
      MultisetCancel(Members(g[k := prior + [Mod(m)]]), Members(g) + multiset{m}, Held(prior));
    } else {
      assert Held(prior) == multiset{};
      MembersAdd(g, k, prior + [Mod(m)]);
    }
  }

  /** The first pass holds every input module exactly as often as the input
      list does. */
  lemma {:induction false} GroupedConserves(ms: seq<Module>)
    ensures Members(Grouped(ms)) == multiset(ms)
    decreases |ms|
  {
    if ms == [] {
      var g := Grouped(ms);
      assert g == map[Misc := []];
      MembersRemove(g, Misc);
      assert g - {Misc} == map[];
      assert Held([]) == multiset{};
    } else {
      var ms', m := ms[..|ms| - 1], ms[|ms| - 1];
      assert ms == ms' + [m];
      GroupedConserves(ms');
      GroupedSnoc(ms', m);
      MembersAppendModule(Grouped(ms'), m.dir, m);
    }
  }

  lemma MultisetCancel(a: multiset<Module>, b: multiset<Module>, h: multiset<Module>)
    requires a + h == b + h
    ensures a == b
  {
    forall x ensures a[x] == b[x] {
      assert (a + h)[x] == (b + h)[x];
    }
  }

  /** Appending bucket `d` to "misc" as one Moved entry adds its modules. */
  lemma MembersGrowMisc(dirs: Dirs, d: string)
    requires Misc in dirs && d in dirs
    ensures Members(dirs[Misc := dirs[Misc] + [Moved(dirs[d])]]) == Members(dirs) + Held(dirs[d])
  {
    var moved := dirs[d];
    var grownMisc := dirs[Misc] + [Moved(moved)];
    HeldAppend(dirs[Misc], [Moved(moved)]);
    assert Flatten([Moved(moved)]) == Flatten(moved);
    assert Held(grownMisc) == Held(dirs[Misc]) + Held(moved);
    MembersReplace(dirs, Misc, grownMisc);
    MultisetCancel(Members(dirs[Misc := grownMisc]), Members(dirs) + Held(moved), Held(dirs[Misc]));
  }

  /** Moving bucket `d` into "misc" and deleting its key keeps every module. */
  lemma MembersMoveToMisc(dirs: Dirs, d: string)
    requires Misc in dirs && d in dirs && d != Misc
    ensures Members(dirs[Misc := dirs[Misc] + [Moved(dirs[d])]] - {d}) == Members(dirs)
  {
    var grown := dirs[Misc := dirs[Misc] + [Moved(dirs[d])]];
    MembersGrowMisc(dirs, d);
    MembersRemove(grown, d);
    assert grown[d] == dirs[d];
    MultisetCancel(Members(grown - {d}), Members(dirs), Held(dirs[d]));
  }

  /** One step of the second pass keeps every module. */
  lemma StepConserves(dirs: Dirs, d: string)
    requires Misc in dirs
    ensures Members(Step(dirs, d)) == Members(dirs)
  {
    if Lonely(dirs, d) {
      assert IsMiscName(Misc);
      MembersMoveToMisc(dirs, d);
    }
  }

  /** The whole second pass keeps every module, whatever the key order. */
  lemma {:induction false} ShiftConserves(dirs: Dirs, order: seq<string>)
    requires Misc in dirs
    ensures Members(Shift(dirs, order)) == Members(dirs)
    decreases |order|
  {
    if order != [] {
      ShiftConserves(dirs, order[..|order| - 1]);
      StepConserves(Shift(dirs, order[..|order| - 1]), order[|order| - 1]);
    }
  }
}
