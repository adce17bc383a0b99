/**
 Measuring a live process (src/agent/runtime_image_measure.c): its executable
 mappings are reduced to one entry per inode, each is measured by fs-verity,
 and the modules are sorted, collapsed and hashed.

 Parsed /proc/<pid>/maps lines and the fs-verity measurement of an inode are
 inputs here.
 */
module ImageMeasure {
  import opened ByteCodec
  import opened Canonical
  import opened DigestInputs
  import opened Errors

  datatype Inode = Inode(major: nat, minor: nat, ino: nat)

  datatype Entry = Entry(inode: Inode, soname: Soname)

  /** A parsed maps line: not a measured mapping, malformed, or a file-backed executable mapping. */
  datatype Line = Skipped | Malformed(error: Errno) | Mapped(entry: Entry)

  /** FS_IOC_MEASURE_VERITY of an inode: a SHA-512 digest, or a failure. */
  type Sha512 = v: Bytes | |v| == VERITY_SIZE witness seq(VERITY_SIZE, _ => 0)
  type Measure = Inode -> Option<Sha512>

  // ----- the module order

  lemma {:induction false} KeySplit(a: seq<int>, x: seq<int>, b: seq<int>, y: seq<int>)
    requires forall i :: 0 <= i < |a| ==> a[i] != 0
    requires forall i :: 0 <= i < |b| ==> b[i] != 0
    requires a + [0] + x == b + [0] + y
    ensures a == b && x == y
  {
    var s := a + [0] + x;
    assert s[|a|] == 0 && s[|b|] == 0;
    assert |a| == |b|;
    SplitEqual(a + [0], x, b + [0], y);
    SplitEqual(a, [0], b, [0]);
  }

  /** The comparator calls two modules equal only when they are. */
  lemma SortKeyInjective(a: Module, b: Module)
    requires SortKey(a) == SortKey(b)
    ensures a == b
  {
    Associative(a.soname + [0], [|a.verity|], a.verity);
    Associative(b.soname + [0], [|b.verity|], b.verity);
    KeySplit(a.soname, [|a.verity|] + a.verity, b.soname, [|b.verity|] + b.verity);
    SplitEqual([|a.verity|], a.verity, [|b.verity|], b.verity);
  }

  lemma ModuleOrder()
    ensures TotalOrder(LeModule)
  {
    forall a, b ensures LeModule(a, b) || LeModule(b, a) { LexTotal(SortKey(a), SortKey(b)); }
    forall a, b | LeModule(a, b) && LeModule(b, a) ensures a == b {
      LexAntisymmetric(SortKey(a), SortKey(b));
      SortKeyInjective(a, b);
    }
    forall a, b, c | LeModule(a, b) && LeModule(b, c) ensures LeModule(a, c) {
      LexTransitive(SortKey(a), SortKey(b), SortKey(c));
    }
  }

  /** By soname as strcmp, then by digest length, then by digest as memcmp. */
  lemma ModuleOrderMeans(a: Module, b: Module)
    ensures LeModule(a, b) <==>
            || (a.soname != b.soname && LeLex(a.soname, b.soname))
            || (a.soname == b.soname
                && (|a.verity| < |b.verity| || (|a.verity| == |b.verity| && LeLex(a.verity, b.verity))))
  {
    NamesFirst(a.soname, [|a.verity|] + a.verity, b.soname, [|b.verity|] + b.verity);
    assert SortKey(a) == a.soname + [0] + ([|a.verity|] + a.verity);
    assert SortKey(b) == b.soname + [0] + ([|b.verity|] + b.verity);
    assert ([|a.verity|] + a.verity)[1..] == a.verity && ([|b.verity|] + b.verity)[1..] == b.verity;
  }

  /** NUL-terminated names are compared before what follows them. */
  lemma {:induction false} NamesFirst(a: Soname, x: seq<int>, b: Soname, y: seq<int>)
    ensures LeLex(a + [0] + x, b + [0] + y) <==> if a == b then LeLex(x, y) else LeLex(a, b)
  {
    var p, q := a + [0] + x, b + [0] + y;
    if a == [] || b == [] {
      if a == b { assert p[1..] == x && q[1..] == y; }
    } else if a[0] == b[0] {
      NamesFirst(a[1..], x, b[1..], y);
      assert p[1..] == a[1..] + [0] + x && q[1..] == b[1..] + [0] + y;
      assert a == [a[0]] + a[1..] && b == [b[0]] + b[1..];
    }
  }

  // ----- one entry per inode

  ghost predicate Seen(es: seq<Entry>, inode: Inode) {
    exists i :: 0 <= i < |es| && es[i].inode == inode
  }

  /** The first entry of each inode, in order. */
  ghost function FirstPerInode(es: seq<Entry>): seq<Entry> {
    if es == [] then []
    else
      var kept, last := FirstPerInode(es[..|es| - 1]), es[|es| - 1];
      if Seen(kept, last.inode) then kept else kept + [last]
  }

  function Entries(lines: seq<Line>): seq<Entry> {
    if lines == [] then []
    else Entries(lines[..|lines| - 1]) + match lines[|lines| - 1] case Mapped(e) => [e] case _ => []
  }

  /** The entries are those of the mapped lines, in order. */
  lemma {:induction false} EntriesOfLines(a: seq<Line>, b: seq<Line>)
    ensures Entries(a + b) == Entries(a) + Entries(b)
    ensures |b| == 1 ==> Entries(b) == if b[0].Mapped? then [b[0].entry] else []
  {
    if b == [] {
      assert a + b == a && Entries(a) + [] == Entries(a);
    } else {
      var n := |b| - 1;
      assert (a + b)[..|a + b| - 1] == a + b[..n];
      EntriesOfLines(a, b[..n]);
      if n == 0 { assert b[..0] == []; }
    }
  }

  method EntrySeen(es: seq<Entry>, cand: Entry) returns (seen: bool)
    ensures seen <==> Seen(es, cand.inode)
  {
    for i := 0 to |es|
      invariant forall j :: 0 <= j < i ==> es[j].inode != cand.inode
    {
      if es[i].inode == cand.inode {
        return true;
      }
    }
    return false;
  }

  /** What the first n lines leave in the entry array. */
  ghost function Kept(lines: seq<Line>, n: nat): seq<Entry>
    requires n <= |lines|
  {
    FirstPerInode(Entries(lines[..n]))
  }

  lemma NextLine(lines: seq<Line>, n: nat)
    requires n < |lines|
    ensures Kept(lines, n + 1) ==
            match lines[n]
            case Mapped(e) => if Seen(Kept(lines, n), e.inode) then Kept(lines, n) else Kept(lines, n) + [e]
            case _ => Kept(lines, n)
  {
    var es := Entries(lines[..n]);
    assert lines[..n + 1][..n] == lines[..n];
    match lines[n]
    case Mapped(e) => assert (es + [e])[..|es|] == es;
    case _ => assert es + [] == es;
  }

  lemma {:induction false} KeptGrows(lines: seq<Line>, n: nat)
    requires n <= |lines|
    ensures |Kept(lines, n)| <= |Kept(lines, |lines|)|
    decreases |lines| - n
  {
    if n == |lines| {
    } else {
      KeptGrows(lines, n + 1);
      NextLine(lines, n);
    }
  }

  /** Keeps the first mapping of each inode; a malformed line or one inode too many is an error. */
  method CollectExecMaps(lines: seq<Line>, max: nat) returns (r: Result<seq<Entry>>)
    ensures r.Ok? ==> r.value == FirstPerInode(Entries(lines))
    ensures r.Ok? <==> (forall i :: 0 <= i < |lines| ==> !lines[i].Malformed?) && |FirstPerInode(Entries(lines))| <= max
    ensures r.Err? && (forall i :: 0 <= i < |lines| ==> !lines[i].Malformed?) ==> r.error == E2BIG
  {
    hide FirstPerInode, Entries, Seen;
    var entries: seq<Entry> := [];
    assert lines[..|lines|] == lines;
    assert Kept(lines, 0) == [] by { KeptNone(lines); }
    for k := 0 to |lines|
      invariant entries == Kept(lines, k) && |entries| <= max
      invariant forall i :: 0 <= i < k ==> !lines[i].Malformed?
    {
      NextLine(lines, k);
      match lines[k] {
        case Malformed(e) => return Err(e);
        case Skipped =>
        case Mapped(e) =>
          var seen := EntrySeen(entries, e);
          if !seen {
            if |entries| >= max {
              KeptGrows(lines, k + 1);
              return Err(E2BIG);
            }
            entries := entries + [e];
          }
      }
    }
    return Ok(entries);
  }

  lemma KeptNone(lines: seq<Line>)
    ensures Kept(lines, 0) == []
  {
    assert Entries(lines[..0]) == [];
  }

  // ----- hashing a module list

  ghost predicate Wellformed(m: Module) {
    m.soname != [] && |m.verity| == VERITY_SIZE
  }

  ghost predicate AllWellformed(ms: seq<Module>) {
    forall i :: 0 <= i < |ms| ==> Wellformed(ms[i])
  }

  /** What lota_validate_runtime_image_modules accepts. */
  ghost predicate Acceptable(ms: seq<Module>) {
    |ms| <= MAX_MODULES && AllWellformed(ms) && Strict(ms, LeModule)
  }

  method ValidateModules(ms: seq<Module>) returns (r: Option<Errno>)
    ensures r.None? <==> Acceptable(ms)
    ensures r.Some? ==> r.value == if |ms| > 256 then E2BIG else EINVAL
  {
    hide Strict, LeModule;
    if |ms| > MAX_MODULES {
      return Some(E2BIG);
    }
    assert Strict(ms[..0], LeModule) by { StrictNil(LeModule); assert ms[..0] == []; }
    for i := 0 to |ms|
      invariant forall j :: 0 <= j < i ==> Wellformed(ms[j])
      invariant Strict(ms[..i], LeModule)
    {
      StrictNext(ms, LeModule, i);
      if ms[i].soname == [] || |ms[i].verity| != VERITY_SIZE {
        return Some(EINVAL);
      }
      if i > 0 && !(LeModule(ms[i - 1], ms[i]) && ms[i - 1] != ms[i]) {
        if Strict(ms, LeModule) { StrictPrefix(ms, LeModule, i + 1); }
        return Some(EINVAL);
      }
    }
    assert ms[..|ms|] == ms;
    return None;
  }

  lemma StrictNil<T>(le: (T, T) -> bool)
    ensures Strict<T>([], le)
  {
  }

  /** Feeds the hash context field by field. */
  method ComputeImageDigest(h: Hash, ms: seq<Module>) returns (r: Result<Bytes>)
    ensures r.Ok? <==> Acceptable(ms)
    ensures r.Ok? ==> r.value == h(ImageInput(ms))
  {
    hide Acceptable;
    var bad := ValidateModules(ms);
    if bad.Some? {
      return Err(bad.value);
    }
    assert |ms| <= MAX_MODULES by { AcceptableBound(ms); }
    var ctx := IMAGE_DOMAIN + Le32(|ms|);
    for i := 0 to |ms|
      invariant ctx + ModulesBytes(ms[i..]) == ImageInput(ms)
    {
      var m := ms[i];
      assert ms[i..][0] == m && ms[i..][1..] == ms[i + 1..];
      Associative(ctx, ModuleFields(m), ModulesBytes(ms[i + 1..]));
      Associative(ctx, Block(m.soname), Block(m.verity));
      ctx := ctx + Block(m.soname);
      ctx := ctx + Block(m.verity);
    }
    assert ctx + [] == ctx;
    return Ok(h(ctx));
  }

  lemma AcceptableBound(ms: seq<Module>)
    requires Acceptable(ms)
    ensures |ms| <= MAX_MODULES
  {
  }

  // ----- the whole measurement

  /** Collapses repeats in the sorted array, in place, with a write index. */
  method Collapse<T(==)>(mods: array<T>, n: nat) returns (unique: nat)
    requires 0 < n <= mods.Length
    modifies mods
    ensures unique <= n && mods[..unique] == Dedup(old(mods[..n]))
  {
    hide Dedup;
    ghost var s := mods[..n];
    DedupNext(s, 0);
    assert Dedup(s[..0]) + [s[0]] == [s[0]] by { DedupNil(s[..0]); }
    unique := 1;
    for i := 1 to n
      invariant 1 <= unique <= i && mods[..unique] == Dedup(s[..i]) && mods[unique - 1] == s[i - 1]
      invariant forall j :: i <= j < n ==> mods[j] == s[j]
    {
      DedupNext(s, i);
      if mods[unique - 1] != mods[i] {
        mods[unique] := mods[i];
        unique := unique + 1;
        assert mods[..unique] == mods[..unique - 1] + [s[i]];
      }
    }
    assert s[..n] == s;
  }

  lemma DedupNil<T>(s: seq<T>)
    requires s == []
    ensures Dedup(s) == []
  {
  }

  /** The module of each entry, for the entries that can be measured. */
  ghost function ModuleOf(e: Entry, measure: Measure): Module
    requires measure(e.inode).Some?
  {
    Module(e.soname, measure(e.inode).value)
  }

  ghost predicate Measurable(es: seq<Entry>, measure: Measure) {
    forall i :: 0 <= i < |es| ==> measure(es[i].inode).Some?
  }

  ghost function Modules(es: seq<Entry>, measure: Measure): (ms: seq<Module>)
    requires Measurable(es, measure)
    ensures |ms| == |es| && forall i :: 0 <= i < |es| ==> ms[i] == ModuleOf(es[i], measure)
  {
    seq(|es|, i requires 0 <= i < |es| => ModuleOf(es[i], measure))
  }

  /** lota_runtime_measure_pid: collect, measure, sort, collapse, hash. */
  method MeasurePid(h: Hash, lines: seq<Line>, measure: Measure) returns (r: Result<Bytes>)
    ensures r.Ok? <==> Measured(lines, measure)
    ensures (forall i :: 0 <= i < |lines| ==> !lines[i].Malformed?) ==>
      var n := |FirstPerInode(Entries(lines))|;
      (n == 0 ==> r == Err(ENOENT)) && (n > 256 ==> r == Err(E2BIG))
    ensures r.Ok? ==> r.value == h(ImageInput(ImageOf(lines, measure)))
  {
    hide FirstPerInode, Entries, Canon, LeModule;
    var collected := CollectExecMaps(lines, MAX_MODULES);
    if collected.Err? {
      return Err(collected.error);
    }
    if |collected.value| == 0 {
      return Err(ENOENT);
    }
    r := MeasureEntries(h, collected.value, measure);
  }

  ghost predicate Named(es: seq<Entry>) {
    forall i :: 0 <= i < |es| ==> es[i].soname != []
  }

  method MeasureEntries(h: Hash, entries: seq<Entry>, measure: Measure) returns (r: Result<Bytes>)
    requires 0 < |entries| <= MAX_MODULES
    ensures r.Ok? <==> Measurable(entries, measure) && Named(entries)
    ensures r.Ok? ==> |Canon(Modules(entries, measure), LeModule)| <= MAX_MODULES
                      && r.value == h(ImageInput(Canon(Modules(entries, measure), LeModule)))
  {
    hide Sort, Dedup, Strict, LeModule, Acceptable, ImageInput;
    var mods := new Module[|entries|](_ => Module([], []));
    for i := 0 to |entries|
      invariant forall j :: 0 <= j < i ==> measure(entries[j].inode).Some? && mods[j] == ModuleOf(entries[j], measure)
    {
      var digest := measure(entries[i].inode);
      if digest.None? {
        return Err(EIO);
      }
      mods[i] := Module(entries[i].soname, digest.value);
    }
    ghost var ms := Modules(entries, measure);
    assert mods[..] == ms;
    Qsort(mods);
    assert mods[..mods.Length] == mods[..];
    var unique := Collapse(mods, mods.Length);
    assert mods[..unique] == Canon(ms, LeModule);
    CollapsedAcceptable(ms);
    assert forall i :: 0 <= i < |ms| ==> ms[i].soname == entries[i].soname;
    ModuleOrder();
    CanonIsCanonical(ms, LeModule);
    r := ComputeImageDigest(h, mods[..unique]);
  }

  method Qsort(mods: array<Module>)
    modifies mods
    ensures mods[..] == Sort(old(mods[..]), LeModule)
  {
    var sorted := Sort(mods[..], LeModule);
    SortPermutes(mods[..], LeModule);
    assert |multiset(sorted)| == |multiset(mods[..])|;
    forall i | 0 <= i < mods.Length {
      mods[i] := sorted[i];
    }
  }

  /** The lines parse, name between 1 and 256 inodes, and every one can be measured and has a name. */
  ghost predicate Measured(lines: seq<Line>, measure: Measure) {
    var es := FirstPerInode(Entries(lines));
    && (forall i :: 0 <= i < |lines| ==> !lines[i].Malformed?)
    && 0 < |es| <= MAX_MODULES && Measurable(es, measure) && Named(es)
  }

  /** The canonical module list that is hashed. */
  ghost function ImageOf(lines: seq<Line>, measure: Measure): (ms: seq<Module>)
    requires Measured(lines, measure)
    ensures |ms| <= MAX_MODULES
  {
    var es := FirstPerInode(Entries(lines));
    ModuleOrder();
    CanonIsCanonical(Modules(es, measure), LeModule);
    Canon(Modules(es, measure), LeModule)
  }

  /** The sorted and collapsed list passes the validator exactly when every module has a name. */
  lemma CollapsedAcceptable(ms: seq<Module>)
    requires |ms| <= MAX_MODULES && forall i :: 0 <= i < |ms| ==> |ms[i].verity| == VERITY_SIZE
    ensures Acceptable(Canon(ms, LeModule)) <==> forall i :: 0 <= i < |ms| ==> ms[i].soname != []
  {
    hide Sort, Dedup, Strict, LeModule, Canon;
    ModuleOrder();
    CanonIsCanonical(ms, LeModule);
    var c := Canon(ms, LeModule);
    forall i | 0 <= i < |c| ensures c[i] in ms { assert c[i] in Elements(c); }
    forall i | 0 <= i < |ms| ensures ms[i] in c { assert ms[i] in Elements(ms); }
  }

  // ----- what the measurement depends on

  /** The (soname, digest) pairs of a process's mappings. */
  ghost function Pairs(es: seq<Entry>, measure: Measure): set<Module> {
    set i | 0 <= i < |es| && measure(es[i].inode).Some? :: ModuleOf(es[i], measure)
  }

  /** No earlier entry has the inode of entry i. */
  ghost predicate IsFirst(es: seq<Entry>, i: int) {
    0 <= i < |es| && forall j :: 0 <= j < i ==> es[j].inode != es[i].inode
  }

  /** The pairs under the name each inode is mapped by first. */
  ghost function FirstPairs(es: seq<Entry>, measure: Measure): set<Module> {
    set i | 0 <= i < |es| && IsFirst(es, i) && measure(es[i].inode).Some? :: ModuleOf(es[i], measure)
  }

  lemma {:induction false} KeptFrom(es: seq<Entry>, e: Entry)
    requires e in FirstPerInode(es)
    ensures e in es
  {
    var init := es[..|es| - 1];
    if e in FirstPerInode(init) {
      KeptFrom(init, e);
    }
  }

  lemma {:induction false} KeptCovers(es: seq<Entry>, k: nat)
    requires k < |es|
    ensures Seen(FirstPerInode(es), es[k].inode)
  {
    var n := |es| - 1;
    var kept, last := FirstPerInode(es[..n]), es[n];
    var all := FirstPerInode(es);
    if k < n {
      KeptCovers(es[..n], k);
      var i :| 0 <= i < |kept| && kept[i].inode == es[k].inode;
      assert all[i].inode == es[k].inode;
    } else if !Seen(kept, last.inode) {
      assert all[|kept|].inode == last.inode;
    }
  }

  /** The last entry is a first one exactly when its inode was not kept before. */
  lemma LastIsFirst(es: seq<Entry>)
    requires es != []
    ensures var n := |es| - 1; IsFirst(es, n) <==> !Seen(FirstPerInode(es[..n]), es[n].inode)
  {
    hide FirstPerInode;
    var n := |es| - 1;
    var init, kept := es[..n], FirstPerInode(es[..n]);
    if Seen(kept, es[n].inode) {
      var i :| 0 <= i < |kept| && kept[i].inode == es[n].inode;
      KeptFrom(init, kept[i]);
      var j :| 0 <= j < |init| && init[j] == kept[i];
      assert es[j].inode == es[n].inode;
    } else {
      forall j | 0 <= j < n ensures es[j].inode != es[n].inode {
        KeptCovers(init, j);
      }
    }
  }

  lemma FirstInPrefix(es: seq<Entry>, n: nat, i: nat)
    requires i < n <= |es|
    ensures IsFirst(es[..n], i) <==> IsFirst(es, i)
  {
    assert forall j :: 0 <= j <= i ==> es[..n][j] == es[j];
  }

  /** Every first entry is kept. */
  lemma {:induction false} FirstIsKept(es: seq<Entry>, i: nat)
    requires IsFirst(es, i)
    ensures es[i] in FirstPerInode(es)
  {
    var n := |es| - 1;
    if i == n {
      LastIsFirst(es);
    } else {
      FirstInPrefix(es, n, i);
      FirstIsKept(es[..n], i);
    }
  }

  /** Every kept entry is a first one. */
  lemma {:induction false} KeptIsFirst(es: seq<Entry>, e: Entry) returns (i: nat)
    requires e in FirstPerInode(es)
    ensures IsFirst(es, i) && es[i] == e
  {
    var n := |es| - 1;
    if e in FirstPerInode(es[..n]) {
      i := KeptIsFirst(es[..n], e);
      FirstInPrefix(es, n, i);
    } else {
      LastIsFirst(es);
      i := n;
    }
  }

  /** What is measured are the pairs under the first names. */
  lemma KeptPairs(es: seq<Entry>, measure: Measure)
    requires Measurable(FirstPerInode(es), measure)
    ensures Elements(Modules(FirstPerInode(es), measure)) == FirstPairs(es, measure)
  {
    hide FirstPerInode, IsFirst;
    var kept := FirstPerInode(es);
    var ms := Modules(kept, measure);
    forall m | m in Elements(ms) ensures m in FirstPairs(es, measure) {
      var k :| 0 <= k < |ms| && ms[k] == m;
      var i := KeptIsFirst(es, kept[k]);
      assert 0 <= i < |es| by { FirstIsIndex(es, i); }
    }
    forall m | m in FirstPairs(es, measure) ensures m in Elements(ms) {
      var i :| 0 <= i < |es| && IsFirst(es, i) && measure(es[i].inode).Some? && ModuleOf(es[i], measure) == m;
      FirstIsKept(es, i);
      var k :| 0 <= k < |kept| && kept[k] == es[i];
      assert ms[k] == m;
    }
  }

  lemma FirstIsIndex(es: seq<Entry>, i: int)
    requires IsFirst(es, i)
    ensures 0 <= i < |es|
  {
  }

  /** Two measurements hash the same list exactly when the pairs under the first names are the same. */
  lemma ImageIsTheFirstPairs(a: seq<Line>, ma: Measure, b: seq<Line>, mb: Measure)
    requires Measured(a, ma) && Measured(b, mb)
    ensures ImageOf(a, ma) == ImageOf(b, mb) <==> FirstPairs(Entries(a), ma) == FirstPairs(Entries(b), mb)
  {
    hide FirstPerInode, Entries, Canon, LeModule, FirstPairs, Modules;
    KeptPairs(Entries(a), ma);
    KeptPairs(Entries(b), mb);
    ModuleOrder();
    CanonIgnoresOrder(Modules(FirstPerInode(Entries(a)), ma), Modules(FirstPerInode(Entries(b)), mb), LeModule);
  }

  /** Every mapping's soname and digest are also those of some first mapping, of the same inode or another. */
  ghost predicate FirstNamed(es: seq<Entry>, measure: Measure) {
    forall j :: 0 <= j < |es| && measure(es[j].inode).Some? ==> NamedFirst(es, measure, j)
  }

  ghost predicate NamedFirst(es: seq<Entry>, measure: Measure, j: nat)
    requires j < |es| && measure(es[j].inode).Some?
  {
    exists i :: 0 <= i < |es| && IsFirst(es, i)
                && es[i].soname == es[j].soname && measure(es[i].inode) == measure(es[j].inode)
  }

  lemma PairNamedFirst(es: seq<Entry>, measure: Measure, j: nat)
    requires j < |es| && measure(es[j].inode).Some?
    ensures ModuleOf(es[j], measure) in FirstPairs(es, measure) <==> NamedFirst(es, measure, j)
  {
    hide IsFirst;
    if NamedFirst(es, measure, j) {
      var i :| 0 <= i < |es| && IsFirst(es, i)
               && es[i].soname == es[j].soname && measure(es[i].inode) == measure(es[j].inode);
      assert ModuleOf(es[i], measure) == ModuleOf(es[j], measure);
    }
  }

  lemma FirstPairsArePairs(es: seq<Entry>, measure: Measure)
    ensures FirstPairs(es, measure) <= Pairs(es, measure)
  {
    hide IsFirst;
  }

  /** The measurement is the set of all pairs exactly then. */
  lemma FirstPairsAreAll(es: seq<Entry>, measure: Measure)
    ensures FirstPairs(es, measure) == Pairs(es, measure) <==> FirstNamed(es, measure)
  {
    hide FirstPairs, NamedFirst, ModuleOf;
    FirstPairsArePairs(es, measure);
    forall j | 0 <= j < |es| && measure(es[j].inode).Some?
      ensures ModuleOf(es[j], measure) in FirstPairs(es, measure) <==> NamedFirst(es, measure, j)
      ensures ModuleOf(es[j], measure) in Pairs(es, measure)
    {
      PairNamedFirst(es, measure, j);
    }
  }

  /** The modules measured are the mapped pairs exactly when every mapping is named first somewhere. */
  lemma MeasuresAllPairs(es: seq<Entry>, measure: Measure)
    requires Measurable(FirstPerInode(es), measure)
    ensures Elements(Modules(FirstPerInode(es), measure)) == Pairs(es, measure) <==> FirstNamed(es, measure)
  {
    hide FirstPerInode, FirstPairs, Pairs, FirstNamed, Modules, Measurable;
    KeptPairs(es, measure);
    FirstPairsAreAll(es, measure);
  }

  /**
   Where that holds of both processes, two measurements hash the same module
   list exactly when the processes map the same set of (soname, digest) pairs,
   in whatever order and however often.
   */
  lemma ImageIsThePairSet(a: seq<Line>, ma: Measure, b: seq<Line>, mb: Measure)
    requires Measured(a, ma) && FirstNamed(Entries(a), ma)
    requires Measured(b, mb) && FirstNamed(Entries(b), mb)
    ensures ImageOf(a, ma) == ImageOf(b, mb) <==> Pairs(Entries(a), ma) == Pairs(Entries(b), mb)
  {
    hide FirstPerInode, Entries, ImageOf, FirstPairs, Pairs, FirstNamed, Measured;
    FirstPairsAreAll(Entries(a), ma);
    FirstPairsAreAll(Entries(b), mb);
    ImageIsTheFirstPairs(a, ma, b, mb);
  }

  /** Each inode appears under one file name. */
  ghost predicate OneName(es: seq<Entry>) {
    forall i, j :: 0 <= i < |es| && 0 <= j < |es| && es[i].inode == es[j].inode ==> es[i] == es[j]
  }

  /** The usual case: one file name per inode. */
  lemma OneNameIsFirst(es: seq<Entry>, measure: Measure)
    requires OneName(es)
    ensures FirstNamed(es, measure)
  {
    forall j | 0 <= j < |es| && measure(es[j].inode).Some? ensures NamedFirst(es, measure, j) {
      var i := FirstOf(es, j);
      assert es[i] == es[j];
    }
  }

  /** The first entry with the inode of entry j. */
  lemma {:induction false} FirstOf(es: seq<Entry>, j: nat) returns (i: nat)
    requires j < |es|
    ensures IsFirst(es, i) && es[i].inode == es[j].inode
    decreases j
  {
    if k :| 0 <= k < j && es[k].inode == es[j].inode {
      i := FirstOf(es, k);
    } else {
      i := j;
    }
  }

  /** One name per inode is not needed: here a second inode carries the second name. */
  lemma TwoNamesCanBeFirst(i: Inode, j: Inode, x: Soname, y: Soname, v: Sha512)
    requires i != j && x != y
    ensures var es := [Entry(i, x), Entry(j, y), Entry(i, y)]; !OneName(es) && FirstNamed(es, _ => Some(v))
  {
    var es, m: Measure := [Entry(i, x), Entry(j, y), Entry(i, y)], _ => Some(v);
    assert es[0].inode == es[2].inode && es[0] != es[2];
    assert IsFirst(es, 0) && IsFirst(es, 1);
    assert NamedFirst(es, m, 0) && NamedFirst(es, m, 1) && NamedFirst(es, m, 2);
  }

  /** Where it fails: one inode under two names is reported by the name mapped first, so the order shows. */
  lemma FirstNameWins(i: Inode, x: Soname, y: Soname, v: Sha512)
    requires x != y
    ensures var a, b := [Entry(i, x), Entry(i, y)], [Entry(i, y), Entry(i, x)];
            && Pairs(a, _ => Some(v)) == Pairs(b, _ => Some(v))
            && Modules(FirstPerInode(a), _ => Some(v)) == [Module(x, v)]
            && Modules(FirstPerInode(b), _ => Some(v)) == [Module(y, v)]
  {
    FirstOfTwo(i, x, y);
    FirstOfTwo(i, y, x);
    var a, b := [Entry(i, x), Entry(i, y)], [Entry(i, y), Entry(i, x)];
    var m: Measure := _ => Some(v);
    assert Pairs(a, m) == {Module(x, v), Module(y, v)} by {
      assert ModuleOf(a[0], m) == Module(x, v) && ModuleOf(a[1], m) == Module(y, v);
    }
    assert Pairs(b, m) == {Module(x, v), Module(y, v)} by {
      assert ModuleOf(b[0], m) == Module(y, v) && ModuleOf(b[1], m) == Module(x, v);
    }
  }

  lemma FirstOfTwo(i: Inode, x: Soname, y: Soname)
    ensures FirstPerInode([Entry(i, x), Entry(i, y)]) == [Entry(i, x)]
  {
    var s := [Entry(i, x), Entry(i, y)];
    assert s[..1] == [Entry(i, x)];
    assert s[..1][..0] == [];
    assert FirstPerInode(s[..1]) == [Entry(i, x)];
    assert FirstPerInode(s[..1])[0].inode == i;
  }
}
