/**
 Name resolution of `crates/hir/src/db.rs`: source declarations through
 per-package buckets, library classes through folded binary names.
 */
module Packages {
  import opened Wrappers

  type Name = string

  datatype SymbolKind =
    | Class | Interface | Enum | Record | AnnotationType | ModuleDecl | ObjectDecl
    | Method | Field | EnumConstant | PackageDecl | Function | Property | Constructor | OtherMember

  datatype Symbol = Symbol(name: Name, kind: SymbolKind, item: nat)
  datatype File = File(id: nat, package: Name, symbols: seq<Symbol>)
  datatype SymbolRef = SymbolRef(file: nat, package: Name, symbol: Symbol)
  datatype SourceClass = SourceClass(file: nat, item: nat)

  predicate IsClassLike(kind: SymbolKind) {
    kind.Class? || kind.Interface? || kind.Enum? || kind.Record?
    || kind.AnnotationType? || kind.ModuleDecl? || kind.ObjectDecl?
  }

  // ----- the packages a name may live in

  /** `package` is empty, or `name` continues it after a dot. */
  predicate IsPrefixPackage(package: Name, name: Name) {
    package == "" || (|package| < |name| && package == name[..|package|] && name[|package|] == '.')
  }

  /** The position of the last dot before `end`. */
  function LastDot(s: string, end: nat): (r: Option<nat>)
    requires end <= |s|
    ensures r.Some? ==> r.value < end && s[r.value] == '.' && forall i | r.value < i < end :: s[i] != '.'
    ensures r.None? ==> forall i | 0 <= i < end :: s[i] != '.'
  {
    if end == 0 then None
    else if s[end - 1] == '.' then Some(end - 1)
    else LastDot(s, end - 1)
  }

  ghost predicate LongestFirst(packages: seq<Name>) {
    forall i, j | 0 <= i < j < |packages| :: |packages[j]| <= |packages[i]|
  }

  method PackagePrefixes(fqn: Name) returns (out: seq<Name>)
    ensures forall p :: p in out <==> IsPrefixPackage(p, fqn)
    ensures LongestFirst(out)
  {
    out := [];
    var end: nat := |fqn|;
    var dot := LastDot(fqn, end);
    while dot.Some?
      invariant end <= |fqn| && dot == LastDot(fqn, end)
      invariant forall p | p in out :: IsPrefixPackage(p, fqn) && end <= |p|
      invariant forall i | end <= i < |fqn| && fqn[i] == '.' :: fqn[..i] in out
      invariant LongestFirst(out)
      decreases end
    {
      out := out + [fqn[..dot.value]];
      end := dot.value;
      dot := LastDot(fqn, end);
    }
    forall p | p != "" && IsPrefixPackage(p, fqn) ensures p in out {
      assert p == fqn[..|p|];
    }
    out := out + [""];
  }

  // ----- specification: a scan of every declaration in root, file and declaration order

  function FileRefs(file: File): (refs: seq<SymbolRef>)
    ensures |refs| == |file.symbols|
  {
    seq(|file.symbols|, i requires 0 <= i < |file.symbols| => SymbolRef(file.id, file.package, file.symbols[i]))
  }

  function Refs(files: seq<File>): seq<SymbolRef> {
    if files == [] then [] else FileRefs(files[0]) + Refs(files[1..])
  }

  function Flatten(roots: seq<seq<File>>): seq<File> {
    if roots == [] then [] else roots[0] + Flatten(roots[1..])
  }

  predicate Declares(ref: SymbolRef, package: Name, fqn: Name) {
    ref.package == package && ref.symbol.name == fqn && IsClassLike(ref.symbol.kind)
  }

  /** `refs[i]` is a class-like declaration of `fqn` in one of its prefix packages. */
  predicate IsCandidate(refs: seq<SymbolRef>, i: nat, fqn: Name) {
    i < |refs| && Declares(refs[i], refs[i].package, fqn) && IsPrefixPackage(refs[i].package, fqn)
  }

  /** No candidate has a longer package; none with the same package comes earlier. */
  ghost predicate IsBest(refs: seq<SymbolRef>, i: nat, fqn: Name) {
    && IsCandidate(refs, i, fqn)
    && forall j: nat | IsCandidate(refs, j, fqn) ::
         |refs[j].package| < |refs[i].package| || (refs[j].package == refs[i].package && i <= j)
  }

  // ----- the buckets

  function FilesOf(files: seq<File>, package: Name): seq<File> {
    if files == [] then []
    else (if files[0].package == package then [files[0]] else []) + FilesOf(files[1..], package)
  }

  function Named(refs: seq<SymbolRef>, fqn: Name): seq<SymbolRef> {
    if refs == [] then []
    else (if refs[0].symbol.name == fqn then [refs[0]] else []) + Named(refs[1..], fqn)
  }

  function Bucket<K(==), V>(m: map<K, seq<V>>, key: K): seq<V> {
    if key in m then m[key] else []
  }

  lemma {:induction false} FilesOfAppend(xs: seq<File>, ys: seq<File>, package: Name)
    ensures FilesOf(xs + ys, package) == FilesOf(xs, package) + FilesOf(ys, package)
  {
    if xs == [] {
      assert xs + ys == ys;
    } else {
      var all, head := xs + ys, FilesOf([xs[0]], package);
      assert all[0] == xs[0] && all[1..] == xs[1..] + ys;
      FilesOfAppend(xs[1..], ys, package);
      FilesOfOne(xs[0], package);
      assert FilesOf(all, package) == head + FilesOf(all[1..], package);
    }
  }

  lemma {:induction false} NamedAppend(xs: seq<SymbolRef>, ys: seq<SymbolRef>, fqn: Name)
    ensures Named(xs + ys, fqn) == Named(xs, fqn) + Named(ys, fqn)
  {
    if xs == [] {
      assert xs + ys == ys;
    } else {
      var all, head := xs + ys, Named([xs[0]], fqn);
      assert all[0] == xs[0] && all[1..] == xs[1..] + ys;
      NamedAppend(xs[1..], ys, fqn);
      NamedOne(xs[0], fqn);
      assert Named(all, fqn) == head + Named(all[1..], fqn);
    }
  }

  lemma {:induction false} RefsAppend(xs: seq<File>, ys: seq<File>)
    ensures Refs(xs + ys) == Refs(xs) + Refs(ys)
  {
    if xs == [] {
      assert xs + ys == ys;
    } else {
      assert (xs + ys)[1..] == xs[1..] + ys;
      RefsAppend(xs[1..], ys);
    }
  }

  lemma FilesOfOne(file: File, package: Name)
    ensures FilesOf([file], package) == if file.package == package then [file] else []
  {
    assert [file][1..] == [];
  }

  lemma NamedOne(ref: SymbolRef, fqn: Name)
    ensures Named([ref], fqn) == if ref.symbol.name == fqn then [ref] else []
  {
    assert [ref][1..] == [];
  }

  lemma GroupInsert(groups: map<Name, seq<File>>, base: seq<File>, file: File)
    requires forall package :: Bucket(groups, package) == FilesOf(base, package)
    ensures forall package ::
      Bucket(groups[file.package := Bucket(groups, file.package) + [file]], package) == FilesOf(base + [file], package)
  {
    forall package
      ensures Bucket(groups[file.package := Bucket(groups, file.package) + [file]], package) == FilesOf(base + [file], package)
    {
      FilesOfAppend(base, [file], package);
      FilesOfOne(file, package);
      assert Bucket(groups, package) == FilesOf(base, package);
    }
  }

  /** The files of one root grouped by package, each group in file order. */
  method RootPackageFiles(root: seq<File>) returns (out: map<Name, seq<File>>)
    ensures forall package :: Bucket(out, package) == FilesOf(root, package)
  {
    out := map[];
    for i := 0 to |root|
      invariant forall package :: Bucket(out, package) == FilesOf(root[..i], package)
    {
      var file := root[i];
      GroupInsert(out, root[..i], file);
      assert root[..i + 1] == root[..i] + [file];
      out := out[file.package := Bucket(out, file.package) + [file]];
    }
    assert root[..|root|] == root;
  }

  lemma FilesOfTail(roots: seq<seq<File>>, i: nat, package: Name)
    requires i < |roots|
    ensures FilesOf(Flatten(roots[i..]), package)
         == FilesOf(roots[i], package) + FilesOf(Flatten(roots[i + 1..]), package)
  {
    assert roots[i..][1..] == roots[i + 1..];
    FilesOfAppend(roots[i], Flatten(roots[i + 1..]), package);
  }

  /** The files of a source set declaring `package`, root by root. */
  method PackageFiles(roots: seq<seq<File>>, package: Name) returns (out: seq<File>)
    ensures out == FilesOf(Flatten(roots), package)
  {
    out := [];
    for i := 0 to |roots|
      invariant out + FilesOf(Flatten(roots[i..]), package) == FilesOf(Flatten(roots[0..]), package)
    {
      var buckets := RootPackageFiles(roots[i]);
      FilesOfTail(roots, i, package);
      assert Bucket(buckets, package) == FilesOf(roots[i], package);
      out := out + Bucket(buckets, package);
    }
    assert roots[0..] == roots;
  }

  lemma IndexInsert(index: map<Name, seq<SymbolRef>>, base: seq<SymbolRef>, ref: SymbolRef)
    requires forall name :: Bucket(index, name) == Named(base, name)
    ensures forall name ::
      Bucket(index[ref.symbol.name := Bucket(index, ref.symbol.name) + [ref]], name) == Named(base + [ref], name)
  {
    forall name
      ensures Bucket(index[ref.symbol.name := Bucket(index, ref.symbol.name) + [ref]], name) == Named(base + [ref], name)
    {
      NamedAppend(base, [ref], name);
      NamedOne(ref, name);
      assert Bucket(index, name) == Named(base, name);
    }
  }

  /** Adds the declarations of one file to an index of those before it. */
  method AddFile(index: map<Name, seq<SymbolRef>>, file: File, ghost base: seq<SymbolRef>)
    returns (out: map<Name, seq<SymbolRef>>)
    requires forall name :: Bucket(index, name) == Named(base, name)
    ensures forall name :: Bucket(out, name) == Named(base + FileRefs(file), name)
  {
    out := index;
    var refs := FileRefs(file);
    assert base + refs[..0] == base;
    for k := 0 to |refs|
      invariant forall name :: Bucket(out, name) == Named(base + refs[..k], name)
    {
      var ref := refs[k];
      IndexInsert(out, base + refs[..k], ref);
      assert base + refs[..k + 1] == (base + refs[..k]) + [ref];
      out := out[ref.symbol.name := Bucket(out, ref.symbol.name) + [ref]];
    }
    assert refs[..|refs|] == refs;
  }

  lemma RefsSnoc(files: seq<File>, i: nat)
    requires i < |files|
    ensures Refs(files[..i + 1]) == Refs(files[..i]) + FileRefs(files[i])
  {
    assert files[..i + 1] == files[..i] + [files[i]];
    RefsAppend(files[..i], [files[i]]);
    assert [files[i]][1..] == [];
    assert Refs([files[i]]) == FileRefs(files[i]) + [];
  }

  /** Every declaration of the given files under its name, in file and declaration order. */
  method SymbolsIndex(files: seq<File>) returns (out: map<Name, seq<SymbolRef>>)
    ensures forall name :: Bucket(out, name) == Named(Refs(files), name)
  {
    out := map[];
    for i := 0 to |files|
      invariant forall name :: Bucket(out, name) == Named(Refs(files[..i]), name)
    {
      out := AddFile(out, files[i], Refs(files[..i]));
      RefsSnoc(files, i);
    }
    assert files[..|files|] == files;
  }

  // ----- resolution

  /** The first class-like reference of a bucket. */
  function FirstClassLike(refs: seq<SymbolRef>): Option<SymbolRef> {
    if refs == [] then None
    else if IsClassLike(refs[0].symbol.kind) then Some(refs[0])
    else FirstClassLike(refs[1..])
  }

  ghost predicate FirstDeclaration(refs: seq<SymbolRef>, i: nat, package: Name, fqn: Name) {
    i < |refs| && Declares(refs[i], package, fqn) && forall j | 0 <= j < i :: !Declares(refs[j], package, fqn)
  }

  ghost predicate NoneDeclares(refs: seq<SymbolRef>, package: Name, fqn: Name) {
    forall j | 0 <= j < |refs| :: !Declares(refs[j], package, fqn)
  }

  /** The answer is the first declaration among the references, if there is one. */
  ghost predicate Answers(r: Option<SymbolRef>, refs: seq<SymbolRef>, i: nat, package: Name, fqn: Name) {
    if r.Some? then FirstDeclaration(refs, i, package, fqn) && r.value == refs[i] else NoneDeclares(refs, package, fqn)
  }

  /** A file of another package goes before: nothing changes but the position. */
  lemma AnswersPastForeignFile(r: Option<SymbolRef>, here: seq<SymbolRef>, rest: seq<SymbolRef>, k: nat, package: Name, fqn: Name)
    requires Answers(r, rest, k, package, fqn) && forall j | 0 <= j < |here| :: here[j].package != package
    ensures Answers(r, here + rest, |here| + k, package, fqn)
  {}

  /** A file of the package goes before: its own first declaration wins, if it has one. */
  lemma AnswersPastOwnFile(here: seq<SymbolRef>, more: seq<SymbolRef>, rest: seq<SymbolRef>, k: nat, package: Name, fqn: Name)
    returns (i: nat)
    requires Answers(FirstClassLike(more), rest, k, package, fqn)
    requires forall j | 0 <= j < |here| :: here[j].package == package
    ensures Answers(FirstClassLike(Named(here, fqn) + more), here + rest, i, package, fqn)
  {
    var first := FirstInFile(here, package, fqn, more);
    i := if first < |here| then first else |here| + k;
  }

  /** The bucket of a package answers with the earliest declaration the whole scan has there. */
  lemma {:induction false} BucketFindsFirst(files: seq<File>, package: Name, fqn: Name) returns (i: nat)
    ensures Answers(FirstClassLike(Named(Refs(FilesOf(files, package)), fqn)), Refs(files), i, package, fqn)
  {
    i := 0;
    if files != [] {
      var here, rest := FileRefs(files[0]), files[1..];
      var bucket := FilesOf(rest, package);
      var k := BucketFindsFirst(rest, package, fqn);
      if files[0].package == package {
        RefsOfOneMore(files[0], bucket);
        NamedAppend(here, Refs(bucket), fqn);
        i := AnswersPastOwnFile(here, Named(Refs(bucket), fqn), Refs(rest), k, package, fqn);
      } else {
        assert FilesOf(files, package) == bucket;
        AnswersPastForeignFile(FirstClassLike(Named(Refs(bucket), fqn)), here, Refs(rest), k, package, fqn);
        i := |here| + k;
      }
    }
  }

  lemma RefsOfOneMore(file: File, files: seq<File>)
    ensures Refs([file] + files) == FileRefs(file) + Refs(files)
  {
    assert ([file] + files)[1..] == files;
  }

  lemma {:induction false} FirstInFile(refs: seq<SymbolRef>, package: Name, fqn: Name, more: seq<SymbolRef>)
    returns (i: nat)
    requires forall j | 0 <= j < |refs| :: refs[j].package == package
    ensures i <= |refs| && forall j | 0 <= j < i :: !Declares(refs[j], package, fqn)
    ensures i < |refs| ==> Declares(refs[i], package, fqn) && FirstClassLike(Named(refs, fqn) + more) == Some(refs[i])
    ensures i == |refs| ==> FirstClassLike(Named(refs, fqn) + more) == FirstClassLike(more)
  {
    i := 0;
    if refs == [] {
      assert Named(refs, fqn) + more == more;
    } else {
      var tail := Named(refs[1..], fqn) + more;
      if refs[0].symbol.name == fqn {
        assert Named(refs, fqn) + more == [refs[0]] + tail;
        assert ([refs[0]] + tail)[1..] == tail;
      } else {
        assert Named(refs, fqn) + more == tail;
      }
      if !Declares(refs[0], package, fqn) {
        var k := FirstInFile(refs[1..], package, fqn, more);
        i := k + 1;
      }
    }
  }

  /** The bucket probe of one package. */
  method ProbePackage(roots: seq<seq<File>>, package: Name, fqn: Name) returns (found: Option<SymbolRef>, ghost i: nat)
    ensures var refs := Refs(Flatten(roots));
      && (found.Some? ==> FirstDeclaration(refs, i, package, fqn) && found.value == refs[i])
      && (found.None? ==> NoneDeclares(refs, package, fqn))
  {
    var files := PackageFiles(roots, package);
    var index := SymbolsIndex(files);
    found := FirstClassLike(Bucket(index, fqn));
    assert Bucket(index, fqn) == Named(Refs(files), fqn);
    i := BucketFindsFirst(Flatten(roots), package, fqn);
  }

  /** A first declaration in the first package that has one is the best candidate. */
  lemma FirstPackageIsBest(refs: seq<SymbolRef>, packages: seq<Name>, p: nat, i: nat, fqn: Name)
    requires LongestFirst(packages) && (forall q :: q in packages <==> IsPrefixPackage(q, fqn))
    requires p < |packages| && FirstDeclaration(refs, i, packages[p], fqn)
    requires forall q | 0 <= q < p :: NoneDeclares(refs, packages[q], fqn)
    ensures IsBest(refs, i, fqn)
  {
    assert packages[p] in packages;
    forall j: nat | IsCandidate(refs, j, fqn)
      ensures |refs[j].package| < |packages[p]| || (refs[j].package == packages[p] && i <= j)
    {
      var q :| 0 <= q < |packages| && packages[q] == refs[j].package;
      var package := packages[q];
      assert q < p ==> NoneDeclares(refs, package, fqn);
      SamePrefix(packages[p], packages[q], fqn);
    }
  }

  lemma NoPackageNoCandidate(refs: seq<SymbolRef>, packages: seq<Name>, fqn: Name)
    requires forall q :: q in packages <==> IsPrefixPackage(q, fqn)
    requires forall q | 0 <= q < |packages| :: NoneDeclares(refs, packages[q], fqn)
    ensures forall i: nat :: !IsCandidate(refs, i, fqn)
  {
    forall i | 0 <= i < |refs| && IsPrefixPackage(refs[i].package, fqn)
      ensures !Declares(refs[i], refs[i].package, fqn)
    {
      var q :| 0 <= q < |packages| && packages[q] == refs[i].package;
      var package := packages[q];
      assert NoneDeclares(refs, package, fqn);
    }
  }

  /**
   Probes the prefix packages of `fqn`, most specific first. The answer is the
   best candidate of a scan of the whole source set.
   */
  method SourceSymbolResolve(roots: seq<seq<File>>, fqn: Name) returns (r: Option<SourceClass>)
    ensures var refs := Refs(Flatten(roots));
      && (r.None? ==> forall i: nat :: !IsCandidate(refs, i, fqn))
      && (r.Some? ==> exists i: nat :: IsBest(refs, i, fqn) && r.value == SourceClass(refs[i].file, refs[i].symbol.item))
  {
    ghost var refs := Refs(Flatten(roots));
    var packages := PackagePrefixes(fqn);
    for p := 0 to |packages|
      invariant forall q | 0 <= q < p :: NoneDeclares(refs, packages[q], fqn)
    {
      var found, i := ProbePackage(roots, packages[p], fqn);
      if found.Some? {
        FirstPackageIsBest(refs, packages, p, i, fqn);
        return Some(SourceClass(found.value.file, found.value.symbol.item));
      }
    }
    NoPackageNoCandidate(refs, packages, fqn);
    r := None;
  }

  lemma SamePrefix(p: Name, q: Name, fqn: Name)
    requires IsPrefixPackage(p, fqn) && IsPrefixPackage(q, fqn)
    ensures |p| == |q| ==> p == q
  {}

  /** Where every file's package is a prefix of what it declares, the buckets miss nothing a scan finds. */
  lemma BucketsMissNothing(refs: seq<SymbolRef>, fqn: Name)
    requires forall i | 0 <= i < |refs| :: IsPrefixPackage(refs[i].package, refs[i].symbol.name)
    ensures (exists i: nat :: IsCandidate(refs, i, fqn))
       <==> (exists i | 0 <= i < |refs| :: refs[i].symbol.name == fqn && IsClassLike(refs[i].symbol.kind))
  {
    if i :| 0 <= i < |refs| && refs[i].symbol.name == fqn && IsClassLike(refs[i].symbol.kind) {
      assert IsCandidate(refs, i, fqn);
    }
  }

  // ----- library classes

  type Library = map<Name, nat>

  datatype ResolvedClass = ResolvedClass(library: nat, entry: nat)

  function Dots(s: string): nat {
    if s == "" then 0 else Dots(s[..|s| - 1]) + if s[|s| - 1] == '.' then 1 else 0
  }

  /** The rightmost dot becomes `$`: one more type is read as nested. */
  function FoldOnce(name: Name): Option<Name> {
    var dot := LastDot(name, |name|);
    if dot.Some? then Some(name[dot.value := '$']) else None
  }

  lemma {:induction false} DotsAfterFold(s: string, i: nat)
    requires i < |s| && s[i] == '.'
    ensures Dots(s[i := '$']) == Dots(s) - 1
  {
    var t := s[i := '$'];
    if i == |s| - 1 {
      assert t[..|t| - 1] == s[..|s| - 1];
    } else {
      assert t[..|t| - 1] == s[..|s| - 1][i := '$'];
      DotsAfterFold(s[..|s| - 1], i);
    }
  }

  /** How many folds of `name` it takes to hit a class of `lib`. */
  function FewestFolds(lib: Library, name: Name): Option<nat>
    decreases Dots(name)
  {
    if name in lib then Some(0)
    else
      var folded := FoldOnce(name);
      if folded.None? then None
      else
        DotsAfterFold(name, LastDot(name, |name|).value);
        var more := FewestFolds(lib, folded.value);
        if more.Some? then Some(more.value + 1) else None
  }

  /** `name` with its `k` rightmost dots folded, as far as it has that many. */
  function Folded(name: Name, k: nat): Name
    decreases k
  {
    if k == 0 then name
    else
      var folded := FoldOnce(name);
      if folded.None? then name else Folded(folded.value, k - 1)
  }

  /** Folding rewrites exactly the dots with fewer than `k` dots to their right. */
  lemma {:induction false} FoldedRewritesRightmost(name: Name, k: nat, i: nat)
    requires i < |name|
    ensures |Folded(name, k)| == |name|
    ensures Folded(name, k)[i]
         == if name[i] == '.' && Dots(name) - Dots(name[..i]) <= k then '$' else name[i]
    decreases k
  {
    DotsFrom(name, i);
    var dot := LastDot(name, |name|);
    if k > 0 && dot.Some? {
      var folded := name[dot.value := '$'];
      DotsAfterFold(name, dot.value);
      FoldedRewritesRightmost(folded, k - 1, i);
      NoDotsAfter(name, dot.value);
      if i <= dot.value {
        assert folded[..i] == name[..i];
      }
    } else if dot.None? {
      assert name[i] != '.';
    }
  }

  lemma {:induction false} DotsFrom(s: string, i: nat)
    requires i <= |s|
    ensures Dots(s[..i]) <= Dots(s)
    ensures i < |s| && s[i] == '.' ==> Dots(s[..i]) < Dots(s)
  {
    if i == |s| {
      assert s[..i] == s;
    } else {
      assert s[..|s| - 1][..i] == s[..i];
      DotsFrom(s[..|s| - 1], i);
    }
  }

  lemma {:induction false} NoDotsAfter(s: string, dot: nat)
    requires dot < |s| && s[dot] == '.' && forall i | dot < i < |s| :: s[i] != '.'
    ensures Dots(s) == Dots(s[..dot]) + 1
  {
    if dot < |s| - 1 {
      var shorter := s[..|s| - 1];
      assert shorter[..dot] == s[..dot];
      NoDotsAfter(shorter, dot);
    }
  }

  /** Library `l` wins: fewest folds first, then the earliest library. */
  ghost predicate Wins(libs: seq<Library>, fqn: Name, l: nat) {
    && l < |libs| && FewestFolds(libs[l], fqn).Some?
    && forall m: nat | m < |libs| && FewestFolds(libs[m], fqn).Some? ::
         var a, b := FewestFolds(libs[l], fqn).value, FewestFolds(libs[m], fqn).value;
         a < b || (a == b && l <= m)
  }

  /** `k` folds in, every library is `k` folds closer to its hit. */
  ghost predicate Level(libs: seq<Library>, fqn: Name, candidate: Name, k: nat) {
    && candidate == Folded(fqn, k)
    && (forall n: nat :: Folded(candidate, n) == Folded(fqn, k + n))
    && (forall l: nat | l < |libs| :: FewestFolds(libs[l], fqn) == Later(FewestFolds(libs[l], candidate), k))
  }

  lemma LevelDown(libs: seq<Library>, fqn: Name, candidate: Name, k: nat, folded: Name)
    requires Level(libs, fqn, candidate, k) && FoldOnce(candidate) == Some(folded)
    requires forall l | 0 <= l < |libs| :: candidate !in libs[l]
    ensures Level(libs, fqn, folded, k + 1)
  {
    forall n: nat ensures Folded(folded, n) == Folded(fqn, k + 1 + n) {
      assert Folded(candidate, n + 1) == Folded(fqn, k + (n + 1));
    }
    assert Folded(folded, 0) == folded;
  }

  /** The first library holding `candidate`. */
  method FindClass(libs: seq<Library>, candidate: Name) returns (l: nat)
    ensures l <= |libs| && (l < |libs| ==> candidate in libs[l])
    ensures forall m | 0 <= m < l :: candidate !in libs[m]
  {
    l := 0;
    while l < |libs| && candidate !in libs[l]
      invariant l <= |libs| && forall m | 0 <= m < l :: candidate !in libs[m]
    {
      l := l + 1;
    }
  }

  method ResolveInLibraries(libs: seq<Library>, fqn: Name) returns (r: Option<ResolvedClass>)
    ensures r.None? <==> forall l: nat | l < |libs| :: FewestFolds(libs[l], fqn).None?
    ensures r.Some? ==> Wins(libs, fqn, r.value.library)
    ensures r.Some? ==> var l := r.value.library; var name := Folded(fqn, FewestFolds(libs[l], fqn).value);
                        name in libs[l] && r.value.entry == libs[l][name]
  {
    var candidate := fqn;
    ghost var k := 0;
    while true
      invariant Level(libs, fqn, candidate, k)
      decreases Dots(candidate)
    {
      var l := FindClass(libs, candidate);
      if l < |libs| {
        return Some(ResolvedClass(l, libs[l][candidate]));
      }
      var folded := FoldOnce(candidate);
      if folded.None? {
        return None;
      }
      DotsAfterFold(candidate, LastDot(candidate, |candidate|).value);
      LevelDown(libs, fqn, candidate, k, folded.value);
      candidate := folded.value;
      k := k + 1;
    }
  }

  function Later(folds: Option<nat>, k: nat): Option<nat> {
    if folds.Some? then Some(folds.value + k) else None
  }

  // ----- the two scopes

  datatype Entry = SourceSet(roots: seq<seq<File>>) | Jar(lib: Library)

  datatype Resolved = Source(class_: SourceClass) | FromLibrary(entry: nat, position: nat)

  /** The entry declares or holds a class the name can mean. */
  ghost predicate Has(e: Entry, fqn: Name) {
    match e
    case SourceSet(roots) => exists i: nat :: IsCandidate(Refs(Flatten(roots)), i, fqn)
    case Jar(lib) => FewestFolds(lib, fqn).Some?
  }

  /** What the entry at position `at` answers when it has one. */
  ghost predicate AnswersFrom(e: Entry, at: nat, fqn: Name, r: Resolved) {
    match e
    case SourceSet(roots) =>
      var refs := Refs(Flatten(roots));
      r.Source? && exists i: nat :: IsBest(refs, i, fqn) && r.class_ == SourceClass(refs[i].file, refs[i].symbol.item)
    case Jar(lib) =>
      var folds := FewestFolds(lib, fqn);
      && r.FromLibrary? && r.entry == at && folds.Some?
      && Folded(fqn, folds.value) in lib && r.position == lib[Folded(fqn, folds.value)]
  }

  method ResolveEntry(e: Entry, at: nat, fqn: Name) returns (r: Option<Resolved>)
    ensures r.Some? <==> Has(e, fqn)
    ensures r.Some? ==> AnswersFrom(e, at, fqn, r.value)
  {
    match e
    case SourceSet(roots) =>
      var found := SourceSymbolResolve(roots, fqn);
      if found.Some? {
        ghost var i: nat :| IsBest(Refs(Flatten(roots)), i, fqn);
        assert IsCandidate(Refs(Flatten(roots)), i, fqn);
      }
      assert found.None? ==> forall i: nat :: !IsCandidate(Refs(Flatten(roots)), i, fqn);
      r := if found.Some? then Some(Source(found.value)) else None;
    case Jar(lib) =>
      var libs := [lib];
      var found := ResolveInLibraries(libs, fqn);
      assert found.None? <==> FewestFolds(libs[0], fqn).None?;
      assert found.Some? <==> Has(Jar(lib), fqn);
      r := if found.Some? then Some(FromLibrary(at, found.value.entry)) else None;
  }

  ghost predicate FirstWith(entries: seq<Entry>, fqn: Name, k: nat) {
    k < |entries| && Has(entries[k], fqn) && forall j | 0 <= j < k :: !Has(entries[j], fqn)
  }

  /** A source set's own classes, then its classpath entry by entry; an unknown source set has no classpath. */
  method FqnResolve(own: seq<seq<File>>, classpath: Option<seq<Entry>>, fqn: Name) returns (r: Option<Resolved>)
    ensures var all := [SourceSet(own)] + (if classpath.Some? then classpath.value else []);
      && (r.None? ==> forall k | 0 <= k < |all| :: !Has(all[k], fqn))
      && (r.Some? ==> exists k: nat :: FirstWith(all, fqn, k) && AnswersFrom(all[k], k, fqn, r.value))
  {
    ghost var all := [SourceSet(own)] + (if classpath.Some? then classpath.value else []);
    r := ResolveEntry(SourceSet(own), 0, fqn);
    if r.Some? {
      assert FirstWith(all, fqn, 0);
      return;
    }
    if classpath.None? {
      return None;
    }
    for k := 0 to |classpath.value|
      invariant forall j | 0 <= j <= k :: !Has(all[j], fqn)
    {
      r := ResolveEntry(classpath.value[k], k + 1, fqn);
      assert all[k + 1] == classpath.value[k];
      if r.Some? {
        assert FirstWith(all, fqn, k + 1);
        return;
      }
    }
    r := None;
  }

  function Jars(libs: seq<Library>): seq<Entry> {
    seq(|libs|, l requires 0 <= l < |libs| => Jar(libs[l]))
  }

  /** Over a classpath of jars the first entry that has the name is the first hit. */
  lemma FirstJarIsFirstHit(own: seq<seq<File>>, libs: seq<Library>, fqn: Name, k: nat)
    requires !Has(SourceSet(own), fqn) && FirstWith([SourceSet(own)] + Jars(libs), fqn, k)
    ensures k > 0 && FirstHit(libs, fqn, k - 1)
  {
    var all := [SourceSet(own)] + Jars(libs);
    forall m | 0 <= m < k - 1 ensures FewestFolds(libs[m], fqn).None? {
      assert !Has(all[m + 1], fqn);
    }
  }

  /** A source set asks its libraries one at a time, each with every fold. */
  ghost predicate FirstHit(libs: seq<Library>, fqn: Name, l: nat) {
    && l < |libs| && FewestFolds(libs[l], fqn).Some?
    && forall m | 0 <= m < l :: FewestFolds(libs[m], fqn).None?
  }

  /** The two orders choose the same library unless a later one needs fewer folds than the first hit. */
  lemma ScopesAgreeIff(libs: seq<Library>, fqn: Name, l: nat, first: nat)
    requires Wins(libs, fqn, l) && FirstHit(libs, fqn, first)
    ensures l == first <==> forall m | first < m < |libs| && FewestFolds(libs[m], fqn).Some? ::
                              FewestFolds(libs[first], fqn).value <= FewestFolds(libs[m], fqn).value
  {
    assert first <= l;
  }

  /** A nested class in the first jar shadows a top-level one in the second, or not, by scope. */
  lemma ScopesDisagree()
    ensures var libs := [map["a$B" := 0], map["a.B" := 0]];
      Wins(libs, "a.B", 1) && FirstHit(libs, "a.B", 0)
  {
    var libs: seq<Library> := [map["a$B" := 0], map["a.B" := 0]];
    assert LastDot("a.B", 3) == Some(1);
    assert "a.B"[1 := '$'] == "a$B";
    assert "a$B" in libs[0] && "a.B" !in libs[0];
    assert FewestFolds(libs[0], "a.B") == Some(1);
    assert FewestFolds(libs[1], "a.B") == Some(0);
  }

  // ----- what the scan and the folds are, in the words of the source set

  lemma ClassLikeIs(kind: SymbolKind)
    ensures IsClassLike(kind) <==> kind in {Class, Interface, Enum, Record, AnnotationType, ModuleDecl, ObjectDecl}
  {}

  /** `k` folds hit, and fewer do not. */
  ghost predicate FirstFold(lib: Library, name: Name, k: nat) {
    Folded(name, k) in lib && forall j: nat | j < k :: Folded(name, j) !in lib
  }

  lemma FirstFoldAfterOne(lib: Library, name: Name, folded: Name, k: nat)
    requires FoldOnce(name) == Some(folded) && name !in lib
    ensures FirstFold(lib, name, k) <==> k > 0 && FirstFold(lib, folded, k - 1)
  {
    forall j: nat ensures Folded(name, j + 1) == Folded(folded, j) {}
    assert Folded(name, 0) == name;
    if k > 0 && FirstFold(lib, folded, k - 1) {
      forall j: nat | j < k ensures Folded(name, j) !in lib {
        assert j > 0 ==> Folded(name, j) == Folded(folded, j - 1);
      }
    }
    if k > 0 && FirstFold(lib, name, k) {
      forall j: nat | j < k - 1 ensures Folded(folded, j) !in lib {
        assert Folded(name, j + 1) !in lib;
      }
    }
  }

  /** The fewest folds are the first fold that hits. */
  lemma {:induction false} FewestFoldsIff(lib: Library, name: Name, k: nat)
    ensures FewestFolds(lib, name) == Some(k) <==> FirstFold(lib, name, k)
    decreases Dots(name)
  {
    assert Folded(name, 0) == name;
    var folded := FoldOnce(name);
    if name !in lib {
      if folded.None? {
        assert Folded(name, k) == name;
      } else {
        DotsAfterFold(name, LastDot(name, |name|).value);
        FirstFoldAfterOne(lib, name, folded.value, k);
        if k > 0 {
          FewestFoldsIff(lib, folded.value, k - 1);
        }
      }
    }
  }

  lemma {:induction false} FlattenSplit(roots: seq<seq<File>>, r: nat)
    requires r < |roots|
    ensures Flatten(roots) == Flatten(roots[..r]) + (roots[r] + Flatten(roots[r + 1..]))
  {
    if r == 0 {
      assert roots[..0] == [];
    } else {
      FlattenSplit(roots[1..], r - 1);
      assert roots[..r][0] == roots[0] && roots[..r][1..] == roots[1..][..r - 1];
      assert roots[1..][r..] == roots[r + 1..];
    }
  }

  /** There is a declaration `k` in file `f` of root `r`. */
  predicate Declared(roots: seq<seq<File>>, r: nat, f: nat, k: nat) {
    r < |roots| && f < |roots[r]| && k < |roots[r][f].symbols|
  }

  /** Its place in the scan: after all earlier roots, files of the root and declarations of the file. */
  function Place(roots: seq<seq<File>>, r: nat, f: nat, k: nat): nat
    requires Declared(roots, r, f, k)
  {
    |Refs(Flatten(roots[..r]))| + |Refs(roots[r][..f])| + k
  }

  lemma RefsSplit(files: seq<File>, f: nat)
    requires f < |files|
    ensures Refs(files) == Refs(files[..f]) + FileRefs(files[f]) + Refs(files[f + 1..])
  {
    assert files == files[..f] + files[f..];
    RefsAppend(files[..f], files[f..]);
    assert files[f..][1..] == files[f + 1..];
  }

  /** The scan holds each declaration at its place, with its file and the package of that file. */
  lemma ScanHoldsDeclarations(roots: seq<seq<File>>, r: nat, f: nat, k: nat)
    requires Declared(roots, r, f, k)
    ensures var refs, file, p := Refs(Flatten(roots)), roots[r][f], Place(roots, r, f, k);
      p < |refs| && refs[p] == SymbolRef(file.id, file.package, file.symbols[k])
  {
    var before, after := Flatten(roots[..r]), Flatten(roots[r + 1..]);
    FlattenSplit(roots, r);
    RefsAppend(before, roots[r] + after);
    RefsAppend(roots[r], after);
    RefsSplit(roots[r], f);
    var here := FileRefs(roots[r][f]);
    assert here[k] == SymbolRef(roots[r][f].id, roots[r][f].package, roots[r][f].symbols[k]);
  }

  lemma {:induction false} ScanOfFiles(files: seq<File>, q: nat) returns (f: nat, k: nat)
    requires q < |Refs(files)|
    ensures f < |files| && k < |files[f].symbols| && q == |Refs(files[..f])| + k
  {
    var here := FileRefs(files[0]);
    if q < |here| {
      f, k := 0, q;
      assert files[..0] == [];
    } else {
      var g;
      g, k := ScanOfFiles(files[1..], q - |here|);
      f := g + 1;
      assert files[..f][0] == files[0] && files[..f][1..] == files[1..][..g];
    }
  }

  /** And nothing else: every place of the scan is that of a declaration. */
  lemma {:induction false} ScanHoldsNothingElse(roots: seq<seq<File>>, p: nat) returns (r: nat, f: nat, k: nat)
    requires p < |Refs(Flatten(roots))|
    ensures Declared(roots, r, f, k) && Place(roots, r, f, k) == p
  {
    var here, rest := Refs(roots[0]), Flatten(roots[1..]);
    RefsAppend(roots[0], rest);
    if p < |here| {
      f, k := ScanOfFiles(roots[0], p);
      r := 0;
      assert roots[..0] == [];
    } else {
      var q;
      q, f, k := ScanHoldsNothingElse(roots[1..], p - |here|);
      r := q + 1;
      assert roots[..r][0] == roots[0] && roots[..r][1..] == roots[1..][..q];
      RefsAppend(roots[0], Flatten(roots[1..][..q]));
    }
  }

  predicate Earlier(r: nat, f: nat, k: nat, r': nat, f': nat, k': nat) {
    r < r' || (r == r' && (f < f' || (f == f' && k < k')))
  }

  lemma {:induction false} FilesBefore(files: seq<File>, f: nat, f': nat)
    requires f < f' <= |files|
    ensures |Refs(files[..f])| + |files[f].symbols| <= |Refs(files[..f'])|
    decreases f'
  {
    RefsSnoc(files, f' - 1);
    if f < f' - 1 {
      FilesBefore(files, f, f' - 1);
    }
  }

  lemma {:induction false} RootsBefore(roots: seq<seq<File>>, r: nat, r': nat)
    requires r < r' <= |roots|
    ensures |Refs(Flatten(roots[..r]))| + |Refs(roots[r])| <= |Refs(Flatten(roots[..r']))|
    decreases r'
  {
    var last := roots[..r'];
    FlattenSplit(last, r' - 1);
    assert last[..r' - 1] == roots[..r' - 1] && last[r' - 1] == roots[r' - 1] && last[r'..] == [];
    assert roots[r' - 1] + [] == roots[r' - 1];
    RefsAppend(Flatten(roots[..r' - 1]), roots[r' - 1]);
    if r < r' - 1 {
      RootsBefore(roots, r, r' - 1);
    }
  }

  /** The scan runs root by root, file by file, declaration by declaration. */
  lemma ScanIsInOrder(roots: seq<seq<File>>, r: nat, f: nat, k: nat, r': nat, f': nat, k': nat)
    requires Declared(roots, r, f, k) && Declared(roots, r', f', k') && Earlier(r, f, k, r', f', k')
    ensures Place(roots, r, f, k) < Place(roots, r', f', k')
  {
    FilesBefore(roots[r], f, |roots[r]|);
    assert roots[r][..|roots[r]|] == roots[r];
    if r < r' {
      RootsBefore(roots, r, r');
    } else if f < f' {
      FilesBefore(roots[r], f, f');
    }
  }

  /** Declaration `k` of file `f` of root `r` is a class of that name in one of the name's packages. */
  ghost predicate DeclaresClass(roots: seq<seq<File>>, r: nat, f: nat, k: nat, fqn: Name) {
    && Declared(roots, r, f, k)
    && roots[r][f].symbols[k].name == fqn && IsClassLike(roots[r][f].symbols[k].kind)
    && IsPrefixPackage(roots[r][f].package, fqn)
  }

  /** The declaration resolution answers with: longest package, then root, file and declaration order. */
  ghost predicate IsAnswer(roots: seq<seq<File>>, r: nat, f: nat, k: nat, fqn: Name) {
    && DeclaresClass(roots, r, f, k, fqn)
    && forall r': nat, f': nat, k': nat | DeclaresClass(roots, r', f', k', fqn) ::
         || |roots[r'][f'].package| < |roots[r][f].package|
         || (roots[r'][f'].package == roots[r][f].package && !Earlier(r', f', k', r, f, k))
  }

  /** The best candidate of the scan is that declaration. */
  lemma BestIsAnswer(roots: seq<seq<File>>, i: nat, fqn: Name) returns (r: nat, f: nat, k: nat)
    requires IsBest(Refs(Flatten(roots)), i, fqn)
    ensures IsAnswer(roots, r, f, k, fqn)
    ensures var ref := Refs(Flatten(roots))[i]; ref.file == roots[r][f].id && ref.symbol == roots[r][f].symbols[k]
  {
    var refs := Refs(Flatten(roots));
    r, f, k := ScanHoldsNothingElse(roots, i);
    ScanHoldsDeclarations(roots, r, f, k);
    forall r': nat, f': nat, k': nat | DeclaresClass(roots, r', f', k', fqn)
      ensures |roots[r'][f'].package| < |roots[r][f].package|
        || (roots[r'][f'].package == roots[r][f].package && !Earlier(r', f', k', r, f, k))
    {
      ScanHoldsDeclarations(roots, r', f', k');
      assert IsCandidate(refs, Place(roots, r', f', k'), fqn);
      if Earlier(r', f', k', r, f, k) {
        ScanIsInOrder(roots, r', f', k', r, f, k);
      }
    }
  }

  /** The lookup answers exactly when some declaration qualifies. */
  lemma CandidatesAreDeclarations(roots: seq<seq<File>>, fqn: Name)
    ensures (exists i: nat :: IsCandidate(Refs(Flatten(roots)), i, fqn))
       <==> (exists r: nat, f: nat, k: nat :: DeclaresClass(roots, r, f, k, fqn))
  {
    var refs := Refs(Flatten(roots));
    if i: nat :| IsCandidate(refs, i, fqn) {
      var r, f, k := ScanHoldsNothingElse(roots, i);
      ScanHoldsDeclarations(roots, r, f, k);
      assert DeclaresClass(roots, r, f, k, fqn);
    }
    if r: nat, f: nat, k: nat :| DeclaresClass(roots, r, f, k, fqn) {
      ScanHoldsDeclarations(roots, r, f, k);
      assert IsCandidate(refs, Place(roots, r, f, k), fqn);
    }
  }
}
