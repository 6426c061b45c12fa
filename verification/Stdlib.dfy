/**
 The index of the standard library: built file by file, queried by package, module and intrinsic
 name.  A file is what the parser makes of it; signatures and bodies are kept as opaque text.
 */
module Stdlib {
  import opened Options

  datatype Func = Func(name: string, signature: string, intrinsic: Option<string>)

  datatype Module = Module(name: string, functions: seq<Func>, isExported: bool)

  /** The other declarations that are indexed; a package keeps a map for each kind. */
  datatype Kind = Struct | Enum | Interface

  datatype Decl =
    | ModuleDecl(m: Module)
    | TypeDecl(kind: Kind, name: string, body: string)
    | OtherDecl

  /** A file without a package declaration is skipped. */
  datatype File = File(path: string, package: Option<string>, decls: seq<Decl>)

  datatype Package = Package(modules: map<string, Module>, types: map<(Kind, string), string>, sourceFiles: seq<string>)

  /** Where a function is declared: package, module, name. */
  type Place = (string, string, string)

  datatype Index = Index(packages: map<string, Package>, intrinsics: map<string, Place>)

  const EMPTY := Index(map[], map[])

  // ---------------------------------------------------------------------------------------
  // Building
  // ---------------------------------------------------------------------------------------

  function AddIntrinsics(intrinsics: map<string, Place>, pkg: string, m: string, fs: seq<Func>): map<string, Place>
    decreases |fs|
  {
    if fs == [] then intrinsics
    else
      AddIntrinsics(
        if fs[0].intrinsic.Some? then intrinsics[fs[0].intrinsic.value := (pkg, m, fs[0].name)] else intrinsics,
        pkg, m, fs[1..])
  }

  function AddDecl(x: Index, pkg: string, d: Decl): Index
    requires pkg in x.packages
  {
    var p := x.packages[pkg];
    match d
    case ModuleDecl(m) =>
      Index(x.packages[pkg := p.(modules := p.modules[m.name := m])],
            AddIntrinsics(x.intrinsics, pkg, m.name, m.functions))
    case TypeDecl(kind, name, body) =>
      x.(packages := x.packages[pkg := p.(types := p.types[(kind, name) := body])])
    case OtherDecl => x
  }

  function AddDecls(x: Index, pkg: string, ds: seq<Decl>): Index
    requires pkg in x.packages
    decreases |ds|
  {
    if ds == [] then x else AddDecls(AddDecl(x, pkg, ds[0]), pkg, ds[1..])
  }

  function LoadFile(x: Index, file: File): Index {
    match file.package
    case None => x
    case Some(pkg) =>
      var p := if pkg in x.packages then x.packages[pkg] else Package(map[], map[], []);
      AddDecls(x.(packages := x.packages[pkg := p.(sourceFiles := p.sourceFiles + [file.path])]), pkg, file.decls)
  }

  function LoadAll(x: Index, files: seq<File>): Index
    decreases |files|
  {
    if files == [] then x else LoadAll(LoadFile(x, files[0]), files[1..])
  }

  // ---------------------------------------------------------------------------------------
  // Queries
  // ---------------------------------------------------------------------------------------

  function GetModule(x: Index, pkg: string, m: string): Option<Module> {
    if pkg in x.packages && m in x.packages[pkg].modules then Some(x.packages[pkg].modules[m]) else None
  }

  function GetType(x: Index, pkg: string, kind: Kind, name: string): Option<string> {
    if pkg in x.packages && (kind, name) in x.packages[pkg].types then Some(x.packages[pkg].types[(kind, name)]) else None
  }

  /** The first function of that name. */
  function FindFunc(fs: seq<Func>, name: string): Option<Func> {
    if fs == [] then None else if fs[0].name == name then Some(fs[0]) else FindFunc(fs[1..], name)
  }

  function GetFuncByIntrinsic(x: Index, intrinsic: string): Option<Func> {
    if intrinsic !in x.intrinsics then None
    else
      var (pkg, m, name) := x.intrinsics[intrinsic];
      match GetModule(x, pkg, m)
      case None => None
      case Some(found) => FindFunc(found.functions, name)
  }

  // ---------------------------------------------------------------------------------------
  // The declarations as lists of keys and values
  // ---------------------------------------------------------------------------------------

  /** The last value listed for the key. */
  function LastValue<K(==), V>(entries: seq<(K, V)>, key: K): Option<V>
    decreases |entries|
  {
    if entries == [] then None
    else if entries[|entries| - 1].0 == key then Some(entries[|entries| - 1].1)
    else LastValue(entries[..|entries| - 1], key)
  }

  function Flat<A, B>(f: A -> seq<B>, xs: seq<A>): seq<B>
    decreases |xs|
  {
    if xs == [] then [] else f(xs[0]) + Flat(f, xs[1..])
  }

  function DeclModules(pkg: string, ds: seq<Decl>): seq<((string, string), Module)>
    decreases |ds|
  {
    if ds == [] then []
    else (if ds[0].ModuleDecl? then [((pkg, ds[0].m.name), ds[0].m)] else []) + DeclModules(pkg, ds[1..])
  }

  function DeclTypes(pkg: string, ds: seq<Decl>): seq<((string, Kind, string), string)>
    decreases |ds|
  {
    if ds == [] then []
    else (if ds[0].TypeDecl? then [((pkg, ds[0].kind, ds[0].name), ds[0].body)] else []) + DeclTypes(pkg, ds[1..])
  }

  function FuncIntrinsics(pkg: string, m: string, fs: seq<Func>): seq<(string, Place)>
    decreases |fs|
  {
    if fs == [] then []
    else (if fs[0].intrinsic.Some? then [(fs[0].intrinsic.value, (pkg, m, fs[0].name))] else [])
         + FuncIntrinsics(pkg, m, fs[1..])
  }

  function DeclIntrinsics(pkg: string, ds: seq<Decl>): seq<(string, Place)>
    decreases |ds|
  {
    if ds == [] then []
    else (if ds[0].ModuleDecl? then FuncIntrinsics(pkg, ds[0].m.name, ds[0].m.functions) else [])
         + DeclIntrinsics(pkg, ds[1..])
  }

  function FileModules(file: File): seq<((string, string), Module)> {
    if file.package.None? then [] else DeclModules(file.package.value, file.decls)
  }

  function FileTypes(file: File): seq<((string, Kind, string), string)> {
    if file.package.None? then [] else DeclTypes(file.package.value, file.decls)
  }

  function FileIntrinsics(file: File): seq<(string, Place)> {
    if file.package.None? then [] else DeclIntrinsics(file.package.value, file.decls)
  }

  /** All module declarations, in load order. */
  function Modules(files: seq<File>): seq<((string, string), Module)> {
    Flat(FileModules, files)
  }

  function Types(files: seq<File>): seq<((string, Kind, string), string)> {
    Flat(FileTypes, files)
  }

  /** All functions with an intrinsic name, in load order. */
  function Intrinsics(files: seq<File>): seq<(string, Place)> {
    Flat(FileIntrinsics, files)
  }

  function Or<V>(last: Option<V>, before: Option<V>): Option<V> {
    if last.Some? then last else before
  }

  lemma {:induction false} LastOfConcat<K, V>(a: seq<(K, V)>, b: seq<(K, V)>, key: K)
    ensures LastValue(a + b, key) == Or(LastValue(b, key), LastValue(a, key))
    decreases |b|
  {
    if b == [] {
      assert a + b == a;
    } else {
      assert (a + b)[..|a + b| - 1] == a + b[..|b| - 1];
      LastOfConcat(a, b[..|b| - 1], key);
    }
  }

  function Entry<K(==), V>(m: map<K, V>, key: K): Option<V> {
    if key in m then Some(m[key]) else None
  }

  // ---------------------------------------------------------------------------------------
  // The index holds the last declaration of each key
  // ---------------------------------------------------------------------------------------

  lemma {:induction false} IntrinsicsAdded(intrinsics: map<string, Place>, pkg: string, m: string, fs: seq<Func>, n: string)
    ensures Entry(AddIntrinsics(intrinsics, pkg, m, fs), n)
         == Or(LastValue(FuncIntrinsics(pkg, m, fs), n), Entry(intrinsics, n))
    decreases |fs|
  {
    if fs != [] {
      var first := if fs[0].intrinsic.Some? then [(fs[0].intrinsic.value, (pkg, m, fs[0].name))] else [];
      var next := if fs[0].intrinsic.Some? then intrinsics[fs[0].intrinsic.value := (pkg, m, fs[0].name)] else intrinsics;
      IntrinsicsAdded(next, pkg, m, fs[1..], n);
      LastOfConcat(first, FuncIntrinsics(pkg, m, fs[1..]), n);
      assert Entry(next, n) == Or(LastValue(first, n), Entry(intrinsics, n));
    }
  }

  lemma DeclAdded(x: Index, pkg: string, d: Decl, q: string, m: string, kind: Kind, t: string, n: string)
    requires pkg in x.packages
    ensures var y := AddDecl(x, pkg, d);
            && y.packages.Keys == x.packages.Keys
            && GetModule(y, q, m) == Or(LastValue(DeclModules(pkg, [d]), (q, m)), GetModule(x, q, m))
            && GetType(y, q, kind, t) == Or(LastValue(DeclTypes(pkg, [d]), (q, kind, t)), GetType(x, q, kind, t))
            && Entry(y.intrinsics, n) == Or(LastValue(DeclIntrinsics(pkg, [d]), n), Entry(x.intrinsics, n))
  {
    if d.ModuleDecl? {
      IntrinsicsAdded(x.intrinsics, pkg, d.m.name, d.m.functions, n);
      assert DeclIntrinsics(pkg, [d]) == FuncIntrinsics(pkg, d.m.name, d.m.functions);
    }
  }

  lemma FirstDecl(pkg: string, ds: seq<Decl>)
    requires ds != []
    ensures DeclModules(pkg, ds) == DeclModules(pkg, [ds[0]]) + DeclModules(pkg, ds[1..])
    ensures DeclTypes(pkg, ds) == DeclTypes(pkg, [ds[0]]) + DeclTypes(pkg, ds[1..])
    ensures DeclIntrinsics(pkg, ds) == DeclIntrinsics(pkg, [ds[0]]) + DeclIntrinsics(pkg, ds[1..])
  {
  }

  lemma {:induction false} DeclsAdded(
      x: Index, pkg: string, ds: seq<Decl>, q: string, m: string, kind: Kind, t: string, n: string)
    requires pkg in x.packages
    ensures var y := AddDecls(x, pkg, ds);
            && y.packages.Keys == x.packages.Keys
            && GetModule(y, q, m) == Or(LastValue(DeclModules(pkg, ds), (q, m)), GetModule(x, q, m))
            && GetType(y, q, kind, t) == Or(LastValue(DeclTypes(pkg, ds), (q, kind, t)), GetType(x, q, kind, t))
            && Entry(y.intrinsics, n) == Or(LastValue(DeclIntrinsics(pkg, ds), n), Entry(x.intrinsics, n))
    decreases |ds|
  {
    if ds != [] {
      var d, rest := ds[0], ds[1..];
      DeclAdded(x, pkg, d, q, m, kind, t, n);
      FirstDecl(pkg, ds);
      hide AddDecl, GetModule, GetType, Entry, LastValue, DeclModules, DeclTypes, DeclIntrinsics;
      DeclsAdded(AddDecl(x, pkg, d), pkg, rest, q, m, kind, t, n);
      LastOfConcat(DeclModules(pkg, [d]), DeclModules(pkg, rest), (q, m));
      LastOfConcat(DeclTypes(pkg, [d]), DeclTypes(pkg, rest), (q, kind, t));
      LastOfConcat(DeclIntrinsics(pkg, [d]), DeclIntrinsics(pkg, rest), n);
    }
  }

  lemma FileLoaded(x: Index, file: File, q: string, m: string, kind: Kind, t: string, n: string)
    ensures var y := LoadFile(x, file);
            && y.packages.Keys == x.packages.Keys + (if file.package.Some? then {file.package.value} else {})
            && GetModule(y, q, m) == Or(LastValue(FileModules(file), (q, m)), GetModule(x, q, m))
            && GetType(y, q, kind, t) == Or(LastValue(FileTypes(file), (q, kind, t)), GetType(x, q, kind, t))
            && Entry(y.intrinsics, n) == Or(LastValue(FileIntrinsics(file), n), Entry(x.intrinsics, n))
  {
    hide AddDecls, LastValue, DeclModules, DeclTypes, DeclIntrinsics;
    if file.package.Some? {
      var pkg := file.package.value;
      var p := if pkg in x.packages then x.packages[pkg] else Package(map[], map[], []);
      var z := x.(packages := x.packages[pkg := p.(sourceFiles := p.sourceFiles + [file.path])]);
      DeclsAdded(z, pkg, file.decls, q, m, kind, t, n);
    } else {
      NothingListed<(string, string), Module>((q, m));
      NothingListed<(string, Kind, string), string>((q, kind, t));
      NothingListed<string, Place>(n);
    }
  }

  lemma NothingListed<K, V>(key: K)
    ensures LastValue<K, V>([], key) == None
  {
  }

  /** For any files: what a query finds is the last declaration of that key in load order. */
  lemma {:induction false} IndexHoldsTheLast(
      x: Index, files: seq<File>, q: string, m: string, kind: Kind, t: string, n: string)
    ensures var y := LoadAll(x, files);
            && GetModule(y, q, m) == Or(LastValue(Modules(files), (q, m)), GetModule(x, q, m))
            && GetType(y, q, kind, t) == Or(LastValue(Types(files), (q, kind, t)), GetType(x, q, kind, t))
            && Entry(y.intrinsics, n) == Or(LastValue(Intrinsics(files), n), Entry(x.intrinsics, n))
            && (q in y.packages <==> q in x.packages || exists i :: 0 <= i < |files| && files[i].package == Some(q))
    decreases |files|
  {
    hide LoadFile, GetModule, GetType, Entry, LastValue, FileModules, FileTypes, FileIntrinsics;
    if files == [] {
      NothingListed<(string, string), Module>((q, m));
      NothingListed<(string, Kind, string), string>((q, kind, t));
      NothingListed<string, Place>(n);
    } else {
      var first, rest := files[0], files[1..];
      FileLoaded(x, first, q, m, kind, t, n);
      IndexHoldsTheLast(LoadFile(x, first), rest, q, m, kind, t, n);
      LastOfConcat(FileModules(first), Modules(rest), (q, m));
      LastOfConcat(FileTypes(first), Types(rest), (q, kind, t));
      LastOfConcat(FileIntrinsics(first), Intrinsics(rest), n);
      if i: nat :| i < |files| && files[i].package == Some(q) {
        assert i > 0 ==> rest[i - 1] == files[i];
      }
      if i: nat :| i < |rest| && rest[i].package == Some(q) {
        assert files[i + 1] == rest[i];
      }
    }
  }

  // ---------------------------------------------------------------------------------------
  // The same on the files themselves, without the lists
  // ---------------------------------------------------------------------------------------

  /** Two modules of one name, or two types of one kind and name. */
  predicate SameKey(d: Decl, e: Decl) {
    || (d.ModuleDecl? && e.ModuleDecl? && d.m.name == e.m.name)
    || (d.TypeDecl? && e.TypeDecl? && d.kind == e.kind && d.name == e.name)
  }

  lemma {:induction false} LastOfDecls(pkg: string, ds: seq<Decl>, j: int, d: Decl)
    requires -1 <= j < |ds| && (j >= 0 ==> ds[j] == d)
    requires forall k :: j < k < |ds| ==> !SameKey(ds[k], d)
    ensures d.ModuleDecl? ==> LastValue(DeclModules(pkg, ds), (pkg, d.m.name)) == if j < 0 then None else Some(d.m)
    ensures d.TypeDecl? ==> LastValue(DeclTypes(pkg, ds), (pkg, d.kind, d.name)) == if j < 0 then None else Some(d.body)
    decreases |ds|
  {
    if ds != [] {
      var rest := ds[1..];
      FirstDecl(pkg, ds);
      assert j > 0 ==> rest[j - 1] == ds[j];
      LastOfDecls(pkg, rest, if j > 0 then j - 1 else -1, d);
      if d.ModuleDecl? {
        LastOfConcat(DeclModules(pkg, [ds[0]]), DeclModules(pkg, rest), (pkg, d.m.name));
      } else if d.TypeDecl? {
        LastOfConcat(DeclTypes(pkg, [ds[0]]), DeclTypes(pkg, rest), (pkg, d.kind, d.name));
      }
    }
  }

  lemma {:induction false} NotInThisPackage(pkg: string, ds: seq<Decl>, q: string, d: Decl)
    requires q != pkg
    ensures d.ModuleDecl? ==> LastValue(DeclModules(pkg, ds), (q, d.m.name)) == None
    ensures d.TypeDecl? ==> LastValue(DeclTypes(pkg, ds), (q, d.kind, d.name)) == None
    decreases |ds|
  {
    if ds != [] {
      var rest := ds[1..];
      FirstDecl(pkg, ds);
      NotInThisPackage(pkg, rest, q, d);
      if d.ModuleDecl? {
        LastOfConcat(DeclModules(pkg, [ds[0]]), DeclModules(pkg, rest), (q, d.m.name));
      } else if d.TypeDecl? {
        LastOfConcat(DeclTypes(pkg, [ds[0]]), DeclTypes(pkg, rest), (q, d.kind, d.name));
      }
    }
  }

  /** No file of the package declares the key. */
  ghost predicate Undeclared(files: seq<File>, pkg: string, d: Decl) {
    forall i, k :: 0 <= i < |files| && files[i].package == Some(pkg) && 0 <= k < |files[i].decls| ==>
                     !SameKey(files[i].decls[k], d)
  }

  lemma {:induction false} UndeclaredIsUnlisted(files: seq<File>, pkg: string, d: Decl)
    requires Undeclared(files, pkg, d)
    ensures d.ModuleDecl? ==> LastValue(Modules(files), (pkg, d.m.name)) == None
    ensures d.TypeDecl? ==> LastValue(Types(files), (pkg, d.kind, d.name)) == None
    decreases |files|
  {
    if files != [] {
      var first, rest := files[0], files[1..];
      assert forall i :: 0 <= i < |rest| ==> rest[i] == files[i + 1];
      UndeclaredIsUnlisted(rest, pkg, d);
      if first.package == Some(pkg) {
        LastOfDecls(pkg, first.decls, -1, d);
      } else if first.package.Some? {
        NotInThisPackage(first.package.value, first.decls, pkg, d);
      }
      if d.ModuleDecl? {
        LastOfConcat(FileModules(first), Modules(rest), (pkg, d.m.name));
      } else if d.TypeDecl? {
        LastOfConcat(FileTypes(first), Types(rest), (pkg, d.kind, d.name));
      }
    }
  }

  /**
   The last declaration wins: if nothing behind it in its file, and no later file of its package,
   declares the name again, then the query finds it, whatever was loaded before.
   */
  lemma {:induction false} LastDeclarationWins(x: Index, files: seq<File>, i: nat, j: nat, pkg: string, d: Decl)
    requires i < |files| && files[i].package == Some(pkg) && j < |files[i].decls| && files[i].decls[j] == d
    requires forall k :: j < k < |files[i].decls| ==> !SameKey(files[i].decls[k], d)
    requires Undeclared(files[i + 1..], pkg, d)
    ensures d.ModuleDecl? ==> GetModule(LoadAll(x, files), pkg, d.m.name) == Some(d.m)
    ensures d.TypeDecl? ==> GetType(LoadAll(x, files), pkg, d.kind, d.name) == Some(d.body)
    decreases i
  {
    hide LoadFile, GetModule, GetType, Entry, LastValue, SameKey, Undeclared, DeclModules, DeclTypes, DeclIntrinsics, Flat;
    var first, rest := files[0], files[1..];
    if i > 0 {
      assert rest[i - 1] == files[i] && rest[i..] == files[i + 1..];
      LastDeclarationWins(LoadFile(x, first), rest, i - 1, j, pkg, d);
    } else {
      var m, kind, t := if d.ModuleDecl? then d.m.name else "", if d.TypeDecl? then d.kind else Struct, if d.TypeDecl? then d.name else "";
      FileLoaded(x, first, pkg, m, kind, t, "");
      LastOfDecls(pkg, first.decls, j, d);
      UndeclaredIsUnlisted(rest, pkg, d);
      IndexHoldsTheLast(LoadFile(x, first), rest, pkg, m, kind, t, "");
    }
  }

  /** The paths of the files that belong to the package, in load order. */
  function Paths(files: seq<File>, pkg: string): seq<string> {
    if files == [] then []
    else (if files[0].package == Some(pkg) then [files[0].path] else []) + Paths(files[1..], pkg)
  }

  function SourceFiles(x: Index, pkg: string): seq<string> {
    if pkg in x.packages then x.packages[pkg].sourceFiles else []
  }

  lemma {:induction false} DeclsKeepSourceFiles(x: Index, pkg: string, ds: seq<Decl>, q: string)
    requires pkg in x.packages
    ensures SourceFiles(AddDecls(x, pkg, ds), q) == SourceFiles(x, q)
    decreases |ds|
  {
    if ds != [] {
      KeepsPackage(x, pkg, ds[0]);
      hide AddIntrinsics;
      assert SourceFiles(AddDecl(x, pkg, ds[0]), q) == SourceFiles(x, q);
      DeclsKeepSourceFiles(AddDecl(x, pkg, ds[0]), pkg, ds[1..], q);
    }
  }

  /** A package remembers exactly the files loaded for it, in load order. */
  lemma {:induction false} SourceFilesAre(x: Index, files: seq<File>, pkg: string)
    ensures SourceFiles(LoadAll(x, files), pkg) == SourceFiles(x, pkg) + Paths(files, pkg)
    decreases |files|
  {
    if files != [] {
      var file := files[0];
      SourceFilesAre(LoadFile(x, file), files[1..], pkg);
      if file.package.Some? {
        hide AddDecls;
        var q := file.package.value;
        var p := if q in x.packages then x.packages[q] else Package(map[], map[], []);
        DeclsKeepSourceFiles(x.(packages := x.packages[q := p.(sourceFiles := p.sourceFiles + [file.path])]), q, file.decls, pkg);
      }
    }
  }

  // ---------------------------------------------------------------------------------------
  // Order of loading
  // ---------------------------------------------------------------------------------------

  ghost predicate UniqueKeys<K, V>(entries: seq<(K, V)>) {
    forall i, j :: 0 <= i < j < |entries| ==> entries[i].0 != entries[j].0
  }

  lemma {:induction false} LastIsListed<K, V>(entries: seq<(K, V)>, key: K)
    ensures match LastValue(entries, key)
            case Some(v) => (key, v) in entries
            case None => forall e :: e in entries ==> e.0 != key
    decreases |entries|
  {
    if entries != [] {
      LastIsListed(entries[..|entries| - 1], key);
    }
  }

  lemma SameKeySameValue<K, V>(entries: seq<(K, V)>, key: K, v: V)
    requires UniqueKeys(entries) && (key, v) in entries
    ensures LastValue(entries, key) == Some(v)
  {
    LastIsListed(entries, key);
  }

  lemma WithoutOne<A>(xs: seq<A>, ys: seq<A>, j: nat)
    requires xs != [] && j < |ys| && ys[j] == xs[0] && multiset(xs) == multiset(ys)
    ensures multiset(xs[1..]) == multiset(ys[..j] + ys[j + 1..])
  {
    assert xs == [xs[0]] + xs[1..];
    assert ys == ys[..j] + [ys[j]] + ys[j + 1..];
    assert multiset(xs[1..]) == multiset(xs) - multiset{xs[0]};
    assert multiset(ys[..j] + ys[j + 1..]) == multiset(ys) - multiset{ys[j]};
  }

  lemma FlatAround<A, B>(f: A -> seq<B>, ys: seq<A>, j: nat)
    requires j < |ys|
    ensures multiset(Flat(f, ys)) == multiset(f(ys[j])) + multiset(Flat(f, ys[..j] + ys[j + 1..]))
  {
    FlatOfConcat(f, ys[..j], ys[j + 1..]);
    FlatOfConcat(f, ys[..j], ys[j..]);
    assert ys[..j] + ys[j..] == ys;
    assert ys[j..][1..] == ys[j + 1..];
  }

  lemma {:induction false} FlatPermutes<A, B>(f: A -> seq<B>, xs: seq<A>, ys: seq<A>)
    requires multiset(xs) == multiset(ys)
    ensures multiset(Flat(f, xs)) == multiset(Flat(f, ys))
    decreases |xs|
  {
    if xs == [] {
      assert |multiset(ys)| == 0;
    } else {
      assert xs[0] in multiset(ys);
      var j :| 0 <= j < |ys| && ys[j] == xs[0];
      WithoutOne(xs, ys, j);
      FlatPermutes(f, xs[1..], ys[..j] + ys[j + 1..]);
      FlatAround(f, ys, j);
    }
  }

  lemma {:induction false} FlatOfConcat<A, B>(f: A -> seq<B>, xs: seq<A>, ys: seq<A>)
    ensures Flat(f, xs + ys) == Flat(f, xs) + Flat(f, ys)
    decreases |xs|
  {
    if xs == [] {
      assert xs + ys == ys;
    } else {
      assert (xs + ys)[1..] == xs[1..] + ys;
      FlatOfConcat(f, xs[1..], ys);
    }
  }

  lemma PermutedLastValue<K, V>(a: seq<(K, V)>, b: seq<(K, V)>, key: K)
    requires UniqueKeys(a) && multiset(a) == multiset(b)
    ensures LastValue(a, key) == LastValue(b, key)
  {
    LastIsListed(a, key);
    LastIsListed(b, key);
    assert forall e :: e in a <==> e in multiset(a);
    assert forall e :: e in b <==> e in multiset(b);
  }

  /** The names that the files declare are unique. */
  ghost predicate UniqueNames(files: seq<File>) {
    UniqueKeys(Modules(files)) && UniqueKeys(Types(files)) && UniqueKeys(Intrinsics(files))
  }

  /** The files may be loaded in any order: every query on modules, types, packages and intrinsics agrees. */
  lemma OrderDoesNotMatter(files: seq<File>, others: seq<File>, q: string, m: string, kind: Kind, t: string, n: string)
    requires multiset(files) == multiset(others) && UniqueNames(files)
    ensures var x, y := LoadAll(EMPTY, files), LoadAll(EMPTY, others);
            && GetModule(x, q, m) == GetModule(y, q, m)
            && GetType(x, q, kind, t) == GetType(y, q, kind, t)
            && Entry(x.intrinsics, n) == Entry(y.intrinsics, n)
            && (q in x.packages <==> q in y.packages)
  {
    hide LoadAll, LastValue, Flat, FileModules, FileTypes, FileIntrinsics;
    IndexHoldsTheLast(EMPTY, files, q, m, kind, t, n);
    IndexHoldsTheLast(EMPTY, others, q, m, kind, t, n);
    FlatPermutes(FileModules, files, others);
    FlatPermutes(FileTypes, files, others);
    FlatPermutes(FileIntrinsics, files, others);
    PermutedLastValue(Modules(files), Modules(others), (q, m));
    PermutedLastValue(Types(files), Types(others), (q, kind, t));
    PermutedLastValue(Intrinsics(files), Intrinsics(others), n);
    SamePackages(files, others, q);
    SamePackages(others, files, q);
  }

  lemma SamePackages(files: seq<File>, others: seq<File>, q: string)
    requires multiset(files) == multiset(others)
    ensures (exists i :: 0 <= i < |files| && files[i].package == Some(q)) ==>
              exists i :: 0 <= i < |others| && others[i].package == Some(q)
  {
    if i :| 0 <= i < |files| && files[i].package == Some(q) {
      assert files[i] in multiset(others);
      var j :| 0 <= j < |others| && others[j] == files[i];
    }
  }

  // ---------------------------------------------------------------------------------------
  // Intrinsics
  // ---------------------------------------------------------------------------------------

  /** A loaded module declares the function. */
  ghost predicate Declares(files: seq<File>, pkg: string, m: string, f: Func) {
    exists e :: e in Modules(files) && e.0 == (pkg, m) && f in e.1.functions
  }

  ghost predicate UniqueFunctions(files: seq<File>) {
    forall e, i, j :: e in Modules(files) && 0 <= i < j < |e.1.functions| ==> e.1.functions[i].name != e.1.functions[j].name
  }

  lemma {:induction false} IntrinsicsOfFuncs(pkg: string, m: string, fs: seq<Func>, n: string, p: Place)
    ensures (n, p) in FuncIntrinsics(pkg, m, fs)
       <==> exists f :: f in fs && f.intrinsic == Some(n) && p == (pkg, m, f.name)
    decreases |fs|
  {
    if fs != [] {
      IntrinsicsOfFuncs(pkg, m, fs[1..], n, p);
      assert forall f :: f in fs <==> f == fs[0] || f in fs[1..];
    }
  }

  lemma {:induction false} IntrinsicsOfDecls(pkg: string, ds: seq<Decl>, n: string, p: Place)
    ensures (n, p) in DeclIntrinsics(pkg, ds)
       <==> exists e :: e in DeclModules(pkg, ds) && (n, p) in FuncIntrinsics(e.0.0, e.0.1, e.1.functions)
    decreases |ds|
  {
    hide FuncIntrinsics;
    if ds != [] {
      IntrinsicsOfDecls(pkg, ds[1..], n, p);
      var all, rest := DeclModules(pkg, ds), DeclModules(pkg, ds[1..]);
      assert ds[0].ModuleDecl? ==> all[0] == ((pkg, ds[0].m.name), ds[0].m) && all[0] in all;
      assert forall e :: e in rest ==> e in all;
    }
  }

  lemma {:induction false} IntrinsicsOfFiles(files: seq<File>, n: string, p: Place)
    ensures (n, p) in Intrinsics(files)
       <==> exists e :: e in Modules(files) && (n, p) in FuncIntrinsics(e.0.0, e.0.1, e.1.functions)
    decreases |files|
  {
    hide FuncIntrinsics, DeclIntrinsics, DeclModules;
    if files != [] {
      IntrinsicsOfFiles(files[1..], n, p);
      if files[0].package.Some? {
        IntrinsicsOfDecls(files[0].package.value, files[0].decls, n, p);
      }
      assert forall e :: e in Modules(files) <==> e in FileModules(files[0]) || e in Modules(files[1..]);
    }
  }

  lemma {:induction false} FindsTheFunction(fs: seq<Func>, f: Func)
    requires f in fs && forall i, j :: 0 <= i < j < |fs| ==> fs[i].name != fs[j].name
    ensures FindFunc(fs, f.name) == Some(f)
    decreases |fs|
  {
    if fs[0] != f {
      assert f in fs[1..];
      var i :| 0 <= i < |fs[1..]| && fs[1..][i] == f;
      assert fs[i + 1].name != fs[0].name;
      FindsTheFunction(fs[1..], f);
    }
  }

  /** The place listed last for the intrinsic, the module declared last there, and its first function of that name. */
  function LastDeclared(files: seq<File>, n: string): Option<Func> {
    match LastValue(Intrinsics(files), n)
    case None => None
    case Some(place) =>
      match LastValue(Modules(files), (place.0, place.1))
      case None => None
      case Some(declared) => FindFunc(declared.functions, place.2)
  }

  /** For any files, names unique or not: what the lookup finds, said of the declarations alone. */
  lemma LookupFindsTheLast(files: seq<File>, n: string)
    ensures GetFuncByIntrinsic(LoadAll(EMPTY, files), n) == LastDeclared(files, n)
  {
    hide LoadAll, LastValue, Modules, Types, Intrinsics, GetModule, GetType, FindFunc;
    IndexHoldsTheLast(EMPTY, files, "", "", Struct, "", n);
    if LastValue(Intrinsics(files), n).Some? {
      var (pkg, m, name) := LastValue(Intrinsics(files), n).value;
      IndexHoldsTheLast(EMPTY, files, pkg, m, Struct, "", n);
      NothingIn(pkg, m);
    }
  }

  lemma NothingIn(pkg: string, m: string)
    ensures GetModule(EMPTY, pkg, m) == None
  {
  }

  /** Some function carries the intrinsic, and none before it has its name. */
  ghost predicate FirstOfItsName(fs: seq<Func>, name: string, n: string) {
    exists i :: 0 <= i < |fs| && fs[i].name == name && fs[i].intrinsic == Some(n) && forall j :: 0 <= j < i ==> fs[j].name != name
  }

  lemma {:induction false} FindsTheFirst(fs: seq<Func>, name: string, i: nat)
    requires i < |fs| && fs[i].name == name && forall j :: 0 <= j < i ==> fs[j].name != name
    ensures FindFunc(fs, name) == Some(fs[i])
    decreases |fs|
  {
    if i > 0 {
      assert forall j :: 0 <= j < i - 1 ==> fs[1..][j] == fs[j + 1];
      FindsTheFirst(fs[1..], name, i - 1);
    }
  }

  lemma {:induction false} FoundIsTheFirst(fs: seq<Func>, name: string) returns (i: nat)
    requires FindFunc(fs, name).Some?
    ensures i < |fs| && fs[i].name == name && forall j :: 0 <= j < i ==> fs[j].name != name
    decreases |fs|
  {
    if fs[0].name == name {
      i := 0;
    } else {
      var k := FoundIsTheFirst(fs[1..], name);
      assert forall j :: 0 < j < k + 1 ==> fs[j] == fs[1..][j - 1];
      i := k + 1;
    }
  }

  /** What the last declaration of the listed module must be like for the lookup to be right. */
  ghost predicate ListedRightly(files: seq<File>, n: string)
    requires LastValue(Intrinsics(files), n).Some?
  {
    var (pkg, m, name) := LastValue(Intrinsics(files), n).value;
    var declared := LastValue(Modules(files), (pkg, m));
    declared.Some? && FirstOfItsName(declared.value.functions, name, n)
  }

  /**
   When the lookup is right, for any files: an intrinsic that no declared function carries finds nothing.
   Any other finds a function that carries it exactly if, in the last declaration of the module that is
   listed for it, the first function of the listed name carries it.
   */
  lemma LookupIsRightIff(files: seq<File>, n: string)
    ensures LastValue(Intrinsics(files), n).None? <==> !exists pkg, m, f :: Declares(files, pkg, m, f) && f.intrinsic == Some(n)
    ensures var found := GetFuncByIntrinsic(LoadAll(EMPTY, files), n);
            if LastValue(Intrinsics(files), n).None? then found == None
            else found.Some? && found.value.intrinsic == Some(n) <==> ListedRightly(files, n)
  {
    hide LoadAll, LastValue, Modules, Intrinsics, GetFuncByIntrinsic, Declares, FindFunc;
    LookupFindsTheLast(files, n);
    ListedIffCarried(files, n);
    if LastValue(Intrinsics(files), n).Some? {
      var (pkg, m, name) := LastValue(Intrinsics(files), n).value;
      var declared := LastValue(Modules(files), (pkg, m));
      if declared.Some? {
        FindsCarrierIff(declared.value.functions, name, n);
      }
    }
  }

  lemma FindsCarrierIff(fs: seq<Func>, name: string, n: string)
    ensures FindFunc(fs, name).Some? && FindFunc(fs, name).value.intrinsic == Some(n) <==> FirstOfItsName(fs, name, n)
  {
    hide FindFunc;
    if FirstOfItsName(fs, name, n) {
      var i :| 0 <= i < |fs| && fs[i].name == name && fs[i].intrinsic == Some(n) && forall j :: 0 <= j < i ==> fs[j].name != name;
      FindsTheFirst(fs, name, i);
    }
    if FindFunc(fs, name).Some? {
      var i := FoundIsTheFirst(fs, name);
      FindsTheFirst(fs, name, i);
    }
  }

  lemma ListedIffCarried(files: seq<File>, n: string)
    ensures LastValue(Intrinsics(files), n).Some? <==> exists pkg, m, f :: Declares(files, pkg, m, f) && f.intrinsic == Some(n)
  {
    if LastValue(Intrinsics(files), n).Some? {
      var pkg, m, f := FoundIsCarrier(files, n);
    }
    if pkg, m, f :| Declares(files, pkg, m, f) && f.intrinsic == Some(n) {
      CarrierIsListed(files, pkg, m, f, n);
      hide Intrinsics, LastValue;
      LastIsListed(Intrinsics(files), n);
    }
  }

  lemma CarrierIsListed(files: seq<File>, pkg: string, m: string, f: Func, n: string)
    requires Declares(files, pkg, m, f) && f.intrinsic == Some(n)
    ensures (n, (pkg, m, f.name)) in Intrinsics(files)
  {
    hide Modules, Intrinsics, FuncIntrinsics;
    var e :| e in Modules(files) && e.0 == (pkg, m) && f in e.1.functions;
    IntrinsicsOfFuncs(pkg, m, e.1.functions, n, (pkg, m, f.name));
    IntrinsicsOfFiles(files, n, (pkg, m, f.name));
  }

  lemma FoundIsCarrier(files: seq<File>, n: string) returns (pkg: string, m: string, f: Func)
    requires LastValue(Intrinsics(files), n).Some?
    ensures Declares(files, pkg, m, f) && f.intrinsic == Some(n)
  {
    hide Modules, LastValue, Intrinsics, FuncIntrinsics;
    LastIsListed(Intrinsics(files), n);
    var p := LastValue(Intrinsics(files), n).value;
    IntrinsicsOfFiles(files, n, p);
    var e :| e in Modules(files) && (n, p) in FuncIntrinsics(e.0.0, e.0.1, e.1.functions);
    IntrinsicsOfFuncs(e.0.0, e.0.1, e.1.functions, n, p);
    f :| f in e.1.functions && f.intrinsic == Some(n);
    pkg, m := e.0.0, e.0.1;
  }

  /** With unique names the last declaration is the only one, and the first function of a name the only one. */
  lemma CarrierIsFound(files: seq<File>, pkg: string, m: string, f: Func, n: string)
    requires UniqueNames(files) && UniqueFunctions(files)
    requires Declares(files, pkg, m, f) && f.intrinsic == Some(n)
    ensures GetFuncByIntrinsic(LoadAll(EMPTY, files), n) == Some(f)
  {
    hide LoadAll, Modules, Types, Intrinsics, LastValue, FindFunc, GetFuncByIntrinsic;
    var e :| e in Modules(files) && e.0 == (pkg, m) && f in e.1.functions;
    LookupFindsTheLast(files, n);
    CarrierIsListed(files, pkg, m, f, n);
    SameKeySameValue(Intrinsics(files), n, (pkg, m, f.name));
    SameKeySameValue(Modules(files), (pkg, m), e.1);
    FindsTheFunction(e.1.functions, f);
  }

  /**
   The index agrees with a scan.  When module names are unique in their package, function names in
   their module and intrinsic names overall, looking up an intrinsic finds a function exactly when some
   loaded module declares one that carries it, and then it is that function.
   */
  lemma IntrinsicLookupIsAScan(files: seq<File>, n: string, f: Func)
    requires UniqueNames(files) && UniqueFunctions(files)
    ensures GetFuncByIntrinsic(LoadAll(EMPTY, files), n) == Some(f)
       <==> f.intrinsic == Some(n) && exists pkg, m :: Declares(files, pkg, m, f)
  {
    hide LoadAll, GetFuncByIntrinsic, Declares, UniqueNames, UniqueFunctions;
    if f.intrinsic == Some(n) && exists pkg, m :: Declares(files, pkg, m, f) {
      var pkg, m :| Declares(files, pkg, m, f);
      CarrierIsFound(files, pkg, m, f, n);
    }
    if GetFuncByIntrinsic(LoadAll(EMPTY, files), n) == Some(f) {
      LookupFindsTheLast(files, n);
      var pkg, m, g := FoundIsCarrier(files, n);
      CarrierIsFound(files, pkg, m, g, n);
    }
  }

  /** Without unique function names the lookup can answer with a function that does not carry the intrinsic. */
  lemma OverloadsMislead(path: string, pkg: string, m: string, f: Func, g: Func, n: string)
    requires f.name == g.name && f.intrinsic == None && g.intrinsic == Some(n)
    ensures GetFuncByIntrinsic(LoadAll(EMPTY, [File(path, Some(pkg), [ModuleDecl(Module(m, [f, g], true))])]), n) == Some(f)
  {
    var declared := Module(m, [f, g], true);
    var file := File(path, Some(pkg), [ModuleDecl(declared)]);
    LoadsOne(EMPTY, file);
    var started := Index(map[pkg := Package(map[], map[], [] + [path])], map[]);
    assert LoadFile(EMPTY, file) == AddDecls(started, pkg, file.decls);
    assert AddDecls(started, pkg, file.decls) == AddDecl(started, pkg, file.decls[0]) by {
      assert file.decls[1..] == [];
    }
    AddsIntrinsic(map[], pkg, m, f, [g]);
    AddsIntrinsic(map[], pkg, m, g, []);
    assert [f] + [g] == [f, g] && [g] + [] == [g];
  }

  lemma AddsIntrinsic(intrinsics: map<string, Place>, pkg: string, m: string, f: Func, fs: seq<Func>)
    ensures AddIntrinsics(intrinsics, pkg, m, [f] + fs)
         == AddIntrinsics(if f.intrinsic.Some? then intrinsics[f.intrinsic.value := (pkg, m, f.name)] else intrinsics, pkg, m, fs)
    ensures AddIntrinsics(intrinsics, pkg, m, []) == intrinsics
  {
    assert ([f] + fs)[1..] == fs;
  }

  lemma LoadsOne(x: Index, file: File)
    ensures LoadAll(x, [file]) == LoadFile(x, file)
  {
    assert [file][1..] == [];
  }

  /** And redeclaring a module loses the intrinsics of the first declaration, though they stay listed. */
  lemma RedeclaringLosesIntrinsics(path: string, pkg: string, m: string, f: Func, n: string)
    requires f.intrinsic == Some(n)
    ensures var x := LoadAll(EMPTY, [File(path, Some(pkg), [ModuleDecl(Module(m, [f], true)), ModuleDecl(Module(m, [], true))])]);
            n in x.intrinsics && GetFuncByIntrinsic(x, n) == None
  {
    var first, second := Module(m, [f], true), Module(m, [], true);
    var file := File(path, Some(pkg), [ModuleDecl(first), ModuleDecl(second)]);
    LoadsOne(EMPTY, file);
    var started := Index(map[pkg := Package(map[], map[], [] + [path])], map[]);
    assert LoadFile(EMPTY, file) == AddDecls(started, pkg, file.decls);
    var x := AddDecl(started, pkg, ModuleDecl(first));
    AddsIntrinsic(map[], pkg, m, f, []);
    AddsIntrinsic(map[n := (pkg, m, f.name)], pkg, m, f, []);
    assert [f] + [] == [f];
    assert x.intrinsics == map[n := (pkg, m, f.name)];
    assert AddDecls(started, pkg, file.decls) == AddDecls(x, pkg, [ModuleDecl(second)]) by {
      assert file.decls[1..] == [ModuleDecl(second)];
    }
    assert AddDecls(x, pkg, [ModuleDecl(second)]) == AddDecl(x, pkg, ModuleDecl(second)) by {
      assert [ModuleDecl(second)][1..] == [];
    }
  }

  // ---------------------------------------------------------------------------------------
  // The index object
  // ---------------------------------------------------------------------------------------

  class StdlibIndex {
    var packages: map<string, Package>
    var intrinsicToFunc: map<string, Place>

    ghost function View(): Index
      reads this
    {
      Index(packages, intrinsicToFunc)
    }

    constructor ()
      ensures View() == EMPTY
    {
      packages, intrinsicToFunc := map[], map[];
    }

    method ProcessModule(pkg: string, m: Module)
      requires pkg in packages
      modifies this
      ensures View() == AddDecl(old(View()), pkg, ModuleDecl(m))
    {
      for i := 0 to |m.functions|
        invariant packages == old(packages)
        invariant AddIntrinsics(intrinsicToFunc, pkg, m.name, m.functions[i..])
               == AddIntrinsics(old(intrinsicToFunc), pkg, m.name, m.functions)
      {
        var f := m.functions[i];
        assert m.functions[i..][1..] == m.functions[i + 1..];
        if f.intrinsic.Some? {
          intrinsicToFunc := intrinsicToFunc[f.intrinsic.value := (pkg, m.name, f.name)];
        }
      }
      packages := packages[pkg := packages[pkg].(modules := packages[pkg].modules[m.name := m])];
    }

    method ProcessType(pkg: string, kind: Kind, name: string, body: string)
      requires pkg in packages
      modifies this
      ensures View() == AddDecl(old(View()), pkg, TypeDecl(kind, name, body))
    {
      packages := packages[pkg := packages[pkg].(types := packages[pkg].types[(kind, name) := body])];
    }

    method ProcessDeclarations(pkg: string, ds: seq<Decl>)
      requires pkg in packages
      modifies this
      ensures View() == AddDecls(old(View()), pkg, ds)
    {
      hide AddDecl;
      for i := 0 to |ds|
        invariant pkg in packages
        invariant AddDecls(View(), pkg, ds[i..]) == AddDecls(old(View()), pkg, ds)
      {
        assert ds[i..][1..] == ds[i + 1..];
        ghost var before := View();
        match ds[i] {
          case ModuleDecl(m) => ProcessModule(pkg, m);
          case TypeDecl(kind, name, body) => ProcessType(pkg, kind, name, body);
          case OtherDecl => SkipsOthers(before, pkg);
        }
        KeepsPackage(before, pkg, ds[i]);
      }
    }

    method Load(file: File)
      modifies this
      ensures View() == LoadFile(old(View()), file)
    {
      if file.package.None? {
        return;
      }
      var pkg := file.package.value;
      if pkg !in packages {
        packages := packages[pkg := Package(map[], map[], [])];
      }
      packages := packages[pkg := packages[pkg].(sourceFiles := packages[pkg].sourceFiles + [file.path])];
      ghost var p := if pkg in old(packages) then old(packages)[pkg] else Package(map[], map[], []);
      assert packages == old(packages)[pkg := p.(sourceFiles := p.sourceFiles + [file.path])];
      ProcessDeclarations(pkg, file.decls);
    }

    method LoadFiles(files: seq<File>)
      modifies this
      ensures View() == LoadAll(old(View()), files)
    {
      hide LoadFile;
      for i := 0 to |files|
        invariant LoadAll(View(), files[i..]) == LoadAll(old(View()), files)
      {
        assert files[i..][1..] == files[i + 1..];
        Load(files[i]);
      }
    }
  }

  lemma SkipsOthers(x: Index, pkg: string)
    requires pkg in x.packages
    ensures AddDecl(x, pkg, OtherDecl) == x
  {
  }

  lemma KeepsPackage(x: Index, pkg: string, d: Decl)
    requires pkg in x.packages
    ensures pkg in AddDecl(x, pkg, d).packages
  {
  }
}
