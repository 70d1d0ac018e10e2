/** The resource seal (src/server/signing/ts-signer.ts): which files a CodeResources lists, and the order in which
    signIpa writes nested bundles, their seals and their executables. A bundle tree is a map from paths to contents. */
module Resources {
  import opened Wrappers
  import opened Bytes
  import opened SignatureBlob

  /** A path component. */
  type Name = s: string | s != "" && '/' !in s witness "a"
  type Path = seq<Name>

  type Files = map<Path, Bytes>

  datatype Entry = Entry(hash: Digest20, hash2: Digest32, optional: bool)

  /** The two file tables of a CodeResources. */
  datatype Seal = Seal(files: map<Path, Digest20>, files2: map<Path, Entry>)

  /** Foreign code and the parameters of one signing run. */
  datatype Env = Env(
    sha1: Bytes -> Digest20, sha256: Bytes -> Digest32,
    plist: Seal -> Bytes,
    parses: Bytes -> bool,
    sign: (Target, Bytes, nat) -> Result<Bytes>,
    utf8: string -> Bytes,
    teamId: Bytes,
    extensionInfo: Bytes -> Result<ExtensionInfo>,
    profileFor: Bytes -> Bytes,
    entitlementsFor: (Bytes, Bytes) -> Bytes)

  /** What is read from an extension's Info.plist. */
  datatype ExtensionInfo = ExtensionInfo(exec: Option<Name>, bundleId: Bytes)

  const CODE_SIGNATURE: Name := "_CodeSignature"
  const CODE_RESOURCES: Name := "CodeResources"
  const INFO_PLIST: Name := "Info.plist"
  const PROFILE: Name := "embedded.mobileprovision"
  const FRAMEWORKS: Name := "Frameworks"
  const PLUGINS: Name := "PlugIns"

  function SealPath(bundle: Path): Path {
    bundle + [CODE_SIGNATURE, CODE_RESOURCES]
  }

  // ---------------------------------------------------------------- the seal

  /** The paths of the files below `bundle`, relative to it. */
  function Below(files: Files, bundle: Path): set<Path> {
    set p | p in files && bundle < p :: p[|bundle|..]
  }

  /** Not in _CodeSignature/, not the root CodeResources, not the executable. */
  predicate Listed(q: Path, exec: Name) {
    !(|q| > 1 && q[0] == CODE_SIGNATURE) && q != [CODE_RESOURCES] && q != [exec]
  }

  predicate EndsWith(s: string, suffix: string) {
    |s| >= |suffix| && s[|s| - |suffix|..] == suffix
  }

  /** The relative path contains `.lproj/`. */
  predicate IsLocalized(q: Path) {
    exists i :: 0 <= i < |q| - 1 && EndsWith(q[i], ".lproj")
  }

  function ListedOf(paths: set<Path>, exec: Name): set<Path> {
    set q | q in paths && Listed(q, exec)
  }

  function ListedBelow(files: Files, bundle: Path, exec: Name): set<Path> {
    ListedOf(Below(files, bundle), exec)
  }

  function SealEntry(env: Env, q: Path, data: Bytes): Entry {
    Entry(env.sha1(data), env.sha256(data), IsLocalized(q))
  }

  /** The file at a path; empty when there is none. */
  function Content(files: Files, p: Path): Bytes {
    if p in files then files[p] else []
  }

  function TableOf(env: Env, files: Files, bundle: Path, paths: set<Path>): map<Path, Digest20> {
    map q | q in paths :: env.sha1(Content(files, bundle + q))
  }

  function Table2Of(env: Env, files: Files, bundle: Path, paths: set<Path>): map<Path, Entry> {
    map q | q in paths :: SealEntry(env, q, Content(files, bundle + q))
  }

  /** Exactly the listed files, each with the digests of its contents. */
  function SealOf(env: Env, files: Files, bundle: Path, exec: Name): Seal {
    Seal(TableOf(env, files, bundle, ListedBelow(files, bundle, exec)),
         Table2Of(env, files, bundle, ListedBelow(files, bundle, exec)))
  }

  lemma BelowIs(files: Files, bundle: Path, q: Path)
    ensures q in Below(files, bundle) <==> q != [] && bundle + q in files
  {
    if q != [] && bundle + q in files {
      assert bundle < bundle + q && (bundle + q)[|bundle|..] == q;
    }
    if q in Below(files, bundle) {
      var p :| p in files && bundle < p && p[|bundle|..] == q;
      assert bundle + q == p;
    }
  }

  /** What a reader of the seal learns: a path is listed exactly when the bundle has that file, it is not in
      _CodeSignature, not the root's CodeResources and not the executable; and then with the two digests of that file,
      optional exactly below an .lproj directory. */
  lemma SealLists(env: Env, files: Files, bundle: Path, exec: Name, q: Path)
    ensures q in SealOf(env, files, bundle, exec).files2
       <==> (q != [] && bundle + q in files && !(|q| > 1 && q[0] == "_CodeSignature") && q != ["CodeResources"]
             && q != [exec])
    ensures q in SealOf(env, files, bundle, exec).files <==> q in SealOf(env, files, bundle, exec).files2
    ensures
      var seal := SealOf(env, files, bundle, exec);
      q in seal.files2 ==>
        && seal.files2[q].hash == seal.files[q] == env.sha1(files[bundle + q])
        && seal.files2[q].hash2 == env.sha256(files[bundle + q])
        && (seal.files2[q].optional
            <==> exists i :: 0 <= i < |q| - 1 && |q[i]| >= 6 && q[i][|q[i]| - 6..] == ".lproj")
  {
    BelowIs(files, bundle, q);
    if i :| 0 <= i < |q| - 1 && |q[i]| >= 6 && q[i][|q[i]| - 6..] == ".lproj" {
      assert EndsWith(q[i], ".lproj");
    }
    if i :| 0 <= i < |q| - 1 && EndsWith(q[i], ".lproj") {
      assert q[i][|q[i]| - 6..] == ".lproj";
    }
  }

  /** Files that agree on the listed paths have the same seal. */
  lemma SealDependsOn(env: Env, a: Files, b: Files, bundle: Path, exec: Name)
    requires forall q: Path :: q != [] && Listed(q, exec) ==>
      (bundle + q in a <==> bundle + q in b) && Content(a, bundle + q) == Content(b, bundle + q)
    ensures SealOf(env, a, bundle, exec) == SealOf(env, b, bundle, exec)
  {
    hide Below, Content, SealEntry, Listed;
    forall q: Path ensures q in ListedBelow(a, bundle, exec) <==> q in ListedBelow(b, bundle, exec) {
      BelowIs(a, bundle, q);
      BelowIs(b, bundle, q);
    }
    assert ListedBelow(a, bundle, exec) == ListedBelow(b, bundle, exec);
    forall q | q in ListedBelow(a, bundle, exec) ensures Content(a, bundle + q) == Content(b, bundle + q) {
      BelowIs(a, bundle, q);
    }
    hide ListedBelow;
  }

  /** A write that is not to a listed file of the bundle leaves its seal as it is. */
  lemma WriteKeepsSeal(env: Env, files: Files, bundle: Path, exec: Name, p: Path, data: Bytes)
    requires bundle < p ==> !Listed(p[|bundle|..], exec)
    ensures SealOf(env, files[p := data], bundle, exec) == SealOf(env, files, bundle, exec)
  {
    hide Listed;
    forall q: Path | q != [] && Listed(q, exec) ensures bundle + q != p {
      assert (bundle + q)[|bundle|..] == q;
    }
    SealDependsOn(env, files, files[p := data], bundle, exec);
  }

  /** A listed file that changes its digest breaks the seal. */
  lemma WriteBreaksSeal(env: Env, files: Files, bundle: Path, exec: Name, p: Path, data: Bytes)
    requires bundle < p && Listed(p[|bundle|..], exec)
    requires p in files ==> env.sha256(files[p]) != env.sha256(data)
    ensures SealOf(env, files[p := data], bundle, exec) != SealOf(env, files, bundle, exec)
  {
    var q := p[|bundle|..];
    assert bundle + q == p;
    SealLists(env, files, bundle, exec, q);
    SealLists(env, files[p := data], bundle, exec, q);
  }

  lemma TableStep(env: Env, files: Files, bundle: Path, paths: set<Path>, q: Path)
    ensures TableOf(env, files, bundle, paths + {q})
         == TableOf(env, files, bundle, paths)[q := env.sha1(Content(files, bundle + q))]
    ensures Table2Of(env, files, bundle, paths + {q})
         == Table2Of(env, files, bundle, paths)[q := SealEntry(env, q, Content(files, bundle + q))]
  {
    hide Content, SealEntry;
  }

  lemma ListedStep(paths: set<Path>, q: Path, exec: Name)
    ensures ListedOf(paths + {q}, exec)
         == if Listed(q, exec) then ListedOf(paths, exec) + {q} else ListedOf(paths, exec)
  {
    hide Listed;
  }

  /** buildCodeResources: the files come in the order of the directory listings, which is not specified. */
  method BuildCodeResources(env: Env, files: Files, bundle: Path, exec: Name) returns (resources: Bytes)
    ensures resources == env.plist(SealOf(env, files, bundle, exec))
  {
    hide Listed, Content, SealEntry, TableOf, Table2Of, ListedOf, Below;
    var table: map<Path, Digest20> := map[];
    var table2: map<Path, Entry> := map[];
    var todo := Below(files, bundle);
    ghost var done: set<Path> := {};
    NoneListed(env, files, bundle, exec);
    while todo != {}
      invariant done !! todo && done + todo == Below(files, bundle)
      invariant table == TableOf(env, files, bundle, ListedOf(done, exec))
      invariant table2 == Table2Of(env, files, bundle, ListedOf(done, exec))
      decreases todo
    {
      var q :| q in todo;
      TableStep(env, files, bundle, ListedOf(done, exec), q);
      ListedStep(done, q, exec);
      todo, done := todo - {q}, done + {q};
      if Listed(q, exec) {
        var data := Content(files, bundle + q);
        table := table[q := env.sha1(data)];
        table2 := table2[q := SealEntry(env, q, data)];
      }
    }
    assert done == Below(files, bundle);
    resources := env.plist(Seal(table, table2));
  }

  lemma NoneListed(env: Env, files: Files, bundle: Path, exec: Name)
    ensures TableOf(env, files, bundle, ListedOf({}, exec)) == map[]
    ensures Table2Of(env, files, bundle, ListedOf({}, exec)) == map[]
  {
  }
}
