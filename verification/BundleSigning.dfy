/** signFramework, signDylib, signAppExtension, signNestedContent and the last steps of signIpa
    (src/server/signing/ts-signer.ts) on a tree of files, and the law that every seal written on the way is true of the
    files as they are at the end. A thrown error is the result `false`. */
module BundleSigning {
  import opened Wrappers
  import opened Bytes
  import opened SignatureBlob
  import opened Resources

  /** The inputs of the signature that was put into an executable. */
  datatype Signing = Signing(target: Target, original: Bytes, tick: nat)

  /** A CodeResources written for a bundle, and the signing of its executable once that is done; or a signed dylib. */
  datatype Receipt =
    | Sealed(bundle: Path, exec: Name, signing: Option<Signing>)
    | Library(path: Path, made: Signing)

  function Place(rc: Receipt): Path {
    match rc case Sealed(bundle, _, _) => bundle case Library(path, _) => path
  }

  /** A write to `p` may concern the receipt. */
  predicate Touches(rc: Receipt, p: Path) {
    match rc case Sealed(bundle, _, _) => bundle < p case Library(path, _) => path == p
  }

  function Read(files: Files, p: Path): Option<Bytes> {
    if p in files then Some(files[p]) else None
  }

  function SealedResources(t: Target): Option<Bytes> {
    match t case App(_, _, _, resources, _) => Some(resources) case Nested(_, _, _, sealed) => sealed
  }

  /** The seal on disk is the seal of the files on disk. */
  predicate SealHolds(env: Env, files: Files, rc: Receipt)
    requires rc.Sealed?
  {
    Read(files, SealPath(rc.bundle)) == Some(env.plist(SealOf(env, files, rc.bundle, rc.exec)))
  }

  /** The executable on disk is signed over the seal and the Info.plist on disk. */
  predicate SigningHolds(env: Env, files: Files, rc: Receipt)
    requires rc.Sealed?
  {
    match rc.signing
    case None => true
    case Some(s) =>
      && rc.bundle + [rc.exec] in files
      && env.sign(s.target, s.original, s.tick) == Success(files[rc.bundle + [rc.exec]])
      && SealedResources(s.target) == Read(files, SealPath(rc.bundle))
      && (rc.exec != INFO_PLIST ==> s.target.infoPlist == Read(files, rc.bundle + [INFO_PLIST]))
  }

  /** The library on disk is the signed one. */
  predicate LibraryHolds(env: Env, files: Files, path: Path, s: Signing) {
    path in files && env.sign(s.target, s.original, s.tick) == Success(files[path])
  }

  predicate Holds(env: Env, files: Files, rc: Receipt) {
    match rc
    case Sealed(_, _, _) => SealHolds(env, files, rc) && SigningHolds(env, files, rc)
    case Library(path, made) => LibraryHolds(env, files, path, made)
  }

  /** A write outside a bundle touches neither its seal nor its signature, and only a write to a library changes it. */
  lemma WriteOutside(env: Env, files: Files, rc: Receipt, p: Path, data: Bytes)
    requires Holds(env, files, rc) && !Touches(rc, p)
    ensures Holds(env, files[p := data], rc)
  {
    hide SealOf;
    if rc.Sealed? {
      WriteKeepsSeal(env, files, rc.bundle, rc.exec, p, data);
      assert rc.bundle < SealPath(rc.bundle) && rc.bundle < rc.bundle + [rc.exec];
      assert rc.bundle < rc.bundle + [INFO_PLIST];
    }
  }

  /** Writing the seal makes it true: it does not list itself. */
  lemma SealWritten(env: Env, files: Files, bundle: Path, exec: Name)
    ensures SealHolds(env, files[SealPath(bundle) := env.plist(SealOf(env, files, bundle, exec))],
                      Sealed(bundle, exec, None))
  {
    hide SealOf;
    assert SealPath(bundle)[|bundle|..] == [CODE_SIGNATURE, CODE_RESOURCES];
    WriteKeepsSeal(env, files, bundle, exec, SealPath(bundle), env.plist(SealOf(env, files, bundle, exec)));
  }

  /** Writing the executable keeps the seal: it is not listed. */
  lemma ExecWritten(env: Env, files: Files, bundle: Path, exec: Name, s: Signing, data: Bytes)
    requires SealHolds(env, files, Sealed(bundle, exec, None))
    requires env.sign(s.target, s.original, s.tick) == Success(data)
    requires SealedResources(s.target) == Read(files, SealPath(bundle))
    requires s.target.infoPlist == Read(files, bundle + [INFO_PLIST])
    ensures Holds(env, files[bundle + [exec] := data], Sealed(bundle, exec, Some(s)))
  {
    hide SealOf;
    assert (bundle + [exec])[|bundle|..] == [exec];
    WriteKeepsSeal(env, files, bundle, exec, bundle + [exec], data);
    assert |SealPath(bundle)| != |bundle + [exec]|;
    assert bundle + [exec] == bundle + [INFO_PLIST] ==> (bundle + [exec])[|bundle|] == INFO_PLIST;
  }

  /** No recorded bundle contains `p`, no recorded library is at `p`. */
  predicate Outside(seals: seq<Receipt>, p: Path) {
    forall i :: 0 <= i < |seals| ==> !Touches(seals[i], p)
  }

  predicate AllHold(env: Env, files: Files, seals: seq<Receipt>) {
    forall i :: 0 <= i < |seals| ==> Holds(env, files, seals[i])
  }

  lemma WriteOutsideAll(env: Env, files: Files, seals: seq<Receipt>, p: Path, data: Bytes)
    requires AllHold(env, files, seals) && Outside(seals, p)
    ensures AllHold(env, files[p := data], seals)
  {
    hide Holds;
    forall i | 0 <= i < |seals| ensures Holds(env, files[p := data], seals[i]) {
      WriteOutside(env, files, seals[i], p, data);
    }
  }

  /** Only paths below `dir` may differ. */
  ghost predicate SameOutside(a: Files, b: Files, dir: Path) {
    forall p: Path :: !(dir < p) ==> Read(a, p) == Read(b, p)
  }

  /** How a bundle's executable is described to the signer. */
  datatype Recipe = AsFramework(identifier: Bytes) | AsApp(identifier: Bytes, entitlements: Bytes)

  function TargetOf(env: Env, recipe: Recipe, info: Option<Bytes>, resources: Bytes): Target {
    match recipe
    case AsFramework(identifier) => Nested(identifier, env.teamId, info, Some(resources))
    case AsApp(identifier, entitlements) => App(identifier, env.teamId, info, resources, entitlements)
  }

  lemma LibraryWritten(env: Env, files: Files, path: Path, made: Signing)
    requires path in files && env.sign(made.target, made.original, made.tick) == Success(files[path])
    ensures Holds(env, files, Library(path, made))
  {
  }

  lemma AddReceipt(env: Env, files: Files, seals: seq<Receipt>, rc: Receipt)
    requires AllHold(env, files, seals)
    requires Holds(env, files, rc) || (rc.Sealed? && SealHolds(env, files, rc) && rc.signing == None)
    ensures AllHold(env, files, seals + [rc])
  {
    hide SealHolds;
  }

  // ---------------------------------------------------------------- directories

  /** The names in a directory. */
  function Items(files: Files, dir: Path): set<Name> {
    set p | p in files && dir < p :: p[|dir|]
  }

  /** readdir: every name once, in an order that is not specified. */
  method ReadDir(files: Files, dir: Path) returns (items: seq<Name>)
    ensures forall n :: n in items <==> n in Items(files, dir)
    ensures forall i, j :: 0 <= i < j < |items| ==> items[i] != items[j]
  {
    items := [];
    var todo := Items(files, dir);
    while todo != {}
      invariant forall n :: n in Items(files, dir) <==> n in todo || n in items
      invariant forall n :: n in todo ==> n !in items
      invariant forall i, j :: 0 <= i < j < |items| ==> items[i] != items[j]
      decreases todo
    {
      var n :| n in todo;
      todo, items := todo - {n}, items + [n];
    }
  }

  const FRAMEWORK_SUFFIX := ".framework"
  const DYLIB_SUFFIX := ".dylib"
  const APPEX_SUFFIX := ".appex"

  /** `path.basename(item, '.framework')` of an item that ends so; the bare suffix is kept. */
  function FrameworkName(item: Name): Name
    requires EndsWith(item, FRAMEWORK_SUFFIX)
  {
    var name := item[..|item| - |FRAMEWORK_SUFFIX|];
    if name == "" then item else name
  }

  /** The bundle's name without its suffix is the name of its binary. */
  lemma FrameworkNameIs(name: Name, item: Name)
    requires item == name + ".framework"
    ensures EndsWith(item, FRAMEWORK_SUFFIX) && FrameworkName(item) == name
  {
    assert item[|name|..] == ".framework" && item[..|name|] == name;
  }

  predicate IsFramework(files: Files, dir: Path, item: Name) {
    EndsWith(item, ".framework") && Items(files, dir + [item]) != {}
  }

  predicate IsDylib(files: Files, dir: Path, item: Name) {
    EndsWith(item, ".dylib") && dir + [item] in files
  }

  // ---------------------------------------------------------------- what must be signed

  /** The item is a framework whose binary is there and is Mach-O. */
  predicate SignableFramework(env: Env, files: Files, dir: Path, item: Name) {
    && IsFramework(files, dir, item)
    && dir + [item, FrameworkName(item)] in files && env.parses(files[dir + [item, FrameworkName(item)]])
  }

  predicate SignableDylib(env: Env, files: Files, dir: Path, item: Name) {
    IsDylib(files, dir, item) && env.parses(files[dir + [item]])
  }

  /** How the binary of framework `dir + [item]` is described to the signer. */
  function FrameworkTarget(env: Env, files: Files, dir: Path, item: Name): Target
    requires EndsWith(item, FRAMEWORK_SUFFIX)
  {
    var bundle, name := dir + [item], FrameworkName(item);
    Nested(env.utf8(name), env.teamId, Read(files, bundle + [INFO_PLIST]),
           Some(env.plist(SealOf(env, files, bundle, name))))
  }

  function DylibTarget(env: Env, item: Name): Target {
    Nested(env.utf8(item), env.teamId, None, None)
  }

  /** The receipt of a framework that was sealed and signed as it was in `before`. */
  predicate FrameworkReceipt(env: Env, before: Files, rc: Receipt, dir: Path, item: Name)
    requires SignableFramework(env, before, dir, item)
  {
    && rc.Sealed? && rc.bundle == dir + [item] && rc.exec == FrameworkName(item) && rc.signing.Some?
    && rc.signing.value.target == FrameworkTarget(env, before, dir, item)
    && rc.signing.value.original == before[dir + [item, FrameworkName(item)]]
  }

  predicate DylibReceipt(env: Env, before: Files, rc: Receipt, dir: Path, item: Name)
    requires SignableDylib(env, before, dir, item)
  {
    && rc.Library? && rc.path == dir + [item]
    && rc.made.target == DylibTarget(env, item) && rc.made.original == before[dir + [item]]
  }

  /** What there is to sign about the item has a receipt, from the `n`-th on. */
  predicate ItemDone(env: Env, before: Files, seals: seq<Receipt>, n: nat, dir: Path, item: Name) {
    && (SignableFramework(env, before, dir, item) ==>
          exists k :: n <= k < |seals| && FrameworkReceipt(env, before, seals[k], dir, item))
    && (SignableDylib(env, before, dir, item) ==>
          exists k :: n <= k < |seals| && DylibReceipt(env, before, seals[k], dir, item))
  }

  /** Why an item ends the loop: the signer fails on it, or a directory stands where the binary is looked for. */
  predicate ItemBroken(env: Env, before: Files, dir: Path, item: Name, tick: nat) {
    || (SignableFramework(env, before, dir, item)
        && env.sign(FrameworkTarget(env, before, dir, item), before[dir + [item, FrameworkName(item)]], tick).Failure?)
    || (SignableDylib(env, before, dir, item)
        && env.sign(DylibTarget(env, item), before[dir + [item]], tick).Failure?)
    || (IsFramework(before, dir, item) && dir + [item, FrameworkName(item)] !in before
        && Items(before, dir + [item, FrameworkName(item)]) != {})
  }

  /** A directory listing. */
  ghost predicate Listing(files: Files, dir: Path, items: seq<Name>) {
    && (forall n :: n in items <==> n in Items(files, dir))
    && (forall i, j :: 0 <= i < j < |items| ==> items[i] != items[j])
  }

  /** In the order of a listing, every item of `dir` up to the first broken one is done. */
  ghost predicate Covered(env: Env, before: Files, seals: seq<Receipt>, n: nat, dir: Path) {
    exists items, i: nat :: CoveredTo(env, before, seals, n, dir, items, i)
  }

  ghost predicate CoveredTo(env: Env, before: Files, seals: seq<Receipt>, n: nat, dir: Path, items: seq<Name>, i: nat)
  {
    && Listing(before, dir, items) && i <= |items|
    && (forall j :: 0 <= j < i ==> ItemDone(env, before, seals, n, dir, items[j]))
    && (i < |items| ==> exists tick: nat :: ItemBroken(env, before, dir, items[i], tick))
  }

  /** With no broken item, everything there is to sign in the directory is signed. */
  lemma CoveredIsAll(env: Env, before: Files, seals: seq<Receipt>, n: nat, dir: Path, item: Name)
    requires Covered(env, before, seals, n, dir) && item in Items(before, dir)
    requires forall other, tick: nat :: other in Items(before, dir) ==> !ItemBroken(env, before, dir, other, tick)
    ensures ItemDone(env, before, seals, n, dir, item)
  {
    hide ItemDone, ItemBroken, Items;
    var items, i: nat :| CoveredTo(env, before, seals, n, dir, items, i);
    forall k | 0 <= k < |items| ensures items[k] in items {
    }
    var j :| 0 <= j < |items| && items[j] == item;
  }

  // ---------------------------------------------------------------- trees that agree

  /** The trees are the same at `p` and below. */
  ghost predicate SameBelow(a: Files, b: Files, p: Path) {
    forall q: Path :: p <= q ==> Read(a, q) == Read(b, q)
  }

  lemma SameItems(a: Files, b: Files, dir: Path)
    requires SameBelow(a, b, dir)
    ensures Items(a, dir) == Items(b, dir)
  {
    forall n ensures n in Items(a, dir) ==> n in Items(b, dir) {
      if p :| p in a && dir < p && p[|dir|] == n { assert Read(a, p) == Read(b, p); }
    }
    forall n ensures n in Items(b, dir) ==> n in Items(a, dir) {
      if p :| p in b && dir < p && p[|dir|] == n { assert Read(a, p) == Read(b, p); }
    }
  }

  lemma SameDeeper(a: Files, b: Files, dir: Path, p: Path)
    requires SameBelow(a, b, dir) && dir <= p
    ensures SameBelow(a, b, p) && Read(a, p) == Read(b, p)
  {
  }

  lemma SameSeal(env: Env, a: Files, b: Files, bundle: Path, exec: Name)
    requires SameBelow(a, b, bundle)
    ensures SealOf(env, a, bundle, exec) == SealOf(env, b, bundle, exec)
  {
    hide SealOf, Listed;
    forall q: Path | q != [] && Listed(q, exec)
      ensures (bundle + q in a <==> bundle + q in b) && Content(a, bundle + q) == Content(b, bundle + q)
    {
      assert Read(a, bundle + q) == Read(b, bundle + q);
    }
    SealDependsOn(env, a, b, bundle, exec);
  }

  /** What is to be signed about an item depends on the item's own files. */
  lemma SameSignable(env: Env, a: Files, b: Files, dir: Path, item: Name)
    requires SameBelow(a, b, dir + [item])
    ensures IsFramework(a, dir, item) == IsFramework(b, dir, item)
    ensures SignableFramework(env, a, dir, item) == SignableFramework(env, b, dir, item)
    ensures SignableDylib(env, a, dir, item) == SignableDylib(env, b, dir, item)
    ensures EndsWith(item, FRAMEWORK_SUFFIX) ==>
      FrameworkTarget(env, a, dir, item) == FrameworkTarget(env, b, dir, item)
    ensures EndsWith(item, FRAMEWORK_SUFFIX) ==>
      var binary := dir + [item, FrameworkName(item)];
      Read(a, binary) == Read(b, binary) && Items(a, binary) == Items(b, binary)
    ensures Read(a, dir + [item]) == Read(b, dir + [item])
  {
    hide SealOf, Items, EndsWith, SameBelow;
    var bundle := dir + [item];
    SameItems(a, b, bundle);
    SameDeeper(a, b, bundle, bundle);
    if EndsWith(item, FRAMEWORK_SUFFIX) {
      var binary := dir + [item, FrameworkName(item)];
      assert bundle <= binary && bundle <= bundle + [INFO_PLIST];
      SameDeeper(a, b, bundle, binary);
      SameDeeper(a, b, bundle, bundle + [INFO_PLIST]);
      SameItems(a, b, binary);
      SameSeal(env, a, b, bundle, FrameworkName(item));
    }
  }

  lemma SameDone(env: Env, a: Files, b: Files, seals: seq<Receipt>, n: nat, dir: Path, item: Name)
    requires SameBelow(a, b, dir + [item]) && ItemDone(env, a, seals, n, dir, item)
    ensures ItemDone(env, b, seals, n, dir, item)
  {
    SameSignable(env, a, b, dir, item);
    hide SignableFramework, SignableDylib, FrameworkTarget, DylibTarget, SameBelow;
    if SignableFramework(env, b, dir, item) {
      var k :| n <= k < |seals| && FrameworkReceipt(env, a, seals[k], dir, item);
      SignableParts(env, a, dir, item);
      SignableParts(env, b, dir, item);
      assert FrameworkReceipt(env, b, seals[k], dir, item);
    }
    if SignableDylib(env, b, dir, item) {
      var k :| n <= k < |seals| && DylibReceipt(env, a, seals[k], dir, item);
      SignableParts(env, a, dir, item);
      SignableParts(env, b, dir, item);
      assert DylibReceipt(env, b, seals[k], dir, item);
    }
  }

  lemma SignableParts(env: Env, files: Files, dir: Path, item: Name)
    ensures SignableFramework(env, files, dir, item) ==>
      EndsWith(item, FRAMEWORK_SUFFIX) && dir + [item, FrameworkName(item)] in files
    ensures SignableDylib(env, files, dir, item) ==> dir + [item] in files
  {
  }

  lemma SameBroken(env: Env, a: Files, b: Files, dir: Path, item: Name, tick: nat)
    requires SameBelow(a, b, dir + [item]) && ItemBroken(env, a, dir, item, tick)
    ensures ItemBroken(env, b, dir, item, tick)
  {
    SameSignable(env, a, b, dir, item);
    SignableParts(env, a, dir, item);
    SignableParts(env, b, dir, item);
    hide SignableFramework, SignableDylib, FrameworkTarget, DylibTarget, SameBelow, Items, EndsWith;
  }

  lemma DoneStays(env: Env, before: Files, seals: seq<Receipt>, more: seq<Receipt>, n: nat, m: nat, dir: Path,
                  item: Name)
    requires ItemDone(env, before, seals, n, dir, item) && seals <= more && m <= n
    ensures ItemDone(env, before, more, m, dir, item)
  {
    hide SignableFramework, SignableDylib, FrameworkReceipt, DylibReceipt;
    assert forall k :: 0 <= k < |seals| ==> more[k] == seals[k];
  }

  lemma CoveredMoves(env: Env, a: Files, b: Files, seals: seq<Receipt>, more: seq<Receipt>, n: nat, m: nat, dir: Path)
    requires Covered(env, a, seals, n, dir) && SameBelow(a, b, dir) && seals <= more && m <= n
    ensures Covered(env, b, more, m, dir)
  {
    hide ItemDone, ItemBroken, Items, SameBelow;
    var items, i: nat :| CoveredTo(env, a, seals, n, dir, items, i);
    SameItems(a, b, dir);
    forall j | 0 <= j < i ensures ItemDone(env, b, more, m, dir, items[j]) {
      SameDeeper(a, b, dir, dir + [items[j]]);
      SameDone(env, a, b, seals, n, dir, items[j]);
      DoneStays(env, b, seals, more, n, m, dir, items[j]);
    }
    if i < |items| {
      var tick: nat :| ItemBroken(env, a, dir, items[i], tick);
      SameDeeper(a, b, dir, dir + [items[i]]);
      SameBroken(env, a, b, dir, items[i], tick);
    }
    assert CoveredTo(env, b, more, m, dir, items, i);
  }

  // ---------------------------------------------------------------- extensions

  /** The extension names an executable, and something stands there. */
  predicate SignableExtension(env: Env, files: Files, appex: Path) {
    && appex + [INFO_PLIST] in files
    && match env.extensionInfo(files[appex + [INFO_PLIST]])
       case Failure => false
       case Success(info) =>
         info.exec.Some?
         && (appex + [info.exec.value] in files || Items(files, appex + [info.exec.value]) != {})
  }

  function InfoOf(env: Env, files: Files, appex: Path): ExtensionInfo
    requires SignableExtension(env, files, appex)
  {
    env.extensionInfo(files[appex + [INFO_PLIST]]).value
  }

  function ExtensionTarget(env: Env, files: Files, appex: Path, resources: Bytes): Target
    requires SignableExtension(env, files, appex)
  {
    var id := InfoOf(env, files, appex).bundleId;
    App(id, env.teamId, Some(files[appex + [INFO_PLIST]]), resources, env.entitlementsFor(env.profileFor(id), id))
  }

  /** The executable that is signed; the profile is written before it. */
  function ExtensionBinary(env: Env, files: Files, appex: Path): Option<Bytes>
    requires SignableExtension(env, files, appex)
  {
    var info := InfoOf(env, files, appex);
    Read(files[appex + [PROFILE] := env.profileFor(info.bundleId)], appex + [info.exec.value])
  }

  predicate ExtensionReceipt(env: Env, before: Files, rc: Receipt, appex: Path)
    requires SignableExtension(env, before, appex)
  {
    && rc.Sealed? && rc.bundle == appex && Some(rc.exec) == InfoOf(env, before, appex).exec && rc.signing.Some?
    && rc.signing.value.target.App?
    && rc.signing.value.target == ExtensionTarget(env, before, appex, rc.signing.value.target.resources)
    && Some(rc.signing.value.original) == ExtensionBinary(env, before, appex)
  }

  /** A signable extension has its receipt, and its own frameworks are covered. */
  ghost predicate ExtensionDone(env: Env, before: Files, seals: seq<Receipt>, n: nat, appex: Path) {
    SignableExtension(env, before, appex) ==>
      && (exists k :: n <= k < |seals| && ExtensionReceipt(env, before, seals[k], appex))
      && Covered(env, before, seals, n, appex + [FRAMEWORKS])
  }

  /** Why an extension ends the loop. */
  ghost predicate ExtensionBroken(env: Env, before: Files, appex: Path) {
    || appex + [INFO_PLIST] !in before
    || env.extensionInfo(before[appex + [INFO_PLIST]]).Failure?
    || (SignableExtension(env, before, appex)
        && (ExtensionBinary(env, before, appex) == None || ExtensionSignFails(env, before, appex)))
  }

  ghost predicate ExtensionSignFails(env: Env, before: Files, appex: Path)
    requires SignableExtension(env, before, appex) && ExtensionBinary(env, before, appex).Some?
  {
    exists resources, tick: nat ::
      SignFails(env, ExtensionTarget(env, before, appex, resources), ExtensionBinary(env, before, appex).value, tick)
  }

  predicate SignFails(env: Env, target: Target, original: Bytes, tick: nat) {
    env.sign(target, original, tick).Failure?
  }

  /** In the order of a listing, every extension up to the first broken one is done. */
  ghost predicate PlugInsCovered(env: Env, before: Files, seals: seq<Receipt>, n: nat) {
    exists items, i: nat :: PlugInsCoveredTo(env, before, seals, n, items, i)
  }

  ghost predicate PlugInsCoveredTo(env: Env, before: Files, seals: seq<Receipt>, n: nat, items: seq<Name>, i: nat) {
    && Listing(before, [PLUGINS], items) && i <= |items|
    && (forall j :: 0 <= j < i && EndsWith(items[j], ".appex") ==>
          ExtensionDone(env, before, seals, n, [PLUGINS] + [items[j]]))
    && (i < |items| ==> EndsWith(items[i], ".appex") && ExtensionBroken(env, before, [PLUGINS] + [items[i]]))
  }

  /** With no broken extension, every signable extension is signed, and its frameworks are covered. */
  lemma PlugInsCoveredIsAll(env: Env, before: Files, seals: seq<Receipt>, n: nat, item: Name)
    requires PlugInsCovered(env, before, seals, n)
    requires item in Items(before, [PLUGINS]) && EndsWith(item, ".appex")
    requires forall other :: other in Items(before, [PLUGINS]) && EndsWith(other, ".appex") ==>
      !ExtensionBroken(env, before, [PLUGINS] + [other])
    ensures ExtensionDone(env, before, seals, n, [PLUGINS] + [item])
  {
    hide ExtensionDone, ExtensionBroken, Items, EndsWith;
    var items, i: nat :| PlugInsCoveredTo(env, before, seals, n, items, i);
    forall k | 0 <= k < |items| ensures items[k] in items {
    }
    var j :| 0 <= j < |items| && items[j] == item;
  }

  lemma SameExtension(env: Env, a: Files, b: Files, appex: Path)
    requires SameBelow(a, b, appex)
    ensures SignableExtension(env, a, appex) == SignableExtension(env, b, appex)
    ensures (appex + [INFO_PLIST] in a) == (appex + [INFO_PLIST] in b)
    ensures appex + [INFO_PLIST] in a ==> a[appex + [INFO_PLIST]] == b[appex + [INFO_PLIST]]
    ensures SignableExtension(env, a, appex) ==>
      ExtensionBinary(env, a, appex) == ExtensionBinary(env, b, appex)
  {
    hide Items, SameBelow;
    SameDeeper(a, b, appex, appex + [INFO_PLIST]);
    if appex + [INFO_PLIST] in a {
      var info := env.extensionInfo(a[appex + [INFO_PLIST]]);
      if info.Success? && info.value.exec.Some? {
        SameDeeper(a, b, appex, appex + [info.value.exec.value]);
        SameItems(a, b, appex + [info.value.exec.value]);
      }
    }
  }

  lemma SameExtensionDone(env: Env, a: Files, b: Files, seals: seq<Receipt>, more: seq<Receipt>, n: nat, m: nat,
                          appex: Path)
    requires ExtensionDone(env, a, seals, n, appex) && SameBelow(a, b, appex) && seals <= more && m <= n
    ensures ExtensionDone(env, b, more, m, appex)
  {
    SameExtension(env, a, b, appex);
    hide SameBelow, ExtensionBinary, SignableExtension, Covered;
    if SignableExtension(env, b, appex) {
      var k :| n <= k < |seals| && ExtensionReceipt(env, a, seals[k], appex);
      SignableExtensionParts(env, a, appex);
      SignableExtensionParts(env, b, appex);
      assert more[k] == seals[k];
      assert ExtensionReceipt(env, b, more[k], appex);
      SameDeeper(a, b, appex, appex + [FRAMEWORKS]);
      CoveredMoves(env, a, b, seals, more, n, m, appex + [FRAMEWORKS]);
    }
  }

  lemma SignableExtensionParts(env: Env, files: Files, appex: Path)
    ensures SignableExtension(env, files, appex) ==>
      appex + [INFO_PLIST] in files && env.extensionInfo(files[appex + [INFO_PLIST]]).Success?
  {
  }

  lemma SameExtensionBroken(env: Env, a: Files, b: Files, appex: Path)
    requires ExtensionBroken(env, a, appex) && SameBelow(a, b, appex)
    ensures ExtensionBroken(env, b, appex)
  {
    SameExtension(env, a, b, appex);
    hide SameBelow, ExtensionBinary, SignableExtension;
    SignableExtensionParts(env, a, appex);
    SignableExtensionParts(env, b, appex);
    if SignableExtension(env, a, appex) && ExtensionBinary(env, a, appex).Some? && ExtensionSignFails(env, a, appex) {
      var resources, tick: nat :| SignFails(env, ExtensionTarget(env, a, appex, resources),
                                       ExtensionBinary(env, a, appex).value, tick);
      assert SignFails(env, ExtensionTarget(env, b, appex, resources), ExtensionBinary(env, b, appex).value, tick);
    }
  }

  // ---------------------------------------------------------------- bundles that do not meet

  predicate Comparable(a: Path, b: Path) {
    a <= b || b <= a
  }

  /** No recorded bundle contains `dir` or lies in it. */
  predicate Apart(seals: seq<Receipt>, dir: Path) {
    forall i :: 0 <= i < |seals| ==> !Comparable(Place(seals[i]), dir)
  }

  /** What contains a path of `dir`, or lies in one, contains `dir` or lies in it. */
  lemma ComparableUp(a: Path, dir: Path, p: Path)
    requires dir <= p
    ensures Comparable(a, p) ==> Comparable(a, dir)
  {
    if a <= p {
      assert a == p[..|a|] && dir == p[..|dir|];
      assert |a| <= |dir| ==> a == dir[..|a|];
      assert |dir| <= |a| ==> dir == a[..|dir|];
    } else if p <= a {
      assert dir == p[..|dir|] == a[..|dir|];
    }
  }

  lemma ApartOutside(seals: seq<Receipt>, dir: Path, p: Path)
    requires Apart(seals, dir) && dir <= p
    ensures Outside(seals, p)
  {
    forall i | 0 <= i < |seals| ensures !Touches(seals[i], p) {
      ComparableUp(Place(seals[i]), dir, p);
    }
  }

  lemma ApartBelow(seals: seq<Receipt>, dir: Path, p: Path)
    requires Apart(seals, dir) && dir <= p
    ensures Apart(seals, p)
  {
    forall i | 0 <= i < |seals| ensures !Comparable(Place(seals[i]), p) {
      ComparableUp(Place(seals[i]), dir, p);
    }
  }

  lemma SiblingsDiffer(dir: Path, m: Name, n: Name)
    requires m != n
    ensures !Comparable(dir + [m], dir + [n])
  {
    assert (dir + [m])[|dir|] == m && (dir + [n])[|dir|] == n;
  }

  /** `p` lies in the Frameworks or PlugIns directory of `dir`. */
  predicate Deep(dir: Path, p: Path) {
    dir < p && |p| >= |dir| + 2 && (p[|dir|] == FRAMEWORKS || p[|dir|] == PLUGINS)
  }

  /** What lies there is not concerned by the seal and the executable of `dir` itself. */
  lemma DeepOutside(seals: seq<Receipt>, n: nat, dir: Path, p: Path)
    requires n <= |seals| && Apart(seals[..n], dir)
    requires dir <= p && (|p| == |dir| + 1 || p == SealPath(dir))
    requires forall k :: n <= k < |seals| ==> Deep(dir, Place(seals[k]))
    ensures Outside(seals, p)
  {
    ApartOutside(seals[..n], dir, p);
    forall k | 0 <= k < |seals| ensures !Touches(seals[k], p) {
      if k < n {
        assert seals[..n][k] == seals[k];
      } else {
        assert Deep(dir, Place(seals[k]));
        assert SealPath(dir)[|dir|] == CODE_SIGNATURE;
      }
    }
  }

  /** The recorded bundles from the `n`-th on lie in one of the first `i` items of `dir`. */
  predicate AddedBelow(seals: seq<Receipt>, n: nat, dir: Path, items: seq<Name>, i: nat)
    requires i <= |items|
  {
    forall k :: n <= k < |seals| ==> exists j :: 0 <= j < i && dir + [items[j]] <= Place(seals[k])
  }

  /** The next item is apart from everything recorded so far. */
  lemma NextItemApart(seals: seq<Receipt>, n: nat, dir: Path, items: seq<Name>, i: nat)
    requires i < |items| && n <= |seals| && Apart(seals[..n], dir) && AddedBelow(seals, n, dir, items, i)
    requires forall j, k :: 0 <= j < k < |items| ==> items[j] != items[k]
    ensures Apart(seals, dir + [items[i]])
  {
    var p := dir + [items[i]];
    forall k | 0 <= k < |seals| ensures !Comparable(Place(seals[k]), p) {
      if k < n {
        assert seals[..n][k] == seals[k];
        ComparableUp(Place(seals[k]), dir, p);
      } else {
        var j :| 0 <= j < i && dir + [items[j]] <= Place(seals[k]);
        SiblingsDiffer(dir, items[j], items[i]);
        ComparableUp(p, dir + [items[j]], Place(seals[k]));
      }
    }
  }

  lemma NoSealsApart(env: Env, files: Files)
    ensures Apart([], [] + [FRAMEWORKS]) && AllHold(env, files, [])
  {
  }

  lemma FrameworksApart(seals: seq<Receipt>)
    requires forall k :: 0 <= k < |seals| ==> [] + [FRAMEWORKS] < Place(seals[k])
    ensures Apart(seals, [PLUGINS])
  {
    forall k | 0 <= k < |seals| ensures !Comparable(Place(seals[k]), [PLUGINS]) {
      SiblingsDiffer([], FRAMEWORKS, PLUGINS);
      assert Place(seals[k])[0] == FRAMEWORKS;
    }
  }

  // ---------------------------------------------------------------- what the steps come to

  /** What the executable of a bundle is signed as. */
  function SealTarget(env: Env, files: Files, bundle: Path, exec: Name, recipe: Recipe): Target {
    TargetOf(env, recipe, Read(files, bundle + [INFO_PLIST]), env.plist(SealOf(env, files, bundle, exec)))
  }

  predicate CanSeal(env: Env, files: Files, bundle: Path, exec: Name, recipe: Recipe, tick: nat) {
    && (recipe.AsApp? ==> bundle + [INFO_PLIST] in files)
    && bundle + [exec] in files
    && env.sign(SealTarget(env, files, bundle, exec, recipe), files[bundle + [exec]], tick).Success?
  }

  lemma TargetIs(env: Env, recipe: Recipe, info: Option<Bytes>, resources: Bytes)
    ensures SealedResources(TargetOf(env, recipe, info, resources)) == Some(resources)
    ensures TargetOf(env, recipe, info, resources).infoPlist == info
  {
  }

  lemma SealApart(bundle: Path, exec: Name)
    ensures SealPath(bundle) != bundle + [exec] && SealPath(bundle) != bundle + [INFO_PLIST]
  {
    assert |SealPath(bundle)| == |bundle| + 2;
  }

  lemma LastCharacter(item: Name, suffix: string)
    requires suffix != ""
    ensures EndsWith(item, suffix) ==> item[|item| - 1] == suffix[|suffix| - 1]
  {
  }

  lemma SuffixesDiffer(item: Name)
    ensures !(EndsWith(item, FRAMEWORK_SUFFIX) && EndsWith(item, DYLIB_SUFFIX))
  {
    hide EndsWith;
    LastCharacter(item, FRAMEWORK_SUFFIX);
    LastCharacter(item, DYLIB_SUFFIX);
  }

  lemma AllSame(files: Files, dir: Path, items: seq<Name>)
    ensures forall k :: 0 <= k < |items| ==> SameBelow(files, files, dir + [items[k]])
  {
  }

  /** What changes in one item leaves the others as they were. */
  lemma SiblingKept(a: Files, b: Files, dir: Path, m: Name, n: Name)
    requires m != n && forall p :: !(dir + [m] <= p) ==> Read(b, p) == Read(a, p)
    ensures SameBelow(a, b, dir + [n])
  {
    forall q: Path | dir + [n] <= q ensures Read(a, q) == Read(b, q) {
      SiblingsDiffer(dir, m, n);
      ComparableUp(dir + [m], dir + [n], q);
    }
  }

  lemma SameTwice(a: Files, b: Files, c: Files, p: Path)
    requires SameBelow(a, b, p) && SameBelow(b, c, p)
    ensures SameBelow(a, c, p)
  {
  }

  lemma SameBack(a: Files, b: Files, p: Path)
    requires SameBelow(a, b, p)
    ensures SameBelow(b, a, p)
  {
  }

  lemma RestKept(a: Files, b: Files, c: Files, dir: Path, items: seq<Name>, i: nat)
    requires i < |items| && forall j, k :: 0 <= j < k < |items| ==> items[j] != items[k]
    requires forall k :: i <= k < |items| ==> SameBelow(a, b, dir + [items[k]])
    requires forall p :: !(dir + [items[i]] <= p) ==> Read(c, p) == Read(b, p)
    ensures forall k :: i < k < |items| ==> SameBelow(a, c, dir + [items[k]])
  {
    hide SameBelow;
    forall k | i < k < |items| ensures SameBelow(a, c, dir + [items[k]]) {
      SiblingKept(b, c, dir, items[i], items[k]);
      SameTwice(a, b, c, dir + [items[k]]);
    }
  }

  lemma NextItem(env: Env, atFirst: Files, before: Files, after: Files, sealed: seq<Receipt>, seals: seq<Receipt>,
                 n: nat, dir: Path, items: seq<Name>, i: nat, ok: bool, tick: nat)
    requires i < |items| && forall j, k :: 0 <= j < k < |items| ==> items[j] != items[k]
    requires n <= |sealed| && sealed <= seals
    requires forall j :: 0 <= j < i ==> ItemDone(env, atFirst, sealed, n, dir, items[j])
    requires forall k :: i <= k < |items| ==> SameBelow(atFirst, before, dir + [items[k]])
    requires forall p :: !(dir + [items[i]] <= p) ==> Read(after, p) == Read(before, p)
    requires if ok then ItemDone(env, before, seals, |sealed|, dir, items[i])
             else ItemBroken(env, before, dir, items[i], tick)
    ensures forall j :: 0 <= j < i ==> ItemDone(env, atFirst, seals, n, dir, items[j])
    ensures if ok then ItemDone(env, atFirst, seals, n, dir, items[i])
            else ItemBroken(env, atFirst, dir, items[i], tick)
    ensures forall k :: i < k < |items| ==> SameBelow(atFirst, after, dir + [items[k]])
  {
    hide ItemDone, ItemBroken, SameBelow;
    RestKept(atFirst, before, after, dir, items, i);
    forall j | 0 <= j < i ensures ItemDone(env, atFirst, seals, n, dir, items[j]) {
      DoneStays(env, atFirst, sealed, seals, n, n, dir, items[j]);
    }
    SameBack(atFirst, before, dir + [items[i]]);
    if ok {
      SameDone(env, before, atFirst, seals, |sealed|, dir, items[i]);
      DoneStays(env, atFirst, seals, seals, |sealed|, n, dir, items[i]);
    } else {
      SameBroken(env, before, atFirst, dir, items[i], tick);
    }
  }

  lemma NextExtension(env: Env, atFirst: Files, before: Files, after: Files, sealed: seq<Receipt>,
                      seals: seq<Receipt>, n: nat, items: seq<Name>, i: nat, ok: bool)
    requires i < |items| && forall j, k :: 0 <= j < k < |items| ==> items[j] != items[k]
    requires n <= |sealed| && sealed <= seals
    requires forall j :: 0 <= j < i && EndsWith(items[j], APPEX_SUFFIX) ==>
      ExtensionDone(env, atFirst, sealed, n, [PLUGINS] + [items[j]])
    requires forall k :: i <= k < |items| ==> SameBelow(atFirst, before, [PLUGINS] + [items[k]])
    requires forall p :: !([PLUGINS] + [items[i]] <= p) ==> Read(after, p) == Read(before, p)
    requires ok && EndsWith(items[i], APPEX_SUFFIX) ==>
      ExtensionDone(env, before, seals, |sealed|, [PLUGINS] + [items[i]])
    requires !ok ==> EndsWith(items[i], APPEX_SUFFIX) && ExtensionBroken(env, before, [PLUGINS] + [items[i]])
    ensures forall j :: 0 <= j < i && EndsWith(items[j], APPEX_SUFFIX) ==>
      ExtensionDone(env, atFirst, seals, n, [PLUGINS] + [items[j]])
    ensures ok && EndsWith(items[i], APPEX_SUFFIX) ==> ExtensionDone(env, atFirst, seals, n, [PLUGINS] + [items[i]])
    ensures !ok ==> ExtensionBroken(env, atFirst, [PLUGINS] + [items[i]])
    ensures forall k :: i < k < |items| ==> SameBelow(atFirst, after, [PLUGINS] + [items[k]])
  {
    hide ExtensionDone, ExtensionBroken, SameBelow, EndsWith;
    RestKept(atFirst, before, after, [PLUGINS], items, i);
    forall j | 0 <= j < i && EndsWith(items[j], APPEX_SUFFIX)
      ensures ExtensionDone(env, atFirst, seals, n, [PLUGINS] + [items[j]])
    {
      SameSame(atFirst, [PLUGINS] + [items[j]]);
      SameExtensionDone(env, atFirst, atFirst, sealed, seals, n, n, [PLUGINS] + [items[j]]);
    }
    SameBack(atFirst, before, [PLUGINS] + [items[i]]);
    if ok && EndsWith(items[i], APPEX_SUFFIX) {
      SameExtensionDone(env, before, atFirst, seals, seals, |sealed|, n, [PLUGINS] + [items[i]]);
    } else if !ok {
      SameExtensionBroken(env, before, atFirst, [PLUGINS] + [items[i]]);
    }
  }

  lemma SameSame(files: Files, p: Path)
    ensures SameBelow(files, files, p)
  {
  }

  /** The profile lies in no directory that is signed. */
  lemma ProfileApart(files: Files, dir: Path, profile: Bytes)
    ensures SameBelow(files[dir + [PROFILE] := profile], files, dir + [FRAMEWORKS])
    ensures SameBelow(files[dir + [PROFILE] := profile], files, dir + [PLUGINS])
  {
    SiblingKept(files[dir + [PROFILE] := profile], files, dir, PROFILE, FRAMEWORKS);
    SiblingKept(files[dir + [PROFILE] := profile], files, dir, PROFILE, PLUGINS);
  }

  /** A file directly in a bundle does not lie in its Frameworks or PlugIns. */
  lemma NotDeep(dir: Path, name: Name)
    ensures !(dir + [FRAMEWORKS] < dir + [name]) && !(dir + [PLUGINS] < dir + [name])
    ensures !(dir + [FRAMEWORKS] < dir + [INFO_PLIST]) && !(dir + [PLUGINS] < dir + [INFO_PLIST])
    ensures !(dir + [FRAMEWORKS] < dir + [PROFILE]) && !(dir + [PLUGINS] < dir + [PROFILE])
  {
  }

  /** What signing an extension comes to, in terms of the tree it found. */
  lemma ExtensionOutcome(env: Env, atFirst: Files, nested: Files, framed: seq<Receipt>, rc: Receipt, n: nat,
                         appex: Path, ok: bool, tick: nat)
    requires SignableExtension(env, atFirst, appex)
    requires
      var info := InfoOf(env, atFirst, appex);
      var embedded := atFirst[appex + [PROFILE] := env.profileFor(info.bundleId)];
      var recipe := AsApp(info.bundleId, env.entitlementsFor(env.profileFor(info.bundleId), info.bundleId));
      && Covered(env, embedded, framed, n, appex + [FRAMEWORKS])
      && SameOutside(embedded, nested, appex + [FRAMEWORKS])
      && rc.Sealed? && rc.bundle == appex && Some(rc.exec) == info.exec
      && (ok <==> CanSeal(env, nested, appex, rc.exec, recipe, tick))
      && (ok ==> rc.signing == Some(Signing(SealTarget(env, nested, appex, rc.exec, recipe), nested[appex + [rc.exec]],
                                            tick)))
    requires n <= |framed|
    ensures ok ==> ExtensionDone(env, atFirst, framed + [rc], n, appex)
    ensures !ok ==> ExtensionBroken(env, atFirst, appex)
  {
    hide Covered, SealOf, SignableExtension;
    SignableExtensionParts(env, atFirst, appex);
    var info := InfoOf(env, atFirst, appex);
    var embedded := atFirst[appex + [PROFILE] := env.profileFor(info.bundleId)];
    NotDeep(appex, rc.exec);
    NamesDiffer(appex, PROFILE, INFO_PLIST);
    assert Read(nested, appex + [rc.exec]) == Read(embedded, appex + [rc.exec]) == ExtensionBinary(env, atFirst, appex);
    assert Read(nested, appex + [INFO_PLIST]) == Some(atFirst[appex + [INFO_PLIST]]);
    var resources := env.plist(SealOf(env, nested, appex, rc.exec));
    if ok {
      ProfileApart(atFirst, appex, env.profileFor(info.bundleId));
      CoveredMoves(env, embedded, atFirst, framed, framed + [rc], n, n, appex + [FRAMEWORKS]);
      assert (framed + [rc])[|framed|] == rc;
      assert ExtensionReceipt(env, atFirst, rc, appex);
    } else if appex + [rc.exec] in nested {
      assert SignFails(env, ExtensionTarget(env, atFirst, appex, resources), nested[appex + [rc.exec]], tick);
    }
  }

  lemma NamesDiffer(dir: Path, m: Name, n: Name)
    requires m != n
    ensures dir + [m] != dir + [n]
  {
    assert (dir + [m])[|dir|] == m && (dir + [n])[|dir|] == n;
  }

  lemma PlugInsCoveredMoves(env: Env, a: Files, b: Files, seals: seq<Receipt>, more: seq<Receipt>, n: nat, m: nat)
    requires PlugInsCovered(env, a, seals, n) && SameBelow(a, b, [PLUGINS]) && seals <= more && m <= n
    ensures PlugInsCovered(env, b, more, m)
  {
    hide ExtensionDone, ExtensionBroken, Items, SameBelow, EndsWith;
    var items, i: nat :| PlugInsCoveredTo(env, a, seals, n, items, i);
    SameItems(a, b, [PLUGINS]);
    forall j | 0 <= j < i && EndsWith(items[j], APPEX_SUFFIX)
      ensures ExtensionDone(env, b, more, m, [PLUGINS] + [items[j]])
    {
      SameDeeper(a, b, [PLUGINS], [PLUGINS] + [items[j]]);
      SameExtensionDone(env, a, b, seals, more, n, m, [PLUGINS] + [items[j]]);
    }
    if i < |items| {
      SameDeeper(a, b, [PLUGINS], [PLUGINS] + [items[i]]);
      SameExtensionBroken(env, a, b, [PLUGINS] + [items[i]]);
    }
    assert PlugInsCoveredTo(env, b, more, m, items, i);
  }

  /** The app's tree when its nested code is about to be signed. */
  function ReadyFiles(files: Files, profile: Bytes, includeExtensions: bool): Files {
    var embedded := files[[PROFILE] := profile];
    if includeExtensions then embedded else map p | p in embedded && !([PLUGINS] <= p) :: embedded[p]
  }

  lemma ReadyTree(files: Files, profile: Bytes, includeExtensions: bool)
    ensures
      var ready := ReadyFiles(files, profile, includeExtensions);
      && SameBelow(ready, files, [FRAMEWORKS]) && (includeExtensions ==> SameBelow(ready, files, [PLUGINS]))
      && Read(ready, [PROFILE]) == Some(profile) && Read(ready, [INFO_PLIST]) == Read(files, [INFO_PLIST])
      && (forall p :: p in files ==> (p in ready <==> includeExtensions || !([PLUGINS] <= p)))
      && (!includeExtensions ==> forall p :: p in ready ==> !([PLUGINS] <= p))
      && (forall name: Name :: [name] in ready ==> Read(ready, [name]) == Read(files[[PROFILE] := profile], [name]))
  {
    var ready := ReadyFiles(files, profile, includeExtensions);
    forall q: Path | [FRAMEWORKS] <= q ensures Read(ready, q) == Read(files, q) {
      assert q[0] == FRAMEWORKS;
    }
    if includeExtensions {
      forall q: Path | [PLUGINS] <= q ensures Read(ready, q) == Read(files, q) {
        assert q[0] == PLUGINS;
      }
    }
    assert [PROFILE][0] == PROFILE && [INFO_PLIST][0] == INFO_PLIST;
  }

  /** Signing in Frameworks and then in PlugIns leaves the other files of the app as they were. */
  lemma NestedKept(ready: Files, framed: Files, nested: Files)
    requires SameOutside(ready, framed, [FRAMEWORKS]) && SameOutside(framed, nested, [PLUGINS])
    requires Items(framed, [PLUGINS]) == {} ==> nested == framed
    ensures SameBelow(ready, framed, [PLUGINS])
    ensures forall name: Name :: Read(nested, [name]) == Read(ready, [name])
    ensures (forall p :: p in ready ==> !([PLUGINS] <= p)) ==> forall p :: p in nested ==> !([PLUGINS] <= p)
  {
    assert [] + [FRAMEWORKS] == [FRAMEWORKS] && [] + [PLUGINS] == [PLUGINS];
    SiblingKept(ready, framed, [], FRAMEWORKS, PLUGINS);
    forall name: Name ensures Read(nested, [name]) == Read(ready, [name]) {
      NotDeep([], name);
      assert [] + [name] == [name];
    }
    if forall p :: p in ready ==> !([PLUGINS] <= p) {
      forall p | p in framed ensures !([PLUGINS] <= p) {
        assert [PLUGINS] <= p ==> Read(ready, p) == Read(framed, p);
      }
      assert Items(framed, [PLUGINS]) == {};
    }
  }

  lemma ProfileStays(dir: Path, exec: Name)
    ensures exec != PROFILE ==> dir + [PROFILE] != dir + [exec]
    ensures dir + [PROFILE] != SealPath(dir) && !(dir + [FRAMEWORKS] < dir + [PROFILE])
    ensures !(dir < dir) && dir < SealPath(dir) && dir < dir + [exec] && dir < dir + [PROFILE]
  {
    assert |SealPath(dir)| == |dir + [PROFILE]| + 1;
    if exec != PROFILE {
      NamesDiffer(dir, PROFILE, exec);
    }
  }

  lemma NoneBefore(seals: seq<Receipt>)
    ensures Apart(seals[..0], [])
  {
  }

  /** The executable of the app in `before` was signed as that app, its Info.plist and these entitlements. */
  predicate SignedAsApp(env: Env, before: Files, made: Signing, exec: Name, identifier: Bytes, entitlements: Bytes,
                        profile: Bytes)
  {
    && made.target.App? && made.target.identifier == identifier && made.target.teamId == env.teamId
    && made.target.infoPlist.Some? && made.target.infoPlist == Read(before, [INFO_PLIST])
    && made.target.entitlements == entitlements
    && Some(made.original) == Read(before[[PROFILE] := profile], [exec])
  }

  lemma AppSigned(env: Env, first: Files, ready: Files, nested: Files, exec: Name, identifier: Bytes,
                  entitlements: Bytes, profile: Bytes, includeExtensions: bool, tick: nat)
    requires ready == ReadyFiles(first, profile, includeExtensions)
    requires forall name: Name :: Read(nested, [name]) == Read(ready, [name])
    requires CanSeal(env, nested, [], exec, AsApp(identifier, entitlements), tick)
    ensures SignedAsApp(env, first,
                        Signing(SealTarget(env, nested, [], exec, AsApp(identifier, entitlements)),
                                nested[[] + [exec]], tick),
                        exec, identifier, entitlements, profile)
  {
    hide SealOf, ReadyFiles;
    ReadyTree(first, profile, includeExtensions);
    assert [] + [INFO_PLIST] == [INFO_PLIST] && [] + [exec] == [exec];
    assert Read(nested, [exec]) == Read(ready, [exec]) && Read(nested, [INFO_PLIST]) == Read(ready, [INFO_PLIST]);
  }

  /** Which files there are in the end, and the profile among them. */
  lemma AppFiles(first: Files, ready: Files, nested: Files, files: Files, exec: Name, profile: Bytes,
                 includeExtensions: bool)
    requires ready == ReadyFiles(first, profile, includeExtensions)
    requires ready.Keys <= nested.Keys <= files.Keys && Read(nested, [PROFILE]) == Read(ready, [PROFILE])
    requires !includeExtensions ==> forall p :: p in nested ==> !([PLUGINS] <= p)
    requires forall p :: p != SealPath([]) && p != [] + [exec] ==> Read(files, p) == Read(nested, p)
    requires [] + [exec] !in nested ==> Read(files, [] + [exec]) == Read(nested, [] + [exec])
    ensures exec != PROFILE ==> Read(files, [PROFILE]) == Some(profile)
    ensures forall p :: p in first ==> (p in files <==> includeExtensions || !([PLUGINS] <= p))
    ensures !includeExtensions ==> forall p :: p in files ==> !([PLUGINS] <= p)
  {
    hide ReadyFiles;
    ReadyTree(first, profile, includeExtensions);
    assert |SealPath([])| == 2 && SealPath([])[0] == CODE_SIGNATURE;
    forall p | [PLUGINS] <= p ensures p in files <==> p in nested {
      assert p[0] == PLUGINS;
      assert p != [] + [exec] ==> Read(files, p) == Read(nested, p);
    }
    if exec != PROFILE {
      assert [PROFILE][0] != ([] + [exec])[0];
      assert Read(files, [PROFILE]) == Read(nested, [PROFILE]);
    }
  }

  class AppTree {
    const env: Env
    var files: Files
    var clock: nat
    ghost var seals: seq<Receipt>

    /** Every seal written so far is true of the files, every signed dylib is there. */
    ghost predicate Valid()
      reads this
    {
      AllHold(env, files, seals)
    }

    constructor (env: Env, files: Files, clock: nat)
      ensures Valid() && this.env == env && this.files == files && this.clock == clock && seals == []
    {
      this.env, this.files, this.clock, seals := env, files, clock, [];
    }

    /** Build and write the seal of a bundle, then sign its executable over it. */
    method SealAndSign(bundle: Path, exec: Name, recipe: Recipe) returns (ok: bool)
      requires Valid() && Outside(seals, SealPath(bundle)) && Outside(seals, bundle + [exec])
      modifies this
      ensures Valid()
      ensures |seals| == |old(seals)| + 1 && seals[..|old(seals)|] == old(seals)
      ensures seals[|old(seals)|].Sealed? && seals[|old(seals)|].bundle == bundle && seals[|old(seals)|].exec == exec
      ensures ok <==> CanSeal(env, old(files), bundle, exec, recipe, old(clock))
      ensures ok ==>
        seals[|old(seals)|].signing
        == Some(Signing(SealTarget(env, old(files), bundle, exec, recipe), old(files)[bundle + [exec]], old(clock)))
      ensures forall p :: p != SealPath(bundle) && p != bundle + [exec] ==> Read(files, p) == Read(old(files), p)
      ensures !ok ==> Read(files, bundle + [exec]) == Read(old(files), bundle + [exec])
      ensures old(files).Keys <= files.Keys
    {
      hide SealOf, Holds, SealHolds, AllHold, Outside, TargetOf;
      var resources := BuildCodeResources(env, files, bundle, exec);
      WriteOutsideAll(env, files, seals, SealPath(bundle), resources);
      SealWritten(env, files, bundle, exec);
      SealApart(bundle, exec);
      files := files[SealPath(bundle) := resources];
      ghost var before := seals;
      seals := before + [Sealed(bundle, exec, None)];
      AddReceipt(env, files, before, Sealed(bundle, exec, None));
      var info := Read(files, bundle + [INFO_PLIST]);
      if recipe.AsApp? && info == None {
        return false;
      }
      if bundle + [exec] !in files {
        return false;
      }
      var target, original := TargetOf(env, recipe, info, resources), files[bundle + [exec]];
      var signed := env.sign(target, original, clock);
      clock := clock + 1;
      if signed.Failure? {
        return false;
      }
      ghost var s := Signing(target, original, clock - 1);
      TargetIs(env, recipe, info, resources);
      ExecWritten(env, files, bundle, exec, s, signed.value);
      WriteOutsideAll(env, files, before, bundle + [exec], signed.value);
      files := files[bundle + [exec] := signed.value];
      seals := before + [Sealed(bundle, exec, Some(s))];
      AddReceipt(env, files, before, Sealed(bundle, exec, Some(s)));
      ok := true;
    }

    /** signFramework: a directory without the binary, or with one that is not Mach-O, is left alone. */
    method SignFramework(dir: Path, item: Name) returns (ok: bool)
      requires Valid() && Apart(seals, dir + [item]) && IsFramework(files, dir, item)
      modifies this
      ensures Valid()
      ensures |old(seals)| <= |seals| <= |old(seals)| + 1 && seals[..|old(seals)|] == old(seals)
      ensures forall i :: |old(seals)| <= i < |seals| ==> Place(seals[i]) == dir + [item]
      ensures ok && SignableFramework(env, old(files), dir, item) ==>
        |seals| > |old(seals)| && FrameworkReceipt(env, old(files), seals[|old(seals)|], dir, item)
      ensures !SignableFramework(env, old(files), dir, item) ==> seals == old(seals) && files == old(files)
      ensures !ok ==> ItemBroken(env, old(files), dir, item, old(clock))
      ensures SameOutside(old(files), files, dir + [item]) && old(files).Keys <= files.Keys
    {
      hide AllHold, Outside, Apart, SealOf, Items, EndsWith;
      var framework, fwName := dir + [item], FrameworkName(item);
      assert framework + [fwName] == dir + [item, fwName];
      if framework + [fwName] !in files {
        return Items(files, framework + [fwName]) == {};
      }
      if !env.parses(files[framework + [fwName]]) {
        return true;
      }
      ApartOutside(seals, framework, SealPath(framework));
      ApartOutside(seals, framework, framework + [fwName]);
      ok := SealAndSign(framework, fwName, AsFramework(env.utf8(fwName)));
    }

    /** signDylib: what is not Mach-O is left alone. */
    method SignDylib(path: Path, item: Name) returns (ok: bool)
      requires Valid() && Outside(seals, path) && path in files
      modifies this
      ensures Valid()
      ensures |old(seals)| <= |seals| <= |old(seals)| + 1 && seals[..|old(seals)|] == old(seals)
      ensures |seals| > |old(seals)| <==> ok && env.parses(old(files)[path])
      ensures |seals| > |old(seals)| ==>
        seals[|old(seals)|]
        == Library(path, Signing(Nested(env.utf8(item), env.teamId, None, None), old(files)[path], old(clock)))
      ensures ok <==> !env.parses(old(files)[path])
                      || env.sign(Nested(env.utf8(item), env.teamId, None, None), old(files)[path], old(clock)).Success?
      ensures forall p :: p != path ==> Read(files, p) == Read(old(files), p)
      ensures old(files).Keys <= files.Keys
    {
      hide AllHold, Outside, Holds;
      if !env.parses(files[path]) {
        return true;
      }
      var target, original := Nested(env.utf8(item), env.teamId, None, None), files[path];
      var signed := env.sign(target, original, clock);
      clock := clock + 1;
      if signed.Failure? {
        return false;
      }
      WriteOutsideAll(env, files, seals, path, signed.value);
      files := files[path := signed.value];
      ghost var made := Library(path, Signing(target, original, clock - 1));
      LibraryWritten(env, files, path, made.made);
      AddReceipt(env, files, seals, made);
      seals := seals + [made];
      ok := true;
    }

    /** One entry of a Frameworks directory: a framework, a dylib, or something else. */
    method SignItem(dir: Path, item: Name) returns (ok: bool)
      requires Valid() && Apart(seals, dir + [item])
      modifies this
      ensures Valid()
      ensures |old(seals)| <= |seals| && seals[..|old(seals)|] == old(seals)
      ensures forall i :: |old(seals)| <= i < |seals| ==> Place(seals[i]) == dir + [item]
      ensures ok ==> ItemDone(env, old(files), seals, |old(seals)|, dir, item)
      ensures !ok ==> ItemBroken(env, old(files), dir, item, old(clock))
      ensures forall p :: !(dir + [item] <= p) ==> Read(files, p) == Read(old(files), p)
      ensures old(files).Keys <= files.Keys
    {
      hide AllHold, Outside, Apart, Items, SealOf, FrameworkTarget;
      SuffixesDiffer(item);
      hide EndsWith;
      ok := true;
      if EndsWith(item, FRAMEWORK_SUFFIX) && Items(files, dir + [item]) != {} {
        ok := SignFramework(dir, item);
      } else if EndsWith(item, DYLIB_SUFFIX) && dir + [item] in files {
        ApartOutside(seals, dir + [item], dir + [item]);
        ok := SignDylib(dir + [item], item);
      }
    }

    /** The loop over a Frameworks directory; an error ends it and is swallowed. */
    method SignFrameworksIn(parent: Path)
      requires Valid() && Apart(seals, parent + [FRAMEWORKS])
      modifies this
      ensures Valid()
      ensures |old(seals)| <= |seals| && seals[..|old(seals)|] == old(seals)
      ensures forall k :: |old(seals)| <= k < |seals| ==>
        parent + [FRAMEWORKS] < Place(seals[k]) && |Place(seals[k])| == |parent| + 2
      ensures Covered(env, old(files), seals, |old(seals)|, parent + [FRAMEWORKS])
      ensures SameOutside(old(files), files, parent + [FRAMEWORKS]) && old(files).Keys <= files.Keys
    {
      hide AllHold, Outside, Apart, Items, ItemDone, ItemBroken, SameBelow;
      var dir := parent + [FRAMEWORKS];
      var items := ReadDir(files, dir);
      ghost var n := |seals|;
      ghost var done := 0;
      ghost var atFirst := files;
      AllSame(files, dir, items);
      var i := 0;
      while i < |items|
        invariant 0 <= i <= |items| && done == i
        invariant Valid() && n <= |seals| && seals[..n] == old(seals)
        invariant AddedBelow(seals, n, dir, items, i)
        invariant forall k :: n <= k < |seals| ==> |Place(seals[k])| == |dir| + 1
        invariant SameOutside(atFirst, files, dir) && atFirst.Keys <= files.Keys
        invariant forall j :: 0 <= j < i ==> ItemDone(env, atFirst, seals, n, dir, items[j])
        invariant forall k :: i <= k < |items| ==> SameBelow(atFirst, files, dir + [items[k]])
      {
        NextItemApart(seals, n, dir, items, i);
        ghost var before, sealed := files, seals;
        ghost var tick := clock;
        var ok := SignItem(dir, items[i]);
        NextItem(env, atFirst, before, files, sealed, seals, n, dir, items, i, ok, tick);
        i := i + 1;
        if !ok {
          break;
        }
        done := i;
      }
      assert CoveredTo(env, atFirst, seals, n, dir, items, done);
    }

    /** The writes of signAppExtension: the profile, the frameworks inside, the seal, the executable. */
    method SignExtensionContent(appex: Path, exec: Name, bundleId: Bytes) returns (ok: bool)
      requires Valid() && Apart(seals, appex) && SignableExtension(env, files, appex)
      requires InfoOf(env, files, appex) == ExtensionInfo(Some(exec), bundleId)
      modifies this
      ensures Valid()
      ensures |old(seals)| <= |seals| && seals[..|old(seals)|] == old(seals)
      ensures forall k :: |old(seals)| <= k < |seals| ==> appex <= Place(seals[k])
      ensures ok ==> ExtensionDone(env, old(files), seals, |old(seals)|, appex)
      ensures !ok ==> ExtensionBroken(env, old(files), appex)
      ensures exec != PROFILE ==> Read(files, appex + [PROFILE]) == Some(env.profileFor(bundleId))
      ensures SameOutside(old(files), files, appex) && old(files).Keys <= files.Keys
    {
      hide AllHold, Outside, Apart, Items, SealOf, Covered, SealTarget, CanSeal, ExtensionDone, ExtensionBroken,
           SignableExtension;
      var profile := env.profileFor(bundleId);
      ghost var atFirst := files;
      ApartOutside(seals, appex, appex + [PROFILE]);
      WriteOutsideAll(env, files, seals, appex + [PROFILE], profile);
      files := files[appex + [PROFILE] := profile];
      ApartBelow(seals, appex, appex + [FRAMEWORKS]);
      ghost var n := |seals|;
      SignFrameworksIn(appex);
      ghost var nested, tick, framed := files, clock, seals;
      DeepOutside(seals, n, appex, SealPath(appex));
      DeepOutside(seals, n, appex, appex + [exec]);
      ok := SealAndSign(appex, exec, AsApp(bundleId, env.entitlementsFor(profile, bundleId)));
      ExtensionOutcome(env, atFirst, nested, framed, seals[|framed|], n, appex, ok, tick);
      assert seals == framed + [seals[|framed|]];
      ProfileStays(appex, exec);
    }

    /** signAppExtension: an extension without an executable is left alone. */
    method SignAppExtension(appex: Path) returns (ok: bool)
      requires Valid() && Apart(seals, appex)
      modifies this
      ensures Valid()
      ensures |old(seals)| <= |seals| && seals[..|old(seals)|] == old(seals)
      ensures forall k :: |old(seals)| <= k < |seals| ==> appex <= Place(seals[k])
      ensures ok ==> ExtensionDone(env, old(files), seals, |old(seals)|, appex)
      ensures !ok ==> ExtensionBroken(env, old(files), appex)
      ensures SignableExtension(env, old(files), appex) && InfoOf(env, old(files), appex).exec != Some(PROFILE) ==>
        Read(files, appex + [PROFILE]) == Some(env.profileFor(InfoOf(env, old(files), appex).bundleId))
      ensures !SignableExtension(env, old(files), appex) ==> files == old(files)
      ensures SameOutside(old(files), files, appex) && old(files).Keys <= files.Keys
    {
      hide AllHold, Outside, Apart, Items, Covered;
      if appex + [INFO_PLIST] !in files {
        return false;
      }
      var info := env.extensionInfo(files[appex + [INFO_PLIST]]);
      if info.Failure? {
        return false;
      }
      if info.value.exec == None {
        return true;
      }
      var exec, bundleId := info.value.exec.value, info.value.bundleId;
      if appex + [exec] !in files && Items(files, appex + [exec]) == {} {
        return true;
      }
      hide ExtensionDone, ExtensionBroken;
      ok := SignExtensionContent(appex, exec, bundleId);
    }

    /** The loop over PlugIns. */
    method SignPlugIns()
      requires Valid() && Apart(seals, [PLUGINS])
      modifies this
      ensures Valid()
      ensures |old(seals)| <= |seals| && seals[..|old(seals)|] == old(seals)
      ensures forall k :: |old(seals)| <= k < |seals| ==> [PLUGINS] < Place(seals[k])
      ensures PlugInsCovered(env, old(files), seals, |old(seals)|)
      ensures Items(old(files), [PLUGINS]) == {} ==> files == old(files)
      ensures SameOutside(old(files), files, [PLUGINS]) && old(files).Keys <= files.Keys
    {
      hide AllHold, Outside, Apart, Items, ExtensionDone, ExtensionBroken, SameBelow, EndsWith, SignableExtension;
      var items := ReadDir(files, [PLUGINS]);
      ghost var n := |seals|;
      ghost var done := 0;
      ghost var atFirst := files;
      AllSame(files, [PLUGINS], items);
      var i := 0;
      while i < |items|
        invariant 0 <= i <= |items| && done == i
        invariant Valid() && n <= |seals| && seals[..n] == old(seals)
        invariant AddedBelow(seals, n, [PLUGINS], items, i) && (i == 0 ==> files == atFirst)
        invariant SameOutside(atFirst, files, [PLUGINS]) && atFirst.Keys <= files.Keys
        invariant forall j :: 0 <= j < i && EndsWith(items[j], APPEX_SUFFIX) ==>
          ExtensionDone(env, atFirst, seals, n, [PLUGINS] + [items[j]])
        invariant forall k :: i <= k < |items| ==> SameBelow(atFirst, files, [PLUGINS] + [items[k]])
      {
        NextItemApart(seals, n, [PLUGINS], items, i);
        ghost var before, sealed := files, seals;
        var ok := true;
        if EndsWith(items[i], APPEX_SUFFIX) {
          ok := SignAppExtension([PLUGINS] + [items[i]]);
        }
        NextExtension(env, atFirst, before, files, sealed, seals, n, items, i, ok);
        i := i + 1;
        if !ok {
          break;
        }
        done := i;
      }
      assert |items| > 0 ==> items[0] in items;
      assert PlugInsCoveredTo(env, atFirst, seals, n, items, done);
    }

    /** signNestedContent on the app itself. */
    method SignNestedContent()
      requires seals == []
      modifies this
      ensures Valid()
      ensures forall k :: 0 <= k < |seals| ==> Deep([], Place(seals[k]))
      ensures Covered(env, old(files), seals, 0, [FRAMEWORKS]) && PlugInsCovered(env, old(files), seals, 0)
      ensures forall name: Name :: Read(files, [name]) == Read(old(files), [name])
      ensures old(files).Keys <= files.Keys
      ensures (forall p :: p in old(files) ==> !([PLUGINS] <= p)) ==> forall p :: p in files ==> !([PLUGINS] <= p)
    {
      hide AllHold, Outside, Apart, Items, Covered, PlugInsCovered, SameBelow;
      ghost var ready := files;
      NoSealsApart(env, files);
      assert [] + [FRAMEWORKS] == [FRAMEWORKS];
      SignFrameworksIn([]);
      ghost var framed, framedSeals := files, seals;
      FrameworksApart(seals);
      SignPlugIns();
      NestedKept(ready, framed, files);
      SameSame(ready, [FRAMEWORKS]);
      CoveredMoves(env, ready, ready, framedSeals, seals, 0, 0, [FRAMEWORKS]);
      SameBack(ready, framed, [PLUGINS]);
      PlugInsCoveredMoves(env, framed, ready, seals, seals, |framedSeals|, 0);
    }

    /** Steps 5 and 7 to 9 of signIpa on an app. When it returns, with an error or without: every seal it wrote is true
        of the files and every dylib it signed is still the signed one; what there is to sign in Frameworks and PlugIns
        is signed; the profile is embedded; PlugIns is gone exactly when extensions are not included, and no other file
        is. Unless it failed, the app's own seal is the last and its executable is signed over it as the app. */
    method SignApp(exec: Name, identifier: Bytes, entitlements: Bytes, profile: Bytes, includeExtensions: bool)
      returns (ok: bool)
      requires seals == []
      modifies this
      ensures Valid()
      ensures |seals| > 0 && seals[|seals| - 1].Sealed?
      ensures seals[|seals| - 1].bundle == [] && seals[|seals| - 1].exec == exec
      ensures ok ==> seals[|seals| - 1].signing.Some?
      ensures ok ==>
        SignedAsApp(env, old(files), seals[|seals| - 1].signing.value, exec, identifier, entitlements, profile)
      ensures Covered(env, old(files), seals, 0, [FRAMEWORKS])
      ensures includeExtensions ==> PlugInsCovered(env, old(files), seals, 0)
      ensures exec != PROFILE ==> Read(files, [PROFILE]) == Some(profile)
      ensures forall p :: p in old(files) ==> (p in files <==> includeExtensions || !([PLUGINS] <= p))
      ensures !includeExtensions ==> forall p :: p in files ==> !([PLUGINS] <= p)
    {
      hide AllHold, Outside, Apart, Items, Covered, PlugInsCovered, SameBelow, SealOf, SealTarget, SignedAsApp;
      ghost var atFirst := files;
      files := files[[PROFILE] := profile];
      if !includeExtensions {
        files := map p | p in files && !([PLUGINS] <= p) :: files[p];
      }
      ghost var ready := files;
      assert ready == ReadyFiles(atFirst, profile, includeExtensions);
      hide ReadyFiles, Deep;
      ReadyTree(atFirst, profile, includeExtensions);
      SignNestedContent();
      ghost var nested, nestedSeals, tick := files, seals, clock;
      NoneBefore(seals);
      DeepOutside(seals, 0, [], SealPath([]));
      DeepOutside(seals, 0, [], [] + [exec]);
      ok := SealAndSign([], exec, AsApp(identifier, entitlements));
      CoveredMoves(env, ready, atFirst, nestedSeals, seals, 0, 0, [FRAMEWORKS]);
      if includeExtensions {
        PlugInsCoveredMoves(env, ready, atFirst, nestedSeals, seals, 0, 0);
      }
      if ok {
        AppSigned(env, atFirst, ready, nested, exec, identifier, entitlements, profile, includeExtensions, tick);
      }
      assert [] + [exec] !in nested ==> !ok;
      hide CanSeal;
      AppFiles(atFirst, ready, nested, files, exec, profile, includeExtensions);
    }
  }
}
