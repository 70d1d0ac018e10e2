/** Signed bundles pass the checker: the executable of every bundle signIpa signs verifies against the Info.plist and
    the CodeResources that are on disk when it is done. */
module BundleVerify {
  import opened Bytes
  import opened MachO
  import opened SignatureBlob
  import opened TsSigner
  import opened SliceSigning
  import opened Checker
  import opened SignVerify
  import opened Fat
  import opened Resources
  import opened BundleSigning

  /** The whole check of a file: of each slice where the table of architectures says it is, or of the file itself. */
  ghost predicate FileAccepted(c: Crypto, b: Bundle, file: Bytes) {
    if IsFat(file) then forall i :: 0 <= i < |Archs(file)| ==> Accepts(c, b, Sub(file, Archs(file)[i]))
    else Accepts(c, b, file)
  }

  lemma MagicsDiffer(b: Bytes)
    requires |b| == 4
    requires FromLE32(b) == MH_MAGIC || FromLE32(b) == MH_CIGAM
          || FromLE32(b) == MH_MAGIC_64 || FromLE32(b) == MH_CIGAM_64
    ensures !IsFatMagic(FromBE32(b))
  {
    var b0: int, b1: int, b2: int, b3: int := b[0], b[1], b[2], b[3];
    assert FromLE32(b) / 0x100_0000 == b3;
    assert FromBE32(b) % 0x100 == b3;
  }

  lemma ThinIsNotFat(r: Bytes)
    requires ParseSlice(r, 0, |r|).Success?
    ensures !IsFat(r)
  {
    hide CommandsFrom, FindCodeSignature, FromLE32, FromBE32;
    MagicsDiffer(r[0..4]);
  }

  /** What signMachOBinary returns passes the checker. */
  lemma SignedFileAccepted(c: Crypto, t: Target, file: Bytes, now: nat, r: Bytes)
    requires FileReady(c, t, file) && c.cmsMin == c.cmsMax && ParseMachO(file).Success?
    requires LoopAt(c, t, file, |ParseMachO(file).value.slices|, now, r)
    ensures FileAccepted(c, BundleOf(t), r)
  {
    hide Accepts, CanSign, ParseMachO, Progress, Archs, Sub, BundleOf, ParseSlice, Parsed;
    if IsFat(file) {
      FatCount(c, t, file);
      StillFat(c, t, file, now, r);
      forall i | 0 <= i < |Archs(r)| ensures Accepts(c, BundleOf(t), Sub(r, Archs(r)[i])) {
        FatIsAccepted(c, t, file, now, r, i);
      }
    } else {
      ThinParses(file);
      SignedParse(c, t, file, now, SignedThin(c, t, file, now));
      ThinIsNotFat(SignedThin(c, t, file, now));
      SignThenVerifyConstantCms(c, t, file, now);
    }
  }

  /** The signer the bundle code calls keeps the contract proved for SignMachOBinary. */
  ghost predicate SignsAsProved(c: Crypto, env: Env) {
    forall t: Target, file: Bytes, now: nat :: FileReady(c, t, file) && env.sign(t, file, now).Success? ==>
      && ParseMachO(file).Success?
      && LoopAt(c, t, file, |ParseMachO(file).value.slices|, now, env.sign(t, file, now).value)
  }

  /** The bundle code's environment with the modelled signer in place. */
  ghost function WithSigner(c: Crypto, env: Env): Env {
    env.(sign := (t: Target, file: Bytes, now: nat) => SignedFile(c, t, file, now))
  }

  /** The modelled signer keeps that contract. */
  lemma WithSignerSigns(c: Crypto, env: Env)
    ensures SignsAsProved(c, WithSigner(c, env))
  {
    hide FileReady, ParseMachO, LoopAt, SignedFile, SignedUpTo;
    forall t: Target, file: Bytes, now: nat | FileReady(c, t, file) && WithSigner(c, env).sign(t, file, now).Success?
      ensures ParseMachO(file).Success?
      ensures LoopAt(c, t, file, |ParseMachO(file).value.slices|, now, WithSigner(c, env).sign(t, file, now).value)
    {
      SignedFileIs(c, t, file, now);
      SignedUpToLoops(c, t, file, |ParseMachO(file).value.slices|, now);
    }
  }

  /** A bundle whose signing went through verifies against the files next to its executable. */
  lemma BundleVerifies(c: Crypto, env: Env, files: Files, rc: Receipt)
    requires SignsAsProved(c, env) && c.cmsMin == c.cmsMax
    requires Holds(env, files, rc) && rc.Sealed? && rc.signing.Some? && rc.exec != INFO_PLIST
    requires FileReady(c, rc.signing.value.target, rc.signing.value.original)
    ensures Read(files, rc.bundle + [rc.exec]).Some?
    ensures
      var t := rc.signing.value.target;
      var infoPlist, seal := Read(files, rc.bundle + [INFO_PLIST]), Read(files, SealPath(rc.bundle));
      var bundle := Bundle(t.identifier, t.teamId, infoPlist, seal, BundleOf(t).entitlements);
      FileAccepted(c, bundle, files[rc.bundle + [rc.exec]])
  {
    var s := rc.signing.value;
    hide FileReady, FileAccepted, SealHolds, LoopAt;
    SignedFileAccepted(c, s.target, s.original, s.tick, files[rc.bundle + [rc.exec]]);
  }

  /** So does a signed dylib, which has neither. */
  lemma LibraryVerifies(c: Crypto, env: Env, files: Files, rc: Receipt)
    requires SignsAsProved(c, env) && c.cmsMin == c.cmsMax
    requires Holds(env, files, rc) && rc.Library?
    requires FileReady(c, rc.made.target, rc.made.original)
    ensures Read(files, rc.path).Some? && FileAccepted(c, BundleOf(rc.made.target), files[rc.path])
  {
    hide FileReady, FileAccepted, LoopAt, BundleOf;
    SignedFileAccepted(c, rc.made.target, rc.made.original, rc.made.tick, files[rc.path]);
  }

  /** With the modelled signer in place, no assumption about the signer is left. */
  lemma SignedBundleVerifies(c: Crypto, env: Env, files: Files, rc: Receipt)
    requires c.cmsMin == c.cmsMax && Holds(WithSigner(c, env), files, rc)
    requires rc.Sealed? && rc.signing.Some? && rc.exec != INFO_PLIST
    requires FileReady(c, rc.signing.value.target, rc.signing.value.original)
    ensures Read(files, rc.bundle + [rc.exec]).Some?
    ensures
      var t := rc.signing.value.target;
      var infoPlist, seal := Read(files, rc.bundle + [INFO_PLIST]), Read(files, SealPath(rc.bundle));
      var bundle := Bundle(t.identifier, t.teamId, infoPlist, seal, BundleOf(t).entitlements);
      FileAccepted(c, bundle, files[rc.bundle + [rc.exec]])
  {
    hide FileReady, FileAccepted, SignsAsProved, WithSigner, Holds;
    WithSignerSigns(c, env);
    BundleVerifies(c, WithSigner(c, env), files, rc);
  }
}
