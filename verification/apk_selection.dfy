/** `ApkArchitectureHelper`: choosing the release asset to install for a device,
    given the device's supported ABIs in priority order (the platform's list,
    here a parameter). */
module ApkArchitecture {

  import opened Wrappers
  import opened Text
  import opened Models
  import Sorting

  /** The naming patterns each known ABI is recognised by; other ABIs have none. */
  function AbiPatterns(abi: string): Option<seq<string>> {
    if abi == "arm64-v8a" then Some(["arm64-v8a", "arm64", "aarch64", "arm64_v8a"])
    else if abi == "armeabi-v7a" then Some(["armeabi-v7a", "armeabi_v7a", "armv7", "arm-v7a", "arm"])
    else if abi == "x86_64" then Some(["x86_64", "x86-64", "amd64"])
    else if abi == "x86" then Some(["x86", "i686", "i386"])
    else None
  }

  const KnownAbis: seq<string> := ["arm64-v8a", "armeabi-v7a", "x86_64", "x86"]

  /** Every pattern of every known ABI, in table order (`abiPatterns.values.flatten()`). */
  const AllAbiPatterns: seq<string> :=
    ["arm64-v8a", "arm64", "aarch64", "arm64_v8a",
     "armeabi-v7a", "armeabi_v7a", "armv7", "arm-v7a", "arm",
     "x86_64", "x86-64", "amd64",
     "x86", "i686", "i386"]

  /** Names of builds that run on every architecture. */
  const UniversalPatterns: seq<string> := ["universal", "all", "fat", "noarch"]

  datatype ApkSelectionResult =
    | NoApkFound
    | Single(asset: ReleaseAsset)
    | ExactMatch(abi: string, asset: ReleaseAsset)
    | Universal(asset: ReleaseAsset)
    | Fallback(asset: ReleaseAsset)

  /** An asset is an APK when its lower-cased name ends in ".apk" (an ".aab" is not). */
  predicate IsApk(a: ReleaseAsset) {
    EndsWith(Lower(a.name), ".apk")
  }

  /** The APKs among the assets, in list order. */
  function ApkAssets(assets: seq<ReleaseAsset>): (r: seq<ReleaseAsset>)
    ensures |r| <= |assets|
    ensures forall i :: 0 <= i < |r| ==> IsApk(r[i]) && r[i] in assets
    ensures forall a :: a in assets && IsApk(a) ==> a in r
  {
    if |assets| == 0 then []
    else
      assert assets == [assets[0]] + assets[1..];
      var rest := ApkAssets(assets[1..]);
      if IsApk(assets[0]) then [assets[0]] + rest else rest
  }

  /** The APKs are the assets' `filter` on `IsApk`, so their order is the list order. */
  lemma {:induction false} ApkAssetsIsFilter(assets: seq<ReleaseAsset>)
    ensures ApkAssets(assets) == Sorting.Filter(assets, IsApk)
    decreases |assets|
  {
    if |assets| > 0 {
      ApkAssetsIsFilter(assets[1..]);
    }
  }

  /** No APK is left exactly when no asset is an APK. */
  lemma ApkAssetsEmpty(assets: seq<ReleaseAsset>)
    ensures |ApkAssets(assets)| == 0 <==> forall i :: 0 <= i < |assets| ==> !IsApk(assets[i])
  {
    var apks := ApkAssets(assets);
    if |apks| > 0 {
      assert apks[0] in assets;
    }
  }

  /** A single APK left is every APK among the assets. */
  lemma ApkAssetsSingle(assets: seq<ReleaseAsset>)
    requires |ApkAssets(assets)| == 1
    ensures forall i :: 0 <= i < |assets| && IsApk(assets[i]) ==> assets[i] == ApkAssets(assets)[0]
  {
    var apks := ApkAssets(assets);
    forall i | 0 <= i < |assets| && IsApk(assets[i]) ensures assets[i] == apks[0] {
      assert assets[i] in apks;
    }
  }

  /** A list of APKs only is kept whole. */
  lemma {:induction false} ApkAssetsKeepsAll(assets: seq<ReleaseAsset>)
    requires forall i :: 0 <= i < |assets| ==> IsApk(assets[i])
    ensures ApkAssets(assets) == assets
  {
    if |assets| > 0 {
      ApkAssetsKeepsAll(assets[1..]);
    }
  }

  /** A pattern counts only where a '-', '_' or '.' stands right before or right after it. */
  predicate SeparatedMatch(lowerName: string, pattern: string) {
    || Contains(lowerName, "-" + pattern) || Contains(lowerName, "_" + pattern)
    || Contains(lowerName, "." + pattern) || Contains(lowerName, pattern + "-")
    || Contains(lowerName, pattern + "_") || Contains(lowerName, pattern + ".")
  }

  /** The asset name matches one of `patterns`, both compared in lower case. */
  predicate MatchesAny(name: string, patterns: seq<string>) {
    exists k :: 0 <= k < |patterns| && SeparatedMatch(Lower(name), Lower(patterns[k]))
  }

  /** Some APK matches one of `patterns`. */
  predicate AnyMatch(apks: seq<ReleaseAsset>, patterns: seq<string>) {
    exists i :: 0 <= i < |apks| && MatchesAny(apks[i].name, patterns)
  }

  /** `a` is the first APK, in list order, that matches `patterns`. */
  predicate FirstMatch(apks: seq<ReleaseAsset>, patterns: seq<string>, a: ReleaseAsset) {
    exists i :: 0 <= i < |apks| && apks[i] == a && MatchesAny(a.name, patterns)
      && forall j :: 0 <= j < i ==> !MatchesAny(apks[j].name, patterns)
  }

  /** A known ABI whose patterns some APK matches. */
  predicate AbiHit(apks: seq<ReleaseAsset>, abi: string) {
    AbiPatterns(abi).Some? && AnyMatch(apks, AbiPatterns(abi).value)
  }

  /** `findApkByPatterns`: the first APK in list order matching any pattern. */
  function FindApkByPatterns(apks: seq<ReleaseAsset>, patterns: seq<string>): (r: Option<ReleaseAsset>)
    ensures r.None? <==> !AnyMatch(apks, patterns)
    ensures r.Some? ==> FirstMatch(apks, patterns, r.value)
  {
    var k := FirstMatchIndex(apks, patterns);
    if k < |apks| then Some(apks[k]) else None
  }

  function FirstMatchIndex(apks: seq<ReleaseAsset>, patterns: seq<string>): (k: nat)
    ensures k <= |apks|
    ensures k < |apks| ==> MatchesAny(apks[k].name, patterns)
    ensures forall j :: 0 <= j < k ==> !MatchesAny(apks[j].name, patterns)
  {
    if |apks| == 0 then 0
    else if MatchesAny(apks[0].name, patterns) then 0
    else
      FirstMatchIndex(apks[1..], patterns) + 1
  }

  /** The position of the first device ABI that is known and that some APK matches. */
  function FirstAbiHit(apks: seq<ReleaseAsset>, deviceAbis: seq<string>): (k: nat)
    ensures k <= |deviceAbis|
    ensures k < |deviceAbis| ==> AbiHit(apks, deviceAbis[k])
    ensures forall j :: 0 <= j < k ==> !AbiHit(apks, deviceAbis[j])
  {
    if |deviceAbis| == 0 then 0
    else if AbiPatterns(deviceAbis[0]).Some? && FindApkByPatterns(apks, AbiPatterns(deviceAbis[0]).value).Some? then 0
    else
      FirstAbiHit(apks, deviceAbis[1..]) + 1
  }

  /** `selectBestApk`: with two or more APKs, the earliest device ABI with a matching
      APK wins, then a universal build, then the first APK. */
  function SelectBestApk(assets: seq<ReleaseAsset>, deviceAbis: seq<string>): (r: ApkSelectionResult)
    ensures r.NoApkFound? <==> forall i :: 0 <= i < |assets| ==> !IsApk(assets[i])
    ensures r.Single? <==> |ApkAssets(assets)| == 1
    ensures r.Single? ==> forall i :: 0 <= i < |assets| && IsApk(assets[i]) ==> assets[i] == r.asset
    ensures !r.NoApkFound? ==> r.asset in assets && IsApk(r.asset)
    ensures |ApkAssets(assets)| >= 2 ==> r == SelectAmong(ApkAssets(assets), deviceAbis)
  {
    var apks := ApkAssets(assets);
    ApkAssetsEmpty(assets);
    if |apks| == 0 then NoApkFound
    else if |apks| == 1 then
      ApkAssetsSingle(assets);
      Single(apks[0])
    else
      SelectAmong(apks, deviceAbis)
  }

  /** The choice among two or more APKs. */
  function SelectAmong(apks: seq<ReleaseAsset>, deviceAbis: seq<string>): (r: ApkSelectionResult)
    requires |apks| >= 2
    ensures r.ExactMatch? || r.Universal? || r.Fallback?
    ensures r.ExactMatch? ==>
              && (exists k :: 0 <= k < |deviceAbis| && deviceAbis[k] == r.abi
                    && forall j :: 0 <= j < k ==> !AbiHit(apks, deviceAbis[j]))
              && AbiPatterns(r.abi).Some?
              && FirstMatch(apks, AbiPatterns(r.abi).value, r.asset)
    ensures r.Universal? ==>
              && (forall k :: 0 <= k < |deviceAbis| ==> !AbiHit(apks, deviceAbis[k]))
              && FirstMatch(apks, UniversalPatterns, r.asset)
    ensures r.Fallback? ==>
              && (forall k :: 0 <= k < |deviceAbis| ==> !AbiHit(apks, deviceAbis[k]))
              && !AnyMatch(apks, UniversalPatterns)
              && r.asset == apks[0]
    ensures r.asset in apks
  {
    var k := FirstAbiHit(apks, deviceAbis);
    if k < |deviceAbis| then
      var m := FindApkByPatterns(apks, AbiPatterns(deviceAbis[k]).value);
      ExactMatch(deviceAbis[k], m.value)
    else
      match FindApkByPatterns(apks, UniversalPatterns)
      case Some(u) => Universal(u)
      case None => Fallback(apks[0])
  }

  /** Any pattern of `patterns` occurs in `s` as a plain substring. */
  function AnyContained(s: string, patterns: seq<string>): (r: bool)
    ensures r <==> exists k :: 0 <= k < |patterns| && Contains(s, patterns[k])
  {
    if |patterns| == 0 then false
    else
      Contains(s, patterns[0]) || AnyContained(s, patterns[1..])
  }

  /** All patterns in lower case. */
  function LowerAll(patterns: seq<string>): (r: seq<string>)
    ensures |r| == |patterns|
    ensures forall k :: 0 <= k < |patterns| ==> r[k] == Lower(patterns[k])
  {
    seq(|patterns|, k requires 0 <= k < |patterns| => Lower(patterns[k]))
  }

  /** Some device ABI is known and one of its patterns is a plain substring of `lowerName`. */
  predicate DeviceAbiContained(lowerName: string, deviceAbis: seq<string>) {
    exists k :: 0 <= k < |deviceAbis| && AbiPatterns(deviceAbis[k]).Some?
      && AnyContained(lowerName, LowerAll(AbiPatterns(deviceAbis[k]).value))
  }

  /** `isApkCompatible`: plain substring tests (no separators). A universal pattern
      or a device ABI pattern makes the APK compatible; otherwise it is compatible
      exactly when it names no known architecture at all. */
  function IsApkCompatible(apkName: string, deviceAbis: seq<string>): (r: bool)
    ensures (exists k :: 0 <= k < |UniversalPatterns| && Contains(Lower(apkName), UniversalPatterns[k])) ==> r
    ensures DeviceAbiContained(Lower(apkName), deviceAbis) ==> r
    ensures !r <==>
              && (forall k :: 0 <= k < |UniversalPatterns| ==> !Contains(Lower(apkName), UniversalPatterns[k]))
              && !DeviceAbiContained(Lower(apkName), deviceAbis)
              && (exists k :: 0 <= k < |AllAbiPatterns| && Contains(Lower(apkName), Lower(AllAbiPatterns[k])))
  {
    var lowerName := Lower(apkName);
    if AnyContained(lowerName, UniversalPatterns) then true
    else if DeviceAbiContained(lowerName, deviceAbis) then true
    else !AnyContained(lowerName, LowerAll(AllAbiPatterns))
  }

  /** `getArchitectureDisplayName`: the primary ABI ("arm64-v8a" when the device lists
      none) under its display name, or the ABI itself when it is not a known one. */
  function ArchitectureDisplayName(deviceAbis: seq<string>): (r: string)
    ensures |deviceAbis| == 0 ==> r == "ARM64"
    ensures |deviceAbis| > 0 && deviceAbis[0] == "arm64-v8a" ==> r == "ARM64"
    ensures |deviceAbis| > 0 && deviceAbis[0] == "armeabi-v7a" ==> r == "ARM32"
    ensures |deviceAbis| > 0 && deviceAbis[0] !in KnownAbis ==> r == deviceAbis[0]
    ensures |deviceAbis| > 0 && deviceAbis[0] in ["x86_64", "x86"] ==> r == deviceAbis[0]
  {
    var primary := if |deviceAbis| == 0 then "arm64-v8a" else deviceAbis[0];
    if primary == "arm64-v8a" then "ARM64"
    else if primary == "armeabi-v7a" then "ARM32"
    else if primary == "x86_64" then "x86_64"
    else if primary == "x86" then "x86"
    else primary
  }

  /** A separated occurrence is in particular a plain occurrence. */
  lemma SeparatedMatchContains(lowerName: string, pattern: string)
    requires SeparatedMatch(lowerName, pattern)
    ensures Contains(lowerName, pattern)
  {
    var seps := ["-" + pattern, "_" + pattern, "." + pattern, pattern + "-", pattern + "_", pattern + "."];
    forall q | q in seps ensures Contains(q, pattern) {
      if q == pattern + "-" || q == pattern + "_" || q == pattern + "." {
        assert q[..|pattern|] == pattern;
        ContainsPrefix(q, pattern);
      } else {
        assert q[|q| - |pattern|..] == pattern;
        ContainsSuffix(q, pattern);
      }
    }
    var q :| q in seps && Contains(lowerName, q);
    ContainsTrans(lowerName, q, pattern);
  }

  /** The APK chosen for an ABI is one `isApkCompatible` accepts on that device. */
  lemma ExactMatchIsCompatible(assets: seq<ReleaseAsset>, deviceAbis: seq<string>)
    requires SelectBestApk(assets, deviceAbis).ExactMatch?
    ensures IsApkCompatible(SelectBestApk(assets, deviceAbis).asset.name, deviceAbis)
  {
    var r := SelectBestApk(assets, deviceAbis);
    var pats := AbiPatterns(r.abi).value;
    var k :| 0 <= k < |deviceAbis| && deviceAbis[k] == r.abi;
    var m :| 0 <= m < |pats| && SeparatedMatch(Lower(r.asset.name), Lower(pats[m]));
    SeparatedMatchContains(Lower(r.asset.name), Lower(pats[m]));
    assert LowerAll(pats)[m] == Lower(pats[m]);
    assert DeviceAbiContained(Lower(r.asset.name), deviceAbis);
  }

  /** "all" is a universal pattern and a plain substring test is used, so any name
      containing "all" (an "installer" build, say) is compatible on every device. */
  lemma ContainingAllIsCompatible(apkName: string, deviceAbis: seq<string>)
    requires Contains(Lower(apkName), "all")
    ensures IsApkCompatible(apkName, deviceAbis)
  {
    assert UniversalPatterns[1] == "all";
  }

  /** ABIs without a pattern entry never influence the choice. */
  lemma UnknownAbiIgnored(assets: seq<ReleaseAsset>, abi: string, deviceAbis: seq<string>)
    requires AbiPatterns(abi).None?
    ensures SelectBestApk(assets, [abi] + deviceAbis) == SelectBestApk(assets, deviceAbis)
  {
    var apks := ApkAssets(assets);
    if |apks| >= 2 {
      var k := FirstAbiHit(apks, [abi] + deviceAbis);
      assert k > 0 ==> k - 1 == FirstAbiHit(apks, deviceAbis) by {
        assert ([abi] + deviceAbis)[1..] == deviceAbis;
      }
    }
  }

  /** With two or more APKs, the first APK matching the first known device ABI with a
      match is chosen, whatever comes later in either list. */
  lemma ExactMatchChoice(assets: seq<ReleaseAsset>, deviceAbis: seq<string>, k: nat, i: nat)
    requires |ApkAssets(assets)| >= 2
    requires k < |deviceAbis| && AbiPatterns(deviceAbis[k]).Some?
    requires forall j :: 0 <= j < k ==> !AbiHit(ApkAssets(assets), deviceAbis[j])
    requires i < |ApkAssets(assets)| && MatchesAny(ApkAssets(assets)[i].name, AbiPatterns(deviceAbis[k]).value)
    requires forall j :: 0 <= j < i ==> !MatchesAny(ApkAssets(assets)[j].name, AbiPatterns(deviceAbis[k]).value)
    ensures SelectBestApk(assets, deviceAbis) == ExactMatch(deviceAbis[k], ApkAssets(assets)[i])
  {
    var apks := ApkAssets(assets);
    var r := SelectBestApk(assets, deviceAbis);
    assert AbiHit(apks, deviceAbis[k]);
    assert r.ExactMatch?;
    var k' :| 0 <= k' < |deviceAbis| && deviceAbis[k'] == r.abi
             && forall j :: 0 <= j < k' ==> !AbiHit(apks, deviceAbis[j]);
    assert k' == k;
    var i' :| 0 <= i' < |apks| && apks[i'] == r.asset && MatchesAny(r.asset.name, AbiPatterns(r.abi).value)
             && forall j :: 0 <= j < i' ==> !MatchesAny(apks[j].name, AbiPatterns(r.abi).value);
    assert i' == i;
  }

  /** With two or more APKs and no device ABI matched, the first universal build is chosen. */
  lemma UniversalChoice(assets: seq<ReleaseAsset>, deviceAbis: seq<string>, i: nat)
    requires |ApkAssets(assets)| >= 2
    requires forall k :: 0 <= k < |deviceAbis| ==> !AbiHit(ApkAssets(assets), deviceAbis[k])
    requires i < |ApkAssets(assets)| && MatchesAny(ApkAssets(assets)[i].name, UniversalPatterns)
    requires forall j :: 0 <= j < i ==> !MatchesAny(ApkAssets(assets)[j].name, UniversalPatterns)
    ensures SelectBestApk(assets, deviceAbis) == Universal(ApkAssets(assets)[i])
  {
    var apks := ApkAssets(assets);
    var r := SelectBestApk(assets, deviceAbis);
    assert AnyMatch(apks, UniversalPatterns);
    assert r.Universal?;
    var i' :| 0 <= i' < |apks| && apks[i'] == r.asset && MatchesAny(r.asset.name, UniversalPatterns)
             && forall j :: 0 <= j < i' ==> !MatchesAny(apks[j].name, UniversalPatterns);
    assert i' == i;
  }

  /** With two or more APKs and neither an ABI nor a universal match, the first APK is chosen. */
  lemma FallbackChoice(assets: seq<ReleaseAsset>, deviceAbis: seq<string>)
    requires |ApkAssets(assets)| >= 2
    requires forall k :: 0 <= k < |deviceAbis| ==> !AbiHit(ApkAssets(assets), deviceAbis[k])
    requires !AnyMatch(ApkAssets(assets), UniversalPatterns)
    ensures SelectBestApk(assets, deviceAbis) == Fallback(ApkAssets(assets)[0])
  {
    var r := SelectBestApk(assets, deviceAbis);
    assert !r.ExactMatch?;
  }
}
