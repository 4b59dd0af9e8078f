/** The unit tests of `ApkArchitectureHelper`, restated as lemmas about the model. */
module ApkArchitectureTests {

  import opened Wrappers
  import opened Text
  import opened Models
  import opened ApkArchitecture
  import Sorting

  function Asset(name: string): ReleaseAsset {
    ReleaseAsset(0, name, 0, 0, "", "")
  }

  predicate LowerCase(s: string) {
    forall x | x in s :: !IsUpper(x)
  }

  /** A character of `p` stays in `Lower(p)` when it is not an upper-case letter. */
  lemma CharInLower(p: string, c: char)
    requires c in p && !IsUpper(c)
    ensures c in Lower(p)
  {
    var j :| 0 <= j < |p| && p[j] == c;
    assert Lower(p)[j] == c;
  }

  /** A name lacking, for each pattern, one of that pattern's characters contains none of them. */
  lemma NoneContainedByChars(name: string, patterns: seq<string>, cs: seq<char>)
    requires |cs| == |patterns|
    requires forall k :: 0 <= k < |patterns| ==> cs[k] in patterns[k] && cs[k] !in name && !IsUpper(cs[k])
    ensures forall k :: 0 <= k < |patterns| ==> !Contains(name, Lower(patterns[k]))
  {
    forall k | 0 <= k < |patterns| ensures !Contains(name, Lower(patterns[k])) {
      CharInLower(patterns[k], cs[k]);
      NotContainsByChar(name, Lower(patterns[k]), cs[k]);
    }
  }

  /** The same test with separators: none of the six separated forms can occur either. */
  lemma NoSeparatedByChar(name: string, p: string, c: char)
    requires c in p && c !in name && !IsUpper(c)
    ensures !SeparatedMatch(name, Lower(p))
  {
    var q := Lower(p);
    CharInLower(p, c);
    var j :| 0 <= j < |q| && q[j] == c;
    assert ("-" + q)[j + 1] == c && ("_" + q)[j + 1] == c && ("." + q)[j + 1] == c;
    assert (q + "-")[j] == c && (q + "_")[j] == c && (q + ".")[j] == c;
    NotContainsByChar(name, "-" + q, c);
    NotContainsByChar(name, "_" + q, c);
    NotContainsByChar(name, "." + q, c);
    NotContainsByChar(name, q + "-", c);
    NotContainsByChar(name, q + "_", c);
    NotContainsByChar(name, q + ".", c);
  }

  lemma NoMatchByChars(name: string, patterns: seq<string>, cs: seq<char>)
    requires LowerCase(name)
    requires |cs| == |patterns|
    requires forall k :: 0 <= k < |patterns| ==> cs[k] in patterns[k] && cs[k] !in name && !IsUpper(cs[k])
    ensures !MatchesAny(name, patterns)
  {
    LowerFixed(name);
    forall k | 0 <= k < |patterns| ensures !SeparatedMatch(Lower(name), Lower(patterns[k])) {
      NoSeparatedByChar(name, patterns[k], cs[k]);
    }
  }

  lemma AllApks(names: seq<string>)
    requires forall i :: 0 <= i < |names| ==> LowerCase(names[i]) && EndsWith(names[i], ".apk")
    ensures ApkAssets(seq(|names|, i requires 0 <= i < |names| => Asset(names[i])))
            == seq(|names|, i requires 0 <= i < |names| => Asset(names[i]))
  {
    var s := seq(|names|, i requires 0 <= i < |names| => Asset(names[i]));
    forall i | 0 <= i < |s| ensures IsApk(s[i]) {
      LowerFixed(names[i]);
    }
    ApkAssetsKeepsAll(s);
  }

  lemma TwoApks(n0: string, n1: string)
    requires LowerCase(n0) && EndsWith(n0, ".apk") && LowerCase(n1) && EndsWith(n1, ".apk")
    ensures ApkAssets([Asset(n0), Asset(n1)]) == [Asset(n0), Asset(n1)]
  {
    var names := [n0, n1];
    AllApks(names);
    assert seq(|names|, i requires 0 <= i < |names| => Asset(names[i])) == [Asset(n0), Asset(n1)];
  }

  lemma ThreeApks(n0: string, n1: string, n2: string)
    requires LowerCase(n0) && EndsWith(n0, ".apk") && LowerCase(n1) && EndsWith(n1, ".apk")
    requires LowerCase(n2) && EndsWith(n2, ".apk")
    ensures ApkAssets([Asset(n0), Asset(n1), Asset(n2)]) == [Asset(n0), Asset(n1), Asset(n2)]
  {
    var names := [n0, n1, n2];
    var s := seq(|names|, i requires 0 <= i < |names| => Asset(names[i]));
    assert s[0] == Asset(n0) && s[1] == Asset(n1) && s[2] == Asset(n2);
    assert s == [Asset(n0), Asset(n1), Asset(n2)];
    AllApks(names);
  }

  /** A name holding a pattern right after a '-' matches that pattern list. */
  lemma DashMatch(before: string, patterns: seq<string>, k: nat, after: string)
    requires k < |patterns| && LowerCase(before + "-" + patterns[k] + after) && LowerCase(patterns[k])
    ensures MatchesAny(before + "-" + patterns[k] + after, patterns)
  {
    var p := "-" + patterns[k];
    var name := before + "-" + patterns[k] + after;
    assert name == before + p + after;
    assert p[0..|p|] == p;
    ContainsIn(p, p, 0);
    ContainsExtend(before, p, after, p);
    LowerFixed(name);
    LowerFixed(patterns[k]);
    assert SeparatedMatch(Lower(name), Lower(patterns[k]));
  }

  lemma Arm64Matches()
    ensures MatchesAny("app-arm64-v8a.apk", AbiPatterns("arm64-v8a").value)
  {
    var pats := AbiPatterns("arm64-v8a").value;
    assert pats[0] == "arm64-v8a";
    assert "app-arm64-v8a.apk" == "app" + "-" + pats[0] + ".apk";
    DashMatch("app", pats, 0, ".apk");
  }

  lemma UniversalMatches()
    ensures MatchesAny("app-universal.apk", UniversalPatterns)
  {
    assert "app-universal.apk" == "app" + "-" + UniversalPatterns[0] + ".apk";
    DashMatch("app", UniversalPatterns, 0, ".apk");
  }

  /** The test names that match no pattern of an ABI they are checked against. Each
      is one instance of NoMatchByChars; they are kept apart so that each literal check
      is a proof obligation of its own. */
  lemma UniversalNameNotArm64()
    ensures !MatchesAny("app-universal.apk", AbiPatterns("arm64-v8a").value)
  {
    NoMatchByChars("app-universal.apk", AbiPatterns("arm64-v8a").value, "4444");
  }

  lemma UniversalNameNotX86_64()
    ensures !MatchesAny("app-universal.apk", AbiPatterns("x86_64").value)
  {
    NoMatchByChars("app-universal.apk", AbiPatterns("x86_64").value, "666");
  }

  lemma Arm64NameNotX86_64()
    ensures !MatchesAny("app-arm64-v8a.apk", AbiPatterns("x86_64").value)
  {
    NoMatchByChars("app-arm64-v8a.apk", AbiPatterns("x86_64").value, "xxd");
  }

  lemma X86NameNotX86_64()
    ensures !MatchesAny("app-x86.apk", AbiPatterns("x86_64").value)
  {
    NoMatchByChars("app-x86.apk", AbiPatterns("x86_64").value, "444");
  }

  lemma ReleaseNameNotX86_64()
    ensures !MatchesAny("app-release.apk", AbiPatterns("x86_64").value)
  {
    NoMatchByChars("app-release.apk", AbiPatterns("x86_64").value, "666");
  }

  lemma Armeabi7NameNotX86_64()
    ensures !MatchesAny("app-armeabi-v7a.apk", AbiPatterns("x86_64").value)
  {
    NoMatchByChars("app-armeabi-v7a.apk", AbiPatterns("x86_64").value, "xxd");
  }

  lemma Armeabi7NameNotUniversal()
    ensures !MatchesAny("app-armeabi-v7a.apk", UniversalPatterns)
  {
    NoMatchByChars("app-armeabi-v7a.apk", UniversalPatterns, "ulfn");
  }

  lemma ApksOfPrimaryTest()
    ensures ApkAssets([Asset("app-universal.apk"), Asset("app-arm64-v8a.apk"), Asset("app-armeabi-v7a.apk")])
            == [Asset("app-universal.apk"), Asset("app-arm64-v8a.apk"), Asset("app-armeabi-v7a.apk")]
  {
    ThreeApks("app-universal.apk", "app-arm64-v8a.apk", "app-armeabi-v7a.apk");
  }

  lemma ApksOfSecondaryTest()
    ensures ApkAssets([Asset("app-arm64-v8a.apk"), Asset("app-x86.apk")])
            == [Asset("app-arm64-v8a.apk"), Asset("app-x86.apk")]
  {
    TwoApks("app-arm64-v8a.apk", "app-x86.apk");
  }

  lemma ApksOfUniversalTest()
    ensures ApkAssets([Asset("app-universal.apk"), Asset("app-arm64-v8a.apk")])
            == [Asset("app-universal.apk"), Asset("app-arm64-v8a.apk")]
  {
    TwoApks("app-universal.apk", "app-arm64-v8a.apk");
  }

  lemma ApksOfFallbackTest()
    ensures ApkAssets([Asset("app-release.apk"), Asset("app-armeabi-v7a.apk")])
            == [Asset("app-release.apk"), Asset("app-armeabi-v7a.apk")]
  {
    TwoApks("app-release.apk", "app-armeabi-v7a.apk");
  }

  /** ApkArchitectureHelperTest: the primary ABI's APK wins over a universal one listed first. */
  lemma PrefersPrimaryAbiMatch()
    ensures SelectBestApk([Asset("app-universal.apk"), Asset("app-arm64-v8a.apk"), Asset("app-armeabi-v7a.apk")],
                          ["arm64-v8a", "armeabi-v7a"])
            == ExactMatch("arm64-v8a", Asset("app-arm64-v8a.apk"))
  {
    var assets := [Asset("app-universal.apk"), Asset("app-arm64-v8a.apk"), Asset("app-armeabi-v7a.apk")];
    UniversalNameNotArm64();
    ApksOfPrimaryTest();
    Arm64Matches();
    ExactMatchChoice(assets, ["arm64-v8a", "armeabi-v7a"], 0, 1);
  }

  /** ApkArchitectureHelperTest: with no x86_64 build, the secondary ABI's APK is chosen. */
  lemma FallsBackToSecondaryAbiMatch()
    ensures SelectBestApk([Asset("app-arm64-v8a.apk"), Asset("app-x86.apk")], ["x86_64", "arm64-v8a"])
            == ExactMatch("arm64-v8a", Asset("app-arm64-v8a.apk"))
  {
    var assets := [Asset("app-arm64-v8a.apk"), Asset("app-x86.apk")];
    Arm64NameNotX86_64();
    X86NameNotX86_64();
    ApksOfSecondaryTest();
    assert !AbiHit(assets, "x86_64");
    Arm64Matches();
    ExactMatchChoice(assets, ["x86_64", "arm64-v8a"], 1, 0);
  }

  /** ApkArchitectureHelperTest: a universal build is chosen when no ABI matches. */
  lemma UsesUniversalWhenNoArchMatch()
    ensures SelectBestApk([Asset("app-universal.apk"), Asset("app-arm64-v8a.apk")], ["x86_64"])
            == Universal(Asset("app-universal.apk"))
  {
    var assets := [Asset("app-universal.apk"), Asset("app-arm64-v8a.apk")];
    UniversalNameNotX86_64();
    Arm64NameNotX86_64();
    ApksOfUniversalTest();
    assert !AbiHit(assets, "x86_64");
    UniversalMatches();
    UniversalChoice(assets, ["x86_64"], 0);
  }

  /** "app-release.apk" holds a single 'l', so no separated form of "all" occurs in it. */
  lemma AllNotInReleaseName()
    ensures !SeparatedMatch("app-release.apk", "all")
  {
    var name := "app-re" + ['l'] + "ease.apk";
    assert name == "app-release.apk";
    assert "-" + "all" == "-all" && "_" + "all" == "_all" && "." + "all" == ".all";
    assert "all" + "-" == "all-" && "all" + "_" == "all_" && "all" + "." == "all.";
    NotContainsByRepeatedChar("app-re", 'l', "ease.apk", "-all", 2, 3);
    NotContainsByRepeatedChar("app-re", 'l', "ease.apk", "_all", 2, 3);
    NotContainsByRepeatedChar("app-re", 'l', "ease.apk", ".all", 2, 3);
    NotContainsByRepeatedChar("app-re", 'l', "ease.apk", "all-", 1, 2);
    NotContainsByRepeatedChar("app-re", 'l', "ease.apk", "all_", 1, 2);
    NotContainsByRepeatedChar("app-re", 'l', "ease.apk", "all.", 1, 2);
  }

  lemma ReleaseNameNotUniversal()
    ensures !MatchesAny("app-release.apk", UniversalPatterns)
  {
    var name := "app-release.apk";
    assert Lower(name) == name by {
      LowerFixed(name);
    }
    assert !SeparatedMatch(name, Lower(UniversalPatterns[0])) by {
      NoSeparatedByChar(name, UniversalPatterns[0], 'u');
    }
    assert !SeparatedMatch(name, Lower(UniversalPatterns[1])) by {
      LowerFixed(UniversalPatterns[1]);
      AllNotInReleaseName();
    }
    assert !SeparatedMatch(name, Lower(UniversalPatterns[2])) by {
      NoSeparatedByChar(name, UniversalPatterns[2], 'f');
    }
    assert !SeparatedMatch(name, Lower(UniversalPatterns[3])) by {
      NoSeparatedByChar(name, UniversalPatterns[3], 'n');
    }
  }

  /** ApkArchitectureHelperTest: with no ABI and no universal match, the first APK is chosen. */
  lemma FallsBackToFirstApkWhenNoMatch()
    ensures SelectBestApk([Asset("app-release.apk"), Asset("app-armeabi-v7a.apk")], ["x86_64"])
            == Fallback(Asset("app-release.apk"))
  {
    var assets := [Asset("app-release.apk"), Asset("app-armeabi-v7a.apk")];
    ReleaseNameNotX86_64();
    Armeabi7NameNotX86_64();
    ApksOfFallbackTest();
    assert !AbiHit(assets, "x86_64");
    ReleaseNameNotUniversal();
    Armeabi7NameNotUniversal();
    assert !AnyMatch(assets, UniversalPatterns);
    FallbackChoice(assets, ["x86_64"]);
  }

  /** ApkArchitectureHelperTest: no ".apk" asset at all (an ".aab" does not count). */
  lemma NoApkAssets()
    ensures SelectBestApk([Asset("readme.txt"), Asset("app.aab")], ["arm64-v8a"]) == NoApkFound
  {
    LowerFixed("readme.txt");
    LowerFixed("app.aab");
    var assets := [Asset("readme.txt"), Asset("app.aab")];
    assert !IsApk(assets[0]) && !IsApk(assets[1]);
  }

  lemma DisplayNameOfArm64()
    ensures ArchitectureDisplayName(["arm64-v8a"]) == "ARM64"
  {
  }

  lemma UniversalIsCompatible()
    ensures IsApkCompatible("app-universal.apk", ["arm64-v8a"])
  {
    LowerFixed("app-universal.apk");
    assert OccursAt("app-universal.apk", UniversalPatterns[0], 4);
  }

  lemma MatchingAbiIsCompatible()
    ensures IsApkCompatible("app-arm64-v8a.apk", ["arm64-v8a", "armeabi-v7a"])
  {
    var name := "app-arm64-v8a.apk";
    var pats := AbiPatterns("arm64-v8a").value;
    LowerFixed(name);
    LowerFixed(pats[0]);
    assert OccursAt(name, pats[0], 4);
    assert LowerAll(pats)[0] == pats[0];
    assert AnyContained(name, LowerAll(pats));
    var abis := ["arm64-v8a", "armeabi-v7a"];
    assert AbiPatterns(abis[0]) == Some(pats);
    assert DeviceAbiContained(Lower(name), abis);
  }

  lemma MismatchedAbiIsNotCompatible()
    ensures !IsApkCompatible("app-x86.apk", ["arm64-v8a"])
  {
    var name := "app-x86.apk";
    assert Lower(name) == name by {
      LowerFixed(name);
    }
    X86NameNotUniversalContained();
    X86NameNotArm64Contained();
    X86NameContainsX86();
  }

  lemma X86NameNotUniversalContained()
    ensures !AnyContained("app-x86.apk", UniversalPatterns)
  {
    NoneContainedByChars("app-x86.apk", UniversalPatterns, "ulfn");
    LowerFixed("universal");
    LowerFixed("all");
    LowerFixed("fat");
    LowerFixed("noarch");
  }

  lemma X86NameNotArm64Contained()
    ensures !DeviceAbiContained("app-x86.apk", ["arm64-v8a"])
  {
    var pats := AbiPatterns("arm64-v8a").value;
    NoneContainedByChars("app-x86.apk", pats, "4444");
    assert !AnyContained("app-x86.apk", LowerAll(pats));
  }

  lemma X86NameContainsX86()
    ensures AnyContained("app-x86.apk", LowerAll(AllAbiPatterns))
  {
    var name := "app-x86.apk";
    LowerFixed(AllAbiPatterns[12]);
    assert name[4..7] == "x86";
    assert OccursAt(name, LowerAll(AllAbiPatterns)[12], 4);
  }

  lemma NoArchPatternIsCompatible()
    ensures IsApkCompatible("app-release.apk", ["arm64-v8a"])
  {
    var name := "app-release.apk";
    LowerFixed(name);
    NoneContainedByChars(name, AllAbiPatterns, "444" + "4" + "mmmmm" + "666" + "866");
  }
}
