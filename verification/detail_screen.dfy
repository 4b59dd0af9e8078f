/** The detail screen's decisions: which asset the download button installs, what
    the button offers (install, update, open, or a link), and how it follows the
    installer's states. The package manager is an oracle: `installed` is the list of
    installed package names `findPackage` searches, `packages` maps each installed
    package to its version name (which may be absent), and `isNewer` stands for the
    version comparison, which is not part of this model. */
module DetailScreen {

  import opened Wrappers
  import opened Text
  import opened Models
  import ApkArchitecture
  import Installer

  /** The asset the screen offers for installation: the selected one, if any. */
  function AssetOf(selection: ApkArchitecture.ApkSelectionResult): (r: Option<ReleaseAsset>)
    ensures r.None? <==> selection.NoApkFound?
    ensures r.Some? ==> r.value == selection.asset
  {
    if selection.NoApkFound? then None else Some(selection.asset)
  }

  /** Whatever the device, the offered asset is an APK of the release, and one is
      offered exactly when the release has an APK. */
  lemma OfferedAssetIsReleaseApk(release: GitHubRelease, deviceAbis: seq<string>)
    ensures var a := AssetOf(ApkArchitecture.SelectBestApk(release.assets, deviceAbis));
            && (a.None? <==> forall i :: 0 <= i < |release.assets| ==> !ApkArchitecture.IsApk(release.assets[i]))
            && (a.Some? ==> a.value in release.assets && ApkArchitecture.IsApk(a.value))
  {
  }

  /** What the download button does. `Update` and `Open` come with the uninstall
      button shown for `pkg`; `Install` hides it; the links leave it as it was. */
  datatype Offer =
    | Install(asset: ReleaseAsset)
    | Update(asset: ReleaseAsset, pkg: string)
    | Open(pkg: string)
    | ViewRelease(url: string)
    | ViewOnGitHub(url: string)

  predicate UninstallShown(o: Offer) {
    o.Update? || o.Open?
  }

  /** `setupInstallButton`: an installed match offers an update when both versions are
      known and the release is newer, and opening the app otherwise; anything else
      offers installation. */
  function InstallOffer(asset: ReleaseAsset, repoName: string, ownerName: string, installed: seq<string>,
                        packages: map<string, Option<string>>, releaseTag: Option<string>,
                        isNewer: (string, string) -> bool): (r: Offer)
    ensures var found := Installer.FindPackage(repoName, ownerName, installed);
            r.Install? <==> found.None? || found.value !in packages
    ensures r.Install? || r.Update? ==> r.asset == asset
    ensures r.Update? || r.Open? ==> r.pkg == Installer.FindPackage(repoName, ownerName, installed).value
    ensures r.Update? <==>
              var found := Installer.FindPackage(repoName, ownerName, installed);
              && found.Some? && found.value in packages
              && packages[found.value].Some? && releaseTag.Some?
              && isNewer(packages[found.value].value, releaseTag.value)
    ensures !r.ViewRelease? && !r.ViewOnGitHub?
  {
    var found := Installer.FindPackage(repoName, ownerName, installed);
    if found.Some? && found.value in packages then
      var version := packages[found.value];
      var hasUpdate := if version.Some? && releaseTag.Some? then isNewer(version.value, releaseTag.value) else false;
      if hasUpdate then Update(asset, found.value) else Open(found.value)
    else Install(asset)
  }

  /** The release part of `bindRepoData`: with a release, its APK for this device (or a
      link to the release when there is none); without one, a link to the repo. */
  function ReleaseOffer(repo: GitHubRepo, release: Option<GitHubRelease>, deviceAbis: seq<string>,
                        installed: seq<string>, packages: map<string, Option<string>>,
                        isNewer: (string, string) -> bool): (r: Offer)
    ensures release.None? <==> r == ViewOnGitHub(repo.htmlUrl)
    ensures r.ViewRelease? <==>
              release.Some? && AssetOf(ApkArchitecture.SelectBestApk(release.value.assets, deviceAbis)).None?
    ensures r.ViewRelease? ==> r.url == release.value.htmlUrl
    ensures r.Install? || r.Update? ==>
              release.Some? && r.asset == ApkArchitecture.SelectBestApk(release.value.assets, deviceAbis).asset
  {
    match release
    case None => ViewOnGitHub(repo.htmlUrl)
    case Some(rel) =>
      match AssetOf(ApkArchitecture.SelectBestApk(rel.assets, deviceAbis))
      case None => ViewRelease(rel.htmlUrl)
      case Some(asset) =>
        InstallOffer(asset, repo.name, repo.owner.login, installed, packages, Some(rel.tagName), isNewer)
  }

  /** `checkInstalledState`: the offer is worked out again only when there is an asset
      and the repo name is known; otherwise nothing changes (`None`). */
  function CheckInstalledState(asset: Option<ReleaseAsset>, repoName: string, ownerName: string,
                               installed: seq<string>, packages: map<string, Option<string>>,
                               releaseTag: Option<string>, isNewer: (string, string) -> bool): (r: Option<Offer>)
    ensures r.Some? <==> asset.Some? && |repoName| > 0
    ensures r.Some? ==> r.value == InstallOffer(asset.value, repoName, ownerName, installed, packages, releaseTag, isNewer)
  {
    if asset.Some? && |repoName| > 0 then
      Some(InstallOffer(asset.value, repoName, ownerName, installed, packages, releaseTag, isNewer))
    else None
  }

  // ---------------------------------------------------------------------------
  // The button while a download runs

  datatype Label =
    | InstallLabel
    | InstallingLabel
    | Shown(text: string)

  datatype Button = Button(enabled: bool, caption: Label)

  /** The button right after a click: disabled, showing "0%". */
  const Clicked: Button := Button(false, Shown("0%"))

  /** "p% (d/t)", the text of a `Downloading` state. */
  function ProgressText(progress: int, downloaded: string, total: string): string {
    IntToString(progress) + "% (" + downloaded + "/" + total + ")"
  }

  /** The button's reaction to one install state; `Success` also re-checks the
      installed state (see `CheckInstalledState`). */
  function OnInstallState(b: Button, s: Installer.InstallState): (r: Button)
    ensures s.Downloading? ==> r == Button(false, Shown(ProgressText(s.progress, s.downloaded, s.total)))
    ensures !r.enabled <==> s.Downloading? || (s.Installing? && !b.enabled)
    ensures s.Idle? || s.Error? ==> r == Button(true, InstallLabel)
    ensures s.Installing? ==> r == b.(caption := InstallingLabel)
    ensures s.Success? ==> r == b.(enabled := true)
  {
    match s
    case Idle => Button(true, InstallLabel)
    case Downloading(p, d, t) =>
      var text := ProgressText(p, d, t);
      Button(false, Shown(text))
    case Installing => b.(caption := InstallingLabel)
    case Success => b.(enabled := true)
    case Error(_) => Button(true, InstallLabel)
  }

  function OnInstallStates(b: Button, states: seq<Installer.InstallState>): (r: Button)
    decreases |states|
  {
    if |states| == 0 then b else OnInstallStates(OnInstallState(b, states[0]), states[1..])
  }

  /** Whatever states came before, the button is enabled again once the installer
      reports `Idle`, `Success` or an error last. */
  lemma {:induction false} EnabledAfterFinish(b: Button, states: seq<Installer.InstallState>)
    requires |states| > 0
    requires var last := states[|states| - 1]; last.Idle? || last.Success? || last.Error?
    ensures OnInstallStates(b, states).enabled
    decreases |states|
  {
    if |states| > 1 {
      EnabledAfterFinish(OnInstallState(b, states[0]), states[1..]);
    }
  }

  /** From the click on, the button stays disabled while only progress and
      installation are reported. */
  lemma {:induction false} DisabledWhileWorking(states: seq<Installer.InstallState>)
    requires forall i :: 0 <= i < |states| ==> states[i].Downloading? || states[i].Installing?
    ensures !OnInstallStates(Clicked, states).enabled
    decreases |states|
  {
    if |states| > 0 {
      DisabledFrom(OnInstallState(Clicked, states[0]), states[1..]);
    }
  }

  lemma {:induction false} DisabledFrom(b: Button, states: seq<Installer.InstallState>)
    requires !b.enabled
    requires forall i :: 0 <= i < |states| ==> states[i].Downloading? || states[i].Installing?
    ensures !OnInstallStates(b, states).enabled
    decreases |states|
  {
    if |states| > 0 {
      DisabledFrom(OnInstallState(b, states[0]), states[1..]);
    }
  }
}
