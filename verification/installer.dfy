/** `AppInstaller`: the one-download-at-a-time gate, the mapping of downloader states to
    install states, the system download manager's status and progress queries, the
    size text, and the installed-package heuristic. Callbacks are named by numbers;
    what is posted to a callback is returned as a list of deliveries, in posting order.
    The download manager, the package manager and the install intent are oracles. */
module Installer {

  import opened Wrappers
  import opened Text
  import opened Numeric
  import DownloadPrefs
  import MultiPart
  import Sorting

  datatype InstallState =
    | Idle
    | Downloading(progress: int, downloaded: string, total: string)
    | Installing
    | Success
    | Error(message: string)

  /** A callback passed to `download`, by identity. */
  type CallbackId = nat

  datatype Delivery = Delivery(callback: CallbackId, state: InstallState)

  /** The installer's mutable fields: the gate flag, the stored callback, the
      download-manager id (-1 for none), and whether the completion receiver is
      registered and a progress tick is scheduled. */
  datatype Gate = Gate(
    isDownloading: bool,
    stateCallback: Option<CallbackId>,
    currentDownloadId: int,
    receiverRegistered: bool,
    progressTracking: bool)

  const NoDownloadId: int := -1
  const Initial: Gate := Gate(false, None, NoDownloadId, false, false)

  /** The gate after an event and what the event posted. */
  datatype Step = Step(after: Gate, delivered: seq<Delivery>)

  const AlreadyInProgress: string := "Download already in progress"
  const InstallFailed: string := "Failed to start installation"
  const FileNotFound: string := "Downloaded file not found"

  /** Every delivery of `out` goes to `cb`. */
  predicate AllTo(out: seq<Delivery>, cb: CallbackId) {
    forall i :: 0 <= i < |out| ==> out[i].callback == cb
  }

  /** `cleanup`: no download, gate open, no callback, receiver and progress tick stopped. */
  function Cleanup(g: Gate): (h: Gate)
    ensures !h.isDownloading && h.stateCallback.None? && h.currentDownloadId == NoDownloadId
    ensures !h.receiverRegistered && !h.progressTracking
  {
    Initial
  }

  // ---------------------------------------------------------------- sizes

  const KiB: int := 1024
  const MiB: int := 1_048_576
  const GiB: int := 1_073_741_824

  /** Tenths of `bytes / unit`, rounded half up, as `%.1f` prints the exact quotient. */
  function Tenths(bytes: nat, unit: int): (t: nat)
    requires unit > 0
    ensures 2 * unit * t <= 20 * bytes + unit < 2 * unit * t + 2 * unit
  {
    var x := 20 * bytes + unit;
    var t := x / (2 * unit);
    assert x == (2 * unit) * t + x % (2 * unit);
    t
  }

  /** A number of tenths written with one decimal place. */
  function OneDecimal(t: nat): (r: string)
    ensures |r| >= 3 && r[|r| - 2] == '.'
    ensures AllDigits(r[..|r| - 2]) && IsDigit(r[|r| - 1])
    ensures DigitsValue(r[..|r| - 2]) * 10 + DigitValue(r[|r| - 1]) == t
  {
    var whole := NatToString(t / 10);
    var r := whole + "." + [DigitChar(t % 10)];
    assert r[..|r| - 2] == whole;
    DigitsOfNat(t / 10);
    r
  }

  /** `formatSize`: whole bytes below 1 KiB, otherwise one decimal of KB, MB or GB. */
  function FormatSize(bytes: int): (r: string)
    ensures bytes < KiB ==> r == IntToString(bytes) + " B"
    ensures KiB <= bytes < MiB ==> r == OneDecimal(Tenths(bytes, KiB)) + " KB"
    ensures MiB <= bytes < GiB ==> r == OneDecimal(Tenths(bytes, MiB)) + " MB"
    ensures GiB <= bytes ==> r == OneDecimal(Tenths(bytes, GiB)) + " GB"
  {
    if bytes >= GiB then OneDecimal(Tenths(bytes, GiB)) + " GB"
    else if bytes >= MiB then OneDecimal(Tenths(bytes, MiB)) + " MB"
    else if bytes >= KiB then OneDecimal(Tenths(bytes, KiB)) + " KB"
    else IntToString(bytes) + " B"
  }

  /** The unit a size is shown in is decided by the thresholds alone. */
  lemma FormatSizeUnit(bytes: int)
    ensures EndsWith(FormatSize(bytes), " B") <==> bytes < KiB
    ensures EndsWith(FormatSize(bytes), " KB") <==> KiB <= bytes < MiB
    ensures EndsWith(FormatSize(bytes), " MB") <==> MiB <= bytes < GiB
    ensures EndsWith(FormatSize(bytes), " GB") <==> GiB <= bytes
  {
    var r := FormatSize(bytes);
    if bytes < KiB {
      EndsWithConcat(IntToString(bytes), " B");
      assert r[|r| - 2] == ' ';
    } else {
      var unit := if bytes >= GiB then " GB" else if bytes >= MiB then " MB" else " KB";
      EndsWithConcat(r[..|r| - 3], unit);
      assert r[|r| - 3..] == unit;
      assert r[|r| - 2] != ' ';
    }
  }

  /** A size below 1 KiB is printed so that the number reads back exactly. */
  lemma SmallSizeReadsBack(bytes: int)
    requires LongMin <= bytes < KiB
    ensures ParseLong(FormatSize(bytes)[..|FormatSize(bytes)| - 2]) == Some(bytes)
  {
    var s := IntToString(bytes);
    assert FormatSize(bytes)[..|FormatSize(bytes)| - 2] == s;
    ParseLongRoundTrip(bytes);
  }

  /** The total as `download` shows it: its size, or "..." when not known. */
  function TotalText(total: int): (r: string)
    ensures total > 0 ==> r == FormatSize(total)
    ensures total <= 0 ==> r == "..."
  {
    if total > 0 then FormatSize(total) else "..."
  }

  function ShownProgress(progress: int, downloaded: int, total: int): InstallState {
    Downloading(progress, FormatSize(downloaded), TotalText(total))
  }

  /** The state posted right after a download starts. */
  const Starting: InstallState := Downloading(0, "0 B", "...")

  lemma StartingIsZeroBytes()
    ensures Starting == ShownProgress(MultiPart.Progress(0, 0), 0, 0)
  {
    assert IntToString(0) == "0";
  }

  // ---------------------------------------------------------------- the gate

  datatype Route = Rejected | ViaMultiPart | ViaDownloadManager(url: string)

  /** What `downloadManager.enqueue` does: returns a row id, or throws. */
  datatype Enqueue = Enqueued(id: nat) | EnqueueFailed(message: Option<string>)

  datatype Started = Started(step: Step, route: Route)

  /** The multi-part downloader is used when multi-part or the mirror proxy is enabled. */
  predicate UsesMultiPart(p: DownloadPrefs.Prefs) {
    p.multiPartEnabled || p.mirrorProxyEnabled
  }

  /** `download`: while a download runs, the new callback only gets an error; otherwise
      the callback is stored, the gate closes, and one of the two downloaders starts. */
  function Download(g: Gate, p: DownloadPrefs.Prefs, url: string, cb: CallbackId, enqueue: Enqueue): (r: Started)
    ensures AllTo(r.step.delivered, cb) && |r.step.delivered| == 1
    ensures r.route.Rejected? <==> g.isDownloading
    ensures g.isDownloading ==> r.step == Step(g, [Delivery(cb, Error(AlreadyInProgress))])
    ensures !g.isDownloading ==> r.step.after.stateCallback == Some(cb)
    ensures r.route.ViaMultiPart? <==> !g.isDownloading && UsesMultiPart(p)
    ensures r.route.ViaDownloadManager? ==> r.route.url == DownloadPrefs.TransformUrl(p, url)
    ensures r.route.ViaMultiPart? ==> r.step == Step(g.(isDownloading := true, stateCallback := Some(cb)), [Delivery(cb, Starting)])
    ensures r.route.ViaDownloadManager? && enqueue.Enqueued? ==>
              && r.step.after == Gate(true, Some(cb), enqueue.id, true, true)
              && r.step.delivered == [Delivery(cb, Starting)]
    ensures r.route.ViaDownloadManager? && enqueue.EnqueueFailed? ==>
              && r.step.after == g.(stateCallback := Some(cb), isDownloading := false)
              && r.step.delivered == [Delivery(cb, Error(enqueue.message.GetOr(MultiPart.DownloadFailed)))]
  {
    if g.isDownloading then
      Started(Step(g, [Delivery(cb, Error(AlreadyInProgress))]), Rejected)
    else
      var h := g.(stateCallback := Some(cb), isDownloading := true);
      if UsesMultiPart(p) then
        Started(Step(h, [Delivery(cb, Starting)]), ViaMultiPart)
      else
        var u := DownloadPrefs.TransformUrl(p, url);
        match enqueue
        case Enqueued(id) =>
          Started(Step(h.(currentDownloadId := id, receiverRegistered := true, progressTracking := true),
                       [Delivery(cb, Starting)]),
                  ViaDownloadManager(u))
        case EnqueueFailed(m) =>
          Started(Step(h.(isDownloading := false), [Delivery(cb, Error(m.GetOr(MultiPart.DownloadFailed)))]),
                  ViaDownloadManager(u))
  }

  /** The gate's invariant: a download-manager id, a receiver or a progress tick only
      exist while a download runs with a stored callback. */
  predicate Consistent(g: Gate) {
    && (g.currentDownloadId != NoDownloadId ==> g.isDownloading && g.stateCallback.Some? && g.currentDownloadId >= 0)
    && (g.receiverRegistered || g.progressTracking ==> g.currentDownloadId != NoDownloadId)
  }

  /** `cancel`: removes the download-manager row if there is one, cleans up, and posts
      `Idle` to the callback stored before the cleanup. */
  datatype Cancelled = Cancelled(step: Step, removed: Option<nat>)

  function Cancel(g: Gate): (r: Cancelled)
    requires Consistent(g)
    ensures r.step.after == Cleanup(g)
    ensures r.removed.Some? <==> g.currentDownloadId != NoDownloadId
    ensures r.removed.Some? ==> r.removed.value == g.currentDownloadId
    ensures g.stateCallback.None? ==> r.step.delivered == []
    ensures g.stateCallback.Some? ==> r.step.delivered == [Delivery(g.stateCallback.value, Idle)]
  {
    var removed := if g.currentDownloadId != NoDownloadId then Some(g.currentDownloadId as nat) else None;
    var out := match g.stateCallback
      case Some(cb) => [Delivery(cb, Idle)]
      case None => [];
    Cancelled(Step(Cleanup(g), out), removed)
  }

  /** The multi-part downloader's callback: each state is posted to the callback the
      closure captured at `download`, whatever the gate holds by then. A finished or
      failed download cleans up; `Idle` (cancellation) does not. */
  function OnDownloaderState(g: Gate, cb: CallbackId, s: MultiPart.DownloadState, installStarted: bool): (r: Step)
    ensures AllTo(r.delivered, cb)
    ensures MultiPart.IsTerminal(s) && !s.Idle? ==> r.after == Cleanup(g)
    ensures !(MultiPart.IsTerminal(s) && !s.Idle?) ==> r.after == g
    ensures s.Idle? ==> r.delivered == [Delivery(cb, Idle)]
    ensures s.Downloading? ==>
              r.delivered == [Delivery(cb, ShownProgress(s.progress, s.downloadedBytes, s.totalBytes))]
    ensures s.Completed? ==>
              r.delivered == [Delivery(cb, Installing), Delivery(cb, if installStarted then InstallState.Success else Error(InstallFailed))]
    ensures s.Error? ==> r.delivered == [Delivery(cb, Error(s.message))]
  {
    match s
    case Idle => Step(g, [Delivery(cb, Idle)])
    case Downloading(p, d, t) => Step(g, [Delivery(cb, ShownProgress(p, d, t))])
    case Completed(_) =>
      Step(Cleanup(g), [Delivery(cb, Installing), Delivery(cb, if installStarted then InstallState.Success else Error(InstallFailed))])
    case Error(m) => Step(Cleanup(g), [Delivery(cb, Error(m))])
  }

  /** A whole run of downloader states, posted in order. */
  function OnDownloaderStates(g: Gate, cb: CallbackId, states: seq<MultiPart.DownloadState>, installStarted: bool): (r: Step)
    ensures AllTo(r.delivered, cb)
    ensures |r.delivered| >= |states|
    decreases |states|
  {
    if |states| == 0 then Step(g, [])
    else
      var first := OnDownloaderState(g, cb, states[0], installStarted);
      var rest := OnDownloaderStates(first.after, cb, states[1..], installStarted);
      Step(rest.after, first.delivered + rest.delivered)
  }

  /** A run that ends in `Completed` or `Error` leaves the gate open again. */
  lemma {:induction false} FinishedRunOpensGate(g: Gate, cb: CallbackId, states: seq<MultiPart.DownloadState>, installStarted: bool)
    requires |states| > 0 && (states[|states| - 1].Completed? || states[|states| - 1].Error?)
    ensures OnDownloaderStates(g, cb, states, installStarted).after == Initial
    decreases |states|
  {
    if |states| > 1 {
      var first := OnDownloaderState(g, cb, states[0], installStarted);
      assert states[1..][|states[1..]| - 1] == states[|states| - 1];
      FinishedRunOpensGate(first.after, cb, states[1..], installStarted);
    }
  }

  /** A run of only progress states changes nothing in the gate. */
  lemma {:induction false} ProgressRunKeepsGate(g: Gate, cb: CallbackId, states: seq<MultiPart.DownloadState>, installStarted: bool)
    requires forall i :: 0 <= i < |states| ==> states[i].Downloading?
    ensures OnDownloaderStates(g, cb, states, installStarted).after == g
    ensures |OnDownloaderStates(g, cb, states, installStarted).delivered| == |states|
    decreases |states|
  {
    if |states| > 0 {
      ProgressRunKeepsGate(g, cb, states[1..], installStarted);
    }
  }

  /** `cancel` does not stop the multi-part downloader: a multi-part download that is
      cancelled and then completes still reports `Installing` and `Success` to the
      callback given to `download`, after that callback already got `Idle`. */
  lemma CancelledMultiPartStillReportsSuccess(p: DownloadPrefs.Prefs, url: string, cb: CallbackId, e: Enqueue, file: string)
    requires UsesMultiPart(p)
    ensures var started := Download(Initial, p, url, cb, e);
            var cancelled := Cancel(started.step.after);
            var late := OnDownloaderState(cancelled.step.after, cb, MultiPart.Completed(file), true);
            && started.route == ViaMultiPart
            && cancelled.step.delivered == [Delivery(cb, Idle)]
            && late.delivered == [Delivery(cb, Installing), Delivery(cb, InstallState.Success)]
  {
  }

  // ---------------------------------------------------------------- download manager

  const StatusPending: int := 1
  const StatusRunning: int := 2
  const StatusPaused: int := 4
  const StatusSuccessful: int := 8
  const StatusFailed: int := 16

  /** `getErrorMessage`: the download manager's failure reasons as text. */
  function GetErrorMessage(reason: int): (r: string)
    ensures reason !in {1001, 1002, 1004, 1005, 1006, 1007, 1008, 1009} <==> r == MultiPart.DownloadFailed
  {
    if reason == 1008 then "Cannot resume"
    else if reason == 1007 then "Storage not found"
    else if reason == 1009 then "File exists"
    else if reason == 1001 then "File error"
    else if reason == 1004 then "Network error"
    else if reason == 1006 then "No space"
    else if reason == 1005 then "Too many redirects"
    else if reason == 1002 then "Server error"
    else MultiPart.DownloadFailed
  }

  /** Different known reasons are told apart by their messages. */
  lemma ErrorMessagesDistinct(a: int, b: int)
    requires a in {1001, 1002, 1004, 1005, 1006, 1007, 1008, 1009} && a != b
    ensures GetErrorMessage(a) != GetErrorMessage(b)
  {
  }

  /** One row of the download-manager query for the finished download; `uriKnown` is
      whether the manager gives a URI for the file, `fileFound` whether the file is in
      the downloads folder, `installStarted` whether the install intent was dispatched. */
  datatype StatusRow = StatusRow(status: int, reason: int, uriKnown: bool, fileFound: bool, installStarted: bool)

  /** The query's outcome: a row, no row, or an exception (with its message, if any). */
  datatype StatusQuery = Row(row: StatusRow) | NoRow | QueryFailed(message: Option<string>)

  /** `checkDownloadStatus`. */
  function CheckDownloadStatus(g: Gate, cb: CallbackId, q: StatusQuery): (r: Step)
    ensures AllTo(r.delivered, cb)
    ensures r.delivered == [] <==> r.after == g && !(q.Row? && q.row.status in {StatusSuccessful, StatusFailed}) && !q.QueryFailed?
    ensures r.delivered != [] ==> r.after == Cleanup(g)
    ensures q.Row? && q.row.status == StatusSuccessful ==>
              && |r.delivered| == 2 && r.delivered[0].state == Installing
              && (r.delivered[1].state == InstallState.Success <==> (q.row.uriKnown || q.row.fileFound) && q.row.installStarted)
    ensures q.Row? && q.row.status == StatusSuccessful && !q.row.uriKnown && !q.row.fileFound ==>
              |r.delivered| == 2 && r.delivered[1].state == Error(FileNotFound)
    ensures q.Row? && q.row.status == StatusSuccessful && (q.row.uriKnown || q.row.fileFound) && !q.row.installStarted ==>
              |r.delivered| == 2 && r.delivered[1].state == Error(InstallFailed)
    ensures q.Row? && q.row.status == StatusFailed ==> r.delivered == [Delivery(cb, Error(GetErrorMessage(q.row.reason)))]
    ensures q.QueryFailed? ==> r.delivered == [Delivery(cb, Error("Status check failed: " + q.message.GetOr("null")))]
  {
    match q
    case QueryFailed(m) => Step(Cleanup(g), [Delivery(cb, Error("Status check failed: " + m.GetOr("null")))])
    case NoRow => Step(g, [])
    case Row(row) =>
      if row.status == StatusSuccessful then
        var outcome :=
          if !row.uriKnown && !row.fileFound then Error(FileNotFound)
          else if row.installStarted then InstallState.Success
          else Error(InstallFailed);
        Step(Cleanup(g), [Delivery(cb, Installing), Delivery(cb, outcome)])
      else if row.status == StatusFailed then
        Step(Cleanup(g), [Delivery(cb, Error(GetErrorMessage(row.reason)))])
      else Step(g, [])
  }

  /** The completion broadcast: only the receiver of the current download reacts; it
      stops the progress tick and checks the status. */
  function OnDownloadComplete(g: Gate, cb: CallbackId, id: int, q: StatusQuery): (r: Step)
    ensures AllTo(r.delivered, cb)
    ensures !g.receiverRegistered || id != g.currentDownloadId ==> r == Step(g, [])
    ensures g.receiverRegistered && id == g.currentDownloadId ==>
              r == CheckDownloadStatus(g.(progressTracking := false), cb, q)
  {
    if g.receiverRegistered && id == g.currentDownloadId then
      CheckDownloadStatus(g.(progressTracking := false), cb, q)
    else Step(g, [])
  }

  /** One progress query: a row with status, bytes so far and total bytes, no row, or
      an exception. */
  datatype ProgressQuery = ProgressRow(status: int, downloaded: int, total: int) | NoProgressRow | ProgressFailed

  /** One run of the progress tick: while the download is pending or running it posts
      the progress and schedules itself again; otherwise it stops. */
  function ProgressTick(g: Gate, cb: CallbackId, q: ProgressQuery): (r: Step)
    ensures AllTo(r.delivered, cb) && |r.delivered| <= 1
    ensures r.after == g.(progressTracking := r.after.progressTracking)
    ensures r.after.progressTracking <==> |r.delivered| == 1
    ensures |r.delivered| == 1 <==>
              && g.isDownloading && g.currentDownloadId != NoDownloadId
              && q.ProgressRow? && q.status in {StatusRunning, StatusPending}
    ensures |r.delivered| == 1 ==>
              var s := r.delivered[0].state;
              && s.Downloading? && 0 <= s.progress <= 100
              && (q.total <= 0 ==> s.progress == 0 && s.total == "...")
              && (q.total > 0 ==> s.progress == MultiPart.Progress(q.downloaded, q.total) && s.total == FormatSize(q.total))
              && s.downloaded == FormatSize(q.downloaded)
  {
    if !g.isDownloading || g.currentDownloadId == NoDownloadId then Step(g.(progressTracking := false), [])
    else
      match q
      case ProgressRow(status, d, t) =>
        if status == StatusRunning || status == StatusPending then
          Step(g.(progressTracking := true), [Delivery(cb, ShownProgress(MultiPart.Progress(d, t), d, t))])
        else Step(g.(progressTracking := false), [])
      case _ => Step(g.(progressTracking := false), [])
  }

  /** Every transition keeps the gate's invariant. */
  lemma TransitionsKeepConsistent(g: Gate, p: DownloadPrefs.Prefs, url: string, cb: CallbackId, e: Enqueue,
                                  s: MultiPart.DownloadState, installStarted: bool, id: int,
                                  q: StatusQuery, pq: ProgressQuery)
    requires Consistent(g)
    ensures Consistent(Download(g, p, url, cb, e).step.after)
    ensures Consistent(Cancel(g).step.after)
    ensures Consistent(OnDownloaderState(g, cb, s, installStarted).after)
    ensures Consistent(OnDownloadComplete(g, cb, id, q).after)
    ensures Consistent(ProgressTick(g, cb, pq).after)
  {
  }

  /** A failed `enqueue` opens the gate but leaves the callback stored, so a later
      `cancel` still posts `Idle` to it. */
  lemma FailedEnqueueKeepsCallback(p: DownloadPrefs.Prefs, url: string, cb: CallbackId, m: Option<string>)
    requires !UsesMultiPart(p)
    ensures var started := Download(Initial, p, url, cb, EnqueueFailed(m));
            && !started.step.after.isDownloading
            && Cancel(started.step.after).step.delivered == [Delivery(cb, Idle)]
  {
  }

  // ---------------------------------------------------------------- installed package

  predicate IsLowerAlnum(c: char) {
    'a' <= c <= 'z' || '0' <= c <= '9'
  }

  /** `replace(Regex("[^a-z0-9]"), "")`: the lower-case letters and digits, in order. */
  function KeepLowerAlnum(s: string): (r: string)
    ensures |r| <= |s|
    ensures forall i :: 0 <= i < |r| ==> IsLowerAlnum(r[i])
    ensures forall c :: c in r <==> c in s && IsLowerAlnum(c)
    ensures (forall i :: 0 <= i < |s| ==> IsLowerAlnum(s[i])) ==> r == s
    ensures r == Sorting.Filter(s, IsLowerAlnum)
  {
    if |s| == 0 then []
    else
      assert s == [s[0]] + s[1..];
      var rest := KeepLowerAlnum(s[1..]);
      if IsLowerAlnum(s[0]) then [s[0]] + rest else rest
  }

  /** The repository or owner name as `findPackage` compares it. */
  function NormalizeName(name: string): string {
    KeepLowerAlnum(Lower(name))
  }

  /** The package-name templates `findPackage` searches for. */
  function PackagePatterns(repoName: string, ownerName: string): (r: seq<string>)
    ensures |r| == 5
  {
    var repo := NormalizeName(repoName);
    var owner := NormalizeName(ownerName);
    ["com." + owner + "." + repo, "com." + repo, "org." + owner + "." + repo, "io." + owner + "." + repo, repo]
  }

  /** The lower-cased package name contains a template of at least three characters. */
  predicate PackageMatches(pkg: string, patterns: seq<string>) {
    exists k :: 0 <= k < |patterns| && |patterns[k]| >= 3 && Contains(Lower(pkg), patterns[k])
  }

  function MatchesFrom(lowerPkg: string, patterns: seq<string>): (b: bool)
    ensures b <==> exists k :: 0 <= k < |patterns| && |patterns[k]| >= 3 && Contains(lowerPkg, patterns[k])
  {
    if |patterns| == 0 then false
    else (|patterns[0]| >= 3 && Contains(lowerPkg, patterns[0])) || MatchesFrom(lowerPkg, patterns[1..])
  }

  function FirstPackage(installed: seq<string>, patterns: seq<string>): (k: nat)
    ensures k <= |installed|
    ensures k < |installed| ==> PackageMatches(installed[k], patterns)
    ensures forall j :: 0 <= j < k ==> !PackageMatches(installed[j], patterns)
  {
    if |installed| == 0 then 0
    else if MatchesFrom(Lower(installed[0]), patterns) then 0
    else FirstPackage(installed[1..], patterns) + 1
  }

  /** `findPackage`: the first installed package, in list order, matching a template. */
  function FindPackage(repoName: string, ownerName: string, installed: seq<string>): (r: Option<string>)
    ensures r.None? <==> forall i :: 0 <= i < |installed| ==> !PackageMatches(installed[i], PackagePatterns(repoName, ownerName))
    ensures r.Some? ==> exists i :: 0 <= i < |installed| && installed[i] == r.value
                          && PackageMatches(r.value, PackagePatterns(repoName, ownerName))
                          && forall j :: 0 <= j < i ==> !PackageMatches(installed[j], PackagePatterns(repoName, ownerName))
  {
    var k := FirstPackage(installed, PackagePatterns(repoName, ownerName));
    if k < |installed| then Some(installed[k]) else None
  }

  /** The length guard is on the whole template: a repository name with no letter or
      digit still leaves "com.", so any package whose name contains "com." is taken. */
  lemma EmptyRepoMatchesAnyComPackage(repoName: string, ownerName: string, pkg: string)
    requires NormalizeName(repoName) == [] && Contains(Lower(pkg), "com.")
    ensures PackageMatches(pkg, PackagePatterns(repoName, ownerName))
    ensures FindPackage(repoName, ownerName, [pkg]) == Some(pkg)
  {
    var pats := PackagePatterns(repoName, ownerName);
    assert pats[1] == "com.";
  }

  /** A normalised repository name shorter than three characters is never searched on its own. */
  lemma ShortRepoNotSearchedAlone(repoName: string, ownerName: string, pkg: string)
    requires |NormalizeName(repoName)| < 3
    requires PackageMatches(pkg, PackagePatterns(repoName, ownerName))
    ensures exists k :: 0 <= k < 4 && Contains(Lower(pkg), PackagePatterns(repoName, ownerName)[k])
  {
  }
}
