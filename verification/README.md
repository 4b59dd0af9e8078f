# RepoStore core, modelled in Dafny

RepoStore is an Android app store that gets its apps from GitHub releases. This project models its core logic:

- choosing the APK that fits the device's CPU architectures (`ApkArchitectureHelper`);
- the download preferences: thread count, mirror proxy, URL rewriting (`DownloadPreferences`, `DownloadSettingsActivity`);
- the multi-part downloader: file probe, chunk plan, progress, states (`MultiPartDownloader`);
- the installer's download state machine, size formatting and installed-package lookup (`AppInstaller`);
- the GitHub repository layer: APK filtering, caches, release tags, error messages, screenshot discovery (`GitHubRepository`);
- the HTTP client's authentication headers and rate-limit retry (`RetrofitClient`);
- the detail screen: install/update/open button, favourite toggle, progress text (`DetailActivity`);
- the home and games sections (`HomeFragment`, `GameFragment`);
- list paging (`AppListViewModel`);
- the "my apps" filter (`MyAppsViewModel`);
- the favourites table (`FavoriteAppDao`);
- the token screen (`GitHubTokenActivity`).

Every operation is a pure function over immutable data. The network, the file system, the package manager, the clock and the device's ABI list become parameters or oracle replies. Kotlin `Int`/`Long` arithmetic is modelled on unbounded integers, with explicit truncating division and clamping where the source relies on them (module `Numeric`).

Modules:

| file | module | models |
|---|---|---|
| wrappers.dfy | Wrappers | `Option` and `Result` |
| text.dfy | Text | the Kotlin string functions the core uses: trim, blank tests, ASCII lower-casing, contains/startsWith/endsWith, number formatting and parsing |
| sorting.dfy | Sorting | `sortedByDescending` as a stable insertion sort, `take`, `drop`, `filter` |
| numeric.dfy | Numeric | `coerceIn`, `toInt`, `toLong`, truncating division |
| models.dfy | Models | the GitHub records, app categories, favourite rows, the star and update orders |
| apk_selection.dfy | ApkArchitecture | APK selection and compatibility |
| apk_selection_tests.dfy | ApkArchitectureTests | the unit tests of APK selection, as lemmas |
| download_prefs.dfy | DownloadPrefs | download preferences and the settings screen's proxy input |
| multipart.dfy | MultiPart | the multi-part downloader |
| installer.dfy | Installer | the installer |
| repository.dfy | Repository | the GitHub repository layer |
| http_client.dfy | HttpClient | authentication and retry interceptors |
| detail_screen.dfy | DetailScreen | the detail screen's install button |
| sections.dfy | Sections | the home/games sections |
| app_list.dfy | AppList | list query and paging |
| favorites.dfy | Favorites | the favourites table and toggle |
| my_apps.dfy | MyApps | the "my apps" filter |
| token_screen.dfy | TokenScreen | saving and masking the access token |

## Model

Source paths are relative to the repository root.

| member | source | states |
|---|---|---|
| ApkArchitecture.ApkAssets | app/src/main/java/com/samyak/repostore/util/ApkArchitectureHelper.kt:51 | the APK list holds only assets whose lower-cased name ends in ".apk", and every such asset is in it |
| ApkArchitecture.ApkAssetsIsFilter | app/src/main/java/com/samyak/repostore/util/ApkArchitectureHelper.kt:51 | the APK list is the assets filtered on the ".apk" ending, so it keeps the list order |
| ApkArchitecture.ApkAssetsEmpty | app/src/main/java/com/samyak/repostore/util/ApkArchitectureHelper.kt:51-55 | no APK remains exactly when no asset is an APK |
| ApkArchitecture.ApkAssetsSingle | app/src/main/java/com/samyak/repostore/util/ApkArchitectureHelper.kt:57-59 | a lone remaining APK is the only APK among the assets |
| ApkArchitecture.ApkAssetsKeepsAll | app/src/main/java/com/samyak/repostore/util/ApkArchitectureHelper.kt:51 | a list made only of APKs is kept whole and in order |
| ApkArchitecture.FindApkByPatterns | app/src/main/java/com/samyak/repostore/util/ApkArchitectureHelper.kt:85-103 | the result is absent exactly when no APK matches a pattern with a separator beside it; otherwise it is the first matching APK in list order |
| ApkArchitecture.FirstMatchIndex | app/src/main/java/com/samyak/repostore/util/ApkArchitectureHelper.kt:91-102 | the index found matches and no earlier APK does |
| ApkArchitecture.FirstAbiHit | app/src/main/java/com/samyak/repostore/util/ApkArchitectureHelper.kt:64-70 | the device ABI found is known and matched, and no earlier device ABI is |
| ApkArchitecture.SelectBestApk | app/src/main/java/com/samyak/repostore/util/ApkArchitectureHelper.kt:50-80 | no APKs gives NoApkFound; exactly one gives Single; otherwise the choice among the APKs; any asset returned is an APK from the list |
| ApkArchitecture.SelectAmong | app/src/main/java/com/samyak/repostore/util/ApkArchitectureHelper.kt:61-79 | ExactMatch names the earliest known device ABI that some APK matches, with the first APK matching it; Universal only when no ABI matched, with the first universal APK; Fallback only when neither matched, with the first APK |
| ApkArchitecture.AnyContained | app/src/main/java/com/samyak/repostore/util/ApkArchitectureHelper.kt:126-128 | true exactly when some pattern is a plain substring |
| ApkArchitecture.LowerAll | app/src/main/java/com/samyak/repostore/util/ApkArchitectureHelper.kt:89 | each pattern lower-cased, in order |
| ApkArchitecture.IsApkCompatible | app/src/main/java/com/samyak/repostore/util/ApkArchitectureHelper.kt:121-148 | a universal pattern or a device-ABI pattern anywhere in the name makes the APK compatible; otherwise it is incompatible exactly when it contains some known architecture pattern |
| ApkArchitecture.ArchitectureDisplayName | app/src/main/java/com/samyak/repostore/util/ApkArchitectureHelper.kt:108-116 | ARM64 for arm64-v8a or an empty ABI list, ARM32 for armeabi-v7a, the ABI itself for x86_64, x86 and unknown ABIs |
| ApkArchitecture.SeparatedMatchContains | app/src/main/java/com/samyak/repostore/util/ApkArchitectureHelper.kt:94-100 | a separated match is also a plain substring |
| ApkArchitecture.ExactMatchIsCompatible | app/src/main/java/com/samyak/repostore/util/ApkArchitectureHelper.kt:64-70 | an APK chosen for a device ABI passes the compatibility test on that device |
| ApkArchitecture.ContainingAllIsCompatible | app/src/main/java/com/samyak/repostore/util/ApkArchitectureHelper.kt:25 | any name containing "all" (such as "install") counts as compatible, because the compatibility test uses plain substrings |
| ApkArchitecture.UnknownAbiIgnored | app/src/main/java/com/samyak/repostore/util/ApkArchitectureHelper.kt:65 | an ABI without a pattern entry leaves the choice unchanged |
| ApkArchitecture.ExactMatchChoice | app/src/main/java/com/samyak/repostore/util/ApkArchitectureHelper.kt:64-70 | the first matched known ABI and its first matching APK are chosen |
| ApkArchitecture.UniversalChoice | app/src/main/java/com/samyak/repostore/util/ApkArchitectureHelper.kt:72-76 | with no ABI match, the first universal APK is chosen |
| ApkArchitecture.FallbackChoice | app/src/main/java/com/samyak/repostore/util/ApkArchitectureHelper.kt:78-79 | with no ABI or universal match, the first APK is chosen |
| ApkArchitectureTests.PrefersPrimaryAbiMatch | app/src/test/java/com/samyak/repostore/util/ApkArchitectureHelperTest.kt:26-41 | the arm64 build is chosen over the universal and armeabi builds on an arm64-first device |
| ApkArchitectureTests.FallsBackToSecondaryAbiMatch | app/src/test/java/com/samyak/repostore/util/ApkArchitectureHelperTest.kt:43-57 | the second device ABI is used when the first matches nothing |
| ApkArchitectureTests.UsesUniversalWhenNoArchMatch | app/src/test/java/com/samyak/repostore/util/ApkArchitectureHelperTest.kt:59-72 | the universal build is chosen when no ABI matches |
| ApkArchitectureTests.FallsBackToFirstApkWhenNoMatch | app/src/test/java/com/samyak/repostore/util/ApkArchitectureHelperTest.kt:74-87 | the first APK is chosen when nothing matches |
| ApkArchitectureTests.NoApkAssets | app/src/test/java/com/samyak/repostore/util/ApkArchitectureHelperTest.kt:89-101 | a readme and an .aab give NoApkFound |
| ApkArchitectureTests.DisplayNameOfArm64 | app/src/test/java/com/samyak/repostore/util/ApkArchitectureHelperTest.kt:103-108 | arm64-v8a displays as ARM64 |
| ApkArchitectureTests.UniversalIsCompatible | app/src/test/java/com/samyak/repostore/util/ApkArchitectureHelperTest.kt:110-115 | a universal build is compatible |
| ApkArchitectureTests.MatchingAbiIsCompatible | app/src/test/java/com/samyak/repostore/util/ApkArchitectureHelperTest.kt:117-122 | an arm64 build is compatible with an arm64 device |
| ApkArchitectureTests.MismatchedAbiIsNotCompatible | app/src/test/java/com/samyak/repostore/util/ApkArchitectureHelperTest.kt:124-129 | an x86 build is not compatible with an arm64-only device |
| ApkArchitectureTests.NoArchPatternIsCompatible | app/src/test/java/com/samyak/repostore/util/ApkArchitectureHelperTest.kt:131-136 | a name with no architecture pattern is compatible |
| ApkArchitectureTests.ReleaseNameNotUniversal | app/src/test/java/com/samyak/repostore/util/ApkArchitectureHelperTest.kt:74-87 | "app-release.apk" matches no universal pattern with a separator |
| ApkArchitectureTests.AllNotInReleaseName | app/src/main/java/com/samyak/repostore/util/ApkArchitectureHelper.kt:94-100 | "all" does not occur in "app-release.apk" with a separator beside it |
| DownloadPrefs.GetThreadCount | app/src/main/java/com/samyak/repostore/data/prefs/DownloadPreferences.kt:89-92 | the stored count clamped to 1..32, and 4 when none is stored |
| DownloadPrefs.SetThreadCount | app/src/main/java/com/samyak/repostore/data/prefs/DownloadPreferences.kt:97-100 | the stored count lies in 1..32, equals the requested count when that is in range, and nothing else changes |
| DownloadPrefs.GetAfterSetThreadCount | app/src/main/java/com/samyak/repostore/data/prefs/DownloadPreferences.kt:89-100 | reading after writing gives 1 below the range, 32 above it, and the count itself inside it |
| DownloadPrefs.SetMirrorProxyUrl | app/src/main/java/com/samyak/repostore/data/prefs/DownloadPreferences.kt:66-68 | a given URL is stored trimmed (blank becomes ""), none stays none, and nothing else changes |
| DownloadPrefs.NormalizedProxy | app/src/main/java/com/samyak/repostore/data/prefs/DownloadPreferences.kt:125 | the proxy extended to end in "/", unchanged exactly when it already does |
| DownloadPrefs.TransformUrl | app/src/main/java/com/samyak/repostore/data/prefs/DownloadPreferences.kt:109-128 | the URL is unchanged when the proxy is off, unset or blank, or when the URL is not a GitHub URL; otherwise it is the normalised proxy followed by the URL |
| DownloadPrefs.TransformUrlNotIdempotent | app/src/main/java/com/samyak/repostore/data/prefs/DownloadPreferences.kt:120-127 | a rewritten URL still contains "github.com", so rewriting it again prefixes the proxy a second time |
| DownloadPrefs.IsValidProxyUrl | app/src/main/java/com/samyak/repostore/data/prefs/DownloadPreferences.kt:133-141 | valid exactly when present and its trim starts with http:// or https:// |
| DownloadPrefs.WithScheme | app/src/main/java/com/samyak/repostore/ui/activity/DownloadSettingsActivity.kt:62-66 | "https://" is added exactly when the URL has neither http scheme |
| DownloadPrefs.SchemedProxyIsValid | app/src/main/java/com/samyak/repostore/ui/activity/DownloadSettingsActivity.kt:62-68 | a URL with a scheme keeps it after normalisation, and normalisation leaves nothing to trim |
| DownloadPrefs.NormalizeProxyInput | app/src/main/java/com/samyak/repostore/ui/activity/DownloadSettingsActivity.kt:58-72 | blank or missing text stores nothing; anything else is stored as the trimmed text with "https://" put in front when it has no scheme and "/" put at the end when missing, so it has a scheme, a trailing "/", nothing to trim and passes the validity test |
| DownloadPrefs.StoreProxyInput | app/src/main/java/com/samyak/repostore/ui/activity/DownloadSettingsActivity.kt:58-72 | typing into the field changes only the stored proxy URL |
| DownloadPrefs.NormalizeProxyInputIdempotent | app/src/main/java/com/samyak/repostore/ui/activity/DownloadSettingsActivity.kt:58-72 | normalising a stored proxy URL again changes nothing, so reloading the field (lines 109-112) does not alter it |
| DownloadPrefs.NormalizedTextIsFixed | app/src/main/java/com/samyak/repostore/ui/activity/DownloadSettingsActivity.kt:58-72 | text that already has a scheme and a trailing "/" is stored as typed |
| DownloadPrefs.PresetChipsAreNormalized | app/src/main/java/com/samyak/repostore/ui/activity/DownloadSettingsActivity.kt:76-85 | each preset chip's URL is stored exactly as shown |
| DownloadPrefs.TransformWithNormalizedProxy | app/src/main/java/com/samyak/repostore/ui/activity/DownloadSettingsActivity.kt:58-72 | once typed and enabled, a GitHub URL is rewritten to the stored proxy followed by the URL |
| MultiPart.ExceptionState | app/src/main/java/com/samyak/repostore/util/MultiPartDownloader.kt:113-117 | an exception becomes an Error carrying its message, or "Download failed" when it has none |
| MultiPart.Header | app/src/main/java/com/samyak/repostore/util/MultiPartDownloader.kt:138-139 | the header is absent exactly when no field has the name (ignoring case); otherwise it is the value of the last field with that name |
| MultiPart.CheckRangeWithGet | app/src/main/java/com/samyak/repostore/util/MultiPartDownloader.kt:158-181 | an exception gives no answer; otherwise either a positive total from Content-Range, with range support exactly when the status is 206, or (-1, false) |
| MultiPart.GetFileInfo | app/src/main/java/com/samyak/repostore/util/MultiPartDownloader.kt:125-153 | a failed or non-2xx HEAD gives no answer; a 2xx HEAD with a positive Content-Length answers that length, with range support exactly when Accept-Ranges is "bytes" ignoring case; a 2xx HEAD whose Content-Length is absent, not a number or not positive defers to the ranged GET; range support implies a positive size |
| MultiPart.HeadWithLengthDecides | app/src/main/java/com/samyak/repostore/util/MultiPartDownloader.kt:138-147 | a successful HEAD with a positive Content-Length answers that length, with range support exactly when Accept-Ranges equals "bytes" ignoring case |
| MultiPart.Progress | app/src/main/java/com/samyak/repostore/util/MultiPartDownloader.kt:218-220 | the percentage lies in 0..100 and is 0 when the total is unknown |
| MultiPart.ProgressIsPercentage | app/src/main/java/com/samyak/repostore/util/MultiPartDownloader.kt:218-220 | within the total (and below the Long overflow bound) the percentage is downloaded*100/total, rounded down |
| MultiPart.ProgressMonotone | app/src/main/java/com/samyak/repostore/util/MultiPartDownloader.kt:218-220 | more bytes never show a smaller percentage |
| MultiPart.ChunkPlan | app/src/main/java/com/samyak/repostore/util/MultiPartDownloader.kt:259-267 | exactly threadCount ranges; the first starts at 0, the last ends at totalSize-1, and each starts right after the previous one ends |
| MultiPart.ChunksNonEmpty | app/src/main/java/com/samyak/repostore/util/MultiPartDownloader.kt:259-267 | with at least as many bytes as threads, no range is empty |
| MultiPart.ChunksWhenFewBytes | app/src/main/java/com/samyak/repostore/util/MultiPartDownloader.kt:259-267 | with fewer bytes than threads, every range but the last is the empty range 0..-1 and the last covers the whole file |
| MultiPart.ContiguousSum | app/src/main/java/com/samyak/repostore/util/MultiPartDownloader.kt:263-266 | the lengths of contiguous ranges add up to the span from the first start to the last end |
| MultiPart.ChunkLengthsSum | app/src/main/java/com/samyak/repostore/util/MultiPartDownloader.kt:259-267 | the planned lengths add up to the file size |
| MultiPart.ChunkLengthsNonNegative | app/src/main/java/com/samyak/repostore/util/MultiPartDownloader.kt:259-267 | no planned range has a negative length |
| MultiPart.ContiguousOrdered | app/src/main/java/com/samyak/repostore/util/MultiPartDownloader.kt:263-266 | an earlier range ends before a later one starts |
| MultiPart.ChunksPartitionFile | app/src/main/java/com/samyak/repostore/util/MultiPartDownloader.kt:259-267 | every byte of the file lies in exactly one planned range |
| MultiPart.FirstRangeEndingAtOrAfter | app/src/main/java/com/samyak/repostore/util/MultiPartDownloader.kt:263-266 | some range of a contiguous plan holds each byte between its ends |
| MultiPart.RangeHeader | app/src/main/java/com/samyak/repostore/util/MultiPartDownloader.kt:319 | the header starts with "bytes=" |
| MultiPart.RangeHeaderRoundTrip | app/src/main/java/com/samyak/repostore/util/MultiPartDownloader.kt:319 | after "bytes=", the text before the first '-' parses back as the range's first byte and the text after it as its last byte |
| MultiPart.EmptyChunkHeader | app/src/main/java/com/samyak/repostore/util/MultiPartDownloader.kt:319 | an empty chunk is requested as "bytes=0--1" |
| MultiPart.Sum | app/src/main/java/com/samyak/repostore/util/MultiPartDownloader.kt:211-215 | each read delivers at least one byte |
| MultiPart.SumPrefixBounded | app/src/main/java/com/samyak/repostore/util/MultiPartDownloader.kt:211-215 | a prefix of the reads delivers no more than all of them |
| MultiPart.RunningTotals | app/src/main/java/com/samyak/repostore/util/MultiPartDownloader.kt:215 | one running total per read, each the previous plus that read, strictly increasing, the last equal to the total of all reads |
| MultiPart.ReadStates | app/src/main/java/com/samyak/repostore/util/MultiPartDownloader.kt:211-234 | one Downloading state per read, with the body's total, a percentage in 0..100 and strictly increasing byte counts |
| MultiPart.WrittenReads | app/src/main/java/com/samyak/repostore/util/MultiPartDownloader.kt:211-214 | the cancel flag cuts the reads short exactly when it is seen before the last one is written, and the count is the reads written before it |
| MultiPart.BodyStates | app/src/main/java/com/samyak/repostore/util/MultiPartDownloader.kt:204-241 | a run of Downloading states with increasing byte counts, then one terminal state; a Completed state names the file |
| MultiPart.BodyStatesEnd | app/src/main/java/com/samyak/repostore/util/MultiPartDownloader.kt:108-117 | the body ends Idle exactly when cancelled before its last read, after one state per read written; it ends Completed exactly when no read fails and no cancel intervenes, after one state per read, the last showing every byte |
| MultiPart.ThenStop | app/src/main/java/com/samyak/repostore/util/MultiPartDownloader.kt:239-241 | the shown states, in order, followed by the final state |
| MultiPart.SinglePart | app/src/main/java/com/samyak/repostore/util/MultiPartDownloader.kt:186-242 | an exception gives its Error state; a non-2xx reply gives "HTTP code: message"; an empty 2xx reply completes at once; otherwise the body's states |
| MultiPart.CompletedDownloadShows100 | app/src/main/java/com/samyak/repostore/util/MultiPartDownloader.kt:218-241 | a body that delivers exactly its announced length shows 100% just before Completed |
| MultiPart.BodyBytes | app/src/main/java/com/samyak/repostore/util/MultiPartDownloader.kt:329-343 | a body delivers no negative byte count |
| MultiPart.ThrottledStates | app/src/main/java/com/samyak/repostore/util/MultiPartDownloader.kt:283-293 | a read never exceeds the 8192-byte buffer, so the throttle of ten buffers never lets a Downloading state through |
| MultiPart.ChunkFailsOnNon2xx | app/src/main/java/com/samyak/repostore/util/MultiPartDownloader.kt:325-327 | a chunk fails exactly on a status outside 200..299, since 206 is itself a 2xx status |
| MultiPart.ChunkWrites | app/src/main/java/com/samyak/repostore/util/MultiPartDownloader.kt:331-342 | a chunk writes its reads back to back from its range's start |
| MultiPart.ChunkBody | app/src/main/java/com/samyak/repostore/util/MultiPartDownloader.kt:329-347 | a chunk's writes are back to back from its range's start, one per read written, and it shows no state; it stops Idle exactly when the cancel is seen before its last read, after the reads written before the cancel; once every read is written a read failure stops it with that exception's Error state; it never stops with Completed |
| MultiPart.RunChunk | app/src/main/java/com/samyak/repostore/util/MultiPartDownloader.kt:310-349 | a chunk that fails with a status outside 2xx stops with "Chunk i failed: HTTP code"; an exception stops with its Error state; otherwise its body is read; it finishes exactly when answered 2xx with no failed read and no cancel seen, having written every read, and stops Idle exactly when answered 2xx and the cancel is seen |
| MultiPart.RunChunks | app/src/main/java/com/samyak/repostore/util/MultiPartDownloader.kt:274-299 | chunks run in order; every write lies in its chunk's range; running to the end means every chunk got a 2xx reply |
| MultiPart.RunChunksOutcome | app/src/main/java/com/samyak/repostore/util/MultiPartDownloader.kt:274-299 | the run gets to the end exactly when every chunk from the first one run finishes, having written every read; it stops Idle exactly when the cancel is seen in a chunk all of whose predecessors finished |
| MultiPart.PassOutcome | app/src/main/java/com/samyak/repostore/util/MultiPartDownloader.kt:274-299 | a chunk that finishes adds its writes in front of the next chunks' run and leaves how that run ends unchanged |
| MultiPart.StoppingStep | app/src/main/java/com/samyak/repostore/util/MultiPartDownloader.kt:325-338 | a chunk that stops the download keeps the run from the end, and the run is cancelled exactly when that chunk saw the cancel |
| MultiPart.PassesFromStart | app/src/main/java/com/samyak/repostore/util/MultiPartDownloader.kt:274-299 | from the first chunk, every chunk finishes exactly when every reply is 2xx with no failed read and the cancel, if any, comes after every read |
| MultiPart.CancelledFirstFromStart | app/src/main/java/com/samyak/repostore/util/MultiPartDownloader.kt:274-299 | from the first chunk, the run is cancelled exactly when the cancel falls within the reads of a 2xx chunk all of whose predecessors finished |
| MultiPart.ChunkReplies | app/src/main/java/com/samyak/repostore/util/MultiPartDownloader.kt:317-320 | the reply to each chunk's range request, in plan order |
| MultiPart.MultiPartRun | app/src/main/java/com/samyak/repostore/util/MultiPartDownloader.kt:247-305 | the multi-part path shows exactly one terminal state; Completed names the file and holds exactly when every chunk reply is 2xx with no failed read and no cancel before the last read, after writing every read; Idle exactly when the cancel falls within the reads of a 2xx chunk all of whose predecessors finished; every write lies in its chunk's range |
| MultiPart.ChunkWritesDisjoint | app/src/main/java/com/samyak/repostore/util/MultiPartDownloader.kt:259-343 | when each chunk delivers exactly its range, writes of different chunks fall in disjoint regions inside the file |
| MultiPart.ThreadCount | app/src/main/java/com/samyak/repostore/util/MultiPartDownloader.kt:92-96 | the configured thread count when ranges work and multi-part is on, one thread otherwise; never more than 32 |
| MultiPart.MultiPartWhen | app/src/main/java/com/samyak/repostore/util/MultiPartDownloader.kt:100-106 | the download is split exactly when ranges work, multi-part is on and at least two threads are configured |
| MultiPart.Transfer | app/src/main/java/com/samyak/repostore/util/MultiPartDownloader.kt:88-106 | a run of Downloading states, then one terminal state; the split path is the multi-part run with the probed size and the configured thread count; the single path is SinglePart on the transformed URL |
| MultiPart.Download | app/src/main/java/com/samyak/repostore/util/MultiPartDownloader.kt:60-119 | a failed probe shows "Failed to get file info"; otherwise the transfer of the transformed URL with the probed size and range support |
| MultiPart.DownloadRequestsOnlyTransformedUrl | app/src/main/java/com/samyak/repostore/util/MultiPartDownloader.kt:69 | only the transformed URL is ever requested: servers that agree on it give the same states |
| MultiPart.ProbeRequestsOnlyUrl | app/src/main/java/com/samyak/repostore/util/MultiPartDownloader.kt:125-181 | the probe requests only the URL it is given |
| MultiPart.TransferRequestsOnlyUrl | app/src/main/java/com/samyak/repostore/util/MultiPartDownloader.kt:100-106 | the transfer requests only the URL it is given |
| Installer.Cleanup | app/src/main/java/com/samyak/repostore/util/AppInstaller.kt:474-480 | after cleanup no download is running, no callback or download id is kept, and neither the receiver nor the progress tick is active |
| Installer.Tenths | app/src/main/java/com/samyak/repostore/util/AppInstaller.kt:511-518 | the size in tenths of the unit, rounded half up: within half a tenth of the exact quotient |
| Installer.OneDecimal | app/src/main/java/com/samyak/repostore/util/AppInstaller.kt:513-515 | digits, a '.', and one digit, reading back as the number of tenths |
| Installer.FormatSize | app/src/main/java/com/samyak/repostore/util/AppInstaller.kt:511-518 | below 1024 the byte count and " B"; then KB, MB, GB with one decimal, each unit chosen by the thresholds 1024, 1048576 and 1073741824 |
| Installer.FormatSizeUnit | app/src/main/java/com/samyak/repostore/util/AppInstaller.kt:511-518 | the unit suffix of the text identifies exactly which size band the value lies in |
| Installer.SmallSizeReadsBack | app/src/main/java/com/samyak/repostore/util/AppInstaller.kt:516 | a size below 1 KB is shown as its exact byte count, which parses back to the same number |
| Installer.TotalText | app/src/main/java/com/samyak/repostore/util/AppInstaller.kt:130 | the formatted total when it is known (positive), "..." otherwise |
| Installer.StartingIsZeroBytes | app/src/main/java/com/samyak/repostore/util/AppInstaller.kt:163-166 | the state posted when a download starts is what progress at zero of an unknown total would show |
| Installer.Download | app/src/main/java/com/samyak/repostore/util/AppInstaller.kt:78-108 | while a download runs, the new caller gets only "Download already in progress" and nothing changes; otherwise the callback is stored and the multi-part downloader is used exactly when multi-part or the proxy is on; the download manager gets the transformed URL; a failed enqueue reopens the gate and reports the exception's message or "Download failed" |
| Installer.Cancel | app/src/main/java/com/samyak/repostore/util/AppInstaller.kt:459-472 | cancel removes the download-manager row exactly when one is recorded, cleans up, and posts Idle to the callback stored before cleanup, if there was one |
| Installer.OnDownloaderState | app/src/main/java/com/samyak/repostore/util/AppInstaller.kt:120-153 | Idle maps to Idle; Downloading to formatted progress; Completed to Installing then Success or "Failed to start installation"; Error to its message; only Completed and Error clean up |
| Installer.OnDownloaderStates | app/src/main/java/com/samyak/repostore/util/AppInstaller.kt:120-153 | every state of the run reaches the same callback, at least one delivery per state |
| Installer.FinishedRunOpensGate | app/src/main/java/com/samyak/repostore/util/AppInstaller.kt:137-150 | a run that ends in Completed or Error leaves the installer free for a new download |
| Installer.ProgressRunKeepsGate | app/src/main/java/com/samyak/repostore/util/AppInstaller.kt:128-136 | progress states leave the installer's fields alone and deliver exactly one state each |
| Installer.CancelledMultiPartStillReportsSuccess | app/src/main/java/com/samyak/repostore/util/AppInstaller.kt:120-153 | cancel does not stop a multi-part download's callback: after Idle, a late Completed still reports Installing and Success |
| Installer.GetErrorMessage | app/src/main/java/com/samyak/repostore/util/AppInstaller.kt:520-531 | the eight known reasons have their own messages; every other reason gives "Download failed" |
| Installer.ErrorMessagesDistinct | app/src/main/java/com/samyak/repostore/util/AppInstaller.kt:520-531 | distinct known reasons give distinct messages |
| Installer.CheckDownloadStatus | app/src/main/java/com/samyak/repostore/util/AppInstaller.kt:249-321 | nothing happens unless the row is successful or failed, or the query throws; success gives Installing, then Success exactly when the file is found (by URI or path) and installation starts; when neither the URI nor the path finds the file the second report is the file-not-found error, and when the file is found but installation does not start it is the install-failed error; failure gives the reason's message; a thrown query gives "Status check failed: message"; anything reported cleans up |
| Installer.OnDownloadComplete | app/src/main/java/com/samyak/repostore/util/AppInstaller.kt:218-230 | a broadcast for another id, or with no receiver registered, changes nothing; the current id stops progress tracking and checks the status |
| Installer.ProgressTick | app/src/main/java/com/samyak/repostore/util/AppInstaller.kt:323-372 | a tick reports, and keeps ticking, exactly while a download-manager download runs and its row is running or pending; the progress lies in 0..100, is 0 with "..." when the total is unknown, and with a known total is the download manager's percentage (Long product, truncating division, Int cast, clamped) shown against the formatted total; the byte count is formatted |
| Installer.TransitionsKeepConsistent | app/src/main/java/com/samyak/repostore/util/AppInstaller.kt:78-480 | every transition keeps the installer's fields consistent: a recorded download id means a download is running with a callback, and the receiver and progress tick run only for a recorded id |
| Installer.FailedEnqueueKeepsCallback | app/src/main/java/com/samyak/repostore/util/AppInstaller.kt:209-215 | a failed enqueue reopens the gate but keeps the callback, so a later cancel still posts Idle to it |
| Installer.KeepLowerAlnum | app/src/main/java/com/samyak/repostore/util/AppInstaller.kt:625-626 | exactly the lower-case letters and digits of the name, in their order (the name filtered on them); a name made only of them is unchanged |
| Installer.MatchesFrom | app/src/main/java/com/samyak/repostore/util/AppInstaller.kt:639-643 | true exactly when some pattern of length at least 3 occurs in the lower-cased package name |
| Installer.FirstPackage | app/src/main/java/com/samyak/repostore/util/AppInstaller.kt:637-644 | the first installed package that matches, or the end of the list |
| Installer.FindPackage | app/src/main/java/com/samyak/repostore/util/AppInstaller.kt:613-647 | none exactly when no installed package matches a search pattern; otherwise the first installed package that does, in the order given |
| Installer.EmptyRepoMatchesAnyComPackage | app/src/main/java/com/samyak/repostore/util/AppInstaller.kt:629-640 | a repository name with no letters or digits leaves the pattern "com." which matches any package containing "com." |
| Installer.ShortRepoNotSearchedAlone | app/src/main/java/com/samyak/repostore/util/AppInstaller.kt:634-640 | a repository name shorter than three characters after normalising is never searched on its own; a match comes from one of the prefixed patterns |
| Repository.AnyEndsWith | app/src/main/java/com/samyak/repostore/data/repository/GitHubRepository.kt:47-49 | true exactly when the text ends with one of the suffixes |
| Repository.AnyInstallable | app/src/main/java/com/samyak/repostore/data/repository/GitHubRepository.kt:46-50 | true exactly when some asset's lower-cased name ends in ".apk" or ".aab" |
| Repository.HasInstallableAsset | app/src/main/java/com/samyak/repostore/data/repository/GitHubRepository.kt:44-51 | false for a missing release; otherwise true exactly when some asset is installable |
| Repository.SelectedApkIsInstallable | app/src/main/java/com/samyak/repostore/data/repository/GitHubRepository.kt:44-51 | a release the APK selector can choose from counts as installable |
| Repository.BundleOnlyReleaseHasNoApk | app/src/main/java/com/samyak/repostore/data/repository/GitHubRepository.kt:39 | a release of ".aab" bundles only is listed as installable, yet the APK selector finds nothing in it |
| Repository.RepoHasApk | app/src/main/java/com/samyak/repostore/data/repository/GitHubRepository.kt:56-74 | a decided repository answers from the cache and changes nothing; otherwise the answer is whether the fetched release is installable (false on failure) and is remembered, together with the release when true; other repositories' entries are untouched |
| Repository.RepoHasApkMemoised | app/src/main/java/com/samyak/repostore/data/repository/GitHubRepository.kt:57-60 | a second check of the same repository answers the same and changes no cache, whatever the server does |
| Repository.Listed | app/src/main/java/com/samyak/repostore/data/repository/GitHubRepository.kt:79-97 | the reference listing: only repositories whose APK flag is set, each as its item, and every flagged repository appears |
| Repository.FilterReposWithApk | app/src/main/java/com/samyak/repostore/data/repository/GitHubRepository.kt:79-97 | every repository ends up decided in the APK cache, decided entries are never changed, and the screenshot cache is untouched |
| Repository.SettledItem | app/src/main/java/com/samyak/repostore/data/repository/GitHubRepository.kt:83-87 | once a repository is decided, later cache updates do not change its flag or its item |
| Repository.FilterListsFlaggedRepos | app/src/main/java/com/samyak/repostore/data/repository/GitHubRepository.kt:79-97 | the filtered list is exactly the flagged repositories in their original order, each with its cached release and tag |
| Repository.FreshRepoListedIffInstallable | app/src/main/java/com/samyak/repostore/data/repository/GitHubRepository.kt:79-97 | an undecided repository is listed exactly when its release is fetched and is installable |
| Repository.DetermineTag | app/src/main/java/com/samyak/repostore/data/repository/GitHubRepository.kt:374-400 | ARCHIVED exactly for archived repositories; NEW exactly for other repositories created at most 30 days ago; UPDATED only for a release published at most 7 days ago; no tag exactly when none of these holds (unparseable dates count as absent) |
| Repository.NewOutranksUpdated | app/src/main/java/com/samyak/repostore/data/repository/GitHubRepository.kt:384-396 | a repository created within the last week is NEW, never UPDATED |
| Repository.HttpErrorMessage | app/src/main/java/com/samyak/repostore/data/repository/GitHubRepository.kt:363-372 | codes other than 429, 403, 404, 500, 502 and 503 give a message starting "Network error: " |
| Repository.HandleHttpException | app/src/main/java/com/samyak/repostore/data/repository/GitHubRepository.kt:363-372 | always a failure carrying the worded message |
| Repository.HttpErrorMessageDistinguishes | app/src/main/java/com/samyak/repostore/data/repository/GitHubRepository.kt:364-370 | equal messages come from the same kind of error, and network errors with equal messages had equal status texts |
| Repository.NotNetworkErrorMessage | app/src/main/java/com/samyak/repostore/data/repository/GitHubRepository.kt:364-370 | the message starts "Network error: " exactly for the codes without their own wording |
| Repository.GetLatestRelease | app/src/main/java/com/samyak/repostore/data/repository/GitHubRepository.kt:204-223 | a cached release is returned with no change; otherwise a fetched release is returned and cached; a 404 caches "not found"; other HTTP errors are worded; other exceptions fail with their message and change nothing; no other key changes |
| Repository.LatestReleaseMemoised | app/src/main/java/com/samyak/repostore/data/repository/GitHubRepository.kt:208-210 | after a successful lookup, the next lookup returns the same release from the cache whatever the server does |
| Repository.NotFoundIsRetried | app/src/main/java/com/samyak/repostore/data/repository/GitHubRepository.kt:208-218 | a cached "not found" does not count as a hit: the next lookup asks the server again |
| Repository.ApkCheckPrimesReleaseCache | app/src/main/java/com/samyak/repostore/data/repository/GitHubRepository.kt:66-68 | after the APK check finds an installable release, the release lookup returns that release without fetching |
| Repository.TrimLeadingSlashes | app/src/main/java/com/samyak/repostore/data/repository/GitHubRepository.kt:350 | what remains after dropping the leading slashes: a suffix of the input, starting with something other than '/' |
| Repository.RawBase | app/src/main/java/com/samyak/repostore/data/repository/GitHubRepository.kt:350 | the raw-content base starts with "https://raw.githubusercontent.com/" |
| Repository.ResolveImageUrl | app/src/main/java/com/samyak/repostore/data/repository/GitHubRepository.kt:346-352 | a URL starting with "http" is kept; any other is resolved against the raw-content host, its leading slashes dropped |
| Repository.LeadingSlashIgnored | app/src/main/java/com/samyak/repostore/data/repository/GitHubRepository.kt:350 | a relative URL resolves the same with or without a leading slash |
| Repository.TrimKeepsExtension | app/src/main/java/com/samyak/repostore/data/repository/GitHubRepository.kt:344-350 | dropping leading slashes keeps an image extension that was present |
| Repository.RelativeKeepsExtension | app/src/main/java/com/samyak/repostore/data/repository/GitHubRepository.kt:343-352 | resolving a relative URL keeps its image extension |
| Repository.ResolvedStartsWithHttp | app/src/main/java/com/samyak/repostore/data/repository/GitHubRepository.kt:346-352 | every resolved URL starts with "http" |
| Repository.ResolvedImageUrl | app/src/main/java/com/samyak/repostore/data/repository/GitHubRepository.kt:343-352 | an image URL stays an image URL starting with "http" after resolution |
| Repository.ImageLinks | app/src/main/java/com/samyak/repostore/data/repository/GitHubRepository.kt:342-345 | the links that contain an image extension (ignoring case), and all of them |
| Repository.ImageLinksIsFilter | app/src/main/java/com/samyak/repostore/data/repository/GitHubRepository.kt:342-345 | the image links are the README links filtered on an image extension, in document order |
| Repository.ResolveAll | app/src/main/java/com/samyak/repostore/data/repository/GitHubRepository.kt:346-352 | each link resolved, in order |
| Repository.ReadmeImages | app/src/main/java/com/samyak/repostore/data/repository/GitHubRepository.kt:331-357 | the first five image links of the README (all of them when fewer), in order, each resolved; each starts with "http" and still names an image |
| Repository.ImageFileUrls | app/src/main/java/com/samyak/repostore/data/repository/GitHubRepository.kt:321-325 | one URL per listing entry that is an image file with a download URL, in listing order, each that entry's download URL |
| Repository.ImageUrlsMembers | app/src/main/java/com/samyak/repostore/data/repository/GitHubRepository.kt:321-325 | every URL listed comes from an entry, and every image entry's download URL is listed |
| Repository.FolderImages | app/src/main/java/com/samyak/repostore/data/repository/GitHubRepository.kt:318-329 | the first four image-file URLs of the folder listing (all of them when fewer), in order; nothing when the listing fails |
| Repository.NamesFolder | app/src/main/java/com/samyak/repostore/data/repository/GitHubRepository.kt:294-296 | true exactly when the name equals a screenshot folder name, ignoring case |
| Repository.FirstFolderIndex | app/src/main/java/com/samyak/repostore/data/repository/GitHubRepository.kt:293-297 | the first root entry that is a directory named like a screenshot folder |
| Repository.CollectScreenshots | app/src/main/java/com/samyak/repostore/data/repository/GitHubRepository.kt:282-306 | README images when there are any; otherwise the first screenshot folder's images; nothing when the root listing fails or has no such folder |
| Repository.GetScreenshots | app/src/main/java/com/samyak/repostore/data/repository/GitHubRepository.kt:274-316 | a cached list is returned unchanged; otherwise exactly the collected images without duplicates, at most 8, in order of first collection, cached under the repository's key |
| Repository.ScreenshotCapNeverBinds | app/src/main/java/com/samyak/repostore/data/repository/GitHubRepository.kt:308 | at most 5 images are ever collected, so the cap of 8 never removes one |
| Repository.ScreenshotsMemoised | app/src/main/java/com/samyak/repostore/data/repository/GitHubRepository.kt:277-279 | the second lookup returns the cached list whatever the README and folders hold by then |
| Repository.ReadmeImagesTakePrecedence | app/src/main/java/com/samyak/repostore/data/repository/GitHubRepository.kt:289-290 | with README images present, the repository's folders are never consulted |
| HttpClient.AuthToken | app/src/main/java/com/samyak/repostore/data/api/RetrofitClient.kt:38-48 | the OAuth token when a context is set and the token is not blank; the manual token otherwise |
| HttpClient.AddedHeaders | app/src/main/java/com/samyak/repostore/data/api/RetrofitClient.kt:62-73 | Accept and User-Agent always come first; a third header, "Authorization: Bearer token", is added exactly when the host is api.github.com or ends in ".github.com" and the token is not blank |
| HttpClient.InterceptHeaders | app/src/main/java/com/samyak/repostore/data/api/RetrofitClient.kt:60-76 | the request's own headers are kept in front, followed by the added ones |
| HttpClient.ContentHostsGetNoToken | app/src/main/java/com/samyak/repostore/data/api/RetrofitClient.kt:66-68 | a githubusercontent.com host never receives the token |
| HttpClient.OAuthTokenSentFirst | app/src/main/java/com/samyak/repostore/data/api/RetrofitClient.kt:40-44 | a non-blank OAuth token is the one sent, whatever the manual token is |
| HttpClient.BlankTokensSendNothing | app/src/main/java/com/samyak/repostore/data/api/RetrofitClient.kt:38-73 | with a blank manual token, nothing is sent exactly when there is no context, the OAuth token is blank, or the host is not GitHub's |
| HttpClient.RetryWait | app/src/main/java/com/samyak/repostore/data/api/RetrofitClient.kt:111-114 | the wait never exceeds 5000 ms; without a Retry-After header it is 2000 ms per retry so far, capped at 5000 |
| HttpClient.RetryOnTooMany | app/src/main/java/com/samyak/repostore/data/api/RetrofitClient.kt:101-118 | at most four calls; every call but the last answered 429 and was followed by its wait; the result is the last reply, which is 429 only after three retries; a negative wait ends the call with the sleep's exception, whose message names that wait |
| HttpClient.NegativeSleep | app/src/main/java/com/samyak/repostore/data/api/RetrofitClient.kt:114 | the message of the exception a negative sleep throws is "millis < 0: " followed by the duration, which parses back |
| HttpClient.DefaultBackoff | app/src/main/java/com/samyak/repostore/data/api/RetrofitClient.kt:111-114 | without Retry-After the waits are 2000, 4000 and 5000 ms |
| HttpClient.RetryAfterIsMilliseconds | app/src/main/java/com/samyak/repostore/data/api/RetrofitClient.kt:111-114 | a Retry-After of n below 5000 waits n milliseconds, although the header counts seconds |
| HttpClient.NegativeRetryAfterThrows | app/src/main/java/com/samyak/repostore/data/api/RetrofitClient.kt:111-114 | a negative Retry-After gives a negative wait, so the sleep throws |
| DetailScreen.AssetOf | app/src/main/java/com/samyak/repostore/ui/activity/DetailActivity.kt:391-412 | no asset exactly for NoApkFound; otherwise the selected asset |
| DetailScreen.OfferedAssetIsReleaseApk | app/src/main/java/com/samyak/repostore/ui/activity/DetailActivity.kt:391-412 | an asset is offered exactly when the release has an APK, and it is one of the release's APKs |
| DetailScreen.InstallOffer | app/src/main/java/com/samyak/repostore/ui/activity/DetailActivity.kt:507-548 | Install exactly when no installed package is found or it is not installed; Update exactly when it is installed, both versions are known and the release is newer; Open otherwise; Update and Open name the package found |
| DetailScreen.ReleaseOffer | app/src/main/java/com/samyak/repostore/ui/activity/DetailActivity.kt:414-428 | no release offers the repository page; a release without an APK offers the release page; otherwise the installed-state offer for the selected asset |
| DetailScreen.CheckInstalledState | app/src/main/java/com/samyak/repostore/ui/activity/DetailActivity.kt:501-505 | the button is set up again exactly when there is an asset and the repository name is not empty |
| DetailScreen.OnInstallState | app/src/main/java/com/samyak/repostore/ui/activity/DetailActivity.kt:473-496 | Downloading disables the button and shows "p% (done/total)"; Idle and Error re-enable it as Install; Installing changes only the caption; Success only re-enables it |
| DetailScreen.EnabledAfterFinish | app/src/main/java/com/samyak/repostore/ui/activity/DetailActivity.kt:475-495 | after a run of states ending in Idle, Success or Error the button is enabled |
| DetailScreen.DisabledWhileWorking | app/src/main/java/com/samyak/repostore/ui/activity/DetailActivity.kt:463-485 | from a click, the button stays disabled while only Downloading and Installing states arrive |
| DetailScreen.DisabledFrom | app/src/main/java/com/samyak/repostore/ui/activity/DetailActivity.kt:479-485 | a disabled button stays disabled through Downloading and Installing states |
| Favorites.Add | app/src/main/java/com/samyak/repostore/data/db/FavoriteAppDao.kt:22-23 | insert-or-replace: the row is stored under its id, every other row is unchanged, and the count grows by one exactly when the id was new |
| Favorites.Remove | app/src/main/java/com/samyak/repostore/data/db/FavoriteAppDao.kt:25-26 | the id is gone, every other row is unchanged, and the count drops by one exactly when the id was there |
| Favorites.AllFavorites | app/src/main/java/com/samyak/repostore/data/db/FavoriteAppDao.kt:13-14 | every row exactly once (as many as the count), each the row stored under its id, ordered by addedAt descending |
| Favorites.Toggle | app/src/main/java/com/samyak/repostore/ui/activity/DetailActivity.kt:284-295 | the favourite state of the repository flips and no other row changes |
| Favorites.ToggleTwice | app/src/main/java/com/samyak/repostore/ui/activity/DetailActivity.kt:284-295 | toggling twice restores membership and the count and leaves other rows alone; a removed-then-added row carries the new time stamp |
| Favorites.AddIdempotent | app/src/main/java/com/samyak/repostore/data/db/FavoriteAppDao.kt:22-23 | adding the same row twice is the same as adding it once |
| Favorites.RemoveUndoesAdd | app/src/main/java/com/samyak/repostore/data/db/FavoriteAppDao.kt:22-26 | removing a row just added restores a table that did not hold its id |
| Favorites.NewestFirstIsPreorder | app/src/main/java/com/samyak/repostore/data/db/FavoriteAppDao.kt:13 | "added no later" is a total preorder, so the listing order is well defined up to ties |
| Models.FavoriteFromRepo | app/src/main/java/com/samyak/repostore/data/model/FavoriteApp.kt:26-37 | the favourite row carries the repository's id and name and the current time |
| Models.ByStarsIsPreorder | app/src/main/java/com/samyak/repostore/ui/fragment/HomeFragment.kt:297 | "at least as many stars" is a total preorder |
| Models.ByUpdatedAtIsPreorder | app/src/main/java/com/samyak/repostore/ui/fragment/HomeFragment.kt:313 | "updated no earlier", comparing timestamps as strings, is a total preorder |
| MyApps.AnyMatches | app/src/main/java/com/samyak/repostore/ui/viewmodel/MyAppsViewModel.kt:52-56 | true exactly when some installed application matches the name |
| MyApps.IsAppInstalled | app/src/main/java/com/samyak/repostore/ui/viewmodel/MyAppsViewModel.kt:48-60 | true exactly when the package list can be read and some application's label equals the name or its package name contains it, ignoring case |
| MyApps.Present | app/src/main/java/com/samyak/repostore/ui/viewmodel/MyAppsViewModel.kt:29-41 | never Loading; Empty exactly when no favourite looks installed; otherwise exactly the favourites that look installed, each from the favourites |
| MyApps.PresentKeepsOrder | app/src/main/java/com/samyak/repostore/ui/viewmodel/MyAppsViewModel.kt:32-34 | the listing keeps the favourites' newest-first order |
| MyApps.AllInstalledListsAll | app/src/main/java/com/samyak/repostore/ui/viewmodel/MyAppsViewModel.kt:32-39 | when every favourite looks installed, all are listed in order |
| MyApps.EmptyNameLooksInstalled | app/src/main/java/com/samyak/repostore/ui/viewmodel/MyAppsViewModel.kt:55 | an empty name counts as installed as soon as any application is installed |
| MyApps.UnreadablePackagesShowNothing | app/src/main/java/com/samyak/repostore/ui/viewmodel/MyAppsViewModel.kt:57-59 | when the package list cannot be read, the screen shows Empty |
| TokenScreen.SetGitHubToken | app/src/main/java/com/samyak/repostore/RepoStoreApp.kt:37-46 | a missing or blank token clears the store; any other token is stored as given |
| TokenScreen.Apply | app/src/main/java/com/samyak/repostore/ui/activity/GitHubTokenActivity.kt:46-62 | Save stores the trimmed text, or clears the store when the trim is empty; Clear clears it; a stored token never starts or ends with whitespace |
| TokenScreen.Mask | app/src/main/java/com/samyak/repostore/ui/activity/GitHubTokenActivity.kt:74 | twelve characters: the first four, "****", the last four |
| TokenScreen.Display | app/src/main/java/com/samyak/repostore/ui/activity/GitHubTokenActivity.kt:70-77 | the mask of the stored token exactly when one is stored and longer than eight characters; nothing otherwise |
| TokenScreen.MaskIsFixed | app/src/main/java/com/samyak/repostore/ui/activity/GitHubTokenActivity.kt:74 | masking a mask changes nothing |
| TokenScreen.SavingMaskStoresMask | app/src/main/java/com/samyak/repostore/ui/activity/GitHubTokenActivity.kt:46-77 | pressing Save on the displayed text stores the mask itself, which replaces the real token unless the token already had twelve characters |
| Sections.UpdateSections | app/src/main/java/com/samyak/repostore/ui/fragment/HomeFragment.kt:293-315 | nothing for an empty list; otherwise min(5, n) featured, (n > 5 ? min(10, n-3) : n) trending and min(10, n) updated apps, each drawn from the list and each in its order |
| Sections.FallbacksNeverFire | app/src/main/java/com/samyak/repostore/ui/fragment/HomeFragment.kt:310-314 | for a non-empty list neither ifEmpty fallback is used |
| Sections.SectionsAreSubMultisets | app/src/main/java/com/samyak/repostore/ui/fragment/HomeFragment.kt:297-313 | every row is drawn from the list without repeating an app more often than it occurs |
| Sections.SectionsAreSorted | app/src/main/java/com/samyak/repostore/ui/fragment/HomeFragment.kt:297-313 | the featured and trending rows are in star order and the updated row in update order |
| Sections.FeaturedAreTopStarred | app/src/main/java/com/samyak/repostore/ui/fragment/HomeFragment.kt:297-300 | no app left out of the featured carousel has more stars than one in it |
| Sections.UpdatedAreMostRecent | app/src/main/java/com/samyak/repostore/ui/fragment/HomeFragment.kt:313 | no app left out of the updated row was updated later than one in it |
| Sections.SkippedTopApps | app/src/main/java/com/samyak/repostore/ui/fragment/HomeFragment.kt:304-308 | the apps the trending row skips: three once there are more than five apps, none otherwise, drawn from the list, and no other app has more stars than one of them |
| Sections.TrendingAreTopStarredAfterSkip | app/src/main/java/com/samyak/repostore/ui/fragment/HomeFragment.kt:304-310 | the trending row avoids the skipped top apps, has no more stars than any of them, and no app outside both has more stars than one in the row |
| Sections.TrendingOverlapsFeatured | app/src/main/java/com/samyak/repostore/ui/fragment/HomeFragment.kt:304-310 | with more than five apps the trending row begins with the fourth and fifth featured apps; with five or fewer it repeats the featured apps exactly |
| Sections.RowsOverlap | app/src/main/java/com/samyak/repostore/ui/fragment/GameFragment.kt:263-273 | the games screen slices the same way: popular begins with featured apps four and five, or equals featured |
| AppList.FindCategory | app/src/main/java/com/samyak/repostore/ui/viewmodel/AppListViewModel.kt:36-38 | the category whose enum name is the given name; none exactly when no category has it |
| AppList.GetQuery | app/src/main/java/com/samyak/repostore/ui/viewmodel/AppListViewModel.kt:44-56 | "android game" for the games category; the category's first query for any other known category; "android app" when there is no category or its name is unknown |
| AppList.SortFor | app/src/main/java/com/samyak/repostore/ui/viewmodel/AppListViewModel.kt:79-84 | the page's apps, reordered |
| AppList.SortForSorted | app/src/main/java/com/samyak/repostore/ui/viewmodel/AppListViewModel.kt:79-84 | UPDATED lists are in update order, all other lists in star order |
| AppList.LoadApps | app/src/main/java/com/samyak/repostore/ui/viewmodel/AppListViewModel.kt:58-72 | a refresh resets to page 1 with nothing loaded; the current page is requested; the screen shows Loading exactly when nothing is loaded, and LoadingMore with the list otherwise |
| AppList.LoadAppsDone | app/src/main/java/com/samyak/repostore/ui/viewmodel/AppListViewModel.kt:77-106 | a result for page 1 or a refresh replaces the list, any other is appended; Empty exactly on success with nothing loaded; Error exactly on failure with nothing loaded, with the failure's message or "Failed to load apps"; otherwise the list is shown |
| AppList.LoadMore | app/src/main/java/com/samyak/repostore/ui/viewmodel/AppListViewModel.kt:110-118 | ignored exactly while a page is on its way or the first load shows its spinner; otherwise the next page is requested and LoadingMore shows the list |
| AppList.LoadMoreDone | app/src/main/java/com/samyak/repostore/ui/viewmodel/AppListViewModel.kt:123-138 | on success the page is appended after the kept list; on failure the list is kept; either way the list is shown and the page stays advanced |
| AppList.InitialState | app/src/main/java/com/samyak/repostore/ui/viewmodel/AppListViewModel.kt:28-42 | the first request asks for page 1 from a consistent state |
| AppList.StepConsistent | app/src/main/java/com/samyak/repostore/ui/viewmodel/AppListViewModel.kt:58-140 | every request and completion keeps the published state matching the list behind it |
| AppList.RunConsistent | app/src/main/java/com/samyak/repostore/ui/viewmodel/AppListViewModel.kt:58-140 | in any order of requests and completions, the screen shows only the list it holds |
| AppList.LoadedOnlyGrows | app/src/main/java/com/samyak/repostore/ui/viewmodel/AppListViewModel.kt:110-140 | past page 1, load-more requests and completions never lose a loaded app or lower the page |
| AppList.FailedLoadMoreSkipsPage | app/src/main/java/com/samyak/repostore/ui/viewmodel/AppListViewModel.kt:115-138 | after a failed load-more, the next one asks for the page after the one that failed |
| Sorting.SortBy | app/src/main/java/com/samyak/repostore/ui/fragment/HomeFragment.kt:297 | the same apps, reordered |
| Sorting.SortBySorted | app/src/main/java/com/samyak/repostore/ui/fragment/HomeFragment.kt:297 | for a total preorder, the result is in that order |
| Sorting.InsertBy | app/src/main/java/com/samyak/repostore/ui/fragment/HomeFragment.kt:297 | one more element: the inserted one |
| Sorting.InsertBySorted | app/src/main/java/com/samyak/repostore/ui/fragment/HomeFragment.kt:297 | inserting into a sorted list keeps it sorted |
| Sorting.Take | app/src/main/java/com/samyak/repostore/ui/fragment/HomeFragment.kt:300 | the first n elements, or all when there are fewer |
| Sorting.Drop | app/src/main/java/com/samyak/repostore/ui/fragment/HomeFragment.kt:306 | everything after the first n elements |
| Sorting.SortedPrefixDominates | app/src/main/java/com/samyak/repostore/ui/fragment/HomeFragment.kt:300 | in a sorted list, every element of a prefix comes before every element after it |
| Sorting.Filter | app/src/main/java/com/samyak/repostore/ui/viewmodel/MyAppsViewModel.kt:32-34 | exactly the elements that satisfy the predicate, each from the list |
| Sorting.FilterSorted | app/src/main/java/com/samyak/repostore/ui/viewmodel/MyAppsViewModel.kt:32-34 | filtering keeps a sorted list sorted |
| Sorting.FilterKeepsAll | app/src/main/java/com/samyak/repostore/ui/viewmodel/MyAppsViewModel.kt:32-34 | when every element passes, the filter returns the list unchanged |
| Sorting.Distinct | app/src/main/java/com/samyak/repostore/data/repository/GitHubRepository.kt:308 | no duplicates, the same elements as the input, ordered by where each first occurs in the input |
| Text.Trim | app/src/main/java/com/samyak/repostore/ui/activity/GitHubTokenActivity.kt:47 | a slice of the text with only whitespace cut before and after it, and no whitespace left at either end; empty exactly when the text is blank |
| Text.TrimIdempotent | app/src/main/java/com/samyak/repostore/ui/activity/GitHubTokenActivity.kt:47 | trimming twice trims nothing more |
| Text.TrimmedIsFixed | app/src/main/java/com/samyak/repostore/ui/activity/GitHubTokenActivity.kt:47 | a text with no whitespace at either end is its own trim |
| Text.Lower | app/src/main/java/com/samyak/repostore/data/repository/GitHubRepository.kt:48 | the same length, each letter lower-cased |
| Text.ParseLong | app/src/main/java/com/samyak/repostore/util/MultiPartDownloader.kt:138 | a parsed value fits a signed 64-bit integer and comes from non-empty text |
| Text.ParseLongRoundTrip | app/src/main/java/com/samyak/repostore/util/MultiPartDownloader.kt:138 | every 64-bit value parses back from its decimal text |
| Text.IntToString | app/src/main/java/com/samyak/repostore/util/MultiPartDownloader.kt:201 | non-empty, starting with '-' exactly for negative numbers |
| Text.SubstringAfter | app/src/main/java/com/samyak/repostore/util/MultiPartDownloader.kt:168 | the text after the first delimiter, or the whole text when there is none |
| Text.LexLeTotal | app/src/main/java/com/samyak/repostore/ui/fragment/HomeFragment.kt:313 | string order is total |
| Text.LexLeTrans | app/src/main/java/com/samyak/repostore/ui/fragment/HomeFragment.kt:313 | string order is transitive |
| Numeric.CoerceIn | app/src/main/java/com/samyak/repostore/data/prefs/DownloadPreferences.kt:91 | the value clamped into the range, and unchanged inside it |
| Numeric.ToInt32 | app/src/main/java/com/samyak/repostore/util/MultiPartDownloader.kt:219 | a 32-bit value congruent to the input modulo 2^32, and the input itself when it fits |
| Numeric.ToLong | app/src/main/java/com/samyak/repostore/util/MultiPartDownloader.kt:279 | a 64-bit value congruent to the input modulo 2^64, and the input itself when it fits |
| Numeric.TruncDiv | app/src/main/java/com/samyak/repostore/util/MultiPartDownloader.kt:260 | the quotient rounded toward zero: its magnitude is the quotient of the magnitudes, with the sign of the operands' product |

## Left out

- I/O: the network, the file system, the package manager, the clock and the device's ABI list are parameters or oracle replies. Writing files, deleting partial files and the `DownloadManager` queue are not modelled beyond the replies they give.
- Concurrency: the downloader's chunks run one after another in the model; `filterReposWithApk` checks repositories one after another; coroutine, `Handler` and executor interleavings become an arbitrary order of events (`AppList.Run`, `Installer.OnDownloaderStates`, `DetailScreen.OnInstallStates`).
- Floating point: download speed, `formatNumber` and the progress button's drawing are not modelled; `formatSize`'s `%.1f` is modelled as rounding half up to tenths with a '.' separator, whatever the device locale.
- Case mapping: `lowercase()` and `equals(ignoreCase = true)` are modelled on ASCII letters only.
- The README image extraction's regular expressions: the links they find are a parameter of `Repository.ReadmeImages`.
- `VersionComparator`: the version comparison is the parameter `isNewer`.
- `SecureTokenStorage`, `GitHubAuth` and the OAuth flow: a token store is modelled as the value it holds; encryption is not modelled.
- `RetrofitClient.refreshAuth` and `setToken`, and the OkHttp cache interceptors: they only rebuild or configure the client.
- `GitHubRepository.searchApps`, `getPopularAndroidApps`, `getAppsByCategory`, `getRepoDetails`, `getReleases`, `getReadme`, `getDeveloperRepos` with its cache, the cached-repository flows and `clearCache`: API and database calls whose only logic besides the call is the APK filtering modelled by `Repository.FilterReposWithApk`.
- Parsing ISO timestamps and the clock: the age of a release is the parameter `age`; "updated" order compares timestamp strings, as the source does.
- Layouts, view binding, toasts, `finish()` and navigation.
- `ListType.valueOf`: the list type is taken as one of the four enum values; an unknown name would throw before the view model exists.
- Sorting.SortBy: the stability of Kotlin's sort is not proved; the contracts state the same multiset and the order only.
- Favorites.AllFavorites: rows added at the same instant may come in any order, which is the database's choice.
- File-system exceptions are not modelled: creating the `RandomAccessFile` or setting its length (MultiPartDownloader.kt lines 255-258), a failing write or rename, and deleting a partial file. The outer `catch` of `download` (lines 108-117) is modelled for the exceptions the model has: a failed request or read becomes `ExceptionState`, and a seen cancel becomes `Idle`.
- The outer `catch` of `getScreenshots`: every call inside it already catches its own exceptions, so it cannot fire.
- Numeric.ToLong: `Long` overflow is modelled only where the source multiplies byte counts; other `Long` arithmetic assumes values within range.
- Installer.PackagePatterns: only the number of patterns is stated; `Installer.FindPackage` states what they match.
- Text.ParseLong: only the ASCII digits '0'..'9' are read as digits, while Kotlin's `toLongOrNull` also accepts other Unicode decimal digits (such as Arabic-Indic ones); a header or field holding those parses in the app but not in the model. The contract states the range of a parsed value and that the text is non-empty; what text parses is stated by `Text.ParseLongRoundTrip`, one direction only.
