/** `DownloadPreferences` (the mirror proxy and multi-part settings, as a record
    instead of Android shared preferences) and the proxy-URL normaliser of the
    download settings screen. */
module DownloadPrefs {

  import opened Wrappers
  import opened Text
  import opened Numeric

  const DefaultThreadCount: int := 4
  const MinThreadCount: int := 1
  const MaxThreadCount: int := 32

  const PopularProxies: seq<string> :=
    ["https://gh-proxy.com/", "https://ghproxy.net/", "https://mirror.ghproxy.com/", "https://gh.api.99988866.xyz/"]

  /** The stored settings; a key never written reads as `None`. */
  datatype Prefs = Prefs(
    mirrorProxyEnabled: bool,
    mirrorProxyUrl: Option<string>,
    multiPartEnabled: bool,
    threadCount: Option<int>)

  const EmptyPrefs: Prefs := Prefs(false, None, false, None)

  /** `getThreadCount`: the stored count (4 when none is stored), clamped to 1..32. */
  function GetThreadCount(p: Prefs): (r: int)
    ensures MinThreadCount <= r <= MaxThreadCount
    ensures p.threadCount.None? ==> r == DefaultThreadCount
    ensures p.threadCount.Some? && MinThreadCount <= p.threadCount.value <= MaxThreadCount ==> r == p.threadCount.value
  {
    CoerceIn(p.threadCount.GetOr(DefaultThreadCount), MinThreadCount, MaxThreadCount)
  }

  /** `setThreadCount`: stores the count clamped to 1..32; nothing else changes. */
  function SetThreadCount(p: Prefs, count: int): (q: Prefs)
    ensures q.threadCount.Some? && MinThreadCount <= q.threadCount.value <= MaxThreadCount
    ensures MinThreadCount <= count <= MaxThreadCount ==> q.threadCount == Some(count)
    ensures q.(threadCount := p.threadCount) == p
  {
    p.(threadCount := Some(CoerceIn(count, MinThreadCount, MaxThreadCount)))
  }

  /** Reading back a stored count gives the nearest count in range. */
  lemma GetAfterSetThreadCount(p: Prefs, count: int)
    ensures count < MinThreadCount ==> GetThreadCount(SetThreadCount(p, count)) == MinThreadCount
    ensures count > MaxThreadCount ==> GetThreadCount(SetThreadCount(p, count)) == MaxThreadCount
    ensures MinThreadCount <= count <= MaxThreadCount ==> GetThreadCount(SetThreadCount(p, count)) == count
  {
  }

  /** `setMirrorProxyUrl`: stores the trimmed URL, or nothing. */
  function SetMirrorProxyUrl(p: Prefs, url: Option<string>): (q: Prefs)
    ensures q.mirrorProxyUrl.Some? <==> url.Some?
    ensures url.Some? ==> Trim(q.mirrorProxyUrl.value) == q.mirrorProxyUrl.value
    ensures url.Some? && IsBlank(url.value) ==> q.mirrorProxyUrl == Some("")
    ensures url.Some? && !IsBlank(url.value) ==> q.mirrorProxyUrl == Some(Trim(url.value))
    ensures q.(mirrorProxyUrl := p.mirrorProxyUrl) == p
  {
    match url
    case Some(u) =>
      TrimIdempotent(u);
      p.(mirrorProxyUrl := Some(Trim(u)))
    case None => p.(mirrorProxyUrl := None)
  }

  /** The proxy prefix with a '/' appended unless it already ends with one. */
  function NormalizedProxy(proxy: string): (r: string)
    ensures EndsWith(r, "/")
    ensures StartsWith(r, proxy)
    ensures |r| <= |proxy| + 1
    ensures EndsWith(proxy, "/") <==> r == proxy
  {
    if EndsWith(proxy, "/") then proxy
    else
      var r := proxy + "/";
      assert r[..|proxy|] == proxy;
      assert r[|r| - 1..] == "/";
      r
  }

  /** The URL points at GitHub: it contains "github.com" or "githubusercontent.com". */
  predicate IsGitHubUrl(url: string) {
    Contains(url, "github.com") || Contains(url, "githubusercontent.com")
  }

  /** `transformUrl`: routes GitHub URLs through the mirror proxy when it is enabled
      and set; every other URL is returned unchanged. */
  function TransformUrl(p: Prefs, originalUrl: string): (r: string)
    ensures !p.mirrorProxyEnabled ==> r == originalUrl
    ensures IsNullOrBlank(p.mirrorProxyUrl) ==> r == originalUrl
    ensures !IsGitHubUrl(originalUrl) ==> r == originalUrl
    ensures p.mirrorProxyEnabled && !IsNullOrBlank(p.mirrorProxyUrl) && IsGitHubUrl(originalUrl) ==>
              r == NormalizedProxy(p.mirrorProxyUrl.value) + originalUrl
    ensures EndsWith(r, originalUrl)
  {
    EndsWithConcat([], originalUrl);
    assert [] + originalUrl == originalUrl;
    if !p.mirrorProxyEnabled then originalUrl
    else if IsNullOrBlank(p.mirrorProxyUrl) then originalUrl
    else if !IsGitHubUrl(originalUrl) then originalUrl
    else
      var r := NormalizedProxy(p.mirrorProxyUrl.value) + originalUrl;
      EndsWithConcat(NormalizedProxy(p.mirrorProxyUrl.value), originalUrl);
      r
  }

  /** A transformed URL still points at GitHub, so a second call prefixes the proxy
      again: `transformUrl` is not idempotent. */
  lemma TransformUrlNotIdempotent(p: Prefs, url: string)
    requires p.mirrorProxyEnabled && !IsNullOrBlank(p.mirrorProxyUrl) && IsGitHubUrl(url)
    ensures TransformUrl(p, TransformUrl(p, url))
            == NormalizedProxy(p.mirrorProxyUrl.value) + NormalizedProxy(p.mirrorProxyUrl.value) + url
    ensures TransformUrl(p, TransformUrl(p, url)) != TransformUrl(p, url)
  {
    var n := NormalizedProxy(p.mirrorProxyUrl.value);
    if Contains(url, "github.com") {
      ContainsExtend(n, url, [], "github.com");
      assert n + url + [] == n + url;
    } else {
      ContainsExtend(n, url, [], "githubusercontent.com");
      assert n + url + [] == n + url;
    }
    assert (n + n) + url == n + (n + url);
  }

  /** `isValidProxyUrl`: a present URL whose trimmed form starts with "http://" or "https://". */
  function IsValidProxyUrl(url: Option<string>): (r: bool)
    ensures r <==> url.Some? && (StartsWith(Trim(url.value), "http://") || StartsWith(Trim(url.value), "https://"))
    ensures r ==> !IsNullOrBlank(url)
  {
    if IsNullOrBlank(url) then false
    else
      var trimmed := Trim(url.value);
      StartsWith(trimmed, "http://") || StartsWith(trimmed, "https://")
  }

  predicate HasHttpScheme(url: string) {
    StartsWith(url, "http://") || StartsWith(url, "https://")
  }

  /** "https://" put in front of a URL given without a scheme. */
  function WithScheme(url: string): (r: string)
    ensures HasHttpScheme(r)
    ensures HasHttpScheme(url) <==> r == url
    ensures EndsWith(r, url)
  {
    if HasHttpScheme(url) then
      assert url[|url| - |url|..] == url;
      url
    else
      StartsWithConcat("https://", url);
      EndsWithConcat("https://", url);
      "https://" + url
  }

  /** A URL with a scheme, once it ends in '/', is its own trim and a valid proxy URL. */
  lemma SchemedProxyIsValid(url: string)
    requires HasHttpScheme(url)
    ensures HasHttpScheme(NormalizedProxy(url))
    ensures Trim(NormalizedProxy(url)) == NormalizedProxy(url)
  {
    var r := NormalizedProxy(url);
    assert r[..|url|] == url;
    assert r[..4] == url[..4];
    assert r[0] == 'h';
    assert r[..7] == url[..7];
    if StartsWith(url, "https://") {
      assert r[..8] == url[..8];
    }
    TrimmedIsFixed(r);
  }

  /** The text field's value as the settings screen stores it: trimmed; blank means
      no proxy; "https://" put in front when no scheme is given; a '/' ensured at the end. */
  function NormalizeProxyInput(text: Option<string>): (r: Option<string>)
    ensures r.None? <==> IsNullOrBlank(text)
    ensures r.Some? ==> EndsWith(r.value, "/") && IsValidProxyUrl(r) && HasHttpScheme(r.value)
    ensures r.Some? ==> Trim(r.value) == r.value
    ensures r.Some? ==> r.value == NormalizedProxy(WithScheme(Trim(text.value)))
  {
    if IsNullOrBlank(text) then None
    else
      var withScheme := WithScheme(Trim(text.value));
      SchemedProxyIsValid(withScheme);
      Some(NormalizedProxy(withScheme))
  }

  /** What the settings screen leaves in the preferences for a given text. */
  function StoreProxyInput(p: Prefs, text: Option<string>): (q: Prefs)
    ensures q.mirrorProxyUrl == NormalizeProxyInput(text)
    ensures q.(mirrorProxyUrl := p.mirrorProxyUrl) == p
  {
    SetMirrorProxyUrl(p, NormalizeProxyInput(text))
  }

  /** Normalising a value the screen produced gives it back unchanged. */
  lemma NormalizeProxyInputIdempotent(text: Option<string>)
    requires NormalizeProxyInput(text).Some?
    ensures NormalizeProxyInput(NormalizeProxyInput(text)) == NormalizeProxyInput(text)
  {
    NormalizedTextIsFixed(NormalizeProxyInput(text).value);
  }

  lemma SchemeStartsWithH(url: string)
    requires HasHttpScheme(url)
    ensures |url| > 0 && url[0] == 'h'
  {
    if StartsWith(url, "http://") {
      assert url[..7][0] == url[0];
    } else {
      assert url[..8][0] == url[0];
    }
  }

  /** A URL with a scheme and a final '/' is left as it is. */
  lemma NormalizedTextIsFixed(url: string)
    requires HasHttpScheme(url) && EndsWith(url, "/")
    ensures NormalizeProxyInput(Some(url)) == Some(url)
  {
    SchemeStartsWithH(url);
    assert url[|url| - 1] == url[|url| - 1..][0];
    TrimmedIsFixed(url);
    var t := Trim(url);
    assert !IsNullOrBlank(Some(url));
    assert WithScheme(t) == url;
    assert NormalizedProxy(url) == url;
  }

  /** The preset chips (the first three popular proxies) put in text that is already
      normalised. */
  lemma PresetChipsAreNormalized()
    ensures forall k :: 0 <= k < 3 ==> NormalizeProxyInput(Some(PopularProxies[k])) == Some(PopularProxies[k])
  {
    forall k | 0 <= k < 3 ensures NormalizeProxyInput(Some(PopularProxies[k])) == Some(PopularProxies[k]) {
      ChipIsNormalized(PopularProxies[k]);
    }
  }

  /** A chip text: "https://" at the front and '/' at the end. */
  lemma ChipIsNormalized(chip: string)
    requires StartsWith(chip, "https://") && EndsWith(chip, "/")
    ensures NormalizeProxyInput(Some(chip)) == Some(chip)
  {
    NormalizedTextIsFixed(chip);
  }

  /** With a normalised proxy the mirror URL is the proxy followed by the original, with no
      extra '/'. */
  lemma TransformWithNormalizedProxy(p: Prefs, text: Option<string>, url: string)
    requires NormalizeProxyInput(text).Some? && IsGitHubUrl(url)
    ensures var q := StoreProxyInput(p, text).(mirrorProxyEnabled := true);
            TransformUrl(q, url) == NormalizeProxyInput(text).value + url
  {
    var r := NormalizeProxyInput(text).value;
    assert !IsWhitespace(r[|r| - 1]);
  }
}
