/** `MultiPartDownloader`: probing a URL for its size and range support, choosing
    between one request and several ranged ones, planning the byte ranges, and the
    states reported to the caller. The network is an oracle `server` from requests to
    exchanges; a response body is the sequence of byte counts its reads return. */
module MultiPart {

  import opened Wrappers
  import opened Text
  import opened Numeric
  import DownloadPrefs

  const BufferSize: int := 8192

  /** What one `read(buffer)` on a response body returns before the end of the stream:
      at least one byte and at most a buffer's worth. */
  type ReadCount = n: int | 1 <= n <= BufferSize witness 1

  /** A response body: its announced length (-1 when unknown), the reads it yields, and
      the failure that ends it early, if any (with the exception's message, if any). */
  datatype Body = Body(contentLength: int, readSizes: seq<ReadCount>, failure: Option<Option<string>>)

  datatype HttpReply = HttpReply(code: int, message: string, headers: seq<(string, string)>, body: Option<Body>)

  /** The result of executing a call: a reply, or an exception (with its message, if any). */
  datatype Exchange = Answered(reply: HttpReply) | Failed(error: Option<string>)

  datatype HttpMethod = HEAD | GET

  /** A request; `range` is the byte range sent as a `Range` header (see `RangeHeader`). */
  datatype Request = Request(url: string, verb: HttpMethod, range: Option<ByteRange>)

  /** `DownloadState`; the speed field is left out (it is computed in floating point
      from the clock), and the target file is named by its file name. */
  datatype DownloadState =
    | Idle
    | Downloading(progress: int, downloadedBytes: int, totalBytes: int)
    | Completed(file: string)
    | Error(message: string)

  predicate IsTerminal(s: DownloadState) {
    !s.Downloading?
  }

  const DownloadFailed: string := "Download failed"

  /** The state an exception is reported as, once it reaches `download`'s handler. */
  function ExceptionState(message: Option<string>): (s: DownloadState)
    ensures s.Error?
    ensures message.Some? ==> s.message == message.value
    ensures message.None? ==> s.message == DownloadFailed
  {
    Error(message.GetOr(DownloadFailed))
  }

  /** OkHttp's `isSuccessful`: a 2xx status. */
  predicate IsSuccessful(code: int) {
    200 <= code <= 299
  }

  /** OkHttp's `header(name)`: the last value of the field, its name compared ignoring case. */
  function Header(headers: seq<(string, string)>, name: string): (r: Option<string>)
    ensures r.None? <==> forall i :: 0 <= i < |headers| ==> !EqualsIgnoreCase(headers[i].0, name)
    ensures r.Some? ==>
              exists i :: 0 <= i < |headers| && EqualsIgnoreCase(headers[i].0, name) && headers[i].1 == r.value
                && forall j :: i < j < |headers| ==> !EqualsIgnoreCase(headers[j].0, name)
  {
    if |headers| == 0 then None
    else if EqualsIgnoreCase(headers[|headers| - 1].0, name) then Some(headers[|headers| - 1].1)
    else
      var r := Header(headers[..|headers| - 1], name);
      assert forall i :: 0 <= i < |headers| - 1 ==> headers[..|headers| - 1][i] == headers[i];
      r
  }

  /** `checkRangeWithGet`: the reply to `Range: bytes=0-0`. A positive total after the
      '/' of `Content-Range` is the size, and a 206 status means ranges work; otherwise
      the size is unknown and ranges are not used. */
  function CheckRangeWithGet(reply: Exchange): (r: Option<(int, bool)>)
    ensures reply.Failed? <==> r.None?
    ensures r.Some? ==> r.value.0 > 0 || r.value == (-1, false)
    ensures r.Some? && r.value.0 > 0 ==> (r.value.1 <==> reply.reply.code == 206)
  {
    match reply
    case Failed(_) => None
    case Answered(resp) =>
      var supportsRange := resp.code == 206;
      var totalSize :=
        match Header(resp.headers, "Content-Range")
        case Some(v) => ParseLong(SubstringAfter(v, '/')).GetOr(-1)
        case None => -1;
      if totalSize > 0 then Some((totalSize, supportsRange)) else Some((-1, false))
  }

  /** `getFileInfo`: the size and range support of `url`, from the HEAD reply and,
      when that announces no positive length, from the ranged GET; `None` when either
      call fails or the HEAD status is not 2xx. */
  function GetFileInfo(url: string, server: Request -> Exchange): (r: Option<(int, bool)>)
    ensures server(Request(url, HEAD, None)).Failed? ==> r.None?
    ensures server(Request(url, HEAD, None)).Answered? && !IsSuccessful(server(Request(url, HEAD, None)).reply.code) ==> r.None?
    ensures r.Some? ==> r.value.0 > 0 || r.value == (-1, false)
    ensures r.Some? && r.value.1 ==> r.value.0 > 0
    ensures var head := server(Request(url, HEAD, None));
            head.Answered? && IsSuccessful(head.reply.code) ==>
              var len := Header(head.reply.headers, "Content-Length");
              var ranges := Header(head.reply.headers, "Accept-Ranges");
              if len.Some? && ParseLong(len.value).Some? && ParseLong(len.value).value > 0
              then r == Some((ParseLong(len.value).value, ranges.Some? && EqualsIgnoreCase(ranges.value, "bytes")))
              else r == CheckRangeWithGet(server(Request(url, GET, Some(ByteRange(0, 0)))))
  {
    match server(Request(url, HEAD, None))
    case Failed(_) => None
    case Answered(resp) =>
      if !IsSuccessful(resp.code) then None
      else
        var contentLength :=
          match Header(resp.headers, "Content-Length")
          case Some(v) => ParseLong(v).GetOr(-1)
          case None => -1;
        var supportsRange :=
          match Header(resp.headers, "Accept-Ranges")
          case Some(v) => EqualsIgnoreCase(v, "bytes")
          case None => false;
        if contentLength <= 0 then CheckRangeWithGet(server(Request(url, GET, Some(ByteRange(0, 0)))))
        else Some((contentLength, supportsRange))
  }

  /** A HEAD reply with a positive `Content-Length` decides alone: ranges are used
      exactly when `Accept-Ranges` is "bytes" in any case. */
  lemma HeadWithLengthDecides(url: string, server: Request -> Exchange, len: int)
    requires server(Request(url, HEAD, None)).Answered?
    requires IsSuccessful(server(Request(url, HEAD, None)).reply.code)
    requires Header(server(Request(url, HEAD, None)).reply.headers, "Content-Length") == Some(IntToString(len))
    requires 0 < len <= LongMax
    ensures GetFileInfo(url, server) ==
              Some((len, match Header(server(Request(url, HEAD, None)).reply.headers, "Accept-Ranges")
                         case Some(v) => EqualsIgnoreCase(v, "bytes")
                         case None => false))
  {
    ParseLongRoundTrip(len);
  }

  /** The percentage shown for `downloaded` of `total` bytes: `Long` arithmetic, then
      `toInt()`, then clamped to 0..100; 0 when the total is not positive. */
  function Progress(downloaded: int, total: int): (p: int)
    ensures 0 <= p <= 100
    ensures total <= 0 ==> p == 0
  {
    if total > 0 then CoerceIn(ToInt32(TruncDiv(ToLong(downloaded * 100), total)), 0, 100) else 0
  }

  lemma DivMonotone(a: int, b: int, t: int)
    requires 0 <= a <= b && t > 0
    ensures a / t <= b / t
  {
    var qa, qb := a / t, b / t;
    assert a == t * qa + a % t && 0 <= a % t;
    assert b == t * qb + b % t && b % t < t;
    if qa >= qb + 1 {
      MulLeftMonotone(t, qb + 1, qa);
      assert false;
    }
  }

  lemma DivOfMultiple(t: int, q: int)
    requires t > 0
    ensures (t * q) / t == q
  {
    var a := t * q;
    var r := a / t;
    assert a == t * r + a % t && 0 <= a % t < t;
    if r > q {
      MulLeftMonotone(t, q + 1, r);
      assert false;
    }
    if r < q {
      MulLeftMonotone(t, r + 1, q);
      assert false;
    }
  }

  lemma MulLeftMonotone(t: int, x: int, y: int)
    requires t > 0 && x <= y
    ensures t * x <= t * y
  {
    assert t * y == t * x + t * (y - x);
  }

  /** While no more than the total has arrived (and the total is below 2^63/100 bytes),
      the progress is the exact rounded-down percentage. */
  lemma ProgressIsPercentage(downloaded: int, total: int)
    requires 0 <= downloaded <= total && 0 < total && total * 100 <= LongMax
    ensures Progress(downloaded, total) == downloaded * 100 / total
  {
    assert downloaded * 100 <= total * 100;
    DivMonotone(downloaded * 100, total * 100, total);
    assert total * 100 / total == 100;
  }

  /** More bytes never show a smaller percentage, within the same bounds. */
  lemma ProgressMonotone(d1: int, d2: int, total: int)
    requires 0 <= d1 <= d2 <= total && 0 < total && total * 100 <= LongMax
    ensures Progress(d1, total) <= Progress(d2, total)
  {
    ProgressIsPercentage(d1, total);
    ProgressIsPercentage(d2, total);
    DivMonotone(d1 * 100, d2 * 100, total);
  }

  /** Kotlin's `first..last`; it holds no byte when `last < first`. */
  datatype ByteRange = ByteRange(first: int, last: int) {
    function Length(): int {
      last - first + 1
    }
    predicate Holds(b: int) {
      first <= b <= last
    }
  }

  /** The chunk plan: `threadCount` ranges of `totalSize / threadCount` bytes, the last
      one running to the end of the file. */
  function ChunkPlan(totalSize: int, threadCount: int): (chunks: seq<ByteRange>)
    requires threadCount >= 1
    ensures |chunks| == threadCount
    ensures chunks[0].first == 0
    ensures chunks[threadCount - 1].last == totalSize - 1
    ensures forall i :: 0 <= i < threadCount - 1 ==> chunks[i + 1].first == chunks[i].last + 1
  {
    var chunkSize := TruncDiv(totalSize, threadCount);
    var chunks := seq(threadCount, i requires 0 <= i < threadCount =>
      ByteRange(i * chunkSize, if i == threadCount - 1 then totalSize - 1 else i * chunkSize + chunkSize - 1));
    assert forall i :: 0 <= i < threadCount - 1 ==> (i + 1) * chunkSize == i * chunkSize + chunkSize;
    chunks
  }

  /** With at least as many bytes as threads, no range is empty. */
  lemma ChunksNonEmpty(totalSize: int, threadCount: int)
    requires threadCount >= 1 && totalSize >= threadCount
    ensures forall i :: 0 <= i < threadCount ==> ChunkPlan(totalSize, threadCount)[i].Length() >= 1
  {
    var cs := totalSize / threadCount;
    assert TruncDiv(totalSize, threadCount) == cs;
    assert cs >= 1 by {
      DivMonotone(threadCount, totalSize, threadCount);
    }
    assert threadCount * cs <= totalSize;
    assert (threadCount - 1) * cs + cs == threadCount * cs;
  }

  /** With fewer bytes than threads the chunk size is 0: every range but the last is
      the empty range 0..-1, and the last one is the whole file. */
  lemma ChunksWhenFewBytes(totalSize: int, threadCount: int)
    requires threadCount >= 1 && 0 <= totalSize < threadCount
    ensures forall i :: 0 <= i < threadCount - 1 ==> ChunkPlan(totalSize, threadCount)[i] == ByteRange(0, -1)
    ensures ChunkPlan(totalSize, threadCount)[threadCount - 1] == ByteRange(0, totalSize - 1)
  {
    assert totalSize / threadCount == 0;
  }

  /** Consecutive ranges, each starting right after the previous one ends. */
  predicate Contiguous(rs: seq<ByteRange>) {
    forall i :: 0 <= i < |rs| - 1 ==> rs[i + 1].first == rs[i].last + 1
  }

  function SumLengths(rs: seq<ByteRange>): int {
    if |rs| == 0 then 0 else rs[0].Length() + SumLengths(rs[1..])
  }

  lemma {:induction false} ContiguousSum(rs: seq<ByteRange>)
    requires |rs| > 0 && Contiguous(rs)
    ensures SumLengths(rs) == rs[|rs| - 1].last - rs[0].first + 1
    decreases |rs|
  {
    if |rs| > 1 {
      assert Contiguous(rs[1..]) by {
        forall i | 0 <= i < |rs[1..]| - 1 ensures rs[1..][i + 1].first == rs[1..][i].last + 1 {
          assert rs[1..][i + 1] == rs[i + 2] && rs[1..][i] == rs[i + 1];
        }
      }
      ContiguousSum(rs[1..]);
    }
  }

  /** The lengths of the planned ranges add up to the file size. */
  lemma ChunkLengthsSum(totalSize: int, threadCount: int)
    requires threadCount >= 1
    ensures SumLengths(ChunkPlan(totalSize, threadCount)) == totalSize
  {
    ContiguousSum(ChunkPlan(totalSize, threadCount));
  }

  /** Each range of the plan starts inside the file (or at its end) and ends no earlier
      than one byte before it starts. */
  lemma ChunkLengthsNonNegative(totalSize: int, threadCount: int)
    requires threadCount >= 1 && totalSize >= 0
    ensures forall i :: 0 <= i < threadCount ==> ChunkPlan(totalSize, threadCount)[i].Length() >= 0
  {
    var cs := totalSize / threadCount;
    assert TruncDiv(totalSize, threadCount) == cs;
    assert threadCount * cs <= totalSize;
    assert (threadCount - 1) * cs + cs == threadCount * cs;
    assert cs >= 0;
  }

  /** In a contiguous sequence of ranges none shorter than empty, an earlier range ends
      before a later one starts. */
  lemma {:induction false} ContiguousOrdered(rs: seq<ByteRange>, i: int, j: int)
    requires Contiguous(rs) && forall k :: 0 <= k < |rs| ==> rs[k].Length() >= 0
    requires 0 <= i < j < |rs|
    ensures rs[i].last < rs[j].first
    decreases j - i
  {
    if j > i + 1 {
      ContiguousOrdered(rs, i + 1, j);
    }
  }

  /** Every byte of the file lies in exactly one planned range. */
  lemma ChunksPartitionFile(totalSize: int, threadCount: int, b: int)
    requires threadCount >= 1 && 0 <= b < totalSize
    ensures exists i :: 0 <= i < threadCount && ChunkPlan(totalSize, threadCount)[i].Holds(b)
    ensures forall i, j :: 0 <= i < j < threadCount ==>
              !(ChunkPlan(totalSize, threadCount)[i].Holds(b) && ChunkPlan(totalSize, threadCount)[j].Holds(b))
  {
    var rs := ChunkPlan(totalSize, threadCount);
    ChunkLengthsNonNegative(totalSize, threadCount);
    forall i, j | 0 <= i < j < threadCount ensures !(rs[i].Holds(b) && rs[j].Holds(b)) {
      ContiguousOrdered(rs, i, j);
    }
    var k := FirstRangeEndingAtOrAfter(rs, b);
    assert rs[k].Holds(b);
  }

  /** The first range whose end is at or after `b`; it holds `b` when the ranges are
      contiguous from a start at or before `b`. */
  function FirstRangeEndingAtOrAfter(rs: seq<ByteRange>, b: int): (k: nat)
    requires |rs| > 0 && Contiguous(rs) && rs[0].first <= b <= rs[|rs| - 1].last
    ensures k < |rs| && rs[k].Holds(b)
  {
    if rs[0].last >= b then 0
    else
      assert Contiguous(rs[1..]) by {
        forall i | 0 <= i < |rs[1..]| - 1 ensures rs[1..][i + 1].first == rs[1..][i].last + 1 {
          assert rs[1..][i + 1] == rs[i + 2] && rs[1..][i] == rs[i + 1];
        }
      }
      1 + FirstRangeEndingAtOrAfter(rs[1..], b)
  }

  /** The `Range` header of a chunk request, "bytes=first-last". */
  function RangeHeader(r: ByteRange): (h: string)
    ensures StartsWith(h, "bytes=")
  {
    var bounds := IntToString(r.first) + "-" + IntToString(r.last);
    StartsWithConcat("bytes=", bounds);
    "bytes=" + bounds
  }

  /** The header reads back: after "bytes=", the text before the first '-' parses as
      `first` and the text after that '-' parses as `last`. */
  lemma {:induction false} RangeHeaderRoundTrip(r: ByteRange)
    requires 0 <= r.first <= LongMax && LongMin <= r.last <= LongMax
    ensures var bounds := RangeHeader(r)[6..];
            var k := |IntToString(r.first)|;
            k < |bounds| && bounds[k] == '-' && (forall i :: 0 <= i < k ==> bounds[i] != '-')
            && ParseLong(bounds[..k]) == Some(r.first)
            && ParseLong(SubstringAfter(bounds, '-')) == Some(r.last)
  {
    var first, last := IntToString(r.first), IntToString(r.last);
    var bounds := RangeHeader(r)[6..];
    assert bounds == first + "-" + last;
    var k := |first|;
    assert first == NatToString(r.first);
    assert forall i :: 0 <= i < k ==> bounds[i] == first[i] && IsDigit(first[i]);
    assert bounds[..k] == first;
    assert bounds[k] == '-';
    assert SubstringAfter(bounds, '-') == last by {
      var a := SubstringAfter(bounds, '-');
      assert |bounds| - |a| - 1 == k;
      assert a == bounds[k + 1..];
    }
    ParseLongRoundTrip(r.first);
    ParseLongRoundTrip(r.last);
  }

  /** An empty chunk is requested as "bytes=0--1", which is not a valid byte range. */
  lemma EmptyChunkHeader()
    ensures RangeHeader(ByteRange(0, -1)) == "bytes=0--1"
  {
  }

  /** The number of bytes a sequence of reads delivers. */
  function Sum(sizes: seq<ReadCount>): (r: int)
    ensures r >= |sizes|
  {
    if |sizes| == 0 then 0 else sizes[0] + Sum(sizes[1..])
  }

  /** A prefix of the reads delivers no more than all of them. */
  lemma {:induction false} SumPrefixBounded(sizes: seq<ReadCount>, k: int)
    requires 0 <= k <= |sizes|
    ensures Sum(sizes[..k]) <= Sum(sizes)
    decreases k
  {
    if k > 0 {
      assert sizes[..k][1..] == sizes[1..][..k - 1];
      SumPrefixBounded(sizes[1..], k - 1);
    }
  }

  /** The byte count after each read, starting from `before`. */
  function RunningTotals(sizes: seq<ReadCount>, before: int): (c: seq<int>)
    ensures |c| == |sizes|
    ensures |c| > 0 ==> c[0] == before + sizes[0] && c[|c| - 1] == before + Sum(sizes)
    ensures forall k :: 0 <= k < |c| - 1 ==> c[k + 1] == c[k] + sizes[k + 1]
    ensures forall k :: 0 <= k < |c| - 1 ==> c[k] < c[k + 1]
    decreases |sizes|
  {
    if |sizes| == 0 then []
    else
      var rest := RunningTotals(sizes[1..], before + sizes[0]);
      var c := [before + sizes[0]] + rest;
      c
  }

  /** The `Downloading` states of the single-request path, one per read: the bytes so
      far, strictly increasing up to the whole body, and their percentage of `total`. */
  function ReadStates(sizes: seq<ReadCount>, total: int): (r: seq<DownloadState>)
    ensures |r| == |sizes|
    ensures forall k :: 0 <= k < |r| ==>
              r[k].Downloading? && r[k].totalBytes == total && 0 <= r[k].progress <= 100
    ensures |r| > 0 ==> r[0].downloadedBytes == sizes[0] && r[|r| - 1].downloadedBytes == Sum(sizes)
    ensures forall k :: 0 <= k < |r| - 1 ==> r[k + 1].downloadedBytes == r[k].downloadedBytes + sizes[k + 1]
    ensures forall k :: 0 <= k < |r| - 1 ==> r[k].downloadedBytes < r[k + 1].downloadedBytes
  {
    var counts := RunningTotals(sizes, 0);
    seq(|sizes|, k requires 0 <= k < |sizes| => Downloading(Progress(counts[k], total), counts[k], total))
  }

  /** The cancel flag is reset when a download starts and checked before each write;
      `cancelAt == Some(k)` says it is first seen set before the write of read `k` of this
      download (counted from 0 across all chunks). The number of the `count` reads
      following `readsBefore` earlier ones that are written. */
  function WrittenReads(count: nat, readsBefore: nat, cancelAt: Option<nat>): (n: nat)
    ensures n <= count
    ensures n < count <==> count > 0 && cancelAt.Some? && cancelAt.value < readsBefore + count
    ensures n < count ==> n == if cancelAt.value < readsBefore then 0 else cancelAt.value - readsBefore
  {
    if cancelAt.Some? && cancelAt.value < readsBefore + count then
      (if cancelAt.value < readsBefore then 0 else cancelAt.value - readsBefore)
    else count
  }

  function HttpError(code: int, message: string): string {
    "HTTP " + IntToString(code) + ": " + message
  }

  /** The states shown while reading a successful reply's body, and the state that ends it. */
  function BodyStates(b: Body, cancelAt: Option<nat>, fileName: string): (r: seq<DownloadState>)
    ensures |r| >= 1 && IsTerminal(r[|r| - 1])
    ensures forall k :: 0 <= k < |r| - 1 ==> r[k].Downloading? && 0 <= r[k].progress <= 100
    ensures forall k :: 0 <= k < |r| - 2 ==> r[k].downloadedBytes < r[k + 1].downloadedBytes
    ensures r[|r| - 1].Completed? ==> r[|r| - 1].file == fileName
  {
    var n := WrittenReads(|b.readSizes|, 0, cancelAt);
    if n < |b.readSizes| then ThenStop(ReadStates(b.readSizes[..n], b.contentLength), Idle)
    else if b.failure.Some? then ThenStop(ReadStates(b.readSizes, b.contentLength), ExceptionState(b.failure.value))
    else ThenStop(ReadStates(b.readSizes, b.contentLength), Completed(fileName))
  }

  /** How reading a body ends: cancelled (after one state per read written) exactly when
      the flag is seen before the last read; completed (after one state per read, the
      last one counting every byte) exactly when it is not and the stream does not fail. */
  lemma BodyStatesEnd(b: Body, cancelAt: Option<nat>, fileName: string)
    ensures var r := BodyStates(b, cancelAt, fileName);
            (r[|r| - 1] == Idle <==> cancelAt.Some? && cancelAt.value < |b.readSizes|)
            && (r[|r| - 1] == Idle ==> |r| == cancelAt.value + 1)
    ensures var r := BodyStates(b, cancelAt, fileName);
            (r[|r| - 1].Completed? <==> b.failure.None? && (cancelAt.Some? ==> cancelAt.value >= |b.readSizes|))
            && (r[|r| - 1].Completed? ==> |r| == |b.readSizes| + 1)
            && (r[|r| - 1].Completed? && |r| > 1 ==> r[|r| - 2].downloadedBytes == Sum(b.readSizes))
  {
    var n := WrittenReads(|b.readSizes|, 0, cancelAt);
  }

  /** The shown states followed by the final one. */
  function ThenStop(shown: seq<DownloadState>, last: DownloadState): (r: seq<DownloadState>)
    ensures |r| == |shown| + 1 && r[|shown|] == last
    ensures forall k :: 0 <= k < |shown| ==> r[k] == shown[k]
  {
    shown + [last]
  }

  /** `downloadSinglePart` followed by `download`'s handlers: every state the caller is
      given. The size found by the probe is replaced by the body's own `contentLength`
      whenever there is a body, so it plays no part here. */
  function SinglePart(reply: Exchange, cancelAt: Option<nat>, fileName: string): (r: seq<DownloadState>)
    ensures |r| >= 1 && IsTerminal(r[|r| - 1])
    ensures forall k :: 0 <= k < |r| - 1 ==> r[k].Downloading? && 0 <= r[k].progress <= 100
    ensures reply.Failed? ==> r == [ExceptionState(reply.error)]
    ensures reply.Answered? && !IsSuccessful(reply.reply.code) ==>
              r == [Error(HttpError(reply.reply.code, reply.reply.message))]
    ensures reply.Answered? && IsSuccessful(reply.reply.code) && reply.reply.body.None? ==> r == [Completed(fileName)]
    ensures reply.Answered? && IsSuccessful(reply.reply.code) && reply.reply.body.Some? ==>
              r == BodyStates(reply.reply.body.value, cancelAt, fileName)
  {
    match reply
    case Failed(m) => [ExceptionState(m)]
    case Answered(resp) =>
      if !IsSuccessful(resp.code) then [Error(HttpError(resp.code, resp.message))]
      else
        match resp.body
        case None => [Completed(fileName)]
        case Some(b) => BodyStates(b, cancelAt, fileName)
  }

  /** When the body announces its length and delivers exactly that many bytes (fewer
      than 2^63/100), the last progress shown before completion is 100. */
  lemma CompletedDownloadShows100(b: Body, cancelAt: Option<nat>, fileName: string)
    requires b.failure.None? && (cancelAt.Some? ==> cancelAt.value >= |b.readSizes|)
    requires |b.readSizes| > 0 && b.contentLength == Sum(b.readSizes)
    requires Sum(b.readSizes) * 100 <= LongMax
    ensures var r := BodyStates(b, cancelAt, fileName);
            r[|r| - 1] == Completed(fileName) && r[|r| - 2].progress == 100
  {
    var total := Sum(b.readSizes);
    var shown := ReadStates(b.readSizes, total);
    assert b.readSizes[..|b.readSizes|] == b.readSizes;
    assert BodyStates(b, cancelAt, fileName) == ThenStop(shown, Completed(fileName));
    assert shown[|shown| - 1].progress == Progress(total, total);
    ProgressIsPercentage(total, total);
    DivOfMultiple(total, 100);
    assert total * 100 == 100 * total;
  }

  /** A write of `size` bytes at `offset` into the target file by chunk `chunk`. */
  datatype Write = Write(chunk: nat, offset: int, size: int)

  /** Bytes delivered by the body of an exchange, if it has one. */
  function BodyBytes(ex: Exchange): (n: int)
    ensures n >= 0
  {
    if ex.Answered? && ex.reply.body.Some? then Sum(ex.reply.body.value.readSizes) else 0
  }

  /** The progress callback of a chunk: the throttle shows a state only after a read of
      more than ten buffers. */
  function ThrottledStates(sizes: seq<ReadCount>, downloadedBefore: int, total: int): (r: seq<DownloadState>)
    ensures r == []
  {
    if |sizes| == 0 then []
    else
      var downloaded := downloadedBefore + sizes[0];
      (if sizes[0] > BufferSize * 10 then [Downloading(Progress(downloaded, total), downloaded, total)] else [])
      + ThrottledStates(sizes[1..], downloaded, total)
  }

  /** What one chunk does: its writes, the reads it consumed, the states it showed, and
      the state it stops the whole download with, if any. */
  datatype ChunkRun = ChunkRun(writes: seq<Write>, readCount: nat, downloaded: int, shown: seq<DownloadState>, stop: Option<DownloadState>)

  predicate ChunkFails(code: int) {
    !IsSuccessful(code) && code != 206
  }

  /** 206 is itself a 2xx status, so a chunk fails exactly on a status outside 200..299. */
  lemma ChunkFailsOnNon2xx(code: int)
    ensures ChunkFails(code) <==> !IsSuccessful(code)
  {
  }

  function ChunkError(c: nat, code: int): string {
    "Chunk " + NatToString(c) + " failed: HTTP " + IntToString(code)
  }

  /** The writes of chunk `c` for the reads `written`, one after another from `offset`. */
  function ChunkWrites(c: nat, offset: int, written: seq<ReadCount>): (w: seq<Write>)
    ensures |w| == |written|
    ensures forall k :: 0 <= k < |w| ==>
              w[k].chunk == c && w[k].size == written[k] && offset <= w[k].offset
              && w[k].offset + w[k].size <= offset + Sum(written)
    ensures |w| > 0 ==> w[0].offset == offset
    ensures forall k :: 0 <= k < |w| - 1 ==> w[k + 1].offset == w[k].offset + w[k].size
    decreases |written|
  {
    if |written| == 0 then []
    else
      var rest := ChunkWrites(c, offset + written[0], written[1..]);
      [Write(c, offset, written[0])] + rest
  }

  /** The cancel flag is seen during `count` reads that follow `readsBefore` earlier ones. */
  predicate CancelSeen(cancelAt: Option<nat>, readsBefore: int, count: nat) {
    count > 0 && cancelAt.Some? && cancelAt.value < readsBefore + count
  }

  /** Reading a chunk's body: the reads written before a cancel is seen, then the state
      that stops the download, if any. */
  function ChunkBody(c: nat, range: ByteRange, b: Body, readsBefore: nat, downloadedBefore: int,
                     total: int, cancelAt: Option<nat>): (r: ChunkRun)
    ensures r.shown == []
    ensures r.readCount <= |b.readSizes| && |r.writes| == r.readCount
    ensures r.stop == Some(Idle) <==> r.readCount < |b.readSizes|
    ensures r.readCount < |b.readSizes| <==> CancelSeen(cancelAt, readsBefore, |b.readSizes|)
    ensures r.readCount < |b.readSizes| ==> r.readCount == if cancelAt.value < readsBefore then 0 else cancelAt.value - readsBefore
    ensures r.readCount == |b.readSizes| && b.failure.Some? ==> r.stop == Some(ExceptionState(b.failure.value))
    ensures forall k :: 0 <= k < |r.writes| ==>
              r.writes[k].chunk == c && range.first <= r.writes[k].offset
              && r.writes[k].offset + r.writes[k].size <= range.first + Sum(b.readSizes)
    ensures |r.writes| > 0 ==> r.writes[0].offset == range.first
    ensures forall k :: 0 <= k < |r.writes| - 1 ==> r.writes[k + 1].offset == r.writes[k].offset + r.writes[k].size
    ensures r.stop.Some? ==> IsTerminal(r.stop.value) && !r.stop.value.Completed?
    ensures r.stop.None? <==> b.failure.None? && r.readCount == |b.readSizes|
  {
    var n := WrittenReads(|b.readSizes|, readsBefore, cancelAt);
    var written := b.readSizes[..n];
    SumPrefixBounded(b.readSizes, n);
    var stop :=
      if n < |b.readSizes| then Some(Idle)
      else if b.failure.Some? then Some(ExceptionState(b.failure.value))
      else None;
    ChunkRun(ChunkWrites(c, range.first, written), n, downloadedBefore + Sum(written),
             ThrottledStates(written, downloadedBefore, total), stop)
  }

  predicate Answered2xx(ex: Exchange) {
    ex.Answered? && IsSuccessful(ex.reply.code)
  }

  /** A chunk reply that lets the chunk finish: a 2xx status and a body, if any, that
      does not fail. */
  predicate ChunkOk(ex: Exchange) {
    Answered2xx(ex) && (ex.reply.body.Some? ==> ex.reply.body.value.failure.None?)
  }

  /** The reads the body of a reply delivers. */
  function ReadsOf(ex: Exchange): nat {
    if ex.Answered? && ex.reply.body.Some? then |ex.reply.body.value.readSizes| else 0
  }

  /** The first `k` chunk replies all let their chunks finish. */
  predicate OkBefore(replies: seq<Exchange>, k: nat)
    requires k <= |replies|
  {
    forall i :: 0 <= i < k ==> ChunkOk(replies[i])
  }

  /** The reads the first `k` replies deliver. */
  function Reads(replies: seq<Exchange>, k: nat): nat
    requires k <= |replies|
  {
    if k == 0 then 0 else Reads(replies, k - 1) + ReadsOf(replies[k - 1])
  }

  /** `downloadChunk` for chunk `c`, with the reads of earlier chunks already counted. */
  function RunChunk(c: nat, range: ByteRange, ex: Exchange, readsBefore: nat, downloadedBefore: int, total: int, cancelAt: Option<nat>): (r: ChunkRun)
    ensures r.shown == []
    ensures forall k :: 0 <= k < |r.writes| ==>
              r.writes[k].chunk == c && range.first <= r.writes[k].offset
              && r.writes[k].offset + r.writes[k].size <= range.first + BodyBytes(ex)
    ensures r.stop.Some? ==> IsTerminal(r.stop.value) && !r.stop.value.Completed?
    ensures r.stop.None? ==> ex.Answered? && IsSuccessful(ex.reply.code)
    ensures ex.Answered? && ChunkFails(ex.reply.code) ==> r.stop == Some(Error(ChunkError(c, ex.reply.code)))
    ensures ex.Failed? ==> r.stop == Some(ExceptionState(ex.error))
    ensures ex.Answered? && !ChunkFails(ex.reply.code) && ex.reply.body.Some? ==>
              r == ChunkBody(c, range, ex.reply.body.value, readsBefore, downloadedBefore, total, cancelAt)
    ensures r.stop.None? <==> ChunkOk(ex) && !CancelSeen(cancelAt, readsBefore, ReadsOf(ex))
    ensures r.stop == Some(Idle) <==> Answered2xx(ex) && CancelSeen(cancelAt, readsBefore, ReadsOf(ex))
    ensures r.stop.None? ==> r.readCount == ReadsOf(ex) && |r.writes| == ReadsOf(ex)
  {
    match ex
    case Failed(m) => ChunkRun([], 0, downloadedBefore, [], Some(ExceptionState(m)))
    case Answered(resp) =>
      if ChunkFails(resp.code) then ChunkRun([], 0, downloadedBefore, [], Some(Error(ChunkError(c, resp.code))))
      else
        match resp.body
        case None => ChunkRun([], 0, downloadedBefore, [], None)
        case Some(b) => ChunkBody(c, range, b, readsBefore, downloadedBefore, total, cancelAt)
  }

  /** The request for one chunk. */
  function ChunkRequest(url: string, range: ByteRange): Request {
    Request(url, GET, Some(range))
  }

  /** The writes and shown states of the chunks from `c` on, and the state that stops
      the download early, if any. */
  datatype MultiRun = MultiRun(writes: seq<Write>, shown: seq<DownloadState>, stop: Option<DownloadState>)

  /** Each write lies in its chunk's range, from its start up to the bytes that chunk's
      reply delivers. */
  predicate WritesInChunks(plan: seq<ByteRange>, replies: seq<Exchange>, writes: seq<Write>)
    requires |replies| == |plan|
  {
    forall k :: 0 <= k < |writes| ==>
      writes[k].chunk < |plan|
      && plan[writes[k].chunk].first <= writes[k].offset
      && writes[k].offset + writes[k].size <= plan[writes[k].chunk].first + BodyBytes(replies[writes[k].chunk])
  }

  /** The reads done before chunk `k` when the run reached chunk `c` after `readsBefore`. */
  function StartRead(replies: seq<Exchange>, c: nat, k: nat, readsBefore: int): int
    requires c <= k <= |replies|
  {
    readsBefore + Reads(replies, k) - Reads(replies, c)
  }

  /** Chunk `k` finishes without stopping the download. */
  predicate Passes(replies: seq<Exchange>, c: nat, k: nat, readsBefore: int, cancelAt: Option<nat>)
    requires c <= k < |replies|
  {
    ChunkOk(replies[k]) && !CancelSeen(cancelAt, StartRead(replies, c, k, readsBefore), ReadsOf(replies[k]))
  }

  /** Chunk `k` is answered 2xx and the cancel flag is seen while reading its body. */
  predicate CancelledIn(replies: seq<Exchange>, c: nat, k: nat, readsBefore: int, cancelAt: Option<nat>)
    requires c <= k < |replies|
  {
    Answered2xx(replies[k]) && CancelSeen(cancelAt, StartRead(replies, c, k, readsBefore), ReadsOf(replies[k]))
  }

  /** Every chunk from `c` up to `k` passes. */
  predicate PassesBefore(replies: seq<Exchange>, c: nat, k: nat, readsBefore: int, cancelAt: Option<nat>)
    requires c <= k <= |replies|
  {
    forall i :: c <= i < k ==> Passes(replies, c, i, readsBefore, cancelAt)
  }

  /** The cancel flag is seen in some chunk all of whose predecessors from `c` passed. */
  predicate CancelledFirst(replies: seq<Exchange>, c: nat, readsBefore: int, cancelAt: Option<nat>)
    requires c <= |replies|
  {
    exists k :: c <= k < |replies| && CancelledIn(replies, c, k, readsBefore, cancelAt) && PassesBefore(replies, c, k, readsBefore, cancelAt)
  }

  /** The chunks from `c` on, one after another; `replies[i]` answers chunk `i`'s request. */
  function RunChunks(plan: seq<ByteRange>, replies: seq<Exchange>, c: nat,
                     readsBefore: nat, downloadedBefore: int, total: int, cancelAt: Option<nat>): (r: MultiRun)
    requires c <= |plan| == |replies|
    ensures r.shown == []
    ensures WritesInChunks(plan, replies, r.writes)
    ensures r.stop.Some? ==> IsTerminal(r.stop.value) && !r.stop.value.Completed?
    ensures r.stop.None? ==> forall i :: c <= i < |plan| ==> replies[i].Answered? && IsSuccessful(replies[i].reply.code)
    decreases |plan| - c
  {
    if c == |plan| then MultiRun([], [], None)
    else
      var run := RunChunk(c, plan[c], replies[c], readsBefore, downloadedBefore, total, cancelAt);
      assert WritesInChunks(plan, replies, run.writes);
      if run.stop.Some? then MultiRun(run.writes, run.shown, run.stop)
      else
        var rest := RunChunks(plan, replies, c + 1, readsBefore + run.readCount, run.downloaded, total, cancelAt);
        assert WritesInChunks(plan, replies, run.writes + rest.writes) by {
          var w := run.writes + rest.writes;
          forall k | |run.writes| <= k < |w| ensures w[k] == rest.writes[k - |run.writes|] { }
        }
        MultiRun(run.writes + rest.writes, run.shown + rest.shown, rest.stop)
  }

  /** How a run from chunk `c` ends: it gets to the end exactly when every chunk passes,
      having written every read; it stops with `Idle` exactly when the cancel is seen in
      a chunk all of whose predecessors passed. */
  predicate Outcome(replies: seq<Exchange>, c: nat, readsBefore: int, cancelAt: Option<nat>, r: MultiRun)
    requires c <= |replies|
  {
    && (r.stop.None? <==> PassesBefore(replies, c, |replies|, readsBefore, cancelAt))
    && (r.stop.None? ==> |r.writes| == Reads(replies, |replies|) - Reads(replies, c))
    && (r.stop == Some(Idle) <==> CancelledFirst(replies, c, readsBefore, cancelAt))
  }

  /** Every run of the chunks from `c` on ends as `Outcome` says. */
  lemma {:induction false} RunChunksOutcome(plan: seq<ByteRange>, replies: seq<Exchange>, c: nat,
                                            readsBefore: nat, downloadedBefore: int, total: int, cancelAt: Option<nat>)
    requires c <= |plan| == |replies|
    ensures Outcome(replies, c, readsBefore, cancelAt, RunChunks(plan, replies, c, readsBefore, downloadedBefore, total, cancelAt))
    decreases |plan| - c
  {
    if c < |plan| {
      var run := RunChunk(c, plan[c], replies[c], readsBefore, downloadedBefore, total, cancelAt);
      assert StartRead(replies, c, c, readsBefore) == readsBefore;
      var r := RunChunks(plan, replies, c, readsBefore, downloadedBefore, total, cancelAt);
      if run.stop.Some? {
        assert r.stop == run.stop;
        StoppingStep(replies, c, readsBefore, cancelAt, run.stop == Some(Idle));
      } else {
        var after := readsBefore + run.readCount;
        var rest := RunChunks(plan, replies, c + 1, after, run.downloaded, total, cancelAt);
        assert r == MultiRun(run.writes + rest.writes, run.shown + rest.shown, rest.stop);
        assert |run.writes| == ReadsOf(replies[c]);
        RunChunksOutcome(plan, replies, c + 1, after, run.downloaded, total, cancelAt);
        PassOutcome(replies, c, readsBefore, after, cancelAt, r, rest);
      }
    }
  }

  /** When chunk `c` passes and adds its reads' writes in front of the run from `c + 1`,
      the whole run ends as that run does. */
  lemma PassOutcome(replies: seq<Exchange>, c: nat, readsBefore: int, after: int, cancelAt: Option<nat>,
                    r: MultiRun, rest: MultiRun)
    requires c < |replies| && after == readsBefore + ReadsOf(replies[c])
    requires Passes(replies, c, c, readsBefore, cancelAt)
    requires r.stop == rest.stop && |r.writes| == ReadsOf(replies[c]) + |rest.writes|
    requires Outcome(replies, c + 1, after, cancelAt, rest)
    ensures Outcome(replies, c, readsBefore, cancelAt, r)
  {
    assert Reads(replies, c + 1) == Reads(replies, c) + ReadsOf(replies[c]);
    PassingStep(replies, c, c + 1, readsBefore, after, cancelAt);
  }

  /** When chunk `c` stops the download, the run does not get to the end, and it is
      cancelled exactly when chunk `c` is. */
  lemma StoppingStep(replies: seq<Exchange>, c: nat, readsBefore: int, cancelAt: Option<nat>, idle: bool)
    requires c < |replies|
    requires !Passes(replies, c, c, readsBefore, cancelAt)
    requires idle <==> Answered2xx(replies[c]) && CancelSeen(cancelAt, readsBefore, ReadsOf(replies[c]))
    ensures !PassesBefore(replies, c, |replies|, readsBefore, cancelAt)
    ensures idle <==> CancelledFirst(replies, c, readsBefore, cancelAt)
  {
    assert StartRead(replies, c, c, readsBefore) == readsBefore;
    if idle {
      assert CancelledIn(replies, c, c, readsBefore, cancelAt) && PassesBefore(replies, c, c, readsBefore, cancelAt);
    }
    if CancelledFirst(replies, c, readsBefore, cancelAt) {
      var k :| c <= k < |replies| && CancelledIn(replies, c, k, readsBefore, cancelAt) && PassesBefore(replies, c, k, readsBefore, cancelAt);
      assert k == c;
    }
  }

  /** When chunk `c` passes, the run from `c` ends as the run from `c + 1` does. */
  lemma PassingStep(replies: seq<Exchange>, c: nat, c1: nat, readsBefore: int, after: int, cancelAt: Option<nat>)
    requires c < |replies| && c1 == c + 1 && after == readsBefore + ReadsOf(replies[c])
    requires Passes(replies, c, c, readsBefore, cancelAt)
    ensures PassesBefore(replies, c1, |replies|, after, cancelAt) <==> PassesBefore(replies, c, |replies|, readsBefore, cancelAt)
    ensures CancelledFirst(replies, c1, after, cancelAt) <==> CancelledFirst(replies, c, readsBefore, cancelAt)
  {
    ShiftStart(replies, c, c1, readsBefore, after, cancelAt);
    forall k | c1 <= k <= |replies|
      ensures PassesBefore(replies, c1, k, after, cancelAt) <==> PassesBefore(replies, c, k, readsBefore, cancelAt)
    {
      if PassesBefore(replies, c1, k, after, cancelAt) {
        forall i | c <= i < k ensures Passes(replies, c, i, readsBefore, cancelAt) {
          if i > c {
            assert Passes(replies, c1, i, after, cancelAt);
          }
        }
      }
    }
    if CancelledFirst(replies, c1, after, cancelAt) {
      var k :| c1 <= k < |replies| && CancelledIn(replies, c1, k, after, cancelAt) && PassesBefore(replies, c1, k, after, cancelAt);
      assert CancelledIn(replies, c, k, readsBefore, cancelAt) && PassesBefore(replies, c, k, readsBefore, cancelAt);
    }
    if CancelledFirst(replies, c, readsBefore, cancelAt) {
      var k :| c <= k < |replies| && CancelledIn(replies, c, k, readsBefore, cancelAt) && PassesBefore(replies, c, k, readsBefore, cancelAt);
      assert k != c;
      assert CancelledIn(replies, c1, k, after, cancelAt) && PassesBefore(replies, c1, k, after, cancelAt);
    }
  }

  /** Counting from chunk `c + 1` after chunk `c`'s reads is counting from chunk `c`. */
  lemma ShiftStart(replies: seq<Exchange>, c: nat, c1: nat, readsBefore: int, after: int, cancelAt: Option<nat>)
    requires c < |replies| && c1 == c + 1 && after == readsBefore + ReadsOf(replies[c])
    requires Passes(replies, c, c, readsBefore, cancelAt)
    ensures forall k :: c1 <= k < |replies| ==>
              (Passes(replies, c1, k, after, cancelAt) <==> Passes(replies, c, k, readsBefore, cancelAt))
              && (CancelledIn(replies, c1, k, after, cancelAt) <==> CancelledIn(replies, c, k, readsBefore, cancelAt))
    ensures !CancelledIn(replies, c, c, readsBefore, cancelAt)
  {
    assert Reads(replies, c1) == Reads(replies, c) + ReadsOf(replies[c]);
    forall k | c1 <= k < |replies|
      ensures StartRead(replies, c1, k, after) == StartRead(replies, c, k, readsBefore)
    {
    }
  }

  /** The replies the server gives to the chunk requests of a plan. */
  function ChunkReplies(url: string, server: Request -> Exchange, plan: seq<ByteRange>): (replies: seq<Exchange>)
    ensures |replies| == |plan|
    ensures forall i :: 0 <= i < |plan| ==> replies[i] == server(ChunkRequest(url, plan[i]))
  {
    seq(|plan|, i requires 0 <= i < |plan| => server(ChunkRequest(url, plan[i])))
  }

  /** `downloadMultiPart` followed by `download`'s handlers, the chunks taken one after
      another: the writes into the file and every state the caller is given. */
  function MultiPartRun(url: string, server: Request -> Exchange, totalSize: int, threadCount: int,
                        cancelAt: Option<nat>, fileName: string): (r: (seq<Write>, seq<DownloadState>))
    requires threadCount >= 1 && totalSize > 0
    ensures |r.1| == 1 && IsTerminal(r.1[0])
    ensures r.1[0].Completed? ==> r.1[0].file == fileName
    ensures r.1[0].Completed? ==> forall i :: 0 <= i < threadCount ==>
              var ex := server(ChunkRequest(url, ChunkPlan(totalSize, threadCount)[i]));
              ex.Answered? && IsSuccessful(ex.reply.code)
    ensures WritesInChunks(ChunkPlan(totalSize, threadCount), ChunkReplies(url, server, ChunkPlan(totalSize, threadCount)), r.0)
    ensures var replies := ChunkReplies(url, server, ChunkPlan(totalSize, threadCount));
            r.1[0].Completed? <==>
              (forall i :: 0 <= i < threadCount ==> ChunkOk(replies[i]))
              && (cancelAt.Some? ==> cancelAt.value >= Reads(replies, threadCount))
    ensures var replies := ChunkReplies(url, server, ChunkPlan(totalSize, threadCount));
            r.1[0].Completed? ==> |r.0| == Reads(replies, threadCount)
    ensures var replies := ChunkReplies(url, server, ChunkPlan(totalSize, threadCount));
            r.1[0] == Idle <==>
              cancelAt.Some? && exists k :: 0 <= k < threadCount && Answered2xx(replies[k])
                                  && Reads(replies, k) <= cancelAt.value && cancelAt.value < Reads(replies, k + 1)
                                  && OkBefore(replies, k)
  {
    var plan := ChunkPlan(totalSize, threadCount);
    var replies := ChunkReplies(url, server, plan);
    var run := RunChunks(plan, replies, 0, 0, 0, totalSize, cancelAt);
    RunChunksOutcome(plan, replies, 0, 0, 0, totalSize, cancelAt);
    PassesFromStart(replies, threadCount, cancelAt);
    CancelledFirstFromStart(replies, cancelAt.GetOr(0));
    (run.writes, run.shown + [run.stop.GetOr(Completed(fileName))])
  }

  /** From the first chunk on, the first `k` chunks pass exactly when their replies let
      them finish and the cancel comes after all their reads. */
  lemma {:induction false} PassesFromStart(replies: seq<Exchange>, k: nat, cancelAt: Option<nat>)
    requires k <= |replies|
    ensures PassesBefore(replies, 0, k, 0, cancelAt) <==>
              (forall i :: 0 <= i < k ==> ChunkOk(replies[i])) && (cancelAt.Some? ==> cancelAt.value >= Reads(replies, k))
  {
    if k > 0 {
      PassesFromStart(replies, k - 1, cancelAt);
      assert StartRead(replies, 0, k - 1, 0) == Reads(replies, k - 1);
      assert PassesBefore(replies, 0, k, 0, cancelAt) <==>
               PassesBefore(replies, 0, k - 1, 0, cancelAt) && Passes(replies, 0, k - 1, 0, cancelAt);
    }
  }

  /** From the first chunk on, the cancel stops the run exactly when it falls among the
      reads of a 2xx chunk whose predecessors all finished. */
  lemma CancelledFirstFromStart(replies: seq<Exchange>, at: nat)
    ensures CancelledFirst(replies, 0, 0, Some(at)) <==>
              exists k :: 0 <= k < |replies| && Answered2xx(replies[k])
                          && Reads(replies, k) <= at && at < Reads(replies, k + 1)
                          && OkBefore(replies, k)
  {
    if CancelledFirst(replies, 0, 0, Some(at)) {
      var k :| 0 <= k < |replies| && CancelledIn(replies, 0, k, 0, Some(at)) && PassesBefore(replies, 0, k, 0, Some(at));
      PassesFromStart(replies, k, Some(at));
      assert StartRead(replies, 0, k, 0) == Reads(replies, k);
      assert Reads(replies, k + 1) == Reads(replies, k) + ReadsOf(replies[k]);
    }
    if exists k :: 0 <= k < |replies| && Answered2xx(replies[k])
                   && Reads(replies, k) <= at && at < Reads(replies, k + 1)
                   && OkBefore(replies, k) {
      var k :| 0 <= k < |replies| && Answered2xx(replies[k])
               && Reads(replies, k) <= at && at < Reads(replies, k + 1)
               && OkBefore(replies, k);
      PassesFromStart(replies, k, Some(at));
      assert StartRead(replies, 0, k, 0) == Reads(replies, k);
      assert Reads(replies, k + 1) == Reads(replies, k) + ReadsOf(replies[k]);
      assert CancelledIn(replies, 0, k, 0, Some(at));
    }
  }

  /** When every chunk's reply delivers exactly its range, the writes stay inside the
      file and writes of different chunks never overlap. */
  lemma ChunkWritesDisjoint(url: string, server: Request -> Exchange, totalSize: int, threadCount: int,
                            cancelAt: Option<nat>, fileName: string, k1: int, k2: int)
    requires threadCount >= 1 && totalSize > 0
    requires forall i :: 0 <= i < threadCount ==>
               BodyBytes(server(ChunkRequest(url, ChunkPlan(totalSize, threadCount)[i]))) == ChunkPlan(totalSize, threadCount)[i].Length()
    requires var w := MultiPartRun(url, server, totalSize, threadCount, cancelAt, fileName).0;
             0 <= k1 < |w| && 0 <= k2 < |w| && w[k1].chunk < w[k2].chunk
    ensures var w := MultiPartRun(url, server, totalSize, threadCount, cancelAt, fileName).0;
            0 <= w[k1].offset && w[k2].offset + w[k2].size <= totalSize
            && w[k1].offset + w[k1].size <= w[k2].offset
  {
    var plan := ChunkPlan(totalSize, threadCount);
    var w := MultiPartRun(url, server, totalSize, threadCount, cancelAt, fileName).0;
    ChunkLengthsNonNegative(totalSize, threadCount);
    ContiguousOrdered(plan, w[k1].chunk, w[k2].chunk);
    if w[k2].chunk < threadCount - 1 {
      ContiguousOrdered(plan, w[k2].chunk, threadCount - 1);
    }
    if 0 < w[k1].chunk {
      ContiguousOrdered(plan, 0, w[k1].chunk);
    }
  }

  /** The number of parts: the configured count when the server takes ranges and
      multi-part downloads are enabled, else 1. */
  function ThreadCount(supportsRange: bool, p: DownloadPrefs.Prefs): (n: int)
    ensures 1 <= n <= DownloadPrefs.MaxThreadCount
    ensures !supportsRange || !p.multiPartEnabled ==> n == 1
    ensures supportsRange && p.multiPartEnabled ==> n == DownloadPrefs.GetThreadCount(p)
  {
    if supportsRange && p.multiPartEnabled then DownloadPrefs.GetThreadCount(p) else 1
  }

  /** The download is split exactly when ranges work, the setting is on and the
      configured count is above 1. */
  predicate UsesMultiPart(supportsRange: bool, p: DownloadPrefs.Prefs) {
    !(ThreadCount(supportsRange, p) == 1 || !supportsRange)
  }

  lemma MultiPartWhen(supportsRange: bool, p: DownloadPrefs.Prefs)
    ensures UsesMultiPart(supportsRange, p) <==>
              supportsRange && p.multiPartEnabled && DownloadPrefs.GetThreadCount(p) >= 2
  {
  }

  const FileInfoError: string := "Failed to get file info"

  /** What `download` does once the probe of `u` has answered `info`. */
  function Transfer(p: DownloadPrefs.Prefs, u: string, server: Request -> Exchange, info: (int, bool),
                    cancelAt: Option<nat>, fileName: string): (r: seq<DownloadState>)
    requires info.1 ==> info.0 > 0
    ensures |r| >= 1 && IsTerminal(r[|r| - 1])
    ensures forall k :: 0 <= k < |r| - 1 ==> r[k].Downloading? && 0 <= r[k].progress <= 100
    ensures r[|r| - 1].Completed? ==> r[|r| - 1].file == fileName
    ensures UsesMultiPart(info.1, p) ==> |r| == 1
    ensures !UsesMultiPart(info.1, p) ==> r == SinglePart(server(Request(u, GET, None)), cancelAt, fileName)
    ensures UsesMultiPart(info.1, p) ==> r == MultiPartRun(u, server, info.0, ThreadCount(info.1, p), cancelAt, fileName).1
  {
    var (totalSize, supportsRange) := info;
    var threadCount := ThreadCount(supportsRange, p);
    if threadCount == 1 || !supportsRange then SinglePart(server(Request(u, GET, None)), cancelAt, fileName)
    else MultiPartRun(u, server, totalSize, threadCount, cancelAt, fileName).1
  }

  /** `download`: every state the caller is given for `url`, with the preferences `p`. */
  function Download(p: DownloadPrefs.Prefs, url: string, server: Request -> Exchange,
                    cancelAt: Option<nat>, fileName: string): (r: seq<DownloadState>)
    ensures |r| >= 1 && IsTerminal(r[|r| - 1])
    ensures forall k :: 0 <= k < |r| - 1 ==> r[k].Downloading? && 0 <= r[k].progress <= 100
    ensures r[|r| - 1].Completed? ==> r[|r| - 1].file == fileName
    ensures var info := GetFileInfo(DownloadPrefs.TransformUrl(p, url), server);
            (info.None? ==> r == [Error(FileInfoError)])
            && (info.Some? ==> r == Transfer(p, DownloadPrefs.TransformUrl(p, url), server, info.value, cancelAt, fileName))
  {
    var u := DownloadPrefs.TransformUrl(p, url);
    match GetFileInfo(u, server)
    case None => [Error(FileInfoError)]
    case Some(info) => Transfer(p, u, server, info, cancelAt, fileName)
  }

  /** Only the transformed URL is ever requested: two servers that answer every request
      for it alike give the same states. */
  lemma DownloadRequestsOnlyTransformedUrl(p: DownloadPrefs.Prefs, url: string, s1: Request -> Exchange,
                                           s2: Request -> Exchange, cancelAt: Option<nat>, fileName: string)
    requires forall q: Request :: q.url == DownloadPrefs.TransformUrl(p, url) ==> s1(q) == s2(q)
    ensures Download(p, url, s1, cancelAt, fileName) == Download(p, url, s2, cancelAt, fileName)
  {
    var u := DownloadPrefs.TransformUrl(p, url);
    ProbeRequestsOnlyUrl(u, s1, s2);
    if GetFileInfo(u, s1).Some? {
      TransferRequestsOnlyUrl(p, u, s1, s2, GetFileInfo(u, s1).value, cancelAt, fileName);
    }
  }

  lemma ProbeRequestsOnlyUrl(u: string, s1: Request -> Exchange, s2: Request -> Exchange)
    requires forall q: Request :: q.url == u ==> s1(q) == s2(q)
    ensures GetFileInfo(u, s1) == GetFileInfo(u, s2)
  {
    assert s1(Request(u, HEAD, None)) == s2(Request(u, HEAD, None));
    assert s1(Request(u, GET, Some(ByteRange(0, 0)))) == s2(Request(u, GET, Some(ByteRange(0, 0))));
  }

  lemma TransferRequestsOnlyUrl(p: DownloadPrefs.Prefs, u: string, s1: Request -> Exchange, s2: Request -> Exchange,
                                info: (int, bool), cancelAt: Option<nat>, fileName: string)
    requires info.1 ==> info.0 > 0
    requires forall q: Request :: q.url == u ==> s1(q) == s2(q)
    ensures Transfer(p, u, s1, info, cancelAt, fileName) == Transfer(p, u, s2, info, cancelAt, fileName)
  {
    assert s1(Request(u, GET, None)) == s2(Request(u, GET, None));
    var threadCount := ThreadCount(info.1, p);
    if threadCount != 1 && info.1 {
      var plan := ChunkPlan(info.0, threadCount);
      assert ChunkReplies(u, s1, plan) == ChunkReplies(u, s2, plan);
    }
  }
}
