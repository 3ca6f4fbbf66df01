/**
 * The `download` routine: URL gating, the request, success gating, the
 * content-length decoding, the zero prefix, the chunk/byte accumulation
 * loop and the progress updates. The network is replaced by an `Exchange`
 * value that says what the server and transport did.
 */
module Downloader {
  import opened Common
  import Decimal
  import opened ContentLength
  import opened Loading
  import opened Chunks

  /** The `User-Agent` header every request carries. */
  const USER_AGENT: string := "API Request"

  /** An HTTP status code; the `http` crate keeps these in 100..=999. */
  type StatusCode = s: nat | 100 <= s <= 999 witness 200

  /** `StatusCode::is_success`: the 2xx range. */
  predicate IsSuccess(status: StatusCode) {
    200 <= status < 300
  }

  /** The GET request `download` builds. */
  datatype Request = Request(url: string, userAgent: string)

  /**
   * A received response: its status, its `content-length` header value if
   * any, the body chunks delivered in arrival order, and whether reading
   * the next chunk after those failed.
   */
  datatype Response = Response(
    status: StatusCode,
    contentLength: Option<seq<uint8>>,
    chunks: seq<seq<uint8>>,
    streamFailed: bool)

  /** What sending the request led to. */
  datatype Exchange = SendFailed | Received(response: Response)

  /** The errors `download` returns. */
  datatype Error = InvalidUrl | TransferFailed

  /** The causes of a panic inside `download`. */
  datatype PanicCause = UnsuccessfulStatus | HeaderNotVisibleAscii

  /** How a call of `download` ends: `Ok(buffer)`, `Err(e)`, or a panic. */
  datatype Outcome = Ok(body: seq<uint8>) | Err(error: Error) | Panicked(cause: PanicCause)

  /** What one call observably did: the request sent, the last progress state, the outcome. */
  datatype Run = Run(request: Option<Request>, progress: Option<Progress>, outcome: Outcome)

  /** What `download(target)` does, given whether `target` parses as a URL and what the exchange was. */
  function Spec(target: string, urlParses: bool, exchange: Exchange): Run {
    if !urlParses then Run(None, None, Err(InvalidUrl))
    else
      var request := Some(Request(target, USER_AGENT));
      match exchange
      case SendFailed => Run(request, None, Err(TransferFailed))
      case Received(response) =>
        if !IsSuccess(response.status) then Run(request, None, Panicked(UnsuccessfulStatus))
        else match ContentSize(response.contentLength)
          case ToStrFailed => Run(request, None, Panicked(HeaderNotVisibleAscii))
          case Size(n) =>
            var received := Initial(n).(position := TotalLength(response.chunks));
            if response.streamFailed then Run(request, Some(Finished(received)), Err(TransferFailed))
            else Run(request, Some(Finished(received)), Ok(Buffered(n / 99, response.chunks)))
  }

  /**
   * The `while let` loop of `download`: each chunk advances the progress
   * bar by its length and is then pushed byte by byte onto the buffer.
   * Bytes already in the buffer never change.
   */
  method ReceiveChunks(loading: ProgressBar, initial: seq<uint8>, chunks: seq<seq<uint8>>) returns (buffer: seq<uint8>)
    modifies loading
    ensures loading.State() == old(loading.State()).(position := old(loading.position) + TotalLength(chunks))
    ensures buffer == initial + Concat(chunks)
  {
    buffer := initial;
    var i := 0;
    while i < |chunks|
      invariant 0 <= i <= |chunks|
      invariant loading.State() == old(loading.State()).(position := old(loading.position) + TotalLength(chunks[..i]))
      invariant buffer == initial + Concat(chunks[..i])
    {
      var chunk := chunks[i];
      loading.Inc(|chunk|);
      for j := 0 to |chunk|
        invariant buffer == initial + Concat(chunks[..i]) + chunk[..j]
      {
        buffer := buffer + [chunk[j]];
      }
      assert chunk[..|chunk|] == chunk;
      ConcatSnoc(chunks, i);
      i := i + 1;
    }
    assert chunks[..i] == chunks;
  }

  /**
   * `download`: gate on the URL, send the request, gate on the status,
   * decode the size, create the progress bar, receive the chunks after a
   * zero prefix of `content_size / 99` bytes, and finish the bar.
   */
  method Download(target: string, urlParses: bool, exchange: Exchange)
    returns (request: Option<Request>, progress: Option<Progress>, outcome: Outcome)
    ensures Run(request, progress, outcome) == Spec(target, urlParses, exchange)
  {
    if !urlParses {
      return None, None, Err(InvalidUrl);
    }
    request := Some(Request(target, USER_AGENT));
    if exchange.SendFailed? {
      return request, None, Err(TransferFailed);
    }
    var response := exchange.response;
    if !IsSuccess(response.status) {
      return request, None, Panicked(UnsuccessfulStatus);
    }
    var decoded := ContentSize(response.contentLength);
    if decoded.ToStrFailed? {
      return request, None, Panicked(HeaderNotVisibleAscii);
    }
    var contentSize := decoded.value;
    var chunkSize := contentSize / 99;
    var loading := Loading.New(contentSize);
    var buffer := Zeros(chunkSize);
    buffer := ReceiveChunks(loading, buffer, response.chunks);
    if response.streamFailed {
      // The `?` returns early and the unfinished bar is dropped.
      loading.Drop();
      return request, Some(loading.State()), Err(TransferFailed);
    }
    loading.Finish();
    progress := Some(loading.State());
    outcome := Ok(buffer);
  }

  /** A returned buffer is the zero prefix followed by the chunks. */
  lemma OkBody(target: string, response: Response)
    requires Spec(target, true, Received(response)).outcome.Ok?
    ensures ContentSize(response.contentLength).Size?
    ensures Spec(target, true, Received(response)).outcome.body == Buffered(ContentSize(response.contentLength).value / 99, response.chunks)
  {
  }

  /** A target that is not a URL fails with `InvalidUrl` before any request is built. */
  lemma InvalidUrlFailsFast(target: string, exchange: Exchange)
    ensures Spec(target, false, exchange) == Run(None, None, Err(InvalidUrl))
  {
  }

  /** A request is built exactly when the target parses, and it is a GET of the target with the fixed user agent. */
  lemma RequestIffUrlParses(target: string, urlParses: bool, exchange: Exchange)
    ensures Spec(target, urlParses, exchange).request.Some? <==> urlParses
    ensures urlParses ==> Spec(target, urlParses, exchange).request == Some(Request(target, "API Request"))
  {
  }

  /** A response whose status is not 2xx never yields a buffer: the routine panics before reading the body. */
  lemma NonSuccessPanics(target: string, response: Response)
    requires !IsSuccess(response.status)
    ensures Spec(target, true, Received(response)).outcome == Panicked(UnsuccessfulStatus)
    ensures Spec(target, true, Received(response)).progress == None
  {
  }

  /**
   * A buffer is returned exactly when the target parses, a response
   * arrives with a 2xx status, its header passes `to_str`, and the stream
   * ends without error.
   */
  lemma OkIff(target: string, urlParses: bool, exchange: Exchange)
    ensures Spec(target, urlParses, exchange).outcome.Ok? <==>
              urlParses && exchange.Received? && IsSuccess(exchange.response.status) &&
              ContentSize(exchange.response.contentLength).Size? && !exchange.response.streamFailed
  {
  }

  /**
   * The returned buffer is `content_size / 99` zero bytes followed by the
   * concatenation of the chunks in arrival order, and its length is the
   * prefix length plus the sum of the chunk lengths.
   */
  lemma BodyLayout(target: string, response: Response)
    requires Spec(target, true, Received(response)).outcome.Ok?
    ensures var body := Spec(target, true, Received(response)).outcome.body;
            var prefix := ContentSize(response.contentLength).value / 99;
            |body| == prefix + TotalLength(response.chunks) &&
            (forall k :: 0 <= k < prefix ==> body[k] == 0) &&
            body[prefix..] == Concat(response.chunks)
  {
    ConcatLength(response.chunks);
  }

  /** Below 99 (also when the header is absent or unparsable) the prefix is empty and the buffer is the concatenation. */
  lemma SmallSizeNoPrefix(target: string, response: Response)
    requires Spec(target, true, Received(response)).outcome.Ok?
    requires ContentSize(response.contentLength).value < 99
    ensures Spec(target, true, Received(response)).outcome.body == Concat(response.chunks)
  {
    assert Zeros(0) + Concat(response.chunks) == Concat(response.chunks);
  }

  /**
   * The final progress state: the bar is finished, by `finish()` or, after
   * a stream error, by being dropped. A spinner then shows the number of
   * bytes received; a bar shows its length, the decoded size, whatever
   * was received.
   */
  lemma FinalPosition(target: string, response: Response)
    requires Spec(target, true, Received(response)).progress.Some?
    ensures var p := Spec(target, true, Received(response)).progress.value;
            var n := ContentSize(response.contentLength).value;
            p.finished &&
            (p.mode == Spinner ==> p.position == |Concat(response.chunks)|) &&
            (p.mode == Bar ==> p.position == n)
  {
    ConcatLength(response.chunks);
  }

  /**
   * The progress mode follows the decoded size: a spinner when it is 0, a
   * bar with that length otherwise.
   */
  lemma ModeFollowsSize(target: string, response: Response)
    requires Spec(target, true, Received(response)).progress.Some?
    ensures var p := Spec(target, true, Received(response)).progress.value;
            var n := ContentSize(response.contentLength).value;
            (p.mode == Spinner <==> n == 0) &&
            (p.mode == Spinner ==> p.length == None) &&
            (p.mode == Bar ==> p.length == Some(n))
  {
  }

  /** Chunk `i` appears in the buffer right after the prefix and the chunks before it. */
  lemma ChunkInPlace(target: string, response: Response, i: nat)
    requires Spec(target, true, Received(response)).outcome.Ok?
    requires i < |response.chunks|
    ensures var body := Spec(target, true, Received(response)).outcome.body;
            var start := ContentSize(response.contentLength).value / 99 + TotalLength(response.chunks[..i]);
            start + |response.chunks[i]| <= |body| &&
            body[start..start + |response.chunks[i]|] == response.chunks[i]
  {
    OkBody(target, response);
    BufferedChunkPlacement(ContentSize(response.contentLength).value / 99, response.chunks, i);
  }

  /**
   * Without a `content-length` header the progress runs as a spinner and
   * the buffer is exactly the received bytes, e.g. the twelve bytes 0..11
   * however they were chunked.
   */
  lemma NoHeaderTwelveBytes(target: string, response: Response)
    requires IsSuccess(response.status) && response.contentLength.None? && !response.streamFailed
    requires Concat(response.chunks) == [0, 1, 2, 3, 4, 5, 6, 7, 8, 9, 10, 11]
    ensures Spec(target, true, Received(response)).outcome == Ok([0, 1, 2, 3, 4, 5, 6, 7, 8, 9, 10, 11])
    ensures Spec(target, true, Received(response)).progress == Some(Progress(Spinner, None, 12, true))
  {
    ConcatLength(response.chunks);
    assert Zeros(0) + Concat(response.chunks) == Concat(response.chunks);
  }

  /**
   * The zero prefix as written: a `content-length` of 990 with the 990
   * announced bytes delivered gives a 1000-byte buffer whose first 10
   * bytes are zero padding.
   */
  lemma PrefixOfTenForNineHundredNinety(target: string, response: Response)
    requires IsSuccess(response.status) && !response.streamFailed
    requires response.contentLength == Some([57, 57, 48])
    requires TotalLength(response.chunks) == 990
    ensures ContentSize(response.contentLength) == Size(990)
    ensures var body := Spec(target, true, Received(response)).outcome.body;
            |body| == 1000 && body[..10] == Zeros(10) && body[10..] == Concat(response.chunks)
  {
    var text := ToStr([57, 57, 48]).value;
    assert text == "990";
    assert Decimal.Unsigned(text) == text;
    assert text[..2] == "99" && text[..1] == "9";
    ConcatLength(response.chunks);
  }

  /**
   * A bar ends at its length: a `content-length` of 1000 with only 400
   * bytes delivered ends with the bar at 1000, whether the stream then
   * fails (the bar is dropped) or ends (the bar is finished).
   */
  lemma BarEndsAtLength(target: string, response: Response)
    requires IsSuccess(response.status)
    requires response.contentLength == Some([49, 48, 48, 48])
    requires TotalLength(response.chunks) == 400
    ensures Spec(target, true, Received(response)).progress == Some(Progress(Bar, Some(1000), 1000, true))
    ensures response.streamFailed ==> Spec(target, true, Received(response)).outcome == Err(TransferFailed)
    ensures !response.streamFailed ==> |Spec(target, true, Received(response)).outcome.body| == 410
  {
    HeaderThousand();
    assert ContentSize(response.contentLength) == Size(1000);
    ConcatLength(response.chunks);
  }
}
