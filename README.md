# mel-clausus downloader, modelled in Dafny

`mel-clausus` is a small command-line downloader. Given a URL, it issues one
HTTP GET with a fixed `User-Agent`, streams the response body chunk by
chunk, and shows the progress while it does. The core is the `download`
routine in `src/main.rs` together with `Loading::new`, which picks the kind
of progress indicator. This project models that routine with the network,
the async runtime and the terminal rendering taken away, and proves what it
returns and what state the progress bar ends in.

Modules, one per part of the routine:

- `Common`: `u64`, `uint8` (Rust's `u8`) and `Option`.
- `Decimal`: Rust's `u64::from_str`, which decodes the header. It is given
  as the digit loop with checked arithmetic (`Accumulate`, `ParseU64`) and
  checked against a reference grammar (`IsU64Literal`): an optional `+`,
  then one or more ASCII digits whose value fits in 64 bits.
- `ContentLength`: `HeaderValue::to_str` and the decoding of the optional
  `content-length` header. An absent header gives 0, and so does an
  unparsable one. A header byte `to_str` rejects becomes its own panic case,
  because of `unwrap()`.
- `Loading`: `Loading::new` and the progress bar. The bar is a class with a
  mode, an optional length, a position and a finished flag. `inc`, `finish`
  and dropping the bar update these in place. `finish` moves a bar that
  has a length to that length.
- `Chunks`: how the body is made from the chunks: their concatenation, the
  sum of their lengths, and the `vec![0; n]` prefix.
- `Downloader`: the inputs (`Exchange`, `Response`), the outcome, the
  reference function `Spec`, and two imperative methods. `ReceiveChunks` is
  the `while let` loop over the chunks, with its inner loop over each
  chunk's bytes. It updates the progress bar in place and grows the buffer.
  `Download` is the whole routine, proved against `Spec`.

Inputs that stand in for the environment:

- whether the target parses as a URL: the flag `urlParses`;
- what the network did: `SendFailed`, or a received `Response`. A response
  has a status, an optional `content-length` value as bytes, the chunks in
  arrival order, and a flag saying whether reading the stream failed after
  those chunks.

The buffer starts as `content_size / 99` zero bytes
(`src/main.rs:83`, `src/main.rs:95`), and the chunks are appended after
them. So the returned bytes are the concatenation of the chunks only when
the content size is below 99. One might expect the output to be exactly
the concatenation of the chunks; this model follows the code instead.
`BodyLayout` and `PrefixOfTenForNineHundredNinety` show the zero prefix,
and `SmallSizeNoPrefix` shows when it is empty.

During the loop, the progress position counts the bytes actually received,
whatever the header says (`ReceiveChunks`). At the end, `finish()` moves a
bar to its length. So a bar ends at its announced size even when fewer
bytes arrived, and a spinner ends at the bytes received (`FinalPosition`,
`BarEndsAtLength`). In practice a body shorter than its `content-length`
reaches the routine as a stream error, and dropping the bar then gives the
same final state.

## Model

| member | source | states |
|---|---|---|
| `Decimal.ParseU64` | src/main.rs:78-80 | the parse succeeds exactly on an optional `+` followed by one or more ASCII digits whose value is at most `u64::MAX`, and then yields that value |
| `Decimal.Accumulate` | src/main.rs:79 | the digit loop of `parse::<u64>()`: multiply by ten and add the next digit with checked arithmetic, failing on the first non-digit or overflow (its meaning is `AccumulateCorrect`) |
| `Decimal.AccumulateCorrect` | src/main.rs:79-80 | the checked multiply-and-add digit loop yields the value of the whole digit string, and fails exactly when a character is not a digit or the value exceeds `u64::MAX` |
| `Decimal.ValuePrefixBound` | src/main.rs:79-80 | a prefix of a digit string never denotes more than the whole string, so an overflow part-way through means the full value overflows too |
| `Decimal.ToDecimal` | src/main.rs:79-80 | the canonical decimal form of a number is a non-empty digit string |
| `Decimal.ValueOfToDecimal` | src/main.rs:79-80 | the canonical decimal form of `n` denotes `n` |
| `Decimal.ParseToDecimal` | src/main.rs:79-80 | round trip: every `u64` written in canonical decimal parses back to itself |
| `Decimal.RfcDigitsParse` | src/main.rs:79-80 | on a `1*DIGIT` value (RFC 9110, section 8.6), the parse succeeds exactly when the value fits in 64 bits, and yields that value |
| `Decimal.PlusSignAccepted` | src/main.rs:79 | outside that grammar, a leading `+` is accepted: `"+42"` parses to 42 |
| `Decimal.OverflowRejected` | src/main.rs:79-80 | `u64::MAX + 1` is rejected, so the header then decodes to 0 |
| `ContentLength.IsVisibleAscii` | src/main.rs:78 | the byte test inside `to_str()`: 32 to 126, or a tab |
| `ContentLength.ToStr` | src/main.rs:78 | `to_str` succeeds exactly when every byte is visible ASCII or a tab, and keeps every byte as the same character |
| `Common.Option.GetOr` | src/main.rs:80 | `unwrap_or(default)`: the carried value, or the default when there is none |
| `ContentLength.ContentSize` | src/main.rs:74-82 | an absent header gives 0; the panic case happens exactly when some byte is not visible ASCII; otherwise the result is the parsed value for a `u64` literal and 0 for anything else |
| `ContentLength.AsciiBytes` | src/main.rs:75 | the bytes of an ASCII header value, one per character |
| `ContentLength.ToStrAsciiBytes` | src/main.rs:78 | `to_str` gives back exactly the text whose bytes a server sent, when every character is visible ASCII |
| `ContentLength.CanonicalHeaderDecodes` | src/main.rs:75-82 | round trip: a header carrying `n` in canonical decimal decodes to `n` |
| `ContentLength.NonNumericIsZero` | src/main.rs:77-80 | a visible but non-numeric header (`abc`) decodes to 0 |
| `Loading.Initial` | src/main.rs:24-31 | `Loading::new` yields a spinner exactly when the total is 0 and otherwise a bar whose length is the total, at position 0 and not finished |
| `Loading.New` | src/main.rs:24-31 | allocates a fresh progress bar whose state is `Initial(total)` |
| `Loading.ProgressBar.NewSpinner` | src/main.rs:26 | a new spinner has no length, position 0, and is not finished |
| `Loading.ProgressBar.constructor` | src/main.rs:27 | a new bar has the given length, position 0, and is not finished |
| `Loading.ProgressBar.Inc` | src/main.rs:99 | `inc(n)` advances the position by `n` and changes nothing else |
| `Loading.Finished` | src/main.rs:107 | the state after `finish`: finished, mode and length kept, and the position moved to the length when there is one, kept for a spinner |
| `Loading.ProgressBar.Finish` | src/main.rs:107 | `finish` sets the state to `Finished` of the old state |
| `Loading.ProgressBar.Drop` | src/main.rs:97 | dropping an unfinished bar (the early return of the `?`) finishes it as `finish` does; a finished bar is left as it is |
| `Chunks.Zeros` | src/main.rs:95 | `vec![0; n]` has length `n` and every byte is 0 |
| `Chunks.ConcatLength` | src/main.rs:97-104 | the concatenated chunks are as long as the sum of the chunk lengths |
| `Chunks.ConcatSnoc` | src/main.rs:97-104 | processing one more chunk appends exactly that chunk and adds its length to the total |
| `Chunks.ConcatAppend` | src/main.rs:97-104 | concatenation distributes over splitting the chunk sequence |
| `Chunks.ChunkPlacement` | src/main.rs:97-104 | no chunk is dropped, duplicated or reordered: chunk `i` sits right after the bytes of the chunks before it |
| `Chunks.BufferedChunkPlacement` | src/main.rs:95-104 | in the buffer, chunk `i` sits right after the zero prefix and the chunks before it |
| `Chunks.BufferOnlyGrows` | src/main.rs:95-104 | bytes already buffered never change: the buffer after `i` chunks is a prefix of the buffer after `j >= i` chunks |
| `Downloader.IsSuccess` | src/main.rs:73 | `status().is_success()`: the status is in 200..299 |
| `Downloader.Spec` | src/main.rs:52-117 | the reference run of `download`: the request built, the final progress state and the outcome for each input; its properties are the lemmas below |
| `Downloader.ReceiveChunks` | src/main.rs:97-105 | the buffer becomes its initial bytes followed by the concatenation of the chunks, and the position grows by the sum of the chunk lengths; mode, length and finished stay. The loop invariants: after `i` chunks the buffer is the initial bytes followed by the first `i` chunks, and the position has grown by their total length (that bytes already buffered stay is `Chunks.BufferOnlyGrows`) |
| `Downloader.Download` | src/main.rs:52-117 | the request, the final progress state and the outcome are those of `Spec` |
| `Downloader.OkBody` | src/main.rs:83-109 | a returned buffer comes from a header that decoded, and is the zero prefix followed by the chunks |
| `Downloader.InvalidUrlFailsFast` | src/main.rs:53 | a target that does not parse gives `InvalidUrl`, with no request and no progress bar |
| `Downloader.RequestIffUrlParses` | src/main.rs:53-60 | a request is built exactly when the target parses. It is a GET of the target with `User-Agent: API Request` |
| `Downloader.NonSuccessPanics` | src/main.rs:110-116 | a non-2xx status panics: no buffer is returned and no progress bar is created |
| `Downloader.OkIff` | src/main.rs:53-109 | a buffer is returned exactly when the target parses, a response arrives with a 2xx status, its header passes `to_str`, and the stream ends without error |
| `Downloader.BodyLayout` | src/main.rs:83-109 | the buffer is `content_size / 99` zero bytes followed by the chunks' concatenation, and its length is the prefix plus the sum of the chunk lengths |
| `Downloader.SmallSizeNoPrefix` | src/main.rs:83-95 | below 99, including an absent or unparsable header, the buffer is exactly the concatenation of the chunks |
| `Downloader.FinalPosition` | src/main.rs:97-107 | the bar always ends finished (by `finish`, or by being dropped after a stream error). A spinner ends at the number of bytes received; a bar ends at the decoded size |
| `Downloader.ModeFollowsSize` | src/main.rs:75-85 | the bar is a spinner, with no length, exactly when the decoded size is 0, and otherwise a bar of that length |
| `Downloader.ChunkInPlace` | src/main.rs:95-109 | chunk `i` appears in the buffer right after the prefix and the chunks before it |
| `Downloader.NoHeaderTwelveBytes` | src/main.rs:75-109 | with no header, bytes 0..11 delivered in any chunking come back exactly, with a spinner finished at position 12 |
| `ContentLength.HeaderThousand` | src/main.rs:77-80 | the header `1000` decodes to 1000 |
| `Downloader.BarEndsAtLength` | src/main.rs:83-109 | a header of `1000` with only 400 bytes delivered ends with a finished bar at position 1000, whether the stream then fails (the bar is dropped) or ends (a buffer of 10 + 400 bytes) |
| `Downloader.PrefixOfTenForNineHundredNinety` | src/main.rs:77-109 | a header of `990` with the 990 announced bytes delivered gives a 1000-byte buffer whose first 10 bytes are zero |

## Left out

- The HTTP client, the request's sending and the body streaming (`reqwest`): they become the `Exchange` input. The input admits more than the transport produces, so every lemma holds for the real inputs too. The HTTP layer may itself reject a response whose `Content-Length` is malformed; that would arrive here as `SendFailed`. The model instead takes any header bytes as input. The HTTP layer's Content-Length framing also reports a body shorter than announced as a read error (`streamFailed`). The model also admits such a body ending cleanly.
- URL syntax (`Url::parse`, the WHATWG URL grammar) is the input flag `urlParses`. The request carries the target string as given, not the URL normalised by the parser.
- The async runtime: the loop is sequential, and each `await` becomes reading the next element of the chunk sequence.
- Progress rendering: the style template, `progress_chars`, and the ETA closure (floating point). The `console::style` banners and `println!` are left out too. They are terminal output only.
- Loading.ProgressBar.Finish: models the state change only (finished, and a bar moved to its length). Redrawing is not modelled.
- Loading.ProgressBar.Drop: a dropped unfinished bar is cleared from the screen rather than left there; the model does not tell these apart, since it keeps no visibility state.
- Loading.ProgressBar.Inc: the position is an unbounded `nat`, not a wrapping `u64`. Overflow would need more than 2^64 received bytes, and all of them are held in the buffer.
- `content_size as usize` is taken as lossless, as on a 64-bit target. The allocation of a very large `vec![0; n]` failing is not modelled.
- `chunk.bytes()` reads from an in-memory slice, and its `unwrap()` never fails, so each byte is pushed as is.
- `main` is left out: CLI parsing (`clap`), `dotenv()`, `unwrap()` of the result, and the creation and write of `.env` are argument glue and file I/O.
