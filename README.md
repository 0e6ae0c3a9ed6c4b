# GCP Cloud Trace propagator, modelled in Dafny

This project models `CloudTracePropagator` from `opentelemetry-contrib`. The
propagator carries a span context between processes in one HTTP header,
`x-cloud-trace-context`. The header value reads
`<hex trace id>/<decimal span id>;<suffix>`, where the suffix `o=1` means
sampled, `o=0` means not sampled, and anything else means the decision is
deferred.

The model has four modules:

- `Wrappers` (wrappers.dfy): `Option`, and `Result` with one opaque failure,
  like Rust's `Result<_, ()>`.
- `Text` (text.dfy): the standard-library text operations the propagator uses:
  `trim`, `splitn(2, _)`, decimal parsing into `u64`, and hex parsing into
  `u128`. It also has the printers `{}` and `{:032x}` and the round-trip lemmas
  that join each printer to its parser.
- `Trace` (trace.dfy): stand-ins for the `opentelemetry` types the propagator
  uses: `SpanContext`, the trace-flags bit set, `is_valid`, `is_deferred`,
  `is_sampled`, `empty_context`, `TraceId::from_hex` / `to_hex`, and
  `Context`. Their behaviour is assumed, not taken from that crate's code (see
  "Left out").
- `CloudTrace` (gcp.dfy): the propagator. It has the decoder
  (`ExtractSpanContext`), the encoder (`EncodeHeader`, `InjectedCarrier`, the
  `InjectContext` method writing through an `Injector`), the adapter
  (`ExtractWithContext`, `Fields`), and the lemmas about them.

The central result is `CloudTrace.ExtractInjected`. It says that for every
valid span context, decoding the header that injection writes gives back the
same trace id, the same span id and the same sampling decision.

The model follows the code in two places where the header format is often
described more strictly:

- The encoder always writes the `;`. A deferred context is written as
  `<hex>/<decimal>;` with an empty suffix (gcp.rs:87).
- The decoder never checks the length of the trace id. Any hex text whose value
  fits in 128 bits is accepted, 16 digits included, and only a zero value is
  refused (gcp.rs:42, gcp.rs:54). `AnyWidthTraceIdAccepted` states this.

## Model

| member | source | states |
|---|---|---|
| `Text.Trim` | opentelemetry-contrib/src/trace/propagator/gcp.rs:39 | the trimmed header is one contiguous slice of the input; everything dropped before and after it is whitespace, and it neither starts nor ends with whitespace |
| `Text.TrimIsSlice` | opentelemetry-contrib/src/trace/propagator/gcp.rs:39 | trimming the start and then the end keeps one slice of the input and drops only whitespace around it |
| `Text.TrimStart` | opentelemetry-contrib/src/trace/propagator/gcp.rs:39 | the result is a suffix of the input, everything dropped is whitespace, and it does not start with whitespace |
| `Text.TrimEnd` | opentelemetry-contrib/src/trace/propagator/gcp.rs:39 | the result is a prefix of the input, everything dropped is whitespace, and it does not end with whitespace |
| `Text.TrimUntouched` | opentelemetry-contrib/src/trace/propagator/gcp.rs:39 | trimming leaves alone a text that has no whitespace at either end |
| `Text.SplitN2` | opentelemetry-contrib/src/trace/propagator/gcp.rs:41-44 | `splitn(2, c)`: the first part never holds `c`; there is no second part exactly when `c` is absent, and then the first part is the whole text; otherwise the text is first part + `c` + second part |
| `Text.SplitN2At` | opentelemetry-contrib/src/trace/propagator/gcp.rs:41-44 | splitting `a + c + b` where `a` has no `c` gives exactly `a` and `b` |
| `Text.DigitChar` | opentelemetry-contrib/src/trace/propagator/gcp.rs:87 | each digit character reads back as its own value |
| `Text.Decimal` | opentelemetry-contrib/src/trace/propagator/gcp.rs:87 | the span id is printed as a non-empty run of digits with no leading zero, and is `"0"` exactly for zero |
| `Text.DecimalValueOfDecimal` | opentelemetry-contrib/src/trace/propagator/gcp.rs:45-46 | reading back a printed decimal numeral gives the printed value |
| `Text.ParseU64` | opentelemetry-contrib/src/trace/propagator/gcp.rs:45-46 | `parse::<u64>` succeeds exactly on non-empty digit runs whose value is below 2^64, and yields that value |
| `Text.ParseU64OfDecimal` | opentelemetry-contrib/src/trace/propagator/gcp.rs:45-46 | every 64-bit span id survives printing and parsing |
| `Text.LowerHexChar` | opentelemetry-contrib/src/trace/propagator/gcp.rs:74 | each lower-case hex digit reads back as its own value |
| `Text.LowerHex` | opentelemetry-contrib/src/trace/propagator/gcp.rs:74 | zero-padded hex printing gives exactly `width` lower-case hex digits |
| `Text.HexValueOfLowerHex` | opentelemetry-contrib/src/trace/propagator/gcp.rs:42 | reading back a zero-padded hex numeral gives the printed value, as long as it fits in the width |
| `Text.Pow16Add` | opentelemetry-contrib/src/trace/propagator/gcp.rs:74 | 16^(m+n) = 16^m * 16^n, which sizes the 32-digit hex field |
| `Text.Pow16Of32` | opentelemetry-contrib/src/trace/propagator/gcp.rs:74 | 32 hex digits hold exactly the values below 2^128 |
| `Text.ParseU128Hex` | opentelemetry-contrib/src/trace/propagator/gcp.rs:42 | hex parsing succeeds exactly on non-empty hex-digit runs (either case) whose value is below 2^128, and yields that value |
| `Trace.EmptySpanContext` | opentelemetry-contrib/src/trace/propagator/gcp.rs:95 | the fallback span context is not valid, not remote, and has the default trace state |
| `Trace.TraceIdFromHex` | opentelemetry-contrib/src/trace/propagator/gcp.rs:42 | a non-empty hex numeral below 2^128 reads as its value; a non-zero trace id only comes from such a numeral; anything else reads as 0 |
| `Trace.TraceIdToHex` | opentelemetry-contrib/src/trace/propagator/gcp.rs:74 | the trace id is printed as exactly 32 lower-case hex digits |
| `Trace.TraceIdHexRoundTrip` | opentelemetry-contrib/src/trace/propagator/gcp.rs:42 | `from_hex` inverts `to_hex` for every 128-bit trace id |
| `Trace.WithRemoteSpanContext` | opentelemetry-contrib/src/trace/propagator/gcp.rs:97 | the new context's current span context is the given one, and its other values are kept |
| `CloudTrace.HeaderValue` | opentelemetry-contrib/src/trace/propagator/gcp.rs:39 | the header's value when the carrier has the key, the empty text when it does not |
| `CloudTrace.SamplingFlags` | opentelemetry-contrib/src/trace/propagator/gcp.rs:47-52 | not-sampled exactly for the suffix `o=0`, sampled exactly for `o=1`, deferred for everything else, a missing suffix included |
| `CloudTrace.ExtractSpanContext` | opentelemetry-contrib/src/trace/propagator/gcp.rs:38-67 | a successful decode needs a `/` in the trimmed header, and yields a remote context with the default trace state, a non-zero trace id and one of the three canonical flag values |
| `CloudTrace.HeaderDecomposes` | opentelemetry-contrib/src/trace/propagator/gcp.rs:41-47 | every header with a `/` splits into a trace field, a span field and an optional suffix |
| `CloudTrace.NumeralHasNoSeparators` | opentelemetry-contrib/src/trace/propagator/gcp.rs:87 | printed hex and decimal numerals hold neither `/` nor `;`, so the decoder's splits find the encoder's separators |
| `CloudTrace.ExtractFields` | opentelemetry-contrib/src/trace/propagator/gcp.rs:38-67 | decoding succeeds exactly when the trace field reads as a non-zero id and the span field as a `u64`, whatever the suffix; the result carries exactly those ids, the suffix's flags, `is_remote = true` and the default trace state |
| `CloudTrace.SpanFieldMustBeU64` | opentelemetry-contrib/src/trace/propagator/gcp.rs:44-46 | an empty, non-numeric or overflowing span field makes decoding fail |
| `CloudTrace.ZeroTraceIdRejected` | opentelemetry-contrib/src/trace/propagator/gcp.rs:54-56 | an all-zero trace field of any width fails, however well-formed the rest is |
| `CloudTrace.AnyWidthTraceIdAccepted` | opentelemetry-contrib/src/trace/propagator/gcp.rs:42 | no length check: a non-zero trace id in any number of zero-padded hex digits decodes to that id |
| `CloudTrace.ZeroSpanIdAccepted` | opentelemetry-contrib/src/trace/propagator/gcp.rs:45-58 | the span id is not checked for zero, so a decode can succeed with a span context that is not valid |
| `CloudTrace.MissingHeaderFails` | opentelemetry-contrib/src/trace/propagator/gcp.rs:39-43 | a missing header fails to decode, and extraction attaches the empty span context instead of the one the context held |
| `CloudTrace.EncodeHeader` | opentelemetry-contrib/src/trace/propagator/gcp.rs:74-87 | the header is the trace id's 32 lower-case hex digits, then `/`, then the span id in decimal, then `;` and the suffix; it ends in `;` for deferred (checked first), `;o=1` for sampled and `;o=0` otherwise |
| `CloudTrace.SamplingSuffix` | opentelemetry-contrib/src/trace/propagator/gcp.rs:77-83 | the suffix is empty exactly for a deferred context, `o=1` exactly for a sampled one and `o=0` exactly for a not-sampled one |
| `CloudTrace.InjectedCarrier` | opentelemetry-contrib/src/trace/propagator/gcp.rs:71-90 | an invalid span context leaves the carrier as it was; a valid one sets the header key to the encoded value, adds no other key and keeps every other entry |
| `CloudTrace.InjectIdempotent` | opentelemetry-contrib/src/trace/propagator/gcp.rs:85-88 | injecting the same context twice leaves the carrier as one injection does |
| `CloudTrace.Injector.Set` | opentelemetry-contrib/src/trace/propagator/gcp.rs:85-88 | the carrier write stores the value under the key and changes nothing else |
| `CloudTrace.InjectContext` | opentelemetry-contrib/src/trace/propagator/gcp.rs:71-90 | the caller's carrier, changed in place, ends up as `InjectedCarrier` of its old contents |
| `CloudTrace.ExtractInjected` | opentelemetry-contrib/src/trace/propagator/gcp.rs:38-90 | round trip: decoding an injected header recovers the trace id, the span id and the sampling decision of any valid span context |
| `CloudTrace.ExtractInjectedExactly` | opentelemetry-contrib/src/trace/propagator/gcp.rs:58-87 | a remote span context with the default trace state and canonical flags survives injection and extraction unchanged |
| `CloudTrace.ExtractWithContext` | opentelemetry-contrib/src/trace/propagator/gcp.rs:92-98 | the new context is remote exactly when decoding succeeded; on success it holds the decoded span context, on failure the empty span context and not the input's prior one; other values are kept |
| `CloudTrace.Fields` | opentelemetry-contrib/src/trace/propagator/gcp.rs:100-102 | the field list is exactly `["x-cloud-trace-context"]` |
| `CloudTrace.InjectWritesOnlyFields` | opentelemetry-contrib/src/trace/propagator/gcp.rs:11-14 | injection adds, drops and changes no carrier key outside `fields()` |
| `CloudTrace.ExtractReadsOnlyFields` | opentelemetry-contrib/src/trace/propagator/gcp.rs:11-14 | carriers that agree on the keys of `fields()` extract the same context |
| `CloudTrace.PropagatedContext` | opentelemetry-contrib/src/trace/propagator/gcp.rs:71-98 | a context injected on one side and extracted on the other has a remote parent with the sender's ids and sampling decision, and the receiver's other values |

## Left out

- The `opentelemetry` crate is not part of this model. `Trace` holds stand-ins stated as assumptions:
  - `TraceId::from_hex` is `u128::from_str_radix(_, 16)`, giving 0 on failure.
  - `to_hex` prints 32 zero-padded lower-case hex digits.
  - The flags are a byte with NOT_SAMPLED 0x00, SAMPLED 0x01 and DEFERRED 0x02. `is_deferred` and `is_sampled` test their bits.
  - `is_valid` means both ids are non-zero.
  - `empty_context` has zero ids, no flags, is not remote, and has the default trace state.
- `Trace.Context` holds only the current span context and an opaque map of other values. `cx.span().span_context()` reads that span context, and `with_remote_span_context` replaces it. Spans, the rest of the context machinery and the `Extractor`/`Injector` traits are not modelled. A carrier is a `map<string, string>`, written through the `Injector` class.
- Trim: trims only the ASCII characters of White_Space. Rust's `str::trim` also strips non-ASCII Unicode whitespace.
- ParseU64: accepts only a plain digit run. It does not accept the leading `+` that Rust's `parse::<u64>` allows.
- ParseU128Hex: does not accept a leading `+` either, unlike `u128::from_str_radix`.
- TraceIdFromHex: builds on `ParseU128Hex`, so it refuses a leading `+` as well.
- The `lazy_static` initialisation of the field list, the `FieldIter` wrapper and global propagator registration are left out. They are runtime plumbing; `Fields` returns the list as a sequence.
- Concurrent use is left out. The propagator holds no mutable state, so there is nothing to verify there.
- mod.rs only declares modules. The binary propagator it names is not part of this model.
