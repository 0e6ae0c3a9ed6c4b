/** Stand-ins for the types the propagator takes from the `opentelemetry`
    crate: `TraceId`, `SpanId`, the trace flags, `SpanContext` and the
    `Context` it travels in. Only the behaviour the propagator relies on is
    modelled, as assumptions about that crate. */
module Trace {
  import opened Text

  /** The trace flags byte, a bit set. */
  type TraceFlags = bv8

  const TRACE_FLAG_NOT_SAMPLED: TraceFlags := 0x00
  const TRACE_FLAG_SAMPLED: TraceFlags := 0x01
  const TRACE_FLAG_DEFERRED: TraceFlags := 0x02

  /** Vendor key/value pairs, in order; `TraceState::default()` is empty. */
  type TraceState = seq<(string, string)>

  const DEFAULT_TRACE_STATE: TraceState := []

  /** `SpanContext`: a 128-bit trace id, a 64-bit span id, the flags byte,
      whether it was received from another process, and the trace state. */
  datatype SpanContext = SpanContext(
    traceId: u128,
    spanId: u64,
    traceFlags: TraceFlags,
    isRemote: bool,
    traceState: TraceState)

  /** `SpanContext::is_valid`: neither id is the reserved zero value. */
  predicate IsValid(sc: SpanContext) {
    sc.traceId != 0 && sc.spanId != 0
  }

  /** `SpanContext::is_deferred`: the deferred bit is set. */
  predicate IsDeferred(sc: SpanContext) {
    sc.traceFlags & TRACE_FLAG_DEFERRED == TRACE_FLAG_DEFERRED
  }

  /** `SpanContext::is_sampled`: the sampled bit is set. */
  predicate IsSampled(sc: SpanContext) {
    sc.traceFlags & TRACE_FLAG_SAMPLED == TRACE_FLAG_SAMPLED
  }

  /** `SpanContext::empty_context()`: zero ids, no flags, local, default state. */
  function EmptySpanContext(): (sc: SpanContext)
    ensures !IsValid(sc) && !sc.isRemote && sc.traceState == DEFAULT_TRACE_STATE
  {
    SpanContext(0, 0, TRACE_FLAG_NOT_SAMPLED, false, DEFAULT_TRACE_STATE)
  }

  /** `TraceId::from_hex`: the value of a hex numeral of any length and either
      case that fits in 128 bits, and the invalid id 0 for anything else. */
  function TraceIdFromHex(s: string): (t: u128)
    ensures t != 0 ==> s != [] && AllHexDigits(s) && t == HexValue(s)
    ensures s != [] && AllHexDigits(s) && HexValue(s) < U128_LIMIT ==> t == HexValue(s)
  {
    match ParseU128Hex(s)
    case Some(v) => v
    case None => 0
  }

  /** `TraceId::to_hex`: 32 lower-case hex digits, zero-padded. */
  function TraceIdToHex(t: u128): (s: string)
    ensures |s| == 32 && forall i :: 0 <= i < |s| ==> IsLowerHexDigit(s[i])
  {
    LowerHex(t, 32)
  }

  /** `from_hex` inverts `to_hex` on every trace id. */
  lemma TraceIdHexRoundTrip(t: u128)
    ensures TraceIdFromHex(TraceIdToHex(t)) == t
  {
    Pow16Of32();
    HexValueOfLowerHex(t, 32);
  }

  /** The sampling decision a flags byte stands for when it is read through
      `is_deferred` first and `is_sampled` second. */
  datatype SamplingDecision = Deferred | Sampled | NotSampled

  function Decision(sc: SpanContext): SamplingDecision {
    if IsDeferred(sc) then Deferred else if IsSampled(sc) then Sampled else NotSampled
  }

  /** The flags constant that names a decision. */
  function DecisionFlags(d: SamplingDecision): TraceFlags {
    match d
    case Deferred => TRACE_FLAG_DEFERRED
    case Sampled => TRACE_FLAG_SAMPLED
    case NotSampled => TRACE_FLAG_NOT_SAMPLED
  }

  /** `Context`: the span context of its current span (what
      `cx.span().span_context()` returns) and, opaquely, every other value it
      holds. */
  datatype Context = Context(spanContext: SpanContext, values: map<string, string>)

  /** `Context::with_remote_span_context`: a context whose current span is
      the given remote parent, other values kept. */
  function WithRemoteSpanContext(cx: Context, sc: SpanContext): (r: Context)
    ensures r.spanContext == sc && r.values == cx.values
  {
    cx.(spanContext := sc)
  }
}
