/** `CloudTracePropagator`: moves a span context in and out of the Google
    Cloud Trace header `x-cloud-trace-context`, whose value reads
    `<hex trace id>/<decimal span id>;<o=0 | o=1 | anything>`. */
module CloudTrace {
  import opened Wrappers
  import opened Text
  import opened Trace

  const GCP_CLOUD_TRACE_HEADER: string := "x-cloud-trace-context"

  /** The field list `fields()` hands out. */
  const GCP_CLOUD_TRACE_HEADER_FIELD: seq<string> := [GCP_CLOUD_TRACE_HEADER]

  /** A text-map carrier, such as a set of request headers. */
  type Carrier = map<string, string>

  /** `extractor.get(GCP_CLOUD_TRACE_HEADER).unwrap_or("")`: the header's
      value when present, the empty text when absent. */
  function HeaderValue(carrier: Carrier): (v: string)
    ensures GCP_CLOUD_TRACE_HEADER in carrier ==> v == carrier[GCP_CLOUD_TRACE_HEADER]
    ensures GCP_CLOUD_TRACE_HEADER !in carrier ==> v == ""
  {
    if GCP_CLOUD_TRACE_HEADER in carrier then carrier[GCP_CLOUD_TRACE_HEADER] else ""
  }

  // ---------------------------------------------------------------------------
  // Decoding

  /** The flags a header's suffix (the text after the first `;`, if any)
      stands for: only the exact texts `o=0` and `o=1` decide. */
  function SamplingFlags(suffix: Option<string>): (f: TraceFlags)
    ensures f == TRACE_FLAG_NOT_SAMPLED <==> suffix == Some("o=0")
    ensures f == TRACE_FLAG_SAMPLED <==> suffix == Some("o=1")
    ensures f == TRACE_FLAG_DEFERRED <==> suffix != Some("o=0") && suffix != Some("o=1")
  {
    if suffix == Some("o=0") then TRACE_FLAG_NOT_SAMPLED
    else if suffix == Some("o=1") then TRACE_FLAG_SAMPLED
    else TRACE_FLAG_DEFERRED
  }

  /** `extract_span_context`: decodes the trimmed header value. Every failure
      (no `/`, a span id that is not a 64-bit decimal, a trace id that reads
      as zero) is the same `Err`. */
  function ExtractSpanContext(carrier: Carrier): (r: Result<SpanContext>)
    ensures r.Ok? ==> '/' in Trim(HeaderValue(carrier))
    ensures r.Ok? ==> r.value.isRemote && r.value.traceState == DEFAULT_TRACE_STATE
    ensures r.Ok? ==> r.value.traceId != 0
    ensures r.Ok? ==> r.value.traceFlags in {TRACE_FLAG_NOT_SAMPLED, TRACE_FLAG_SAMPLED, TRACE_FLAG_DEFERRED}
  {
    var headerValue := Trim(HeaderValue(carrier));
    var (traceField, rest) := SplitN2(headerValue, '/');
    var traceId := TraceIdFromHex(traceField);
    if rest.None? then Err
    else
      var (spanField, suffix) := SplitN2(rest.value, ';');
      match ParseU64(spanField)
      case None => Err
      case Some(spanId) =>
        var flags := SamplingFlags(suffix);
        if traceId == 0 then Err
        else Ok(SpanContext(traceId, spanId, flags, true, DEFAULT_TRACE_STATE))
  }

  /** A header value assembled from its three fields; `None` stands for a
      value without any `;`. */
  function Assemble(traceField: string, spanField: string, suffix: Option<string>): string {
    traceField + "/" + spanField + (if suffix.Some? then ";" + suffix.value else "")
  }

  /** Every trimmed header value either holds no `/` or is made of a trace
      field without `/`, a span field without `;` and an optional suffix. */
  lemma HeaderDecomposes(headerValue: string)
    requires '/' in headerValue
    ensures exists traceField, spanField, suffix ::
      '/' !in traceField && ';' !in spanField && headerValue == Assemble(traceField, spanField, suffix)
  {
    var (traceField, rest) := SplitN2(headerValue, '/');
    var (spanField, suffix) := SplitN2(rest.value, ';');
    assert headerValue == Assemble(traceField, spanField, suffix);
  }

  /** Hex and decimal numerals contain neither separator of the header. */
  lemma NumeralHasNoSeparators(s: string)
    requires forall i :: 0 <= i < |s| ==> IsLowerHexDigit(s[i])
    ensures '/' !in s && ';' !in s
  {
  }

  /** The decoder, field by field: it succeeds exactly when the trace field
      reads as a non-zero trace id and the span field as a 64-bit decimal,
      whatever the suffix, and then yields a remote context with those ids,
      the flags the suffix names and the default trace state. */
  lemma {:induction false} ExtractFields(carrier: Carrier, traceField: string, spanField: string, suffix: Option<string>)
    requires '/' !in traceField && ';' !in spanField
    requires Trim(HeaderValue(carrier)) == Assemble(traceField, spanField, suffix)
    ensures ExtractSpanContext(carrier).Ok? <==> TraceIdFromHex(traceField) != 0 && ParseU64(spanField).Some?
    ensures ExtractSpanContext(carrier).Ok? ==>
      ExtractSpanContext(carrier).value
        == SpanContext(TraceIdFromHex(traceField), ParseU64(spanField).value, SamplingFlags(suffix), true, DEFAULT_TRACE_STATE)
  {
    var rest := spanField + (if suffix.Some? then ";" + suffix.value else "");
    assert Assemble(traceField, spanField, suffix) == traceField + ['/'] + rest;
    SplitN2At(traceField, rest, '/');
    assert SplitN2(Trim(HeaderValue(carrier)), '/') == (traceField, Some(rest));
    if suffix.Some? {
      assert rest == spanField + [';'] + suffix.value;
      SplitN2At(spanField, suffix.value, ';');
    } else {
      assert rest == spanField;
    }
    assert SplitN2(rest, ';') == (spanField, suffix);
  }

  /** The span field decides failure on its own: unless it is a non-empty
      run of decimal digits whose value fits in 64 bits, decoding fails. */
  lemma SpanFieldMustBeU64(carrier: Carrier, traceField: string, spanField: string, suffix: Option<string>)
    requires '/' !in traceField && ';' !in spanField
    requires Trim(HeaderValue(carrier)) == Assemble(traceField, spanField, suffix)
    ensures ExtractSpanContext(carrier).Ok? ==>
      spanField != [] && AllDigits(spanField) && DecimalValue(spanField) < U64_LIMIT
  {
    ExtractFields(carrier, traceField, spanField, suffix);
  }

  /** An all-zero trace field of any width fails, whatever follows it. */
  lemma ZeroTraceIdRejected(carrier: Carrier, width: nat, spanField: string, suffix: Option<string>)
    requires ';' !in spanField
    requires Trim(HeaderValue(carrier)) == Assemble(LowerHex(0, width), spanField, suffix)
    ensures ExtractSpanContext(carrier) == Err
  {
    var traceField := LowerHex(0, width);
    NumeralHasNoSeparators(traceField);
    HexValueOfLowerHex(0, width);
    ExtractFields(carrier, traceField, spanField, suffix);
  }

  /** No length check applies to the trace field: a non-zero trace id written
      with any number of zero-padded hex digits decodes to that id. */
  lemma AnyWidthTraceIdAccepted(carrier: Carrier, t: u128, width: nat, spanId: u64, suffix: Option<string>)
    requires t != 0 && t < Pow16(width)
    requires Trim(HeaderValue(carrier)) == Assemble(LowerHex(t, width), Decimal(spanId), suffix)
    ensures ExtractSpanContext(carrier) == Ok(SpanContext(t, spanId, SamplingFlags(suffix), true, DEFAULT_TRACE_STATE))
  {
    var traceField, spanField := LowerHex(t, width), Decimal(spanId);
    NumeralHasNoSeparators(traceField);
    NumeralHasNoSeparators(spanField);
    HexValueOfLowerHex(t, width);
    ParseU64OfDecimal(spanId);
    ExtractFields(carrier, traceField, spanField, suffix);
  }

  /** The span id is not checked for zero: a header with span id `0` decodes,
      to a span context that is not valid. */
  lemma ZeroSpanIdAccepted(carrier: Carrier, traceField: string, suffix: Option<string>)
    requires '/' !in traceField && TraceIdFromHex(traceField) != 0
    requires Trim(HeaderValue(carrier)) == Assemble(traceField, "0", suffix)
    ensures ExtractSpanContext(carrier).Ok?
    ensures !IsValid(ExtractSpanContext(carrier).value)
  {
    ParseU64OfDecimal(0);
    ExtractFields(carrier, traceField, "0", suffix);
  }

  /** A missing header reads as the empty text, which has no `/`: decoding
      fails, and extraction attaches the empty span context in place of the
      one the context held. */
  lemma MissingHeaderFails(cx: Context, carrier: Carrier)
    requires GCP_CLOUD_TRACE_HEADER !in carrier
    ensures ExtractSpanContext(carrier) == Err
    ensures ExtractWithContext(cx, carrier) == cx.(spanContext := EmptySpanContext())
  {
    assert HeaderValue(carrier) == "";
    assert Trim("") == "";
  }

  // ---------------------------------------------------------------------------
  // Encoding

  /** The sampling suffix written after the `;`: deferred is tested first. */
  function SamplingSuffix(sc: SpanContext): (s: string)
    ensures Decision(sc) == Deferred <==> s == ""
    ensures Decision(sc) == Sampled <==> s == "o=1"
    ensures Decision(sc) == NotSampled <==> s == "o=0"
  {
    if IsDeferred(sc) then "" else if IsSampled(sc) then "o=1" else "o=0"
  }

  /** The header value `inject_context` writes: 32 lower-case hex digits, a
      `/`, the span id in decimal, then a `;` that is present even when the
      suffix is empty. */
  function EncodeHeader(sc: SpanContext): (h: string)
    ensures |h| == 34 + |Decimal(sc.spanId)| + |SamplingSuffix(sc)| && h[32] == '/'
    ensures h[..32] == TraceIdToHex(sc.traceId)
    ensures h[33..|h| - 1 - |SamplingSuffix(sc)|] == Decimal(sc.spanId)
    ensures forall i :: 0 <= i < 32 ==> IsLowerHexDigit(h[i])
    ensures Decision(sc) == Deferred ==> h[|h| - 1] == ';'
    ensures Decision(sc) == Sampled ==> h[|h| - 4..] == ";o=1"
    ensures Decision(sc) == NotSampled ==> h[|h| - 4..] == ";o=0"
  {
    var hex, dec, suffix := TraceIdToHex(sc.traceId), Decimal(sc.spanId), SamplingSuffix(sc);
    var h := hex + "/" + dec + ";" + suffix;
    assert |h| == 32 + 1 + |dec| + 1 + |suffix|;
    assert h[..32] == hex;
    assert h[33..|h| - 1 - |suffix|] == dec by {
      forall i | 0 <= i < |dec| ensures h[33 + i] == dec[i] { }
    }
    h
  }

  /** The carrier after `inject_context`: untouched for an invalid span
      context, otherwise with only the header key set (added or replaced). */
  function InjectedCarrier(cx: Context, carrier: Carrier): (r: Carrier)
    ensures !IsValid(cx.spanContext) ==> r == carrier
    ensures IsValid(cx.spanContext) ==>
      GCP_CLOUD_TRACE_HEADER in r && r[GCP_CLOUD_TRACE_HEADER] == EncodeHeader(cx.spanContext)
    ensures r.Keys <= carrier.Keys + {GCP_CLOUD_TRACE_HEADER}
    ensures forall k :: k in carrier && k != GCP_CLOUD_TRACE_HEADER ==> k in r && r[k] == carrier[k]
  {
    var sc := cx.spanContext;
    if IsValid(sc) then carrier[GCP_CLOUD_TRACE_HEADER := EncodeHeader(sc)] else carrier
  }

  /** Injecting the same context twice leaves the carrier as one injection
      does. */
  lemma InjectIdempotent(cx: Context, carrier: Carrier)
    ensures InjectedCarrier(cx, InjectedCarrier(cx, carrier)) == InjectedCarrier(cx, carrier)
  {
  }

  /** A mutable carrier that `inject_context` writes through `set`. */
  class Injector {
    var entries: Carrier

    constructor (entries: Carrier)
      ensures this.entries == entries
    {
      this.entries := entries;
    }

    /** `Injector::set`: stores `value` under `key`, replacing any old value. */
    method Set(key: string, value: string)
      modifies this
      ensures entries == old(entries)[key := value]
    {
      entries := entries[key := value];
    }
  }

  /** `inject_context`: one write of the encoded header when the current span
      context is valid, no write otherwise. */
  method InjectContext(cx: Context, injector: Injector)
    modifies injector
    ensures injector.entries == InjectedCarrier(cx, old(injector.entries))
  {
    var spanContext := cx.spanContext;
    if IsValid(spanContext) {
      injector.Set(GCP_CLOUD_TRACE_HEADER, EncodeHeader(spanContext));
    }
  }

  // ---------------------------------------------------------------------------
  // Round trip

  /** Decoding an injected header gives back the trace id, the span id and the
      sampling decision of the injected span context, as a remote context with
      the default trace state and the canonical flags of that decision. */
  lemma {:induction false} ExtractInjected(cx: Context, carrier: Carrier)
    requires IsValid(cx.spanContext)
    ensures var sc := cx.spanContext;
      ExtractSpanContext(InjectedCarrier(cx, carrier))
        == Ok(SpanContext(sc.traceId, sc.spanId, DecisionFlags(Decision(sc)), true, DEFAULT_TRACE_STATE))
  {
    var sc := cx.spanContext;
    var injected := InjectedCarrier(cx, carrier);
    var hex, dec, suffix := TraceIdToHex(sc.traceId), Decimal(sc.spanId), SamplingSuffix(sc);
    var h := EncodeHeader(sc);
    assert HeaderValue(injected) == h;
    TrimUntouched(h);
    NumeralHasNoSeparators(hex);
    NumeralHasNoSeparators(dec);
    assert h == Assemble(hex, dec, Some(suffix));
    ExtractFields(injected, hex, dec, Some(suffix));
    TraceIdHexRoundTrip(sc.traceId);
    ParseU64OfDecimal(sc.spanId);
  }

  /** A span context that already carries one of the three canonical flags
      values, as a remote context with the default trace state, survives
      injection and extraction unchanged. */
  lemma ExtractInjectedExactly(cx: Context, carrier: Carrier)
    requires IsValid(cx.spanContext) && cx.spanContext.isRemote
    requires cx.spanContext.traceState == DEFAULT_TRACE_STATE
    requires cx.spanContext.traceFlags in {TRACE_FLAG_NOT_SAMPLED, TRACE_FLAG_SAMPLED, TRACE_FLAG_DEFERRED}
    ensures ExtractSpanContext(InjectedCarrier(cx, carrier)) == Ok(cx.spanContext)
  {
    ExtractInjected(cx, carrier);
  }

  // ---------------------------------------------------------------------------
  // The propagator interface

  /** `extract_with_context`: the decoded span context becomes the remote
      parent; on any failure the empty span context does, replacing whatever
      the input context held. */
  function ExtractWithContext(cx: Context, carrier: Carrier): (r: Context)
    ensures r.values == cx.values
    ensures r.spanContext.isRemote <==> ExtractSpanContext(carrier).Ok?
    ensures ExtractSpanContext(carrier).Ok? ==> r.spanContext == ExtractSpanContext(carrier).value
    ensures ExtractSpanContext(carrier).Err? ==> r.spanContext == EmptySpanContext()
  {
    var extracted := match ExtractSpanContext(carrier)
      case Ok(sc) => sc
      case Err => EmptySpanContext();
    WithRemoteSpanContext(cx, extracted)
  }

  /** `fields`: the single header this propagator reads and writes. */
  function Fields(): (r: seq<string>)
    ensures |r| == 1 && r[0] == "x-cloud-trace-context"
  {
    GCP_CLOUD_TRACE_HEADER_FIELD
  }

  /** Injection touches no carrier key outside `fields()`. */
  lemma InjectWritesOnlyFields(cx: Context, carrier: Carrier, key: string)
    requires key !in Fields()
    ensures key in InjectedCarrier(cx, carrier) <==> key in carrier
    ensures key in carrier ==> InjectedCarrier(cx, carrier)[key] == carrier[key]
  {
  }

  /** Extraction reads no carrier key outside `fields()`: carriers that agree
      on those keys extract the same context. */
  lemma ExtractReadsOnlyFields(cx: Context, c1: Carrier, c2: Carrier)
    requires forall k :: k in Fields() ==> (k in c1 <==> k in c2) && (k in c1 ==> c1[k] == c2[k])
    ensures ExtractWithContext(cx, c1) == ExtractWithContext(cx, c2)
  {
    assert GCP_CLOUD_TRACE_HEADER in Fields();
    assert HeaderValue(c1) == HeaderValue(c2);
  }

  /** A context injected into a carrier and extracted on the other side has a
      remote parent with the same ids and sampling decision, and the receiving
      context's other values are kept. */
  lemma PropagatedContext(sender: Context, receiver: Context, carrier: Carrier)
    requires IsValid(sender.spanContext)
    ensures var r := ExtractWithContext(receiver, InjectedCarrier(sender, carrier)).spanContext;
      r.isRemote && r.traceId == sender.spanContext.traceId && r.spanId == sender.spanContext.spanId
      && Decision(r) == Decision(sender.spanContext)
    ensures ExtractWithContext(receiver, InjectedCarrier(sender, carrier)).values == receiver.values
  {
    ExtractInjected(sender, carrier);
  }
}

