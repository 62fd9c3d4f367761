/** `patch_supported_types`: unconditionally enabling the extra codecs in `supported_types.cc`. */
module SupportedTypes {
  import opened Wrappers
  import opened Text
  import opened Pattern
  import opened Fallback

  const AUDIO_FN_ERROR := "Could not find IsDefault[Decoder]SupportedAudioType in supported_types.cc"
  const VIDEO_FN_ERROR := "Could not find IsDefault[Decoder]SupportedVideoType in supported_types.cc"

  /** `return\s+<callee>\s*\(\s*<argument>\s*\)\s*;`. */
  function ReturnCall(callee: string, argument: string): seq<Elem> {
    [Lit("return"), Ws1, Lit(callee), Ws, Lit("("), Ws, Lit(argument), Ws, Lit(")"), Ws, Lit(";")]
  }

  /**
   * `case kDTS:` with optional `case kDTSXP2:` and `case kDTSE:` lines: the four ways the two
   * optional groups can match, with both present tried first.
   */
  const DTS := Guarded(
    [ Case("AudioCodec::kDTS:") + [WsNl] + Case("AudioCodec::kDTSXP2:") + [WsNl] + Case("AudioCodec::kDTSE:") + [WsNl],
      Case("AudioCodec::kDTS:") + [WsNl] + Case("AudioCodec::kDTSXP2:") + [WsNl],
      Case("AudioCodec::kDTS:") + [WsNl] + Case("AudioCodec::kDTSE:") + [WsNl],
      Case("AudioCodec::kDTS:") + [WsNl] ],
    ReturnCall("BUILDFLAG", "ENABLE_PLATFORM_DTS_AUDIO"))

  const AC3 := Guarded(
    [Case("AudioCodec::kAC3:") + [WsNl] + Case("AudioCodec::kEAC3:") + [WsNl]],
    ReturnCall("IsDecoderDolbyAc3Eac3Supported", "type"))

  const HEVC := Guarded(
    [Case("VideoCodec::kHEVC:") + [WsNl]],
    ReturnCall("IsDecoderHevcProfileSupported", "type"))

  /** The audio labels go in before the first `case AudioCodec::kAAC:` unless a kAC3 label exists. */
  const AUDIO_FALLBACK := Insertion(
    Case("AudioCodec::kAC3:"),
    [Blanks] + Case("AudioCodec::kAAC:"),
    ["case AudioCodec::kAC3:", "case AudioCodec::kEAC3:", "case AudioCodec::kDTS:", "case AudioCodec::kDTSXP2:"],
    "Could not find AudioCodec::kAAC insertion point",
    "supported_types.cc: inserted AC3/EAC3/DTS/DTSXP2 fallback cases")

  /** The HEVC label and a `return true;` go in before the first `case VideoCodec::kH264:`. */
  const HEVC_FALLBACK := Insertion(
    Case("VideoCodec::kHEVC:"),
    [Blanks] + Case("VideoCodec::kH264:"),
    ["case VideoCodec::kHEVC:", "  return true;"],
    "Could not find VideoCodec::kH264 insertion point",
    "supported_types.cc: inserted HEVC fallback case")

  /** `re.search(r"IsDefault(?:Decoder)?Supported<kind>Type", text)`. */
  predicate HasSupportFunction(text: string, kind: string) {
    Contains(text, "IsDefaultSupported" + kind + "Type") || Contains(text, "IsDefaultDecoderSupported" + kind + "Type")
  }

  lemma {:induction false} GuardsValid()
    ensures ValidGuarded(DTS) && ValidGuarded(AC3) && ValidGuarded(HEVC)
  {
  }

  /** One `subn` override and its change entry, recorded only when something was replaced. */
  function OverrideStep(g: Guarded, what: string, text: string): (r: (string, seq<string>))
    requires ValidGuarded(g)
  {
    var (t, count) := Override(g, text, 0);
    (t, if count > 0 then ["supported_types.cc: " + what + " return override x" + NatToString(count)] else [])
  }

  /**
   * Fails only with one of its four messages, and only when a support function is present too;
   * a success records at most one entry per override and per fallback.
   */
  function PatchSupportedTypes(text: string): (r: Result<(string, seq<string>)>)
    ensures r.Err? ==> r.message in [AUDIO_FN_ERROR, VIDEO_FN_ERROR, AUDIO_FALLBACK.error, HEVC_FALLBACK.error]
    ensures r.Ok? ==> HasSupportFunction(text, "Audio") && HasSupportFunction(text, "Video") && |r.value.1| <= 5
  {
    if !HasSupportFunction(text, "Audio") then Err(AUDIO_FN_ERROR)
    else if !HasSupportFunction(text, "Video") then Err(VIDEO_FN_ERROR)
    else
      GuardsValid();
      var (t1, c1) := OverrideStep(DTS, "DTS", text);
      var (t2, c2) := OverrideStep(AC3, "AC3/EAC3", t1);
      var (t3, c3) := OverrideStep(HEVC, "HEVC", t2);
      var audio :- Apply(AUDIO_FALLBACK, t3);
      var video :- Apply(HEVC_FALLBACK, audio.0);
      Ok((video.0, c1 + c2 + c3 + audio.1 + video.1))
  }

  /**
   * A change entry is recorded exactly when some guarded return matched, and its trailing
   * numeral reads back as the number of statements replaced; with no entry the text is as it was.
   */
  lemma {:induction false} OverrideStepReports(g: Guarded, what: string, text: string)
    requires ValidGuarded(g)
    ensures var r := OverrideStep(g, what, text);
      var prefix := "supported_types.cc: " + what + " return override x";
      && (r.1 == [] <==> forall j :: 0 <= j <= |text| ==> GuardedAt(g.labels, g.ret, text, j).None?)
      && (r.1 == [] ==> r.0 == text)
      && (r.1 != [] ==> |r.1| == 1 && StartsWith(r.1[0], prefix) && AllDigits(r.1[0][|prefix|..])
                        && DecimalValue(r.1[0][|prefix|..]) == Override(g, text, 0).1)
  {
    var prefix := "supported_types.cc: " + what + " return override x";
    var n := Override(g, text, 0).1;
    OverrideNone(g, text, 0);
    assert text[0..] == text;
    if n > 0 {
      var entry := prefix + NatToString(n);
      assert entry[..|prefix|] == prefix && entry[|prefix|..] == NatToString(n);
      NatToStringRoundTrip(n);
    }
  }

  /** Each name check fails with its own message, the audio one first. */
  lemma {:induction false} SupportFunctionsRequired(text: string)
    ensures !HasSupportFunction(text, "Audio") ==> PatchSupportedTypes(text) == Err(AUDIO_FN_ERROR)
    ensures HasSupportFunction(text, "Audio") && !HasSupportFunction(text, "Video") ==>
      PatchSupportedTypes(text) == Err(VIDEO_FN_ERROR)
    ensures PatchSupportedTypes(text).Ok? ==> HasSupportFunction(text, "Audio") && HasSupportFunction(text, "Video")
  {
  }

  lemma {:induction false} AudioFallbackShape()
    ensures AUDIO_FALLBACK.guard == [Lit("case"), Ws1, Lit("AudioCodec::kAC3:")]
    ensures |AUDIO_FALLBACK.lines| > 0 && AUDIO_FALLBACK.lines[0] == "case" + " " + "AudioCodec::kAC3:"
    ensures !IsWs("AudioCodec::kAC3:"[0])
  {
  }

  lemma {:induction false} HevcFallbackShape()
    ensures HEVC_FALLBACK.guard == [Lit("case"), Ws1, Lit("VideoCodec::kHEVC:")]
    ensures |HEVC_FALLBACK.lines| > 0 && HEVC_FALLBACK.lines[0] == "case" + " " + "VideoCodec::kHEVC:"
    ensures !IsWs("VideoCodec::kHEVC:"[0])
  {
  }

  /** A second audio fallback after the first inserts nothing. */
  lemma {:induction false} AudioFallbackSettles(text: string)
    requires Apply(AUDIO_FALLBACK, text).Ok?
    ensures var once := Apply(AUDIO_FALLBACK, text).value.0;
      Found(Case("AudioCodec::kAC3:"), once) && Apply(AUDIO_FALLBACK, once) == Ok((once, []))
  {
    AudioFallbackShape();
    ApplySettles(AUDIO_FALLBACK, text, "case", "AudioCodec::kAC3:");
  }

  /** A second HEVC fallback after the first inserts nothing. */
  lemma {:induction false} HevcFallbackSettles(text: string)
    requires Apply(HEVC_FALLBACK, text).Ok?
    ensures var once := Apply(HEVC_FALLBACK, text).value.0;
      Found(Case("VideoCodec::kHEVC:"), once) && Apply(HEVC_FALLBACK, once) == Ok((once, []))
  {
    HevcFallbackShape();
    ApplySettles(HEVC_FALLBACK, text, "case", "VideoCodec::kHEVC:");
  }

  /** A successful patch leaves a `case VideoCodec::kHEVC:` label in the file. */
  lemma {:induction false} PatchedHasHevcCase(text: string)
    requires PatchSupportedTypes(text).Ok?
    ensures Found(Case("VideoCodec::kHEVC:"), PatchSupportedTypes(text).value.0)
  {
    GuardsValid();
    var t1 := OverrideStep(DTS, "DTS", text).0;
    var t2 := OverrideStep(AC3, "AC3/EAC3", t1).0;
    var t3 := OverrideStep(HEVC, "HEVC", t2).0;
    var a := Apply(AUDIO_FALLBACK, t3).value.0;
    HevcFallbackSettles(a);
  }
}
