/**
 * `patch_ffmpeg_common`: codec-ID mappings for the extra codecs and the decoder allowlists of
 * `ffmpeg_common.cc`.
 */
module FfmpegCommon {
  import opened Wrappers
  import opened Text
  import opened Pattern

  const AAC_ERROR := "Could not find AAC mapping block in ffmpeg_common.cc"
  const H264_ERROR := "Could not find H264 mapping block in ffmpeg_common.cc"

  /** `case\s+AudioCodec::kAAC:\s*\n\s*return\s+AV_CODEC_ID_AAC;\s*\n`. */
  const AAC_BLOCK := [Lit("case"), Ws1, Lit("AudioCodec::kAAC:"), WsNl, Lit("return"), Ws1, Lit("AV_CODEC_ID_AAC;"), WsNlEnd]

  /** `case\s+VideoCodec::kH264:\s*\n\s*return\s+AV_CODEC_ID_H264;\s*\n`. */
  const H264_MAP := [Lit("case"), Ws1, Lit("VideoCodec::kH264:"), WsNl, Lit("return"), Ws1, Lit("AV_CODEC_ID_H264;"), WsNlEnd]

  /** `return\s+"h264"\s*;`. */
  const VIDEO_ALLOWLIST := [Lit("return"), Ws1, Lit("\"h264\""), Ws, Lit(";")]
  const VIDEO_ALLOWLIST_NEW := "return " + "\"h264,hevc\"" + ";"

  /** `#define\s+EXTRA_CODECS\s+",aac"`. */
  const AUDIO_ALLOWLIST := [Lit("#define"), Ws1, Lit("EXTRA_CODECS"), Ws1, Lit("\",aac\"")]
  const AUDIO_ALLOWLIST_NEW := "#define EXTRA_CODECS \"" + ",aac,ac3,eac3,dca\""

  /** A `case <name>:` line and its `return <id>;` line, as the patcher writes them. */
  function Mapping(name: string, id: string): (m: string)
    ensures Contains(m, id)
  {
    var m := "    case " + name + ":\n      return " + id + ";\n";
    var at := |"    case " + name + ":\n      return "|;
    assert m[at..at + |id|] == id;
    assert OccursAt(m, id, at);
    m
  }

  const AUDIO_MAPPINGS := Mapping("AudioCodec::kAC3", "AV_CODEC_ID_AC3") + Mapping("AudioCodec::kEAC3", "AV_CODEC_ID_EAC3")
    + Mapping("AudioCodec::kDTS", "AV_CODEC_ID_DTS")
  const HEVC_MAPPING := Mapping("VideoCodec::kHEVC", "AV_CODEC_ID_HEVC")

  predicate HasAudioIds(text: string) {
    Contains(text, "AV_CODEC_ID_AC3") && Contains(text, "AV_CODEC_ID_EAC3") && Contains(text, "AV_CODEC_ID_DTS")
  }

  predicate HasAudioAllowlist(text: string) {
    Contains(text, ",ac3") && Contains(text, ",eac3") && Contains(text, ",dca")
  }

  /** The AC3, EAC3 and DTS mappings go in after the first AAC mapping unless all three IDs appear. */
  function AudioMappingStep(text: string): (r: Result<(string, seq<string>)>)
    ensures r.Err? ==> r.message == AAC_ERROR
    ensures r.Ok? ==> |r.value.1| <= 1
  {
    if HasAudioIds(text) then Ok((text, []))
    else
      match InsertAfterFirst(AAC_BLOCK, text, AUDIO_MAPPINGS)
      case None => Err(AAC_ERROR)
      case Some(t) => Ok((t, ["ffmpeg_common.cc: inserted AC3/EAC3/DTS codec ID mappings"]))
  }

  /** The HEVC mapping goes in after the first H264 mapping unless the HEVC ID appears. */
  function HevcMappingStep(text: string): (r: Result<(string, seq<string>)>)
    ensures r.Err? ==> r.message == H264_ERROR
    ensures r.Ok? ==> |r.value.1| <= 1
  {
    if Contains(text, "AV_CODEC_ID_HEVC") then Ok((text, []))
    else
      match InsertAfterFirst(H264_MAP, text, HEVC_MAPPING)
      case None => Err(H264_ERROR)
      case Some(t) => Ok((t, ["ffmpeg_common.cc: inserted HEVC codec ID mapping"]))
  }

  /** `return "h264";` becomes `return "h264,hevc";` once; a missing anchor is not an error. */
  function VideoAllowlistStep(text: string): (r: (string, seq<string>))
    ensures |r.1| <= 1
  {
    if Contains(text, "\"h264,hevc\"") then (text, [])
    else
      var (t, count) := ReplaceFirst(VIDEO_ALLOWLIST, text, VIDEO_ALLOWLIST_NEW);
      (t, if count > 0 then ["ffmpeg_common.cc: added hevc to GetAllowedVideoDecoders allowlist"] else [])
  }

  /** `#define EXTRA_CODECS ",aac"` gains ac3, eac3 and dca once; a missing anchor is not an error. */
  function AudioAllowlistStep(text: string): (r: (string, seq<string>))
    ensures |r.1| <= 1
  {
    if HasAudioAllowlist(text) then (text, [])
    else
      var (t, count) := ReplaceFirst(AUDIO_ALLOWLIST, text, AUDIO_ALLOWLIST_NEW);
      (t, if count > 0 then ["ffmpeg_common.cc: added ac3/eac3/dca to GetAllowedAudioDecoders allowlist"] else [])
  }

  /** Fails only for a missing mapping block; a success records at most one entry per step. */
  function PatchFfmpegCommon(text: string): (r: Result<(string, seq<string>)>)
    ensures r.Err? ==> r.message == AAC_ERROR || r.message == H264_ERROR
    ensures r.Ok? ==> |r.value.1| <= 4
  {
    var audio :- AudioMappingStep(text);
    var hevc :- HevcMappingStep(audio.0);
    var video := VideoAllowlistStep(hevc.0);
    var allow := AudioAllowlistStep(video.0);
    Ok((allow.0, audio.1 + hevc.1 + video.1 + allow.1))
  }

  lemma {:induction false} AudioMappingsNameIds()
    ensures HasAudioIds(AUDIO_MAPPINGS)
  {
    var m1 := Mapping("AudioCodec::kAC3", "AV_CODEC_ID_AC3");
    var m2 := Mapping("AudioCodec::kEAC3", "AV_CODEC_ID_EAC3");
    var m3 := Mapping("AudioCodec::kDTS", "AV_CODEC_ID_DTS");
    assert AUDIO_MAPPINGS == [] + m1 + (m2 + m3) == m1 + m2 + m3 == (m1 + m2) + m3 + [];
    ContainsInMiddle([], m1, m2 + m3, "AV_CODEC_ID_AC3");
    ContainsInMiddle(m1, m2, m3, "AV_CODEC_ID_EAC3");
    ContainsInMiddle(m1 + m2, m3, [], "AV_CODEC_ID_DTS");
  }

  /**
   * The audio mappings: kept when all three IDs appear; otherwise inserted right after the line
   * break ending the first AAC mapping block, or an error when there is none. Afterwards all
   * three IDs appear, so the step never inserts twice.
   */
  lemma {:induction false} AudioMappingStepSpec(text: string)
    ensures AudioMappingStep(text).Err? <==> !HasAudioIds(text) && !Found(AAC_BLOCK, text)
    ensures AudioMappingStep(text).Err? ==> AudioMappingStep(text).message == AAC_ERROR
    ensures HasAudioIds(text) ==> AudioMappingStep(text) == Ok((text, []))
    ensures !HasAudioIds(text) && Found(AAC_BLOCK, text) ==>
      var e := MatchFrom(AAC_BLOCK, text, Search(AAC_BLOCK, text).value).value;
      && e > 0 && text[e - 1] == '\n'
      && (forall j :: 0 <= j < Search(AAC_BLOCK, text).value ==> MatchFrom(AAC_BLOCK, text, j).None?)
      && AudioMappingStep(text).value.0 == text[..e] + AUDIO_MAPPINGS + text[e..]
    ensures AudioMappingStep(text).Ok? ==> HasAudioIds(AudioMappingStep(text).value.0)
  {
    InsertAfterFirstPlaces(AAC_BLOCK, text, AUDIO_MAPPINGS);
    if !HasAudioIds(text) && Found(AAC_BLOCK, text) {
      var e := MatchFrom(AAC_BLOCK, text, Search(AAC_BLOCK, text).value).value;
      EndsAfterBreak(AAC_BLOCK, text, Search(AAC_BLOCK, text).value);
      AudioMappingsNameIds();
      ContainsInMiddle(text[..e], AUDIO_MAPPINGS, text[e..], "AV_CODEC_ID_AC3");
      ContainsInMiddle(text[..e], AUDIO_MAPPINGS, text[e..], "AV_CODEC_ID_EAC3");
      ContainsInMiddle(text[..e], AUDIO_MAPPINGS, text[e..], "AV_CODEC_ID_DTS");
    }
  }

  /** The HEVC mapping, in the same way after the first H264 mapping block. */
  lemma {:induction false} HevcMappingStepSpec(text: string)
    ensures HevcMappingStep(text).Err? <==> !Contains(text, "AV_CODEC_ID_HEVC") && !Found(H264_MAP, text)
    ensures HevcMappingStep(text).Err? ==> HevcMappingStep(text).message == H264_ERROR
    ensures Contains(text, "AV_CODEC_ID_HEVC") ==> HevcMappingStep(text) == Ok((text, []))
    ensures !Contains(text, "AV_CODEC_ID_HEVC") && Found(H264_MAP, text) ==>
      var e := MatchFrom(H264_MAP, text, Search(H264_MAP, text).value).value;
      && e > 0 && text[e - 1] == '\n'
      && (forall j :: 0 <= j < Search(H264_MAP, text).value ==> MatchFrom(H264_MAP, text, j).None?)
      && HevcMappingStep(text).value.0 == text[..e] + HEVC_MAPPING + text[e..]
    ensures HevcMappingStep(text).Ok? ==> Contains(HevcMappingStep(text).value.0, "AV_CODEC_ID_HEVC")
  {
    InsertAfterFirstPlaces(H264_MAP, text, HEVC_MAPPING);
    if !Contains(text, "AV_CODEC_ID_HEVC") && Found(H264_MAP, text) {
      var e := MatchFrom(H264_MAP, text, Search(H264_MAP, text).value).value;
      EndsAfterBreak(H264_MAP, text, Search(H264_MAP, text).value);
      ContainsInMiddle(text[..e], HEVC_MAPPING, text[e..], "AV_CODEC_ID_HEVC");
    }
  }

  /** Each mapping step, run on its own output, changes nothing and records nothing. */
  lemma {:induction false} MappingStepsSettle(text: string)
    ensures AudioMappingStep(text).Ok? ==>
      AudioMappingStep(AudioMappingStep(text).value.0) == Ok((AudioMappingStep(text).value.0, []))
    ensures HevcMappingStep(text).Ok? ==>
      HevcMappingStep(HevcMappingStep(text).value.0) == Ok((HevcMappingStep(text).value.0, []))
  {
    AudioMappingStepSpec(text);
    HevcMappingStepSpec(text);
  }

  lemma {:induction false} VideoAllowlistNames()
    ensures Contains(VIDEO_ALLOWLIST_NEW, "\"h264,hevc\"")
  {
    var list := "\"h264,hevc\"";
    assert VIDEO_ALLOWLIST_NEW == "return " + list + ";";
    assert list[0..|list|] == list && OccursAt(list, list, 0);
    ContainsInMiddle("return ", list, ";", list);
  }

  /**
   * The video allowlist: rewritten at most once, only while `"h264,hevc"` is absent, and after a
   * rewrite it is present, so a second step changes nothing. With no anchor the text is kept.
   */
  lemma {:induction false} VideoAllowlistSpec(text: string)
    ensures var r := VideoAllowlistStep(text);
      && |r.1| <= 1
      && (r.1 != [] <==> !Contains(text, "\"h264,hevc\"") && Found(VIDEO_ALLOWLIST, text))
      && (r.1 == [] ==> r.0 == text)
      && VideoAllowlistStep(r.0) == (r.0, [])
  {
    ReplaceFirstWrites(VIDEO_ALLOWLIST, text, VIDEO_ALLOWLIST_NEW);
    var r := VideoAllowlistStep(text);
    if r.1 != [] {
      VideoAllowlistNames();
      ContainsTrans(r.0, VIDEO_ALLOWLIST_NEW, "\"h264,hevc\"");
    }
  }

  lemma {:induction false} AudioAllowlistNames()
    ensures HasAudioAllowlist(AUDIO_ALLOWLIST_NEW)
  {
    var half := ",aac,ac3,eac3,dca\"";
    assert AUDIO_ALLOWLIST_NEW == "#define EXTRA_CODECS \"" + half + [];
    assert half[4..8] == ",ac3" && OccursAt(half, ",ac3", 4);
    assert half[8..13] == ",eac3" && OccursAt(half, ",eac3", 8);
    assert half[13..17] == ",dca" && OccursAt(half, ",dca", 13);
    ContainsInMiddle("#define EXTRA_CODECS \"", half, [], ",ac3");
    ContainsInMiddle("#define EXTRA_CODECS \"", half, [], ",eac3");
    ContainsInMiddle("#define EXTRA_CODECS \"", half, [], ",dca");
  }

  /** The audio allowlist, in the same way, guarded by `,ac3`, `,eac3` and `,dca`. */
  lemma {:induction false} AudioAllowlistSpec(text: string)
    ensures var r := AudioAllowlistStep(text);
      && |r.1| <= 1
      && (r.1 != [] <==> !HasAudioAllowlist(text) && Found(AUDIO_ALLOWLIST, text))
      && (r.1 == [] ==> r.0 == text)
      && AudioAllowlistStep(r.0) == (r.0, [])
  {
    ReplaceFirstWrites(AUDIO_ALLOWLIST, text, AUDIO_ALLOWLIST_NEW);
    var r := AudioAllowlistStep(text);
    if r.1 != [] {
      AudioAllowlistNames();
      ContainsTrans(r.0, AUDIO_ALLOWLIST_NEW, ",ac3");
      ContainsTrans(r.0, AUDIO_ALLOWLIST_NEW, ",eac3");
      ContainsTrans(r.0, AUDIO_ALLOWLIST_NEW, ",dca");
    }
  }
}
