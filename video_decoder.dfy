/**
 * `patch_ffmpeg_video_decoder`: moving the HEVC label of the decoder thread-count switch out of
 * the `NOTREACHED` group and into the multithreaded branch of `ffmpeg_video_decoder.cc`.
 */
module VideoDecoder {
  import opened Wrappers
  import opened Text
  import opened Pattern
  import opened Fallback

  const H264_ERROR := "Could not find H264 case in ffmpeg_video_decoder.cc"
  const REMOVE_NOTE := "ffmpeg_video_decoder.cc: removed HEVC from NOTREACHED group"
  const INSERT_NOTE := "ffmpeg_video_decoder.cc: inserted HEVC into multithread branch"

  /** `[ \t]*case\s+VideoCodec::kHEVC:\s*\n`: the HEVC label line that is removed. */
  const HEVC_LINE := [Blanks] + Case("VideoCodec::kHEVC:") + [WsNlEnd]

  /** `[ \t]*case\s+VideoCodec::\w+:\s*\n`: any video label line. */
  const LABEL_LINE := [Blanks, Lit("case"), Ws1, Lit("VideoCodec::"), Word1, Lit(":"), WsNlEnd]

  /** `//[^\n]*\n\s*`: a comment line and the whitespace after it. */
  const COMMENT := [Lit("//"), RestOfLine, Lit("\n"), Ws]

  /**
   * The lookahead after the HEVC line: further label lines, blanks, comment lines, and then
   * `NOTREACHED`.
   */
  predicate LeadsToNotreached(s: string, j: nat)
    requires j <= |s|
  {
    var afterLabels := Repeat(LABEL_LINE, s, j);
    var afterComments := Repeat(COMMENT, s, afterLabels + RunLen(s, afterLabels, IsBlank));
    OccursAt(s, "NOTREACHED", afterComments)
  }

  /** `(\n)(<HEVC line>)(?=<lookahead>)` at `i`: where the HEVC line ends. */
  function RemovableAt(s: string, i: nat): Option<nat>
    requires i <= |s|
  {
    if i < |s| && s[i] == '\n' then Ahead(HEVC_LINE, s, i + 1) else None
  }

  /** Where `p` matches at `i`, provided the lookahead holds at the end of the match. */
  function Ahead(p: seq<Elem>, s: string, i: nat): Option<nat>
    requires i <= |s|
  {
    match MatchFrom(p, s, i)
    case Some(e) => if LeadsToNotreached(s, e) then Some(e) else None
    case None => None
  }

  /** The leftmost position from `start` where a removable HEVC line begins (at its '\n'). */
  function FindRemovable(s: string, start: nat): (r: Option<nat>)
    requires start <= |s|
    ensures r.Some? ==> start <= r.value <= |s| && RemovableAt(s, r.value).Some?
    ensures r.Some? ==> forall j :: start <= j < r.value ==> RemovableAt(s, j).None?
    ensures r.None? ==> forall j :: start <= j <= |s| ==> RemovableAt(s, j).None?
    decreases |s| - start
  {
    if RemovableAt(s, start).Some? then Some(start)
    else if start == |s| then None
    else FindRemovable(s, start + 1)
  }

  /** `notreached_hevc.subn(r"\1", text, count=1)`: the line break is kept, the line dropped. */
  function RemoveFromNotreached(s: string): (string, nat) {
    match FindRemovable(s, 0)
    case None => (s, 0)
    case Some(i) => (s[..i + 1] + s[RemovableAt(s, i).value..], 1)
  }

  /** `case\s+VideoCodec::kHEVC:\s*\n\s*case\s+VideoCodec::kH264:`: HEVC already shares H264's branch. */
  const ALREADY_OK := Case("VideoCodec::kHEVC:") + [WsNl] + Case("VideoCodec::kH264:")

  /** The HEVC label goes in before the first H264 label, at its indentation. */
  const HEVC_INSERTION := Insertion(
    ALREADY_OK,
    [Blanks] + Case("VideoCodec::kH264:"),
    ["case VideoCodec::kHEVC:"],
    H264_ERROR,
    INSERT_NOTE)

  /** Fails only for a missing H264 label; a success records at most the removal and the insertion. */
  function PatchVideoDecoder(text: string): (r: Result<(string, seq<string>)>)
    ensures r.Err? ==> r.message == H264_ERROR
    ensures r.Ok? ==> |r.value.1| <= 2
  {
    var (t, removed) := RemoveFromNotreached(text);
    var inserted :- Apply(HEVC_INSERTION, t);
    Ok((inserted.0, (if removed > 0 then [REMOVE_NOTE] else []) + inserted.1))
  }

  /**
   * The HEVC line from `i + 1` to `e` follows a line break at `i`, leads to `NOTREACHED`, and no
   * such line starts further left.
   */
  predicate LeftmostRemoval(s: string, i: nat, e: nat) {
    && i < |s| && s[i] == '\n'
    && MatchFrom(HEVC_LINE, s, i + 1) == Some(e) && LeadsToNotreached(s, e)
    && (forall j :: 0 <= j < i ==> RemovableAt(s, j).None?)
  }

  /**
   * At most one HEVC line is removed: the leftmost one that is followed only by label lines and
   * comments before `NOTREACHED`. The line break before it and everything after it are kept;
   * with nothing removable the text is unchanged.
   */
  lemma {:induction false} RemoveAtMostOne(s: string)
    ensures var (t, n) := RemoveFromNotreached(s);
      && n <= 1
      && (n == 0 <==> forall j :: 0 <= j <= |s| ==> RemovableAt(s, j).None?)
      && (n == 0 ==> t == s)
      && (n == 1 ==> exists i: nat, e: nat :: LeftmostRemoval(s, i, e) && t == s[..i + 1] + s[e..] && |t| < |s|)
  {
    if FindRemovable(s, 0).Some? {
      var i := FindRemovable(s, 0).value;
      var e := RemovableAt(s, i).value;
      HevcLineAdvances(s, i + 1);
      var t := s[..i + 1] + s[e..];
      assert RemoveFromNotreached(s) == (t, 1);
      assert LeftmostRemoval(s, i, e);
      assert |t| < |s|;
    }
  }

  lemma {:induction false} HevcLineAdvances(s: string, j: nat)
    requires j <= |s| && MatchFrom(HEVC_LINE, s, j).Some?
    ensures MatchFrom(HEVC_LINE, s, j).value > j
  {
    assert Advancing(HEVC_LINE);
    AdvancingMatch(HEVC_LINE, s, j);
  }

  /**
   * The patch fails, with the H264 message, exactly when after the removal neither HEVC-before-H264
   * nor any H264 label is found; the removal and the insertion each record their entry exactly
   * when they happen.
   */
  lemma {:induction false} PatchVideoDecoderSpec(text: string)
    ensures var t := RemoveFromNotreached(text).0;
      && (PatchVideoDecoder(text).Err? <==> !Found(ALREADY_OK, t) && !Found(HEVC_INSERTION.marker, t))
      && (PatchVideoDecoder(text).Err? ==> PatchVideoDecoder(text).message == H264_ERROR)
      && (PatchVideoDecoder(text).Ok? ==>
            var changes := PatchVideoDecoder(text).value.1;
            && (REMOVE_NOTE in changes <==> RemoveFromNotreached(text).1 == 1)
            && (INSERT_NOTE in changes <==> !Found(ALREADY_OK, t))
            && (Found(ALREADY_OK, t) ==> PatchVideoDecoder(text).value.0 == t))
  {
    var t := RemoveFromNotreached(text).0;
    RemoveAtMostOne(text);
    ApplyFails(HEVC_INSERTION, t);
    assert REMOVE_NOTE != INSERT_NOTE;
  }

  /**
   * Once inserted, the HEVC label directly precedes the H264 label, so `already_ok` is found and
   * a second insertion adds nothing.
   */
  lemma {:induction false} InsertionSettles(t: string)
    requires Apply(HEVC_INSERTION, t).Ok?
    ensures Found(ALREADY_OK, Apply(HEVC_INSERTION, t).value.0)
    ensures Apply(HEVC_INSERTION, Apply(HEVC_INSERTION, t).value.0) == Ok((Apply(HEVC_INSERTION, t).value.0, []))
  {
    InsertionShape();
    ApplyJoins(HEVC_INSERTION, t, "case", "VideoCodec::kHEVC:", Case("VideoCodec::kH264:"));
  }

  lemma {:induction false} InsertionShape()
    ensures HEVC_INSERTION.guard == [Lit("case"), Ws1, Lit("VideoCodec::kHEVC:"), WsNl] + Case("VideoCodec::kH264:")
    ensures HEVC_INSERTION.marker == [Blanks] + Case("VideoCodec::kH264:")
    ensures |HEVC_INSERTION.lines| == 1 && HEVC_INSERTION.lines[0] == "case" + " " + "VideoCodec::kHEVC:"
    ensures !IsWs("VideoCodec::kHEVC:"[0]) && !IsWs(Case("VideoCodec::kH264:")[0].s[0])
    ensures OpensWithLit(Case("VideoCodec::kH264:")) && Unanchored(Case("VideoCodec::kH264:"))
  {
  }

  /** After a successful patch HEVC shares H264's multithreaded branch. */
  lemma {:induction false} PatchedSharesBranch(text: string)
    requires PatchVideoDecoder(text).Ok?
    ensures Found(ALREADY_OK, PatchVideoDecoder(text).value.0)
  {
    InsertionSettles(RemoveFromNotreached(text).0);
  }
}
