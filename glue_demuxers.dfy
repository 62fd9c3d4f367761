/**
 * `patch_ffmpeg_glue_demuxers`: the standalone AC3, EAC3 and DTS demuxers added to the demuxer
 * allowlist of `ffmpeg_glue.cc`, right after the `"aac"` entry.
 */
module GlueDemuxers {
  import opened Wrappers
  import opened Text
  import opened Pattern
  import opened Fallback

  const GLUE_ERROR := "Could not find aac demuxer push_back in ffmpeg_glue.cc"

  /** The demuxers to add, in the order their lines are written. */
  const DEMUXERS := ["ac3", "eac3", "dts"]

  /** `^[ \t]*allowed_demuxers\.push_back\(\s*"aac"\s*\)\s*;\s*\n` under `re.MULTILINE`. */
  const AAC_PUSH := [LineStart, Blanks, Lit("allowed_demuxers.push_back("), Ws, Lit("\"aac\""), Ws, Lit(")"), Ws,
                     Lit(";"), WsNlEnd]

  /** `push_back("<d>")`, the text whose presence means demuxer `d` is allowed already. */
  function PushBack(d: string): string {
    "push_back(\"" + d + "\")"
  }

  /** The demuxers of `ds`, in their order, whose `push_back` does not appear in `text`. */
  function Missing(text: string, ds: seq<string>): (r: seq<string>)
    ensures forall d :: d in r <==> d in ds && !Contains(text, PushBack(d))
    ensures |r| <= |ds|
  {
    if ds == [] then []
    else (if Contains(text, PushBack(ds[0])) then [] else [ds[0]]) + Missing(text, ds[1..])
  }

  /** One allowlist line for `d`, written at `indent`. */
  function PushLine(indent: string, d: string): string {
    indent + "allowed_demuxers." + PushBack(d) + ";\n"
  }

  function PushLines(indent: string, ds: seq<string>): string {
    if ds == [] then [] else PushLine(indent, ds[0]) + PushLines(indent, ds[1..])
  }

  /** `'/'.join(ds)`. */
  function Slashed(ds: seq<string>): string {
    if |ds| <= 1 then (if ds == [] then [] else ds[0]) else ds[0] + "/" + Slashed(ds[1..])
  }

  /**
   * The missing demuxers' lines go in right after the `"aac"` line, each at that line's
   * indentation (the `\s*` at its start, which stops at the blanks before `allowed_demuxers`).
   */
  /**
   * Fails only for a missing `"aac"` line; a success records one entry exactly when it changes
   * the text.
   */
  function PatchGlueDemuxers(text: string): (r: Result<(string, seq<string>)>)
    ensures r.Err? ==> r.message == GLUE_ERROR
    ensures r.Ok? ==> |r.value.1| <= 1 && (r.value.1 == [] <==> r.value.0 == text)
  {
    var missing := Missing(text, DEMUXERS);
    if missing == [] then Ok((text, []))
    else
      match Search(AAC_PUSH, text)
      case None => Err(GLUE_ERROR)
      case Some(i) =>
        var e := MatchFrom(AAC_PUSH, text, i).value;
        var lines := PushLines(IndentAt(text, i), missing);
        Ok((text[..e] + lines + text[e..], ["ffmpeg_glue.cc: inserted " + Slashed(missing) + " demuxer allowlist entries"]))
  }

  /** Every demuxer written by `PushLines` can be found afterwards by its `push_back`. */
  lemma {:induction false} PushLinesContain(indent: string, ds: seq<string>, d: string)
    requires d in ds
    ensures Contains(PushLines(indent, ds), PushBack(d))
  {
    var x := PushBack(d);
    assert x[0..|x|] == x && OccursAt(x, x, 0);
    if ds[0] == d {
      assert PushLines(indent, ds) == (indent + "allowed_demuxers.") + x + (";\n" + PushLines(indent, ds[1..]));
      ContainsInMiddle(indent + "allowed_demuxers.", x, ";\n" + PushLines(indent, ds[1..]), x);
    } else {
      PushLinesContain(indent, ds[1..], d);
      assert PushLines(indent, ds) == PushLine(indent, ds[0]) + PushLines(indent, ds[1..]) + [];
      ContainsInMiddle(PushLine(indent, ds[0]), PushLines(indent, ds[1..]), [], x);
    }
  }

  lemma {:induction false} PushBackOneLine(d: string)
    requires NoNewline(d)
    ensures NoNewline(PushBack(d))
  {
    NoNewlineConcat("push_back(\"", d);
    NoNewlineConcat("push_back(\"" + d, "\")");
  }

  /**
   * Nothing is missing: the text is kept and nothing recorded. Something is missing: the patch
   * fails with the aac message exactly when no `"aac"` line exists.
   */
  lemma {:induction false} PatchGlueSpec(text: string)
    ensures Missing(text, DEMUXERS) == [] ==> PatchGlueDemuxers(text) == Ok((text, []))
    ensures PatchGlueDemuxers(text).Err? <==> Missing(text, DEMUXERS) != [] && !Found(AAC_PUSH, text)
    ensures PatchGlueDemuxers(text).Err? ==> PatchGlueDemuxers(text).message == GLUE_ERROR
  {
  }

  /**
   * Something missing and an `"aac"` line present: the missing lines go in right after the
   * leftmost `"aac"` line, which starts and ends a line.
   */
  lemma {:induction false} PatchGlueInserts(text: string)
    requires Missing(text, DEMUXERS) != [] && Found(AAC_PUSH, text)
    ensures var i := Search(AAC_PUSH, text).value;
      var e := MatchFrom(AAC_PUSH, text, i).value;
      && (i == 0 || text[i - 1] == '\n') && e > 0 && text[e - 1] == '\n'
      && (forall j :: 0 <= j < i ==> MatchFrom(AAC_PUSH, text, j).None?)
      && PatchGlueDemuxers(text).value.0 == text[..e] + PushLines(IndentAt(text, i), Missing(text, DEMUXERS)) + text[e..]
  {
    var i := Search(AAC_PUSH, text).value;
    var e := MatchFrom(AAC_PUSH, text, i).value;
    EndsAfterBreak(AAC_PUSH, text, i);
    assert e > 0 && text[e - 1] == '\n';
    StartsLine(AAC_PUSH, text, i);
    assert PatchGlueDemuxers(text).value.0 == text[..e] + PushLines(IndentAt(text, i), Missing(text, DEMUXERS)) + text[e..];
  }

  /** After a successful patch every demuxer's `push_back` appears. */
  lemma {:induction false} PatchedListsAll(text: string)
    requires PatchGlueDemuxers(text).Ok?
    ensures forall d :: d in DEMUXERS ==> Contains(PatchGlueDemuxers(text).value.0, PushBack(d))
  {
    var missing := Missing(text, DEMUXERS);
    if missing != [] {
      var i := Search(AAC_PUSH, text).value;
      var e := MatchFrom(AAC_PUSH, text, i).value;
      var indent := IndentAt(text, i);
      EndsAfterBreak(AAC_PUSH, text, i);
      assert PatchGlueDemuxers(text).value.0 == text[..e] + PushLines(indent, missing) + text[e..];
      DemuxersOneLine();
      forall d | d in DEMUXERS
        ensures Contains(text[..e] + PushLines(indent, missing) + text[e..], PushBack(d))
      {
        assert NoNewline(d);
        assert d in missing || Contains(text, PushBack(d));
        SpliceLists(text, e, indent, missing, d);
      }
    }
  }

  lemma {:induction false} DemuxersOneLine()
    ensures forall d :: d in DEMUXERS ==> NoNewline(d)
  {
  }

  /**
   * After the lines for `missing` are spliced in right after a line break, demuxer `d` is listed:
   * by its new line when it was missing, by its old one otherwise.
   */
  lemma {:induction false} SpliceLists(text: string, e: nat, indent: string, missing: seq<string>, d: string)
    requires 0 < e <= |text| && text[e - 1] == '\n' && NoNewline(d)
    requires d in missing || Contains(text, PushBack(d))
    ensures Contains(text[..e] + PushLines(indent, missing) + text[e..], PushBack(d))
  {
    if d in missing {
      PushLinesContain(indent, missing, d);
      ContainsInMiddle(text[..e], PushLines(indent, missing), text[e..], PushBack(d));
    } else {
      PushBackOneLine(d);
      ContainsAfterSplice(text, e, PushLines(indent, missing), PushBack(d));
    }
  }

  /** A second run finds nothing missing and changes nothing. */
  lemma {:induction false} PatchGlueSettles(text: string)
    requires PatchGlueDemuxers(text).Ok?
    ensures var once := PatchGlueDemuxers(text).value.0;
      Missing(once, DEMUXERS) == [] && PatchGlueDemuxers(once) == Ok((once, []))
  {
    PatchedListsAll(text);
    NoneMissing(PatchGlueDemuxers(text).value.0, DEMUXERS);
  }

  lemma {:induction false} NoneMissing(text: string, ds: seq<string>)
    requires forall d :: d in ds ==> Contains(text, PushBack(d))
    ensures Missing(text, ds) == []
  {
    if ds != [] {
      assert ds[0] in ds;
      NoneMissing(text, ds[1..]);
    }
  }
}
