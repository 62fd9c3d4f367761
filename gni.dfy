/**
 * The `ffmpeg_generated.gni` patcher: extra `.c` sources are spliced into the marked block
 * when one exists, or a fresh marked block is appended.
 */
module Gni {
  import opened Wrappers
  import opened Text
  import opened Newline
  import opened LineScan

  // The two long fixed lines are spelled in two halves each, which keeps facts about their characters cheap.
  const GNI_MARKER := "# Extra codec sources for custom" + " Chrome builds (HEVC, AC3, EAC3, DTS)"
  const BRANDING_CONDITION := "if (ffmpeg_branding == \"Chrome\"" + " || ffmpeg_branding == \"ChromeOS\") {"
  const LIST_OPEN := "  ffmpeg_c_sources += ["
  const FFMPEG_ROOT := "third_party/ffmpeg"

  // ---------------------------------------------------------------------------
  // Quoted list entries: `^(\s*)"[^"\n]+",\s*$` and `LIST_ENTRY_RE`
  // ---------------------------------------------------------------------------

  /** What `[^"\n]+` accepts. */
  predicate IsQuotable(x: string) {
    |x| > 0 && forall k :: 0 <= k < |x| ==> x[k] != '"' && x[k] != '\n'
  }

  /** What the `path` group of `LIST_ENTRY_RE` accepts: `[^"\n]+\.c`. */
  predicate IsCPath(p: string) {
    IsQuotable(p) && |p| >= 3 && EndsWith(p, ".c")
  }

  /** The text between the quotes of a line shaped `\s*"<body>",\s*`. */
  function QuotedBody(line: string): (r: Option<string>)
    ensures r.Some? ==> IsQuotable(r.value)
  {
    TrimmedBody(TrimEndWs(line))
  }

  /** The body of a line whose trailing whitespace is already removed. */
  function TrimmedBody(t: string): (r: Option<string>)
    ensures r.Some? ==> IsQuotable(r.value)
  {
    var a := LeadingWsLen(t);
    if a + 3 <= |t| && t[a] == '"' && t[|t| - 2..] == "\"," && IsQuotable(t[a + 1..|t| - 2])
    then Some(t[a + 1..|t| - 2])
    else None
  }

  /** The `path` of a line matching `LIST_ENTRY_RE`. */
  function CSourceOf(line: string): (r: Option<string>)
    ensures r.Some? ==> IsCPath(r.value)
  {
    match QuotedBody(line)
    case Some(x) => if IsCPath(x) then Some(x) else None
    case None => None
  }

  /** `extract_c_sources`: the paths of all source-entry lines. */
  function ExtractCSources(text: string): (r: set<string>)
    ensures forall p :: p in r ==> IsCPath(p)
  {
    SourcesOf(Lines(text))
  }

  /** The paths named by the source-entry lines among `ls`. */
  function SourcesOf(ls: seq<string>): (r: set<string>)
    ensures forall p :: p in r ==> IsCPath(p)
  {
    set i | 0 <= i < |ls| && CSourceOf(ls[i]).Some? :: CSourceOf(ls[i]).value
  }

  /** A line the patcher writes, `indent"src",nl`, is read back by the extractor as `src`. */
  lemma {:induction false} SourceLineRoundTrip(indent: string, src: string, nl: string)
    requires AllWs(indent) && AllWs(nl) && IsQuotable(src)
    ensures QuotedBody(indent + "\"" + src + "\"," + nl) == Some(src)
    ensures IsCPath(src) ==> CSourceOf(indent + "\"" + src + "\"," + nl) == Some(src)
  {
    var t := indent + "\"" + src + "\",";
    TrimEndWsAppendWs(t, nl);
    assert (indent + "\"" + src + "\"," + nl) == t + nl;
    assert TrimEndWs(t) == t;
    assert t[..|indent|] == indent;
    assert t[|indent|] == '"';
    LeadingWsLenIs(t, |indent|);
    assert t[|t| - 2..] == "\",";
    assert t[|indent| + 1..|t| - 2] == src;
  }

  /** `Path(source).name`: the part after the last `/`. */
  function BaseName(p: string): string {
    if p == [] || p[|p| - 1] == '/' then [] else BaseName(p[..|p| - 1]) + [p[|p| - 1]]
  }

  /** The basename is the longest suffix without a `/`: either all of the path or what follows its last `/`. */
  lemma {:induction false} BaseNameIsLastPart(p: string)
    ensures var b := BaseName(p);
      && EndsWith(p, b)
      && (forall k :: 0 <= k < |b| ==> b[k] != '/')
      && (|b| < |p| ==> p[|p| - |b| - 1] == '/')
  {
    if p != [] && p[|p| - 1] != '/' {
      var q := p[..|p| - 1];
      var c := p[|p| - 1];
      BaseNameIsLastPart(q);
      var b := BaseName(q);
      var bp := BaseName(p);
      assert bp == b + [c];
      var n := |p| - |bp|;
      assert n == |q| - |b|;
      assert p[n..] == q[n..] + [c];
      assert forall k :: 0 <= k < |b| ==> bp[k] == b[k];
      if n > 0 {
        assert p[n - 1] == q[n - 1];
      }
    }
  }

  function BaseNames(s: set<string>): set<string> {
    set x | x in s :: BaseName(x)
  }

  /** The basenames of the sources accepted so far: the `added_basenames` set. */
  function AddedBaseNames(s: seq<string>): (r: set<string>)
    ensures forall b :: b in r <==> exists i :: 0 <= i < |s| && BaseName(s[i]) == b
  {
    if s == [] then {}
    else
      var init := s[..|s| - 1];
      var r := AddedBaseNames(init);
      assert forall i :: 0 <= i < |init| ==> init[i] == s[i];
      r + {BaseName(s[|s| - 1])}
  }

  // ---------------------------------------------------------------------------
  // The anchors of the managed block
  // ---------------------------------------------------------------------------

  predicate IsMarkerLine(line: string) {
    Contains(line, GNI_MARKER)
  }

  /**
   * `^\s*ffmpeg_c_sources\s*\+=\s*\[\s*$` on the line without its line break; the trailing
   * blanks `\s*$` absorbs include whatever `rstrip("\r\n")` removed.
   */
  predicate IsListOpenLine(line: string) {
    IsListOpenText(TrimEndWs(line))
  }

  /** The list-open shape of a line whose trailing whitespace is already removed. */
  predicate IsListOpenText(t: string) {
    var a := LeadingWsLen(t);
    OccursAt(t, "ffmpeg_c_sources", a) &&
    var c := a + 16 + LeadingWsLen(t[a + 16..]);
    OccursAt(t, "+=", c) &&
    var d := c + 2 + LeadingWsLen(t[c + 2..]);
    t[d..] == "["
  }

  /** `^\s*\]\s*$`. */
  predicate IsListCloseLine(line: string) {
    var t := TrimEndWs(line);
    t[LeadingWsLen(t)..] == "]"
  }

  predicate IsQuotedLine(line: string) {
    QuotedBody(line).Some?
  }

  /** Indent of new entries: that of the first quoted entry of the list, else the `]` line's indent plus two blanks. */
  function EntryIndent(ls: seq<string>, start: nat, close: nat): string
    requires close < |ls|
  {
    match FirstFrom(ls, start + 1, close, IsQuotedLine)
    case Some(i) => LeadingWs(ls[i])
    case None => LeadingWs(ls[close]) + "  "
  }

  /** `f'{indent}"{source}",{newline}'` for each source. */
  function SourceLines(indent: string, sources: seq<string>, nl: string): (r: seq<string>)
    ensures |r| == |sources|
    ensures forall i :: 0 <= i < |sources| ==> r[i] == indent + "\"" + sources[i] + "\"," + nl
  {
    seq(|sources|, i requires 0 <= i < |sources| => indent + "\"" + sources[i] + "\"," + nl)
  }

  /** The marker, list-open and list-close line indices the insertion anchors on. */
  datatype Block = Block(marker: nat, start: nat, close: nat)

  /** The first marker line, the first list-open line from it, and the first `]` line after that. */
  function FindBlock(ls: seq<string>): (r: Option<Block>)
    ensures r.Some? ==> r.value.marker <= r.value.start < r.value.close < |ls|
  {
    match FirstFrom(ls, 0, |ls|, IsMarkerLine)
    case None => None
    case Some(marker) =>
      match FirstFrom(ls, marker, |ls|, IsListOpenLine)
      case None => None
      case Some(start) =>
        match FirstFrom(ls, start + 1, |ls|, IsListCloseLine)
        case None => None
        case Some(close) => Some(Block(marker, start, close))
  }

  /** The three scans, each from where the previous one stopped, locate the block. */
  lemma {:induction false} FindBlockIs(ls: seq<string>, marker: nat, start: nat, close: nat)
    requires FirstFrom(ls, 0, |ls|, IsMarkerLine) == Some(marker)
    requires marker <= |ls| && FirstFrom(ls, marker, |ls|, IsListOpenLine) == Some(start)
    requires start < |ls| && FirstFrom(ls, start + 1, |ls|, IsListCloseLine) == Some(close)
    ensures FindBlock(ls) == Some(Block(marker, start, close))
  {
    var m0 := FirstFrom(ls, 0, |ls|, IsMarkerLine);
    assert m0 == Some(marker);
    var o0 := FirstFrom(ls, m0.value, |ls|, IsListOpenLine);
    assert o0 == Some(start);
    var c0 := FirstFrom(ls, o0.value + 1, |ls|, IsListCloseLine);
    assert c0 == Some(close);
  }

  /** `insert_into_managed_gni_block` as a value. */
  function InsertIntoBlock(text: string, sources: seq<string>): Option<string> {
    var ls := Lines(text);
    match FindBlock(ls)
    case None => None
    case Some(b) =>
      var ins := SourceLines(EntryIndent(ls, b.start, b.close), sources, DetectNewline(text));
      Some(Join(ls[..b.close] + ins + ls[b.close..]))
  }

  /** `insert_into_managed_gni_block`: the three scans and the optional indent scan, then the splice. */
  method InsertIntoManagedGniBlock(text: string, sources: seq<string>) returns (r: Option<string>)
    ensures r == InsertIntoBlock(text, sources)
  {
    var lines := Lines(text);
    var block := LocateBlock(lines);
    if block.None? {
      return None;
    }
    var close := block.value.close;
    var entryIndent := FindEntryIndent(lines, block.value.start, close);
    var insertLines := SourceLines(entryIndent, sources, DetectNewline(text));
    lines := lines[..close] + insertLines + lines[close..];
    return Some(Join(lines));
  }

  /** The indent scan: the first entry's indentation, or the closing bracket's plus two spaces. */
  method FindEntryIndent(lines: seq<string>, listStart: nat, close: nat) returns (entryIndent: string)
    requires close < |lines|
    ensures entryIndent == EntryIndent(lines, listStart, close)
  {
    var entryIndex := FindLine(lines, listStart + 1, close, IsQuotedLine);
    match entryIndex {
      case Some(i) => entryIndent := LeadingWs(lines[i]);
      case None => entryIndent := LeadingWs(lines[close]) + "  ";
    }
  }

  /** The marker, list-open and list-close scans of `insert_into_managed_gni_block`, each giving up with `None`. */
  method LocateBlock(lines: seq<string>) returns (b: Option<Block>)
    ensures b == FindBlock(lines)
  {
    var markerIndex := FindLine(lines, 0, |lines|, IsMarkerLine);
    if markerIndex.None? {
      return None;
    }
    var listStart := FindLine(lines, markerIndex.value, |lines|, IsListOpenLine);
    if listStart.None? {
      return None;
    }
    var listEnd := FindLine(lines, listStart.value + 1, |lines|, IsListCloseLine);
    if listEnd.None? {
      return None;
    }
    FindBlockIs(lines, markerIndex.value, listStart.value, listEnd.value);
    return Some(Block(markerIndex.value, listStart.value, listEnd.value));
  }

  // ---------------------------------------------------------------------------
  // Appending a fresh block
  // ---------------------------------------------------------------------------

  /** The lines of the appended block, before line breaks are added. */
  function BlockLines(sources: seq<string>): (r: seq<string>)
    ensures |r| == |sources| + 5
    ensures r[0] == GNI_MARKER && r[1] == BRANDING_CONDITION && r[2] == LIST_OPEN
    ensures forall i :: 0 <= i < |sources| ==> r[3 + i] == "    \"" + sources[i] + "\","
    ensures r[|r| - 2] == "  ]" && r[|r| - 1] == "}"
  {
    [GNI_MARKER, BRANDING_CONDITION, LIST_OPEN]
    + seq(|sources|, i requires 0 <= i < |sources| => "    \"" + sources[i] + "\",")
    + ["  ]", "}"]
  }

  /** Each line followed by the line break: `newline.join(lines) + newline` as a list of lines. */
  function Terminated(ls: seq<string>, nl: string): (r: seq<string>)
    ensures |r| == |ls| && forall i :: 0 <= i < |ls| ==> r[i] == ls[i] + nl
  {
    seq(|ls|, i requires 0 <= i < |ls| => ls[i] + nl)
  }

  /** Line breaks added so that the text ends in a blank line before the block. */
  function Padding(text: string, nl: string): string {
    if EndsWith(text, nl + nl) then []
    else if EndsWith(text, nl) then nl
    else nl + nl
  }

  /** `append_managed_gni_block`: the text is kept as a prefix and something is always added. */
  function AppendBlock(text: string, sources: seq<string>): (r: string)
    ensures |r| > |text| && r[..|text|] == text
  {
    var nl := DetectNewline(text);
    text + Padding(text, nl) + Join(Terminated(BlockLines(sources), nl))
  }

  /**
   * The padding is the shortest of "", nl and nl + nl after which the text ends in two line
   * breaks: the original text is kept and exactly the missing line breaks are added.
   */
  lemma {:induction false} PaddingMinimal(text: string, nl: string)
    requires nl == "\n" || nl == "\r\n"
    ensures EndsWith(text + Padding(text, nl), nl + nl)
    ensures forall q :: q in [[], nl] && |q| < |Padding(text, nl)| ==> !EndsWith(text + q, nl + nl)
  {
    EndsWithAppend(text, nl);
    EndsWithAppend(text + nl, nl);
    assert text + [] == text;
  }

  /** Text followed by a line break ends in two line breaks exactly when the text ends in one. */
  lemma {:induction false} EndsWithAppend(x: string, nl: string)
    ensures EndsWith(x + nl, nl + nl) <==> EndsWith(x, nl)
  {
    var n := |nl|;
    if |x| >= n {
      var tail := x[|x| - n..];
      assert (x + nl)[|x| + n - 2 * n..] == tail + nl;
      assert (tail + nl)[..n] == tail && (nl + nl)[..n] == nl;
    }
  }

  // ---------------------------------------------------------------------------
  // Selecting the sources to add
  // ---------------------------------------------------------------------------

  /** The warnings the patcher reports, with the messages it prints. */
  datatype Warning = MissingSource(path: string) | DuplicateBasename(source: string, base: string) {
    function Message(): string {
      match this
      case MissingSource(path) => "WARN: Missing ffmpeg source file: " + path
      case DuplicateBasename(source, base) =>
        "WARN: Skipping " + source + " due to duplicate object basename: " + base
    }
  }

  /** `FFMPEG_ROOT / source`. */
  function SourcePath(source: string): string {
    FFMPEG_ROOT + "/" + source
  }

  /** The catalog split into sources present on disk and a warning per missing one, in catalog order. */
  function Available(catalog: seq<string>, isFile: string -> bool): (r: (seq<string>, seq<Warning>))
    ensures forall s :: s in r.0 <==> s in catalog && isFile(SourcePath(s))
    ensures forall w :: w in r.1 ==> w.MissingSource? && exists s :: s in catalog && w.path == SourcePath(s) && !isFile(w.path)
    ensures forall s :: s in catalog && !isFile(SourcePath(s)) ==> MissingSource(SourcePath(s)) in r.1
    ensures |r.0| + |r.1| == |catalog|
    decreases |catalog|
  {
    if catalog == [] then ([], [])
    else
      var init := catalog[..|catalog| - 1];
      var s := catalog[|catalog| - 1];
      var before := Available(init, isFile);
      assert forall x :: x in catalog <==> x in init || x == s;
      if isFile(SourcePath(s)) then (before.0 + [s], before.1)
      else (before.0, before.1 + [MissingSource(SourcePath(s))])
  }

  /**
   * The second loop: sources already listed are skipped silently; a source whose basename is
   * already listed or already accepted is skipped with a warning; the rest are accepted.
   */
  function Select(avail: seq<string>, existing: set<string>, existingBases: set<string>): (r: (seq<string>, seq<Warning>))
    ensures forall x :: x in r.0 ==> x in avail && x !in existing && BaseName(x) !in existingBases
    ensures forall i, j :: 0 <= i < j < |r.0| ==> BaseName(r.0[i]) != BaseName(r.0[j])
    ensures forall x :: x in avail && x !in existing ==> x in r.0 || DuplicateBasename(x, BaseName(x)) in r.1
    ensures forall w :: w in r.1 ==>
      && w.DuplicateBasename? && w.source in avail && w.source !in existing && w.base == BaseName(w.source)
      && (w.base in existingBases || exists x :: x in r.0 && BaseName(x) == w.base)
    ensures |r.0| + |r.1| <= |avail|
    decreases |avail|
  {
    if avail == [] then ([], [])
    else
      var init := avail[..|avail| - 1];
      var s := avail[|avail| - 1];
      var before := Select(init, existing, existingBases);
      assert forall x :: x in avail <==> x in init || x == s;
      assert forall i :: 0 <= i < |before.0| ==> (before.0 + [s])[i] == before.0[i];
      SelectStep(before, s, existing, existingBases)
  }

  /** One iteration of the selection loop on the accepted sources and warnings so far. */
  function SelectStep(before: (seq<string>, seq<Warning>), s: string, existing: set<string>, existingBases: set<string>)
    : (seq<string>, seq<Warning>)
  {
    var base := BaseName(s);
    if s in existing then before
    else if base in existingBases || base in AddedBaseNames(before.0) then
      (before.0, before.1 + [DuplicateBasename(s, base)])
    else
      (before.0 + [s], before.1)
  }

  /** `patch_ffmpeg_generated_gni` as a value: the new text, the number of sources added, the warnings. */
  function PatchGni(text: string, catalog: seq<string>, isFile: string -> bool): (string, nat, seq<Warning>) {
    var available := Available(catalog, isFile);
    var existing := ExtractCSources(text);
    var selected := Select(available.0, existing, BaseNames(existing));
    var warnings := available.1 + selected.1;
    if selected.0 == [] then (text, 0, warnings)
    else (Updated(text, selected.0), |selected.0|, warnings)
  }

  /** Insert into the managed block when there is one, otherwise append a new block. */
  function Updated(text: string, sources: seq<string>): string {
    match InsertIntoBlock(text, sources)
    case Some(t) => t
    case None => AppendBlock(text, sources)
  }

  /** The first loop of `patch_ffmpeg_generated_gni`: keep the sources present on disk, warn about the rest. */
  method CheckAvailable(catalog: seq<string>, isFile: string -> bool)
    returns (availableSources: seq<string>, warnings: seq<Warning>)
    ensures (availableSources, warnings) == Available(catalog, isFile)
  {
    availableSources, warnings := [], [];
    for i := 0 to |catalog|
      invariant (availableSources, warnings) == Available(catalog[..i], isFile)
    {
      assert catalog[..i + 1][..i] == catalog[..i];
      var source := catalog[i];
      if isFile(SourcePath(source)) {
        availableSources := availableSources + [source];
      } else {
        warnings := warnings + [MissingSource(SourcePath(source))];
      }
    }
    assert catalog[..|catalog|] == catalog;
  }

  /**
   * The second loop: skip listed sources, warn about and skip basename collisions, and grow the
   * list of accepted sources with the set of their basenames.
   */
  method SelectSources(availableSources: seq<string>, allExisting: set<string>, existingBasenames: set<string>)
    returns (sourcesToAdd: seq<string>, warnings: seq<Warning>)
    ensures (sourcesToAdd, warnings) == Select(availableSources, allExisting, existingBasenames)
  {
    sourcesToAdd, warnings := [], [];
    var addedBasenames: set<string> := {};
    for i := 0 to |availableSources|
      invariant (sourcesToAdd, warnings) == Select(availableSources[..i], allExisting, existingBasenames)
      invariant addedBasenames == AddedBaseNames(sourcesToAdd)
    {
      SelectUnfold(availableSources, i, allExisting, existingBasenames);
      sourcesToAdd, warnings, addedBasenames :=
        SelectOne(sourcesToAdd, warnings, addedBasenames, availableSources[i], allExisting, existingBasenames);
    }
    assert availableSources[..|availableSources|] == availableSources;
  }

  /** One iteration of the second loop, on the accepted sources, warnings and basenames so far. */
  method SelectOne(sourcesToAdd: seq<string>, warnings: seq<Warning>, addedBasenames: set<string>, source: string,
                   allExisting: set<string>, existingBasenames: set<string>)
    returns (sources': seq<string>, warnings': seq<Warning>, added': set<string>)
    requires addedBasenames == AddedBaseNames(sourcesToAdd)
    ensures (sources', warnings') == SelectStep((sourcesToAdd, warnings), source, allExisting, existingBasenames)
    ensures added' == AddedBaseNames(sources')
  {
    sources', warnings', added' := sourcesToAdd, warnings, addedBasenames;
    if source !in allExisting {
      var baseName := BaseName(source);
      if baseName in existingBasenames || baseName in addedBasenames {
        warnings' := warnings + [DuplicateBasename(source, baseName)];
      } else {
        assert (sourcesToAdd + [source])[..|sourcesToAdd|] == sourcesToAdd;
        sources' := sourcesToAdd + [source];
        added' := addedBasenames + {baseName};
      }
    }
  }

  lemma {:induction false} SelectUnfold(avail: seq<string>, i: nat, existing: set<string>, existingBases: set<string>)
    requires i < |avail|
    ensures Select(avail[..i + 1], existing, existingBases) ==
      SelectStep(Select(avail[..i], existing, existingBases), avail[i], existing, existingBases)
  {
    assert avail[..i + 1][..i] == avail[..i];
  }

  /** `patch_ffmpeg_generated_gni`: both loops, then the insert-or-append. */
  method PatchFfmpegGeneratedGni(text: string, catalog: seq<string>, isFile: string -> bool)
    returns (updated: string, count: nat, warnings: seq<Warning>)
    ensures (updated, count, warnings) == PatchGni(text, catalog, isFile)
  {
    var availableSources, missingWarnings := CheckAvailable(catalog, isFile);
    var allExisting := ExtractCSources(text);
    var existingBasenames := BaseNames(allExisting);
    var sourcesToAdd, duplicateWarnings := SelectSources(availableSources, allExisting, existingBasenames);
    warnings := missingWarnings + duplicateWarnings;
    if sourcesToAdd == [] {
      return text, 0, warnings;
    }
    var inserted := InsertIntoManagedGniBlock(text, sourcesToAdd);
    if inserted.None? {
      updated := AppendBlock(text, sourcesToAdd);
    } else {
      updated := inserted.value;
    }
    count := |sourcesToAdd|;
  }

  // ---------------------------------------------------------------------------
  // Properties
  // ---------------------------------------------------------------------------

  /**
   * The insertion finds a block exactly when some marker line is followed (at or after it) by a
   * list-open line that is followed by a `]` line.
   */
  lemma {:induction false} FindBlockExists(ls: seq<string>)
    ensures FindBlock(ls).Some? <==>
      exists m, o, c :: 0 <= m <= o < c < |ls| && IsMarkerLine(ls[m]) && IsListOpenLine(ls[o]) && IsListCloseLine(ls[c])
  {
    if FindBlock(ls).Some? {
      var b := FindBlock(ls).value;
      assert IsMarkerLine(ls[b.marker]) && IsListOpenLine(ls[b.start]) && IsListCloseLine(ls[b.close]);
    }
    if m, o, c :| 0 <= m <= o < c < |ls| && IsMarkerLine(ls[m]) && IsListOpenLine(ls[o]) && IsListCloseLine(ls[c]) {
      FindBlockFrom(ls, m, o, c);
    }
  }

  lemma {:induction false} FindBlockFrom(ls: seq<string>, m: nat, o: nat, c: nat)
    requires m <= o < c < |ls| && IsMarkerLine(ls[m]) && IsListOpenLine(ls[o]) && IsListCloseLine(ls[c])
    ensures FindBlock(ls).Some?
  {
    var m0 := FirstFrom(ls, 0, |ls|, IsMarkerLine);
    FirstFromSpec(ls, 0, |ls|, IsMarkerLine);
    assert m0.Some?;
    var o0 := FirstFrom(ls, m0.value, |ls|, IsListOpenLine);
    FirstFromSpec(ls, m0.value, |ls|, IsListOpenLine);
    assert o0.Some?;
    var c0 := FirstFrom(ls, o0.value + 1, |ls|, IsListCloseLine);
    FirstFromSpec(ls, o0.value + 1, |ls|, IsListCloseLine);
    assert c0.Some?;
  }

  /** A written entry line is a line of the split and ends in its line break. */
  lemma {:induction false} SourceLineShape(indent: string, src: string, nl: string)
    requires NoNewline(indent) && IsQuotable(src) && (nl == "\n" || nl == "\r\n")
    ensures var l := indent + "\"" + src + "\"," + nl; IsLine(l) && EndsInNewline(l)
  {
    var l := indent + "\"" + src + "\"," + nl;
    forall k | 0 <= k < |l| - 1 ensures l[k] != '\n' {
      if k < |indent| {
        assert l[k] == indent[k];
      } else if |indent| < k < |indent| + 1 + |src| {
        assert l[k] == src[k - |indent| - 1];
      }
    }
  }

  /** The indent of new entries is blank and holds no line break. */
  lemma {:induction false} EntryIndentBlank(ls: seq<string>, start: nat, close: nat)
    requires close < |ls| && LinesShape(ls) && IsListCloseLine(ls[close])
    ensures AllWs(EntryIndent(ls, start, close)) && NoNewline(EntryIndent(ls, start, close))
  {
    match FirstFrom(ls, start + 1, close, IsQuotedLine)
    case Some(i) =>
      IndentOfNonBlank(ls[i]);
    case None =>
      IndentOfNonBlank(ls[close]);
      var w := LeadingWs(ls[close]);
      assert forall k :: 0 <= k < |w + "  "| ==> (w + "  ")[k] == if k < |w| then w[k] else ' ';
  }

  /**
   * When the block is found, the result splits into the original lines with one entry line per
   * source, in order, just before the block's `]` line; nothing else changes, and each new line
   * reads back as its source.
   */
  lemma {:induction false} InsertSplices(text: string, sources: seq<string>)
    requires forall s :: s in sources ==> IsQuotable(s)
    requires FindBlock(Lines(text)).Some?
    ensures var ls := Lines(text);
      var c := FindBlock(ls).value.close;
      var ins := SourceLines(EntryIndent(ls, FindBlock(ls).value.start, c), sources, DetectNewline(text));
      var r := InsertIntoBlock(text, sources);
      && r.Some?
      && IsListCloseLine(ls[c])
      && Lines(r.value) == ls[..c] + ins + ls[c..]
      && r.value == Join(ls[..c]) + Join(ins) + Join(ls[c..])
      && text == Join(ls[..c]) + Join(ls[c..])
      && (forall i :: 0 <= i < |sources| ==> QuotedBody(ins[i]) == Some(sources[i]))
  {
    var ls := Lines(text);
    var b := FindBlock(ls).value;
    var indent := EntryIndent(ls, b.start, b.close);
    var nl := DetectNewline(text);
    var ins := SourceLines(indent, sources, nl);
    assert IsListCloseLine(ls[b.close]);
    EntryIndentBlank(ls, b.start, b.close);
    forall i | 0 <= i < |ins|
      ensures IsLine(ins[i]) && EndsInNewline(ins[i]) && QuotedBody(ins[i]) == Some(sources[i])
    {
      assert sources[i] in sources;
      SourceLineShape(indent, sources[i], nl);
      SourceLineRoundTrip(indent, sources[i], nl);
    }
    SpliceShape(ls, b.close, ins);
    LinesOfJoin(ls[..b.close] + ins + ls[b.close..]);
    JoinSplice(ls, b.close, ins);
  }

  /** The block's fixed lines and its entry lines hold no line break. */
  lemma {:induction false} BlockLinesShape(sources: seq<string>, nl: string)
    requires forall s :: s in sources ==> IsQuotable(s)
    requires nl == "\n" || nl == "\r\n"
    ensures var ls := Terminated(BlockLines(sources), nl);
      forall i :: 0 <= i < |ls| ==> IsLine(ls[i]) && EndsInNewline(ls[i])
  {
    var bl := BlockLines(sources);
    FixedLinesNoNewline();
    BreakShape(nl);
    forall i | 0 <= i < |bl| ensures IsLine(bl[i] + nl) && EndsInNewline(bl[i] + nl) {
      if 3 <= i < |bl| - 2 {
        assert sources[i - 3] in sources;
        EntryNoNewline(sources[i - 3]);
      }
      TerminatedLine(bl[i], nl);
    }
  }

  lemma {:induction false} EntryNoNewline(src: string)
    requires IsQuotable(src)
    ensures NoNewline("    \"" + src + "\",")
  {
    assert NoNewline(src);
    NoNewlineConcat("    \"", src);
    NoNewlineConcat("    \"" + src, "\",");
  }

  lemma {:induction false} FixedLinesNoNewline()
    ensures NoNewline(GNI_MARKER) && NoNewline(BRANDING_CONDITION) && NoNewline(LIST_OPEN)
  {
    var m1, m2 := "# Extra codec sources for custom", " Chrome builds (HEVC, AC3, EAC3, DTS)";
    assert NoNewline(m1) && NoNewline(m2);
    NoNewlineConcat(m1, m2);
    var c1, c2 := "if (ffmpeg_branding == \"Chrome\"", " || ffmpeg_branding == \"ChromeOS\") {";
    assert NoNewline(c1) && NoNewline(c2);
    NoNewlineConcat(c1, c2);
  }

  lemma {:induction false} ListOpenLineMatches(nl: string)
    requires nl == "\n" || nl == "\r\n"
    ensures IsListOpenLine(LIST_OPEN + nl)
  {
    var t := LIST_OPEN;
    TrimEndWsAppendWs(t, nl);
    assert TrimEndWs(t) == t by { assert t[22] == '['; }
    ListOpenTextMatches();
  }

  lemma {:induction false} ListOpenTextMatches()
    ensures IsListOpenText(LIST_OPEN)
  {
    ListOpenParts();
    ListOpenScan();
  }

  lemma {:induction false} ListOpenParts()
    ensures var t := LIST_OPEN;
      |t| == 23 && t[2..18] == "ffmpeg_c_sources" && t[19..21] == "+=" && t[22..] == "["
  {
    ListOpenName();
    assert LIST_OPEN[19..21] == "+=";
    assert LIST_OPEN[22..] == "[";
  }

  lemma {:induction false} ListOpenName()
    ensures LIST_OPEN[2..18] == "ffmpeg_c_sources"
  {
  }

  /** The blank runs of the list-open line: two blanks before the name, one around `+=`. */
  lemma {:induction false} ListOpenScan()
    ensures var t := LIST_OPEN; LeadingWsLen(t) == 2 && LeadingWsLen(t[18..]) == 1 && LeadingWsLen(t[21..]) == 1
  {
    ListOpenLead();
    ListOpenAfterName();
    ListOpenAfterOp();
  }

  lemma {:induction false} ListOpenLead()
    ensures LeadingWsLen(LIST_OPEN) == 2
  {
    var t := LIST_OPEN;
    assert t[..2] == "  " && t[2] == 'f';
    LeadingWsLenIs(t, 2);
  }

  lemma {:induction false} ListOpenAfterName()
    ensures LeadingWsLen(LIST_OPEN[18..]) == 1
  {
    var u := LIST_OPEN[18..];
    assert u == " += [";
    OneBlankThen(u, '+');
  }

  lemma {:induction false} ListOpenAfterOp()
    ensures LeadingWsLen(LIST_OPEN[21..]) == 1
  {
    var u := LIST_OPEN[21..];
    assert u == " [";
    OneBlankThen(u, '[');
  }

  lemma {:induction false} OneBlankThen(u: string, c: char)
    requires |u| >= 2 && u[0] == ' ' && u[1] == c && !IsWs(c)
    ensures LeadingWsLen(u) == 1
  {
    assert u[..1] == " ";
    LeadingWsLenIs(u, 1);
  }

  lemma {:induction false} ListCloseLineMatches(nl: string)
    requires nl == "\n" || nl == "\r\n"
    ensures IsListCloseLine("  ]" + nl)
  {
    TrimEndWsAppendWs("  ]", nl);
    assert TrimEndWs("  ]") == "  ]";
    LeadingWsLenIs("  ]", 2);
  }

  /**
   * The appended block splits into the padded original lines followed by the block's lines,
   * each ending in the detected line break.
   */
  lemma {:induction false} AppendBlockLines(text: string, sources: seq<string>)
    requires forall s :: s in sources ==> IsQuotable(s)
    ensures var nl := DetectNewline(text);
      Lines(AppendBlock(text, sources)) == Lines(text + Padding(text, nl)) + Terminated(BlockLines(sources), nl)
  {
    var nl := DetectNewline(text);
    var pre := text + Padding(text, nl);
    var block := Terminated(BlockLines(sources), nl);
    PaddedEndsInNewline(text, nl);
    BlockLinesShape(sources, nl);
    assert LinesShape(block);
    assert AppendBlock(text, sources) == pre + Join(block);
    LinesAfter(pre, block);
  }

  lemma {:induction false} PaddedEndsInNewline(text: string, nl: string)
    requires nl == "\n" || nl == "\r\n"
    ensures var pre := text + Padding(text, nl); |pre| > 0 && pre[|pre| - 1] == '\n'
  {
    var pre := text + Padding(text, nl);
    PaddingMinimal(text, nl);
    var nn := nl + nl;
    assert pre[|pre| - 1] == pre[|pre| - |nn|..][|nn| - 1] == nn[|nn| - 1];
  }

  /** A later insertion finds a block in appended text: the one just appended, or an earlier one. */
  lemma {:induction false} AppendFindsBlock(text: string, sources: seq<string>)
    requires forall s :: s in sources ==> IsQuotable(s)
    ensures FindBlock(Lines(AppendBlock(text, sources))).Some?
  {
    var nl := DetectNewline(text);
    var ls := Lines(AppendBlock(text, sources));
    var n := |Lines(text + Padding(text, nl))|;
    AppendBlockLines(text, sources);
    assert ls[n] == GNI_MARKER + nl;
    assert OccursAt(GNI_MARKER + nl, GNI_MARKER, 0);
    assert ls[n + 2] == LIST_OPEN + nl;
    ListOpenLineMatches(nl);
    assert ls[n + 3 + |sources|] == "  ]" + nl;
    ListCloseLineMatches(nl);
    FindBlockFrom(ls, n, n + 2, n + 3 + |sources|);
  }

  // ---------------------------------------------------------------------------
  // A second run adds nothing
  // ---------------------------------------------------------------------------

  lemma {:induction false} SourceListed(ls: seq<string>, i: nat)
    requires i < |ls| && CSourceOf(ls[i]).Some?
    ensures CSourceOf(ls[i]).value in SourcesOf(ls)
  {
  }

  lemma {:induction false} SourceOrigin(ls: seq<string>, p: string)
    requires p in SourcesOf(ls)
    ensures exists i :: 0 <= i < |ls| && CSourceOf(ls[i]) == Some(p)
  {
  }

  /** The sources of a concatenation of lines are those of its two parts. */
  lemma {:induction false} SourcesOfConcat(a: seq<string>, b: seq<string>)
    ensures SourcesOf(a + b) == SourcesOf(a) + SourcesOf(b)
  {
    var ab := a + b;
    forall p | p in SourcesOf(ab) ensures p in SourcesOf(a) + SourcesOf(b) {
      SourceOrigin(ab, p);
      var i :| 0 <= i < |ab| && CSourceOf(ab[i]) == Some(p);
      if i < |a| {
        assert ab[i] == a[i];
        SourceListed(a, i);
      } else {
        assert ab[i] == b[i - |a|];
        SourceListed(b, i - |a|);
      }
    }
    forall p | p in SourcesOf(a) ensures p in SourcesOf(ab) {
      SourceOrigin(a, p);
      var i :| 0 <= i < |a| && CSourceOf(a[i]) == Some(p);
      assert ab[i] == a[i];
      SourceListed(ab, i);
    }
    forall p | p in SourcesOf(b) ensures p in SourcesOf(ab) {
      SourceOrigin(b, p);
      var i :| 0 <= i < |b| && CSourceOf(b[i]) == Some(p);
      assert ab[|a| + i] == b[i];
      SourceListed(ab, |a| + i);
    }
  }

  /** Padding only adds line breaks: each line of the text keeps its source entry, at the same index. */
  lemma {:induction false} PaddedLines(text: string, nl: string)
    requires nl == "\n" || nl == "\r\n"
    ensures var ls, ps := Lines(text), Lines(text + Padding(text, nl));
      |ls| <= |ps| && forall i :: 0 <= i < |ls| ==> CSourceOf(ps[i]) == CSourceOf(ls[i])
  {
    if text == [] || text[|text| - 1] == '\n' {
      LinesAppend(text, Padding(text, nl));
    } else {
      UnterminatedPadding(text, nl);
    }
  }

  lemma {:induction false} UnterminatedPadding(text: string, nl: string)
    requires nl == "\n" || nl == "\r\n"
    requires text != [] && text[|text| - 1] != '\n'
    ensures var ls, ps := Lines(text), Lines(text + Padding(text, nl));
      |ls| <= |ps| && forall i :: 0 <= i < |ls| ==> CSourceOf(ps[i]) == CSourceOf(ls[i])
  {
    var ls := Lines(text);
    NotEndsWithBreak(text, nl);
    var pre := text + Padding(text, nl);
    BreakShape(nl);
    LinesTerminated(text, nl);
    var ps := Lines(pre);
    var last := ls[|ls| - 1];
    assert ps == ls[..|ls| - 1] + [last + nl, nl];
    CSourceOfAppendBreak(last, nl);
    forall i | 0 <= i < |ls| ensures CSourceOf(ps[i]) == CSourceOf(ls[i]) {
      if i < |ls| - 1 {
        assert ps[i] == ls[i];
      } else {
        assert ps[i] == last + nl;
      }
    }
  }

  /** Only the trimmed line decides whether it is a source entry. */
  lemma {:induction false} CSourceOfAppendBreak(l: string, nl: string)
    requires nl == "\n" || nl == "\r\n"
    ensures CSourceOf(l + nl) == CSourceOf(l)
  {
    assert AllWs(nl);
    TrimEndWsAppendWs(l, nl);
    SameTrimSameBody(l + nl, l);
  }

  /** Only the trimmed line decides what `QuotedBody` reads. */
  lemma {:induction false} SameTrimSameBody(x: string, y: string)
    requires TrimEndWs(x) == TrimEndWs(y)
    ensures QuotedBody(x) == QuotedBody(y)
  {
  }

  lemma {:induction false} NotEndsWithBreak(text: string, nl: string)
    requires nl == "\n" || nl == "\r\n"
    requires text != [] && text[|text| - 1] != '\n'
    ensures !EndsWith(text, nl) && !EndsWith(text, nl + nl) && Padding(text, nl) == nl + nl
  {
    LastDiffers(text, nl);
    LastDiffers(text, nl + nl);
  }

  lemma {:induction false} LastDiffers(s: string, p: string)
    requires s != [] && p != [] && s[|s| - 1] != p[|p| - 1]
    ensures !EndsWith(s, p)
  {
    if |p| <= |s| {
      assert s[|s| - |p|..][|p| - 1] == s[|s| - 1];
    }
  }

  lemma {:induction false} PaddedKeepsSources(text: string, nl: string)
    requires nl == "\n" || nl == "\r\n"
    ensures ExtractCSources(text) <= ExtractCSources(text + Padding(text, nl))
  {
    var ls, pre := Lines(text), text + Padding(text, nl);
    PaddedLines(text, nl);
    forall p | p in ExtractCSources(text) ensures p in ExtractCSources(pre) {
      SourceOrigin(ls, p);
      var i :| 0 <= i < |ls| && CSourceOf(ls[i]) == Some(p);
      SourceListed(Lines(pre), i);
    }
  }

  /** Splicing into the managed block keeps every listed source and lists the new ones. */
  lemma {:induction false} InsertKeepsSources(text: string, sources: seq<string>)
    requires forall s :: s in sources ==> IsCPath(s)
    requires InsertIntoBlock(text, sources).Some?
    ensures var t := InsertIntoBlock(text, sources).value;
      && ExtractCSources(text) <= ExtractCSources(t)
      && forall s :: s in sources ==> s in ExtractCSources(t)
  {
    var ls := Lines(text);
    InsertSplices(text, sources);
    var c := FindBlock(ls).value.close;
    var ins := SourceLines(EntryIndent(ls, FindBlock(ls).value.start, c), sources, DetectNewline(text));
    SpliceSources(ls, c, ins);
    EntriesListed(ins, sources);
  }

  lemma {:induction false} SpliceSources(ls: seq<string>, c: nat, ins: seq<string>)
    requires c <= |ls|
    ensures SourcesOf(ls[..c] + ins + ls[c..]) == SourcesOf(ls) + SourcesOf(ins)
  {
    assert ls == ls[..c] + ls[c..];
    SourcesOfConcat(ls[..c], ls[c..]);
    SourcesOfConcat(ls[..c] + ins, ls[c..]);
    SourcesOfConcat(ls[..c], ins);
  }

  lemma {:induction false} EntriesListed(ins: seq<string>, sources: seq<string>)
    requires |ins| == |sources|
    requires forall k :: 0 <= k < |sources| ==> QuotedBody(ins[k]) == Some(sources[k])
    requires forall s :: s in sources ==> IsCPath(s)
    ensures forall s :: s in sources ==> s in SourcesOf(ins)
  {
    forall k | 0 <= k < |sources| ensures sources[k] in SourcesOf(ins) {
      assert sources[k] in sources;
      SourceListed(ins, k);
    }
  }

  /** Appending a fresh block keeps every listed source and lists the new ones. */
  lemma {:induction false} AppendKeepsSources(text: string, sources: seq<string>)
    requires forall s :: s in sources ==> IsCPath(s)
    ensures var t := AppendBlock(text, sources);
      && ExtractCSources(text) <= ExtractCSources(t)
      && forall s :: s in sources ==> s in ExtractCSources(t)
  {
    var nl := DetectNewline(text);
    var block := Terminated(BlockLines(sources), nl);
    AppendBlockLines(text, sources);
    PaddedKeepsSources(text, nl);
    SourcesOfConcat(Lines(text + Padding(text, nl)), block);
    BlockListsSources(sources, nl);
  }

  /** Each entry line of an appended block reads back as its source. */
  lemma {:induction false} BlockListsSources(sources: seq<string>, nl: string)
    requires forall s :: s in sources ==> IsCPath(s)
    requires nl == "\n" || nl == "\r\n"
    ensures forall s :: s in sources ==> s in SourcesOf(Terminated(BlockLines(sources), nl))
  {
    forall k | 0 <= k < |sources| ensures sources[k] in SourcesOf(Terminated(BlockLines(sources), nl)) {
      assert sources[k] in sources;
      BlockEntryListed(sources, nl, k);
    }
  }

  lemma {:induction false} BlockEntryListed(sources: seq<string>, nl: string, k: nat)
    requires k < |sources| && IsCPath(sources[k])
    requires nl == "\n" || nl == "\r\n"
    ensures sources[k] in SourcesOf(Terminated(BlockLines(sources), nl))
  {
    var block := Terminated(BlockLines(sources), nl);
    var src := sources[k];
    var line := "    " + "\"" + src + "\"," + nl;
    assert block[3 + k] == line;
    BreakShape(nl);
    SourceLineRoundTrip("    ", src, nl);
    assert CSourceOf(block[3 + k]) == Some(src);
    SourceListed(block, 3 + k);
  }

  /** Whatever the update, the sources listed before and the ones just added are all listed after. */
  lemma {:induction false} UpdatedKeepsSources(text: string, sources: seq<string>)
    requires forall s :: s in sources ==> IsCPath(s)
    ensures ExtractCSources(text) <= ExtractCSources(Updated(text, sources))
    ensures forall s :: s in sources ==> s in ExtractCSources(Updated(text, sources))
  {
    if InsertIntoBlock(text, sources).Some? {
      InsertKeepsSources(text, sources);
    } else {
      AppendKeepsSources(text, sources);
    }
  }

  /**
   * Once every accepted source is listed, a selection against the grown listing accepts
   * nothing: each available source is listed, or its basename is.
   */
  lemma {:induction false} SelectNothingLeft(avail: seq<string>, existing: set<string>, bases: set<string>,
                          existing2: set<string>, bases2: set<string>)
    requires existing <= existing2 && bases <= bases2
    requires forall x :: x in Select(avail, existing, bases).0 ==> x in existing2 && BaseName(x) in bases2
    ensures Select(avail, existing2, bases2).0 == []
  {
    var r := Select(avail, existing, bases);
    forall x | x in avail ensures x in existing2 || BaseName(x) in bases2 {
      if x !in existing && x !in r.0 {
        var w := DuplicateBasename(x, BaseName(x));
        assert w in r.1;
        assert w.base in bases || exists y :: y in r.0 && BaseName(y) == w.base;
      }
    }
    var r2 := Select(avail, existing2, bases2).0;
    if r2 != [] {
      HeadIn(r2);
      assert false;
    }
  }

  lemma {:induction false} HeadIn(r: seq<string>)
    requires r != []
    ensures r[0] in r
  {
  }

  /** Running the patcher on its own output adds nothing and leaves the text as it is. */
  lemma {:induction false} PatchGniIdempotent(text: string, catalog: seq<string>, isFile: string -> bool)
    requires forall s :: s in catalog ==> IsCPath(s)
    ensures var once := PatchGni(text, catalog, isFile).0;
      PatchGni(once, catalog, isFile).0 == once && PatchGni(once, catalog, isFile).1 == 0
  {
    var av := Available(catalog, isFile).0;
    var ex := ExtractCSources(text);
    var sel := Select(av, ex, BaseNames(ex)).0;
    if sel != [] {
      var t := Updated(text, sel);
      var ex2 := ExtractCSources(t);
      UpdatedKeepsSources(text, sel);
      forall x | x in sel ensures x in ex2 && BaseName(x) in BaseNames(ex2) {
      }
      SelectNothingLeft(av, ex, BaseNames(ex), ex2, BaseNames(ex2));
    }
  }

  /** The text changes exactly when some source is added. */
  lemma {:induction false} PatchGniChangesIffAdded(text: string, catalog: seq<string>, isFile: string -> bool)
    ensures var r := PatchGni(text, catalog, isFile); r.0 != text <==> r.1 > 0
  {
    var av := Available(catalog, isFile).0;
    var ex := ExtractCSources(text);
    var sel := Select(av, ex, BaseNames(ex)).0;
    if sel != [] {
      UpdatedGrows(text, sel);
    }
  }

  /**
   * The count is the number of accepted sources: distinct catalog sources present on disk, none
   * listed before and each listed after; with none accepted the text is returned as it was.
   */
  lemma {:induction false} PatchGniAdds(text: string, catalog: seq<string>, isFile: string -> bool)
    requires forall s :: s in catalog ==> IsCPath(s)
    ensures var ex := ExtractCSources(text);
      var sel := Select(Available(catalog, isFile).0, ex, BaseNames(ex)).0;
      var r := PatchGni(text, catalog, isFile);
      && r.1 == |sel|
      && (sel == [] ==> r.0 == text)
      && (forall i, j :: 0 <= i < j < |sel| ==> sel[i] != sel[j])
      && (forall x :: x in sel ==> x in catalog && isFile(SourcePath(x)) && x !in ex && x in ExtractCSources(r.0))
      && ex <= ExtractCSources(r.0)
  {
    var av := Available(catalog, isFile).0;
    var ex := ExtractCSources(text);
    var sel := Select(av, ex, BaseNames(ex)).0;
    if sel != [] {
      forall x | x in sel ensures IsCPath(x) {
      }
      UpdatedKeepsSources(text, sel);
    }
  }

  lemma {:induction false} UpdatedGrows(text: string, sources: seq<string>)
    requires sources != []
    ensures |Updated(text, sources)| > |text|
  {
    var ls := Lines(text);
    if FindBlock(ls).Some? {
      var c := FindBlock(ls).value.close;
      var ins := SourceLines(EntryIndent(ls, FindBlock(ls).value.start, c), sources, DetectNewline(text));
      JoinSplice(ls, c, ins);
      assert Join(ins) == ins[0] + Join(ins[1..]);
    } else {
      var nl := DetectNewline(text);
      var block := Terminated(BlockLines(sources), nl);
      assert Join(block) == block[0] + Join(block[1..]);
    }
  }
}
