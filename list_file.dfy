/** `patch_list_file`: insert missing `&ff_*` entries before the NULL terminator of a list file. */
module ListFile {
  import opened Wrappers
  import opened Text
  import opened Newline

  const NULL_ERROR := "Could not find NULL terminator in list file"

  // ---------------------------------------------------------------------------
  // The entry line `^\s*ENTRY\s*,\s*$`
  // ---------------------------------------------------------------------------

  /** `line` is whitespace, the entry, whitespace, a comma and whitespace up to its end. */
  predicate IsEntryLine(line: string, e: string) {
    var t := TrimEndWs(line);
    |t| > 0 && t[|t| - 1] == ',' &&
    var u := TrimEndWs(t[..|t| - 1]);
    u[LeadingWsLen(u)..] == e
  }

  /** Some line of `text` is an entry line for `e`: the `re.search` of the filter succeeds. */
  predicate HasEntry(text: string, e: string) {
    var ls := Lines(text);
    exists i :: 0 <= i < |ls| && IsEntryLine(ls[i], e)
  }

  /** The entries that no line of `text` lists, in catalog order. */
  function Missing(text: string, entries: seq<string>): (r: seq<string>)
    ensures |r| <= |entries|
    ensures forall x :: x in r <==> x in entries && !HasEntry(text, x)
  {
    if entries == [] then []
    else
      var rest := Missing(text, entries[1..]);
      assert forall x :: x in entries <==> x == entries[0] || x in entries[1..];
      (if HasEntry(text, entries[0]) then [] else [entries[0]]) + rest
  }

  /** The filter keeps catalog order: a further entry lands at the end. */
  lemma {:induction false} MissingAppend(text: string, entries: seq<string>, e: string)
    ensures Missing(text, entries + [e]) == Missing(text, entries) + (if HasEntry(text, e) then [] else [e])
  {
    if entries == [] {
      assert [e][1..] == [];
    } else {
      assert (entries + [e])[1..] == entries[1..] + [e];
      MissingAppend(text, entries[1..], e);
    }
  }

  // ---------------------------------------------------------------------------
  // The NULL terminator `^\s*NULL\s*[,}; ]*(?://.*)?$`
  // ---------------------------------------------------------------------------

  predicate IsPunct(c: char) {
    c == ',' || c == '}' || c == ';' || c == ' '
  }

  predicate AllPunct(s: string) {
    forall k :: 0 <= k < |s| ==> IsPunct(s[k])
  }

  /** Length of the longest prefix made of `[,}; ]`. */
  function PunctLen(s: string): (k: nat)
    ensures k <= |s| && AllPunct(s[..k])
    ensures k < |s| ==> !IsPunct(s[k])
  {
    if |s| > 0 && IsPunct(s[0]) then
      var k := 1 + PunctLen(s[1..]);
      assert s[..k] == [s[0]] + s[1..][..k - 1];
      k
    else 0
  }

  lemma {:induction false} PunctLenIs(s: string, k: nat)
    requires k <= |s| && AllPunct(s[..k]) && (k < |s| ==> !IsPunct(s[k]))
    ensures PunctLen(s) == k
  {
    var n := PunctLen(s);
    forall j | 0 <= j < k ensures IsPunct(s[j]) { assert s[..k][j] == s[j]; }
    forall j | 0 <= j < n ensures IsPunct(s[j]) { assert s[..n][j] == s[j]; }
  }

  /** What may follow `NULL`, matched greedily: blanks, then `[,}; ]*`, then nothing or a `//` comment. */
  predicate NullTail(r: string) {
    var i := LeadingWsLen(r);
    var j := i + PunctLen(r[i..]);
    j == |r| || StartsWith(r[j..], "//")
  }

  /** The same tail as the regex reads it: some split into blanks, punctuation and an optional comment. */
  predicate NullTailSplit(r: string) {
    exists i: nat, j: nat ::
      i <= j <= |r| && AllWs(r[..i]) && AllPunct(r[i..j]) && (j == |r| || StartsWith(r[j..], "//"))
  }

  /** The greedy reading accepts exactly the tails some split of the regex accepts. */
  lemma {:induction false} NullTailGreedy(r: string)
    ensures NullTail(r) <==> NullTailSplit(r)
  {
    if NullTail(r) {
      GreedySplits(r);
    }
    if NullTailSplit(r) {
      var i: nat, j: nat :|
        i <= j <= |r| && AllWs(r[..i]) && AllPunct(r[i..j]) && (j == |r| || StartsWith(r[j..], "//"));
      SplitIsGreedy(r, i, j);
    }
  }

  /** The greedy reading is one of the splits. */
  lemma {:induction false} GreedySplits(r: string)
    requires NullTail(r)
    ensures NullTailSplit(r)
  {
    var i0 := LeadingWsLen(r);
    var j0 := i0 + PunctLen(r[i0..]);
    assert r[i0..j0] == r[i0..][..j0 - i0];
    assert AllWs(r[..i0]) && AllPunct(r[i0..j0]);
  }

  /** Any split the regex accepts is also accepted greedily. */
  lemma {:induction false} SplitIsGreedy(r: string, i: nat, j: nat)
    requires i <= j <= |r| && AllWs(r[..i]) && AllPunct(r[i..j]) && (j == |r| || StartsWith(r[j..], "//"))
    ensures NullTail(r)
  {
    var i0 := LeadingWsLen(r);
    forall m | 0 <= m < i ensures IsWs(r[m]) { assert r[..i][m] == r[m]; }
    forall m | 0 <= m < i0 ensures IsWs(r[m]) { assert r[..i0][m] == r[m]; }
    assert i <= i0;
    if j < |r| {
      assert r[j] == r[j..][..2][0] == '/';
      assert i0 <= j;
    }
    var k := if j < i0 then 0 else j - i0;
    forall m | 0 <= m < k ensures IsPunct(r[i0..][m]) {
      assert r[i0..][m] == r[i..j][i0 + m - i];
    }
    assert r[i0..][..k] == r[i0..i0 + k];
    if j == |r| && j <= i0 {
      PunctLenIs(r[i0..], 0);
    } else {
      PunctLenIs(r[i0..], j - i0);
    }
  }

  /** `line.rstrip("\r\n")` matches the NULL-terminator pattern. */
  predicate IsNullLine(line: string) {
    var s := StripEol(line);
    var a := LeadingWsLen(s);
    OccursAt(s, "NULL", a) && NullTail(s[a + 4..])
  }

  /**
   * On a NULL line `^(\s*)NULL\b` always matches: `NULL` follows the leading blanks and is not
   * followed by a word character, so the indent is the line's leading whitespace (the `"    "`
   * fallback never applies), and it holds no line break.
   */
  lemma {:induction false} NullLineIndent(line: string)
    requires IsLine(line) && IsNullLine(line)
    ensures var a := |LeadingWs(line)|;
      && OccursAt(line, "NULL", a)
      && (a + 4 == |line| || !IsWordChar(line[a + 4]))
      && NoNewline(LeadingWs(line))
  {
    var a := LeadingWsLen(StripEol(line));
    NullLineStart(line);
    assert LeadingWs(line) == line[..a];
    NullWordEnds(line);
    PrefixOfLine(line, a);
  }

  /** `NULL` on a NULL line is not followed by a word character. */
  lemma {:induction false} NullWordEnds(line: string)
    requires IsNullLine(line)
    ensures var a := LeadingWsLen(StripEol(line));
      a + 4 <= |line| && (a + 4 == |line| || !IsWordChar(line[a + 4]))
  {
    var s := StripEol(line);
    var a := LeadingWsLen(s);
    if a + 4 < |line| {
      if a + 4 < |s| {
        assert line[a + 4] == s[a + 4];
        NullTailStart(s[a + 4..]);
      } else {
        StripEolRest(line, a + 4);
      }
    }
  }

  /** The blanks before `NULL` stop short of the line's last character, so they hold no break. */
  lemma {:induction false} PrefixOfLine(line: string, a: nat)
    requires IsLine(line) && a < |line|
    ensures NoNewline(line[..a])
  {
    forall k | 0 <= k < a ensures line[..a][k] != '\n' {
      assert line[..a][k] == line[..|line| - 1][k];
    }
  }

  /** A prefix of a line and the line agree on every character and slice of the prefix. */
  lemma {:induction false} PrefixAgree(line: string, s: string, n: nat)
    requires |s| <= |line| && s == line[..|s|] && 4 <= n <= |s|
    ensures forall k :: 0 <= k < n ==> line[k] == s[k]
    ensures line[..n] == s[..n] && line[n - 4..n] == s[n - 4..n]
  {
    forall k | 0 <= k < n ensures line[k] == s[k] { assert s[k] == line[..|s|][k]; }
  }

  /** The blanks before `NULL` are the same with or without the line ending. */
  lemma {:induction false} NullLineStart(line: string)
    requires IsNullLine(line)
    ensures var a := LeadingWsLen(StripEol(line));
      LeadingWsLen(line) == a && OccursAt(line, "NULL", a)
  {
    var s := StripEol(line);
    var a := LeadingWsLen(s);
    assert s[a] == s[a..a + 4][0] == 'N';
    PrefixAgree(line, s, a + 4);
    LeadingWsLenIs(line, a);
  }

  /** A non-empty accepted tail starts with a blank, a punctuation mark or `/`, none a word character. */
  lemma {:induction false} NullTailStart(r: string)
    requires NullTail(r) && |r| > 0
    ensures !IsWordChar(r[0])
  {
    var i := LeadingWsLen(r);
    var j := i + PunctLen(r[i..]);
    if i > 0 {
      assert IsWs(r[..i][0]);
    } else if j > 0 {
      assert IsPunct(r[i..][..j - i][0]);
    } else {
      assert r[j..][..2][0] == '/';
    }
  }

  lemma {:induction false} StripEolRest(line: string, k: nat)
    requires |StripEol(line)| <= k < |line|
    ensures line[k] == '\r' || line[k] == '\n'
    decreases |line|
  {
    if k < |line| - 1 {
      assert StripEol(line) == StripEol(line[..|line| - 1]);
      StripEolRest(line[..|line| - 1], k);
    }
  }

  /** Index of the first NULL-terminator line. */
  function FirstNullLine(ls: seq<string>): (r: Option<nat>)
    ensures r.Some? ==> r.value < |ls| && IsNullLine(ls[r.value])
    ensures r.Some? ==> forall j :: 0 <= j < r.value ==> !IsNullLine(ls[j])
    ensures r.None? ==> forall j :: 0 <= j < |ls| ==> !IsNullLine(ls[j])
  {
    var ok := (j: nat) => j < |ls| && IsNullLine(ls[j]);
    assert forall j: nat :: ok(j) == (j < |ls| && IsNullLine(ls[j]));
    Leftmost(ok, 0, |ls|)
  }

  // ---------------------------------------------------------------------------
  // The patch
  // ---------------------------------------------------------------------------

  /** `f"{indent}{entry},{newline}"` for each entry, in order. */
  function EntryLines(indent: string, entries: seq<string>, nl: string): (r: seq<string>)
    ensures |r| == |entries|
    ensures forall i :: 0 <= i < |entries| ==> r[i] == indent + entries[i] + "," + nl
  {
    seq(|entries|, i requires 0 <= i < |entries| => indent + entries[i] + "," + nl)
  }

  /** `patch_list_file` as a value: the new text and the number of inserted entries, or the error it raises. */
  function PatchList(text: string, entries: seq<string>): Result<(string, nat)> {
    var missing := Missing(text, entries);
    if missing == [] then Ok((text, 0))
    else
      var ls := Lines(text);
      match FirstNullLine(ls)
      case None => Err(NULL_ERROR)
      case Some(k) =>
        var ins := EntryLines(LeadingWs(ls[k]), missing, DetectNewline(text));
        Ok((Join(ls[..k] + ins + ls[k..]), |missing|))
  }

  /**
   * `patch_list_file`: filter the missing entries, scan the lines for the first NULL
   * terminator, and splice the new entry lines in front of it.
   */
  method PatchListFile(text: string, entries: seq<string>) returns (r: Result<(string, nat)>)
    ensures r == PatchList(text, entries)
  {
    var missing := Missing(text, entries);
    if missing == [] {
      return Ok((text, 0));
    }
    var lines := Lines(text);
    var nullIndex := FindNullLine(lines);
    if nullIndex.None? {
      return Err(NULL_ERROR);
    }
    var k := nullIndex.value;
    var inserted := EntryLines(LeadingWs(lines[k]), missing, DetectNewline(text));
    lines := lines[..k] + inserted + lines[k..];
    return Ok((Join(lines), |missing|));
  }

  /** The `for index, line in enumerate(lines)` scan that stops at the first NULL line. */
  method FindNullLine(lines: seq<string>) returns (nullIndex: Option<nat>)
    ensures nullIndex == FirstNullLine(lines)
  {
    nullIndex := None;
    var index := 0;
    while index < |lines|
      invariant 0 <= index <= |lines|
      invariant forall j :: 0 <= j < index ==> !IsNullLine(lines[j])
    {
      if IsNullLine(lines[index]) {
        nullIndex := Some(index);
        break;
      }
      index := index + 1;
    }
  }

  // ---------------------------------------------------------------------------
  // Properties
  // ---------------------------------------------------------------------------

  lemma {:induction false} MissingEmpty(text: string, entries: seq<string>)
    ensures Missing(text, entries) == [] <==> forall e :: e in entries ==> HasEntry(text, e)
  {
    var m := Missing(text, entries);
    if m != [] {
      assert m[0] in m;
    }
  }

  /** When every entry is already listed, the text comes back unchanged with count 0. */
  lemma {:induction false} PatchListAllPresent(text: string, entries: seq<string>)
    requires forall e :: e in entries ==> HasEntry(text, e)
    ensures PatchList(text, entries) == Ok((text, 0))
  {
    MissingEmpty(text, entries);
  }

  /** The patch fails exactly when some entry is missing and no line is a NULL terminator. */
  lemma {:induction false} PatchListFails(text: string, entries: seq<string>)
    ensures PatchList(text, entries).Err? <==>
      (exists e :: e in entries && !HasEntry(text, e)) &&
      (forall j :: 0 <= j < |Lines(text)| ==> !IsNullLine(Lines(text)[j]))
    ensures PatchList(text, entries).Err? ==> PatchList(text, entries).message == NULL_ERROR
  {
    MissingEmpty(text, entries);
    var ls := Lines(text);
    if Missing(text, entries) != [] && FirstNullLine(ls).Some? {
      var k := FirstNullLine(ls).value;
      assert IsNullLine(ls[k]);
    }
  }

  /** Each inserted line is a line of the split, ends in a line break and lists its entry. */
  lemma {:induction false} EntryLineShape(indent: string, e: string, nl: string)
    requires AllWs(indent) && NoNewline(indent) && IsToken(e) && (nl == "\n" || nl == "\r\n")
    ensures var l := indent + e + "," + nl; IsLine(l) && EndsInNewline(l) && IsEntryLine(l, e)
  {
    var x := indent + e;
    var l := x + "," + nl;
    forall k | 0 <= k < |l| - 1 ensures l[k] != '\n' {
      if k < |indent| {
        assert l[k] == indent[k];
      } else if k < |x| {
        assert l[k] == e[k - |indent|];
      }
    }
    EntryLineTrim(indent, e, nl);
  }

  lemma {:induction false} EntryLineTrim(indent: string, e: string, nl: string)
    requires AllWs(indent) && IsToken(e) && AllWs(nl)
    ensures IsEntryLine(indent + e + "," + nl, e)
  {
    var x := indent + e;
    var t := x + ",";
    TrimEndWsAppendWs(t, nl);
    assert TrimEndWs(t) == t;
    assert t[..|t| - 1] == x;
    assert TrimEndWs(x) == x by {
      assert x[|x| - 1] == e[|e| - 1];
    }
    assert x[..|indent|] == indent;
    assert x[|indent|] == e[0];
    LeadingWsLenIs(x, |indent|);
    assert x[|indent|..] == e;
  }

  /**
   * When entries are missing and a NULL line exists, the result splits into the original lines
   * with the new entry lines spliced in front of the first NULL line, and the original text is the
   * result with that block taken out; the count is the number of missing entries.
   */
  lemma {:induction false} PatchListInserts(text: string, entries: seq<string>)
    requires forall e :: e in entries ==> IsToken(e)
    requires Missing(text, entries) != [] && FirstNullLine(Lines(text)).Some?
    ensures var ls := Lines(text);
      var k := FirstNullLine(ls).value;
      var ins := EntryLines(LeadingWs(ls[k]), Missing(text, entries), DetectNewline(text));
      && PatchList(text, entries).Ok?
      && Lines(PatchList(text, entries).value.0) == ls[..k] + ins + ls[k..]
      && PatchList(text, entries).value.0 == Join(ls[..k]) + Join(ins) + Join(ls[k..])
      && text == Join(ls[..k]) + Join(ls[k..])
      && PatchList(text, entries).value.1 == |Missing(text, entries)|
      && (forall i :: 0 <= i < |ins| ==> IsEntryLine(ins[i], Missing(text, entries)[i]))
  {
    var ls := Lines(text);
    var k := FirstNullLine(ls).value;
    var m := Missing(text, entries);
    var indent := LeadingWs(ls[k]);
    var nl := DetectNewline(text);
    var ins := EntryLines(indent, m, nl);
    NullLineIndent(ls[k]);
    forall i | 0 <= i < |ins| ensures IsLine(ins[i]) && EndsInNewline(ins[i]) && IsEntryLine(ins[i], m[i]) {
      assert m[i] in m;
      EntryLineShape(indent, m[i], nl);
    }
    SpliceShape(ls, k, ins);
    LinesOfJoin(ls[..k] + ins + ls[k..]);
    JoinSplice(ls, k, ins);
  }

  /** A second run inserts nothing: every entry is listed once the first run succeeded. */
  lemma {:induction false} PatchListIdempotent(text: string, entries: seq<string>)
    requires forall e :: e in entries ==> IsToken(e)
    requires PatchList(text, entries).Ok?
    ensures var t := PatchList(text, entries).value.0; PatchList(t, entries) == Ok((t, 0))
  {
    var t := PatchList(text, entries).value.0;
    var m := Missing(text, entries);
    if m != [] {
      var ls := Lines(text);
      var k := FirstNullLine(ls).value;
      var ins := EntryLines(LeadingWs(ls[k]), m, DetectNewline(text));
      PatchListInserts(text, entries);
      assert Lines(t) == ls[..k] + ins + ls[k..];
      forall e | e in entries ensures HasEntry(t, e) {
        ListedAfterSplice(ls, k, ins, m, e, IsEntryLine);
      }
    }
    PatchListAllPresent(t, entries);
  }

  /** An entry listed before the splice, or listed by an inserted line, is listed after it. */
  lemma {:induction false} ListedAfterSplice(ls: seq<string>, k: nat, ins: seq<string>, m: seq<string>, e: string,
                                              listed: (string, string) -> bool)
    requires k <= |ls| && |ins| == |m|
    requires forall i :: 0 <= i < |ins| ==> listed(ins[i], m[i])
    requires (exists i :: 0 <= i < |ls| && listed(ls[i], e)) || e in m
    ensures var out := ls[..k] + ins + ls[k..];
      exists i :: 0 <= i < |out| && listed(out[i], e)
  {
    var out := ls[..k] + ins + ls[k..];
    if e in m {
      var i :| 0 <= i < |m| && m[i] == e;
      assert out[k + i] == ins[i];
    } else {
      var i :| 0 <= i < |ls| && listed(ls[i], e);
      if i < k {
        assert out[i] == ls[i];
      } else {
        assert out[i + |ins|] == ls[i];
      }
    }
  }

}
