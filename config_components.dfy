/** `patch_config_components`: turn `#define CONFIG_X 0` into `#define CONFIG_X 1`. */
module ConfigComponents {
  import opened Wrappers
  import opened Text

  /** When `line` starts with `\s*#define\s+`, the index just past that prefix. */
  function FlagStart(line: string): (r: Option<nat>)
    ensures r.Some? ==> r.value <= |line| && 0 < r.value && IsWs(line[r.value - 1])
  {
    var a := LeadingWsLen(line);
    if !OccursAt(line, "#define", a) then None
    else
      var b := a + 7;
      var c := b + LeadingWsLen(line[b..]);
      if c == b then None else Some(c)
  }

  /** When `line[d..]` is `\s+0` followed by a word boundary, the index of that `0`. */
  function ZeroAfter(line: string, d: nat): (r: Option<nat>)
    requires d <= |line|
    ensures r.Some? ==> d < r.value < |line| && line[r.value] == '0'
    ensures r.Some? ==> r.value + 1 == |line| || !IsWordChar(line[r.value + 1])
  {
    var z := d + LeadingWsLen(line[d..]);
    if z == d || z >= |line| || line[z] != '0' then None
    else if z + 1 < |line| && IsWordChar(line[z + 1]) then None
    else Some(z)
  }

  /**
   * When `line` has the shape `\s*#define\s+FLAG\s+0` followed by a word boundary,
   * the index of that `0`.
   */
  function DefineZeroAt(line: string, flag: string): (r: Option<nat>)
    ensures r.Some? ==> r.value < |line| && line[r.value] == '0'
    ensures r.Some? ==> r.value + 1 == |line| || !IsWordChar(line[r.value + 1])
  {
    match FlagStart(line)
    case None => None
    case Some(c) => if OccursAt(line, flag, c) then ZeroAfter(line, c + |flag|) else None
  }

  /** The whitespace scan of a string depends only on the string up to its first non-blank. */
  lemma {:induction false} LeadingWsAgree(x: string, y: string, n: nat)
    requires n <= |x| && n <= |y| && x[..n] == y[..n]
    requires LeadingWsLen(x) < n
    ensures LeadingWsLen(y) == LeadingWsLen(x)
    decreases n
  {
    if |x| > 0 && IsWs(x[0]) {
      assert x[0] == x[..n][0] == y[..n][0] == y[0];
      assert x[1..][..n - 1] == x[..n][1..] == y[..n][1..] == y[1..][..n - 1];
      LeadingWsAgree(x[1..], y[1..], n - 1);
    } else {
      assert x[0] == x[..n][0] == y[..n][0] == y[0];
    }
  }

  /** The line with the `0` at `z` replaced by `1`. */
  function SetOne(line: string, z: nat): string
    requires z < |line|
  {
    line[..z] + "1" + line[z + 1..]
  }

  lemma {:induction false} FlagStartAgree(line: string, l: string, z: nat)
    requires z <= |line| && z <= |l| && line[..z] == l[..z]
    requires FlagStart(line).Some? && FlagStart(line).value < z
    ensures FlagStart(l) == FlagStart(line)
  {
    var a := LeadingWsLen(line);
    var b := a + 7;
    var c := b + LeadingWsLen(line[b..]);
    assert FlagStart(line) == Some(c);
    LeadingWsAgree(line, l, z);
    SliceAgree(line, l, z, a, a + 7);
    SuffixAgree(line, l, z, b);
    LeadingWsAgree(line[b..], l[b..], z - b);
  }

  /** Two strings that agree up to `z` agree on every slice below `z`. */
  lemma {:induction false} SliceAgree(x: string, y: string, z: nat, i: nat, j: nat)
    requires i <= j <= z <= |x| && z <= |y| && x[..z] == y[..z]
    ensures x[i..j] == y[i..j]
  {
    assert x[i..j] == x[..z][i..j] && y[i..j] == y[..z][i..j];
  }

  lemma {:induction false} SuffixAgree(x: string, y: string, z: nat, b: nat)
    requires b <= z <= |x| && z <= |y| && x[..z] == y[..z]
    ensures x[b..][..z - b] == y[b..][..z - b]
  {
    assert x[b..][..z - b] == x[b..z] && y[b..][..z - b] == y[b..z];
    SliceAgree(x, y, z, b, z);
  }

  /** A flag token longer than the matched one runs into the blank after it. */
  lemma {:induction false} LongerFlagFails(line: string, l: string, z: nat, c: nat, g: string, f: string)
    requires IsToken(f) && |f| > |g| && c + |g| < z <= |line| && z <= |l| && line[..z] == l[..z]
    requires IsWs(line[c + |g|])
    ensures !OccursAt(l, f, c)
  {
    assert l[c + |g|] == line[c + |g|] by { assert line[..z][c + |g|] == l[..z][c + |g|]; }
    assert !IsWs(f[|g|]);
    if c + |f| <= |l| {
      assert l[c..c + |f|][|g|] == l[c + |g|];
      assert l[c..c + |f|] != f;
    }
  }

  /** A flag token shorter than the matched one stops inside it, where no blank follows. */
  lemma {:induction false} ShorterFlagFails(l: string, c: nat, g: string, f: string)
    requires IsToken(g) && |f| < |g| && OccursAt(l, g, c)
    ensures ZeroAfter(l, c + |f|).None?
  {
    var d := c + |f|;
    assert l[d] == l[c..c + |g|][|f|] == g[|f|];
    assert l[d..][0] == l[d];
    LeadingWsLenIs(l[d..], 0);
  }

  /** At the rewritten position the digit is now `1`, so the same flag no longer matches. */
  lemma {:induction false} SameFlagFails(line: string, l: string, z: nat, d: nat)
    requires d <= z < |line| == |l| && line[..z] == l[..z] && l[z] == '1'
    requires ZeroAfter(line, d) == Some(z)
    ensures ZeroAfter(l, d).None?
  {
    var k := LeadingWsLen(line[d..]);
    assert z == d + k;
    assert l[d..][..k] == line[d..][..k] by {
      assert l[d..][..k] == l[..z][d..] && line[d..][..k] == line[..z][d..];
    }
    assert l[d..][k] == '1';
    LeadingWsLenIs(l[d..], k);
  }

  lemma {:induction false} DefineZeroParts(line: string, g: string)
    requires DefineZeroAt(line, g).Some?
    ensures FlagStart(line).Some? && OccursAt(line, g, FlagStart(line).value)
    ensures FlagStart(line).value + |g| <= |line|
    ensures ZeroAfter(line, FlagStart(line).value + |g|) == DefineZeroAt(line, g)
  {
  }

  lemma {:induction false} SetOneShape(line: string, z: nat)
    requires z < |line|
    ensures |SetOne(line, z)| == |line| && SetOne(line, z)[..z] == line[..z] && SetOne(line, z)[z] == '1'
  {
  }

  /** A line that was rewritten for one flag matches no flag any more. */
  lemma {:induction false} RewrittenMatchesNothing(line: string, g: string, f: string)
    requires IsToken(f) && IsToken(g)
    requires DefineZeroAt(line, g).Some?
    ensures DefineZeroAt(SetOne(line, DefineZeroAt(line, g).value), f).None?
  {
    var z := DefineZeroAt(line, g).value;
    var l := SetOne(line, z);
    var c := FlagStart(line).value;
    var d := c + |g|;
    DefineZeroParts(line, g);
    SetOneShape(line, z);
    FlagStartAgree(line, l, z);
    RewrittenCases(line, l, z, c, g, f);
  }

  /** The three ways flag `f` can compare with the rewritten flag `g`: longer, shorter or equal. */
  lemma {:induction false} RewrittenCases(line: string, l: string, z: nat, c: nat, g: string, f: string)
    requires IsToken(f) && IsToken(g)
    requires z < |line| == |l| && l[..z] == line[..z] && l[z] == '1'
    requires FlagStart(l) == Some(c) && OccursAt(line, g, c) && c + |g| <= |line|
    requires ZeroAfter(line, c + |g|) == Some(z)
    ensures DefineZeroAt(l, f).None?
  {
    var d := c + |g|;
    if |f| > |g| {
      assert line[d..][0] == line[d];
      LongerFlagFails(line, l, z, c, g, f);
      DefineZeroNone(l, f, c);
    } else if |f| < |g| {
      SliceAgree(line, l, z, c, d);
      assert OccursAt(l, g, c);
      ShorterFlagFails(l, c, g, f);
      assert c + |f| <= |l|;
      DefineZeroNone(l, f, c);
    } else if OccursAt(l, f, c) {
      SliceAgree(line, l, z, c, d);
      assert f == g;
      SameFlagFails(line, l, z, d);
      DefineZeroNone(l, f, c);
    } else {
      DefineZeroNone(l, f, c);
    }
  }

  lemma {:induction false} DefineZeroNone(l: string, f: string, c: nat)
    requires FlagStart(l) == Some(c)
    requires !OccursAt(l, f, c) || (c + |f| <= |l| && ZeroAfter(l, c + |f|).None?)
    ensures DefineZeroAt(l, f).None?
  {
  }

  /** The line after the substitution for one flag: rewritten when it has the `#define FLAG 0` shape. */
  function EnableLine(line: string, flag: string): string {
    match DefineZeroAt(line, flag)
    case Some(z) => SetOne(line, z)
    case None => line
  }

  /** Number of lines of the `#define FLAG 0` shape. */
  function NumMatching(ls: seq<string>, flag: string): nat {
    if ls == [] then 0
    else (if DefineZeroAt(ls[0], flag).Some? then 1 else 0) + NumMatching(ls[1..], flag)
  }

  /** The lines after one pass of `re.subn` for one flag: each line rewritten or kept. */
  function EnableLines(ls: seq<string>, flag: string): (r: seq<string>)
    ensures |r| == |ls|
    ensures forall i :: 0 <= i < |ls| ==> r[i] == EnableLine(ls[i], flag)
  {
    seq(|ls|, i requires 0 <= i < |ls| => EnableLine(ls[i], flag))
  }

  /** `pattern.subn(r"\g<1>1\g<2>", text)` for the pattern of one flag: new text and number of rewritten lines. */
  function EnableFlag(text: string, flag: string): (string, nat) {
    (Join(EnableLines(Lines(text), flag)), NumMatching(Lines(text), flag))
  }

  /** The flags processed in order, each pass on the text the previous one produced. */
  function EnableAll(text: string, flags: seq<string>): (string, nat)
    decreases |flags|
  {
    if flags == [] then (text, 0)
    else NextPass(EnableAll(text, flags[..|flags| - 1]), flags[|flags| - 1])
  }

  /** One more pass on the text so far, adding its replacements to the count so far. */
  function NextPass(sofar: (string, nat), flag: string): (string, nat) {
    var last := EnableFlag(sofar.0, flag);
    (last.0, sofar.1 + last.1)
  }

  /**
   * `patch_config_components`: the loop over the flag catalog, rebinding the text and
   * accumulating the number of replacements.
   */
  method PatchConfigComponents(text: string, flags: seq<string>) returns (patched: string, enabledCount: nat)
    ensures (patched, enabledCount) == EnableAll(text, flags)
  {
    patched := text;
    enabledCount := 0;
    var i := 0;
    while i < |flags|
      invariant i <= |flags|
      invariant patched == EnableAll(text, flags[..i]).0
      invariant enabledCount == EnableAll(text, flags[..i]).1
    {
      EnableAllStep(text, flags, i);
      var replaced := EnableFlag(patched, flags[i]);
      patched := replaced.0;
      enabledCount := enabledCount + replaced.1;
      i := i + 1;
    }
    assert flags[..i] == flags;
  }

  /** The passes over one more flag: one more pass on the text of the previous ones. */
  lemma {:induction false} EnableAllStep(text: string, flags: seq<string>, i: nat)
    requires i < |flags|
    ensures EnableAll(text, flags[..i + 1]) == NextPass(EnableAll(text, flags[..i]), flags[i])
  {
    var p := flags[..i + 1];
    assert p[..|p| - 1] == flags[..i] && p[|p| - 1] == flags[i];
  }

  // ---------------------------------------------------------------------------
  // Properties
  // ---------------------------------------------------------------------------

  predicate NoMatch(ls: seq<string>, f: string) {
    forall i :: 0 <= i < |ls| ==> DefineZeroAt(ls[i], f).None?
  }

  /** No line of the text is a `#define FLAG 0` line for any of the flags. */
  predicate Settled(text: string, flags: seq<string>) {
    forall f :: f in flags ==> NoMatch(Lines(text), f)
  }

  /** One line through one pass: still a line, and matching neither this flag nor any flag it did not match. */
  lemma {:induction false} EnableLineSettles(line: string, g: string)
    requires IsLine(line) && IsToken(g)
    ensures IsLine(EnableLine(line, g)) && (EndsInNewline(line) ==> EndsInNewline(EnableLine(line, g)))
    ensures DefineZeroAt(EnableLine(line, g), g).None?
    ensures forall f :: IsToken(f) && DefineZeroAt(line, f).None? ==> DefineZeroAt(EnableLine(line, g), f).None?
  {
    if DefineZeroAt(line, g).Some? {
      var z := DefineZeroAt(line, g).value;
      var out := SetOne(line, z);
      assert |out| == |line|;
      forall k | 0 <= k < |out| - 1 ensures out[k] != '\n' {
        if k != z { assert line[..|line| - 1][k] == line[k]; }
      }
      assert out[|out| - 1] == line[|line| - 1] || z == |line| - 1;
      forall f | IsToken(f) ensures DefineZeroAt(out, f).None? {
        RewrittenMatchesNothing(line, g, f);
      }
    }
  }

  /** A pass leaves no line matching its own flag, and creates no match for any other flag. */
  lemma {:induction false} PassSettles(ls: seq<string>, g: string)
    requires LinesShape(ls) && IsToken(g)
    ensures LinesShape(EnableLines(ls, g))
    ensures NoMatch(EnableLines(ls, g), g)
    ensures forall f :: IsToken(f) && NoMatch(ls, f) ==> NoMatch(EnableLines(ls, g), f)
  {
    var out := EnableLines(ls, g);
    forall i | 0 <= i < |ls|
      ensures IsLine(out[i]) && (EndsInNewline(ls[i]) ==> EndsInNewline(out[i]))
      ensures DefineZeroAt(out[i], g).None?
      ensures forall f :: IsToken(f) && DefineZeroAt(ls[i], f).None? ==> DefineZeroAt(out[i], f).None?
    {
      EnableLineSettles(ls[i], g);
    }
  }

  /** Number of positions at which two equally long line sequences differ. */
  function NumChanged(a: seq<string>, b: seq<string>): nat
    requires |a| == |b|
  {
    if a == [] then 0 else (if a[0] != b[0] then 1 else 0) + NumChanged(a[1..], b[1..])
  }

  /**
   * `out` is `line` with the `0` of a `#define FLAG 0` match turned into `1` and every other
   * character kept, or `line` itself when it does not match.
   */
  predicate DigitFlipped(line: string, out: string, flag: string) {
    && |out| == |line|
    && (DefineZeroAt(line, flag).None? ==> out == line)
    && (DefineZeroAt(line, flag).Some? ==>
          var z := DefineZeroAt(line, flag).value;
          && line[z] == '0' && out[z] == '1'
          && forall k :: 0 <= k < |line| && k != z ==> out[k] == line[k])
  }

  /** A line is changed by a pass exactly when it matches, and then only its digit changes. */
  lemma {:induction false} EnableLineFlips(line: string, flag: string)
    ensures DigitFlipped(line, EnableLine(line, flag), flag)
    ensures EnableLine(line, flag) != line <==> DefineZeroAt(line, flag).Some?
  {
    if DefineZeroAt(line, flag).Some? {
      var z := DefineZeroAt(line, flag).value;
      var out := SetOne(line, z);
      assert out[z] == '1';
      forall k | 0 <= k < |line| && k != z ensures out[k] == line[k] {
        if k < z { assert out[k] == line[..z][k]; } else { assert out[k] == line[z + 1..][k - z - 1]; }
      }
    }
  }

  /** The count of a pass is the number of lines it changes. */
  lemma {:induction false} CountIsChanged(ls: seq<string>, flag: string)
    ensures NumMatching(ls, flag) == NumChanged(ls, EnableLines(ls, flag))
    decreases |ls|
  {
    if ls != [] {
      var out := EnableLines(ls, flag);
      assert out[1..] == EnableLines(ls[1..], flag);
      EnableLineFlips(ls[0], flag);
      CountIsChanged(ls[1..], flag);
    }
  }

  /**
   * One pass of `pattern.subn` for one flag: the text keeps its lines, each line is kept or has its
   * `#define FLAG 0` digit set to `1`, and the count is the number of lines changed.
   */
  lemma {:induction false} EnableFlagRewrites(text: string, flag: string)
    requires IsToken(flag)
    ensures var ls, out := Lines(text), Lines(EnableFlag(text, flag).0);
      && |out| == |ls|
      && (forall i :: 0 <= i < |ls| ==> DigitFlipped(ls[i], out[i], flag))
      && EnableFlag(text, flag).1 == NumChanged(ls, out)
  {
    var ls := Lines(text);
    var out := EnableLines(ls, flag);
    PassSettles(ls, flag);
    LinesOfJoin(out);
    forall i | 0 <= i < |ls| ensures DigitFlipped(ls[i], out[i], flag) {
      EnableLineFlips(ls[i], flag);
    }
    CountIsChanged(ls, flag);
  }

  /** A pass over text with no matching line returns the text itself and zero. */
  lemma {:induction false} EnableFlagNoMatch(text: string, f: string)
    requires NoMatch(Lines(text), f)
    ensures EnableFlag(text, f) == (text, 0)
  {
    var ls := Lines(text);
    assert EnableLines(ls, f) == ls;
    NoMatchCount(ls, f);
  }

  lemma {:induction false} NoMatchCount(ls: seq<string>, f: string)
    requires NoMatch(ls, f)
    ensures NumMatching(ls, f) == 0
  {
    if ls != [] {
      assert NoMatch(ls[1..], f) by { forall i | 0 <= i < |ls[1..]| ensures DefineZeroAt(ls[1..][i], f).None? { assert ls[1..][i] == ls[i + 1]; } }
      NoMatchCount(ls[1..], f);
    }
  }

  /** After all passes, no line matches any of the flags. */
  lemma {:induction false} EnableAllSettles(text: string, flags: seq<string>)
    requires forall f :: f in flags ==> IsToken(f)
    ensures Settled(EnableAll(text, flags).0, flags)
    ensures LinesShape(Lines(EnableAll(text, flags).0))
    decreases |flags|
  {
    if flags != [] {
      var init := flags[..|flags| - 1];
      var g := flags[|flags| - 1];
      EnableAllSettles(text, init);
      var before := EnableAll(text, init).0;
      var ls := Lines(before);
      var out := EnableLines(ls, g);
      PassSettles(ls, g);
      LinesOfJoin(out);
      assert Lines(EnableAll(text, flags).0) == out;
      forall f | f in flags ensures NoMatch(out, f) {
        if f != g { assert f in init; }
      }
    }
  }

  /** On settled text every pass is a no-op. */
  lemma {:induction false} SettledIsFixed(text: string, flags: seq<string>)
    requires Settled(text, flags)
    ensures EnableAll(text, flags) == (text, 0)
    decreases |flags|
  {
    if flags != [] {
      var init := flags[..|flags| - 1];
      assert forall f :: f in init ==> f in flags;
      SettledIsFixed(text, init);
      EnableFlagNoMatch(text, flags[|flags| - 1]);
    }
  }

  /** A second run of `patch_config_components` changes nothing and reports zero flags. */
  lemma {:induction false} EnableAllIdempotent(text: string, flags: seq<string>)
    requires forall f :: f in flags ==> IsToken(f)
    ensures EnableAll(EnableAll(text, flags).0, flags) == (EnableAll(text, flags).0, 0)
  {
    EnableAllSettles(text, flags);
    SettledIsFixed(EnableAll(text, flags).0, flags);
  }
}
