/**
 * The regular expressions of the Chromium media patcher, written as sequences of elements.
 *
 * Every pattern used there alternates literal tokens with whitespace, word or blank runs, and
 * each run is followed either by a literal that cannot start inside the run or by the end of the
 * pattern. Under that shape the backtracking matcher has exactly one way to succeed at a given
 * position, and `MatchFrom` computes it directly: a run takes the longest stretch it can, and
 * `\s*\n` at the end of a pattern stops after the last line break of its stretch.
 */
module Pattern {
  import opened Wrappers
  import opened Text

  datatype Elem =
    | Lit(s: string)   // the characters themselves
    | Ws               // \s*
    | Ws1              // \s+
    | WsNl             // \s*\n\s* before a literal: a whitespace run holding a line break
    | WsNlEnd          // \s*\n ending the pattern: up to the last line break of the run
    | Blanks           // [ \t]*
    | Word1            // \w+
    | RestOfLine       // [^\n]*
    | LineStart        // ^ under re.MULTILINE: at the start or just after a line break

  predicate IsBlank(c: char) {
    c == ' ' || c == '\t'
  }

  predicate NotNewline(c: char) {
    c != '\n'
  }

  /** The length of the longest run of characters satisfying `p` that starts at `i`. */
  function RunLen(s: string, i: nat, p: char -> bool): (n: nat)
    requires i <= |s|
    ensures i + n <= |s|
    ensures forall k :: i <= k < i + n ==> p(s[k])
    ensures i + n == |s| || !p(s[i + n])
    decreases |s| - i
  {
    if i < |s| && p(s[i]) then 1 + RunLen(s, i + 1, p) else 0
  }

  /** The position just after the last line break in `s[i..j]`, if there is one. */
  function AfterLastNewline(s: string, i: nat, j: nat): (r: Option<nat>)
    requires i <= j <= |s|
    ensures r.Some? ==> i < r.value <= j && s[r.value - 1] == '\n'
    ensures r.Some? ==> forall k :: r.value <= k < j ==> s[k] != '\n'
    ensures r.None? ==> forall k :: i <= k < j ==> s[k] != '\n'
    decreases j - i
  {
    if j == i then None
    else if s[j - 1] == '\n' then Some(j)
    else AfterLastNewline(s, i, j - 1)
  }

  /** Where one element, matched at `i`, ends. */
  function Step(e: Elem, s: string, i: nat): (r: Option<nat>)
    requires i <= |s|
    ensures r.Some? ==> i <= r.value <= |s|
    ensures r.Some? && e.Lit? ==> r.value == i + |e.s| && OccursAt(s, e.s, i)
  {
    match e
    case Lit(l) => if OccursAt(s, l, i) then Some(i + |l|) else None
    case Ws => Some(i + RunLen(s, i, IsWs))
    case Ws1 =>
      var n := RunLen(s, i, IsWs);
      if n > 0 then Some(i + n) else None
    case WsNl =>
      var n := RunLen(s, i, IsWs);
      if AfterLastNewline(s, i, i + n).Some? then Some(i + n) else None
    case WsNlEnd => AfterLastNewline(s, i, i + RunLen(s, i, IsWs))
    case Blanks => Some(i + RunLen(s, i, IsBlank))
    case Word1 =>
      var n := RunLen(s, i, IsWordChar);
      if n > 0 then Some(i + n) else None
    case RestOfLine => Some(i + RunLen(s, i, NotNewline))
    case LineStart => if i == 0 || s[i - 1] == '\n' then Some(i) else None
  }

  /** Where the whole pattern, matched at `i`, ends. */
  function MatchFrom(p: seq<Elem>, s: string, i: nat): (r: Option<nat>)
    requires i <= |s|
    ensures r.Some? ==> i <= r.value <= |s|
    decreases |p|
  {
    if p == [] then Some(i)
    else
      match Step(p[0], s, i)
      case None => None
      case Some(k) => MatchFrom(p[1..], s, k)
  }

  /** A pattern that opens with a non-empty literal only matches a non-empty stretch. */
  lemma {:induction false} MatchAdvances(p: seq<Elem>, s: string, i: nat)
    requires i <= |s| && OpensWithLit(p)
    requires MatchFrom(p, s, i).Some?
    ensures MatchFrom(p, s, i).value > i && OccursAt(s, p[0].s, i)
  {
  }

  /** A pattern every match of which consumes at least one character. */
  predicate Advancing(p: seq<Elem>) {
    OpensWithLit(p) || (|p| > 1 && p[0] == Blanks && OpensWithLit(p[1..]))
  }

  lemma {:induction false} AdvancingMatch(p: seq<Elem>, s: string, i: nat)
    requires i <= |s| && Advancing(p) && MatchFrom(p, s, i).Some?
    ensures MatchFrom(p, s, i).value > i
  {
    if !OpensWithLit(p) {
      MatchAdvances(p[1..], s, Step(Blanks, s, i).value);
    }
  }

  /**
   * `(?:p)*`: where the longest run of back-to-back matches of `p` from `i` ends. Wherever the
   * patcher repeats a group, what follows the group cannot start where `p` matches, so the
   * longest run is the only one the backtracking matcher can finish with.
   */
  function Repeat(p: seq<Elem>, s: string, i: nat): (r: nat)
    requires i <= |s| && Advancing(p)
    ensures i <= r <= |s| && MatchFrom(p, s, r).None?
    decreases |s| - i
  {
    match MatchFrom(p, s, i)
    case None => i
    case Some(k) => AdvancingMatch(p, s, i); Repeat(p, s, k)
  }

  /** `case\s+<name>`. */
  function Case(name: string): seq<Elem> {
    [Lit("case"), Ws1, Lit(name)]
  }

  // ---------------------------------------------------------------------------
  // Matching does not depend on the text before the match
  // ---------------------------------------------------------------------------

  /** A pattern without `^`, whose matches only look at the text from where they start. */
  predicate Unanchored(p: seq<Elem>) {
    forall k :: 0 <= k < |p| ==> p[k] != LineStart
  }

  function Shifted(r: Option<nat>, d: nat): Option<nat> {
    if r.Some? then Some(r.value + d) else None
  }

  lemma {:induction false} RunLenShift(pre: string, s: string, i: nat, p: char -> bool)
    requires i <= |s|
    ensures RunLen(pre + s, |pre| + i, p) == RunLen(s, i, p)
    decreases |s| - i
  {
    if i < |s| {
      assert (pre + s)[|pre| + i] == s[i];
      RunLenShift(pre, s, i + 1, p);
    }
  }

  lemma {:induction false} AfterLastNewlineShift(pre: string, s: string, i: nat, j: nat)
    requires i <= j <= |s|
    ensures AfterLastNewline(pre + s, |pre| + i, |pre| + j) == Shifted(AfterLastNewline(s, i, j), |pre|)
    decreases j - i
  {
    if i < j {
      assert (pre + s)[|pre| + j - 1] == s[j - 1];
      AfterLastNewlineShift(pre, s, i, j - 1);
    }
  }

  lemma {:induction false} StepShift(e: Elem, pre: string, s: string, i: nat)
    requires i <= |s| && e != LineStart
    ensures Step(e, pre + s, |pre| + i) == Shifted(Step(e, s, i), |pre|)
  {
    match e
    case Lit(l) => LitShift(l, pre, s, i);
    case Ws => RunLenShift(pre, s, i, IsWs);
    case Ws1 => RunLenShift(pre, s, i, IsWs);
    case WsNl => BreakStepShift(e, pre, s, i);
    case WsNlEnd => BreakStepShift(e, pre, s, i);
    case Blanks => RunLenShift(pre, s, i, IsBlank);
    case Word1 => RunLenShift(pre, s, i, IsWordChar);
    case RestOfLine => RunLenShift(pre, s, i, NotNewline);
  }

  lemma {:induction false} BreakStepShift(e: Elem, pre: string, s: string, i: nat)
    requires i <= |s| && (e == WsNl || e == WsNlEnd)
    ensures Step(e, pre + s, |pre| + i) == Shifted(Step(e, s, i), |pre|)
  {
    RunLenShift(pre, s, i, IsWs);
    AfterLastNewlineShift(pre, s, i, i + RunLen(s, i, IsWs));
  }

  lemma {:induction false} LitShift(l: string, pre: string, s: string, i: nat)
    requires i <= |s|
    ensures OccursAt(pre + s, l, |pre| + i) <==> OccursAt(s, l, i)
  {
    if i + |l| <= |s| {
      assert (pre + s)[|pre| + i..|pre| + i + |l|] == s[i..i + |l|];
    }
  }

  /** Text placed before the match start moves the match and changes nothing else. */
  lemma {:induction false} MatchShift(p: seq<Elem>, pre: string, s: string, i: nat)
    requires i <= |s| && Unanchored(p)
    ensures MatchFrom(p, pre + s, |pre| + i) == Shifted(MatchFrom(p, s, i), |pre|)
  {
    NoAnchorOf(p);
    NoAnchorShift(p, pre, s, i);
  }

  /** `Unanchored`, one element at a time. */
  predicate NoAnchor(p: seq<Elem>)
    decreases |p|
  {
    p == [] || (p[0] != LineStart && NoAnchor(p[1..]))
  }

  lemma {:induction false} NoAnchorOf(p: seq<Elem>)
    requires Unanchored(p)
    ensures NoAnchor(p)
    decreases |p|
  {
    if p != [] {
      assert forall j :: 0 <= j < |p| - 1 ==> p[1..][j] == p[j + 1];
      NoAnchorOf(p[1..]);
    }
  }

  lemma {:induction false} NoAnchorShift(p: seq<Elem>, pre: string, s: string, i: nat)
    requires i <= |s| && NoAnchor(p)
    ensures MatchFrom(p, pre + s, |pre| + i) == Shifted(MatchFrom(p, s, i), |pre|)
    decreases |p|
  {
    if p != [] {
      match Step(p[0], s, i)
      case None =>
        MatchNone(p, s, i);
        ShiftNone(p, pre, s, i);
      case Some(k) =>
        MatchSome(p, s, i, k);
        ShiftSome(p, pre, s, i, k);
        NoAnchorShift(p[1..], pre, s, k);
    }
  }

  lemma {:induction false} ShiftSome(p: seq<Elem>, pre: string, s: string, i: nat, k: nat)
    requires p != [] && p[0] != LineStart && i <= k <= |s| && Step(p[0], s, i) == Some(k)
    ensures MatchFrom(p, pre + s, |pre| + i) == MatchFrom(p[1..], pre + s, |pre| + k)
  {
    StepShift(p[0], pre, s, i);
    MatchSome(p, pre + s, |pre| + i, |pre| + k);
  }

  lemma {:induction false} ShiftNone(p: seq<Elem>, pre: string, s: string, i: nat)
    requires p != [] && p[0] != LineStart && i <= |s| && Step(p[0], s, i).None?
    ensures MatchFrom(p, pre + s, |pre| + i).None?
  {
    StepShift(p[0], pre, s, i);
    assert Shifted(Step(p[0], s, i), |pre|) == None;
    assert Step(p[0], pre + s, |pre| + i) == None;
    assert |pre| + i <= |pre + s|;
    assert p != [];
    MatchNone(p, pre + s, |pre| + i);
  }

  lemma {:induction false} MatchSome(p: seq<Elem>, s: string, i: nat, k: nat)
    requires p != [] && i <= k <= |s| && Step(p[0], s, i) == Some(k)
    ensures MatchFrom(p, s, i) == MatchFrom(p[1..], s, k)
  {
  }

  lemma {:induction false} MatchNone(p: seq<Elem>, s: string, i: nat)
    requires p != [] && i <= |s| && Step(p[0], s, i).None?
    ensures MatchFrom(p, s, i).None?
  {
  }

  lemma {:induction false} MatchShiftSome(p: seq<Elem>, pre: string, s: string, i: nat, e: nat)
    requires i <= |s| && Unanchored(p) && MatchFrom(p, s, i) == Some(e)
    ensures MatchFrom(p, pre + s, |pre| + i) == Some(|pre| + e)
  {
    MatchShift(p, pre, s, i);
  }

  /** The length of a run, when the run and the character that stops it are known. */
  lemma {:induction false} RunLenExact(s: string, i: nat, n: nat, p: char -> bool)
    requires i + n <= |s|
    requires forall k :: i <= k < i + n ==> p(s[k])
    requires i + n == |s| || !p(s[i + n])
    ensures RunLen(s, i, p) == n
    decreases n
  {
    if n > 0 {
      RunLenExact(s, i + 1, n - 1, p);
    }
  }

  /**
   * `keyword name` written with one space and then a line break, in front of a line that the
   * pattern `[ \t]*<rest>` matches, matches `keyword\s+name\s*\n\s*<rest>`.
   */
  lemma {:induction false} SpacedPairThenLine(w: string, keyword: string, name: string, rest: seq<Elem>, t: string)
    requires |keyword| > 0 && |name| > 0 && !IsWs(name[0])
    requires OpensWithLit(rest) && !IsWs(rest[0].s[0]) && Unanchored(rest)
    requires w == keyword + " " + name + "\n" + t
    requires MatchFrom([Blanks] + rest, t, 0).Some?
    ensures MatchFrom([Lit(keyword), Ws1, Lit(name), WsNl] + rest, w, 0).Some?
  {
    var x := keyword + " " + name;
    var m := |x|;
    assert w[..m] == x && OccursAt(w, x, 0);
    SpacedPairMatches(w, 0, keyword, name);
    var pair := [Lit(keyword), Ws1, Lit(name)];
    assert pair + ([WsNl] + rest) == [Lit(keyword), Ws1, Lit(name), WsNl] + rest;
    MatchThen(pair, [WsNl] + rest, w, 0, m);
    assert w == (x + "\n") + t;
    var b := BlanksBeforeLit(rest, t);
    BreakThenLine(x + "\n", rest, t, m);
  }

  /**
   * After `pre`, which ends in a line break, a line that `[ \t]*<rest>` matches: `\s*\n\s*<rest>`
   * matches from that line break.
   */
  lemma {:induction false} BreakThenLine(pre: string, rest: seq<Elem>, t: string, k: nat)
    requires k + 1 == |pre| && pre[k] == '\n'
    requires Unanchored(rest) && MatchFrom(rest, t, RunLen(t, 0, IsWs)).Some?
    ensures MatchFrom([WsNl] + rest, pre + t, k).Some?
  {
    var b := RunLen(t, 0, IsWs);
    var w := pre + t;
    BreakThenRun(pre, t, k);
    assert Step(WsNl, w, k) == Some(|pre| + b);
    MatchShiftSome(rest, pre, t, b, MatchFrom(rest, t, b).value);
    MatchCons(WsNl, rest, w, k, |pre| + b);
  }

  /** Matching one element and then the rest of a pattern. */
  lemma {:induction false} MatchCons(e: Elem, q: seq<Elem>, s: string, i: nat, k: nat)
    requires i <= k <= |s| && Step(e, s, i) == Some(k)
    ensures MatchFrom([e] + q, s, i) == MatchFrom(q, s, k)
  {
    assert ([e] + q)[0] == e && ([e] + q)[1..] == q;
  }

  /** `[ \t]*<rest>` with `rest` opening on a non-blank literal: the blanks are the whole `\s*` run. */
  lemma {:induction false} BlanksBeforeLit(rest: seq<Elem>, t: string) returns (b: nat)
    requires OpensWithLit(rest) && !IsWs(rest[0].s[0])
    requires MatchFrom([Blanks] + rest, t, 0).Some?
    ensures b == RunLen(t, 0, IsWs) && MatchFrom(rest, t, b).Some?
  {
    b := RunLen(t, 0, IsBlank);
    assert ([Blanks] + rest)[1..] == rest;
    MatchAdvances(rest, t, b);
    assert t[b] == rest[0].s[0];
    RunLenExact(t, 0, b, IsWs);
  }

  /** `\s*\n\s*` over a line break and the whitespace run after it. */
  lemma {:induction false} BreakThenRun(pre: string, t: string, k: nat)
    requires k + 1 == |pre| && pre[k] == '\n'
    ensures Step(WsNl, pre + t, k) == Some(|pre| + RunLen(t, 0, IsWs))
  {
    var w := pre + t;
    RunLenShift(pre, t, 0, IsWs);
    assert w[k] == '\n';
    assert RunLen(w, k, IsWs) == 1 + RunLen(t, 0, IsWs);
  }

  /** Once `p` has matched from `i` to `k`, `p + q` matches from `i` exactly as `q` does from `k`. */
  lemma {:induction false} MatchThen(p: seq<Elem>, q: seq<Elem>, s: string, i: nat, k: nat)
    requires i <= k <= |s| && MatchFrom(p, s, i) == Some(k)
    ensures MatchFrom(p + q, s, i) == MatchFrom(q, s, k)
  {
    MatchConcat(p, q, s, i);
  }

  /** Matching two patterns one after the other matches their concatenation. */
  lemma {:induction false} MatchConcat(p: seq<Elem>, q: seq<Elem>, s: string, i: nat)
    requires i <= |s|
    ensures MatchFrom(p + q, s, i) ==
      (if MatchFrom(p, s, i).Some? then MatchFrom(q, s, MatchFrom(p, s, i).value) else None)
    decreases |p|
  {
    if p != [] {
      assert (p + q)[0] == p[0] && (p + q)[1..] == p[1..] + q;
      if Step(p[0], s, i).Some? {
        MatchConcat(p[1..], q, s, Step(p[0], s, i).value);
      }
    } else {
      assert p + q == q;
    }
  }

  /** `re.search` from `start`: the leftmost position where the pattern matches. */
  function FindFrom(p: seq<Elem>, s: string, start: nat): (r: Option<nat>)
    requires start <= |s|
    ensures r.Some? ==> start <= r.value <= |s| && MatchFrom(p, s, r.value).Some?
    ensures r.Some? ==> forall j :: start <= j < r.value ==> MatchFrom(p, s, j).None?
    ensures r.None? ==> forall j :: start <= j <= |s| ==> MatchFrom(p, s, j).None?
  {
    var ok := (j: nat) => j <= |s| && MatchFrom(p, s, j).Some?;
    assert forall j: nat :: ok(j) == (j <= |s| && MatchFrom(p, s, j).Some?);
    Leftmost(ok, start, |s|)
  }

  function Search(p: seq<Elem>, s: string): Option<nat> {
    FindFrom(p, s, 0)
  }

  /** Whether `re.search` finds the pattern anywhere in `s`. */
  predicate Found(p: seq<Elem>, s: string) {
    Search(p, s).Some?
  }

  /** A match at any position is enough for the search to succeed. */
  lemma {:induction false} FoundAt(p: seq<Elem>, s: string, i: nat)
    requires i <= |s| && MatchFrom(p, s, i).Some?
    ensures Found(p, s) && Search(p, s).value <= i
  {
  }

  /** `\s+` over exactly one space before a non-blank character. */
  lemma {:induction false} OneSpace(s: string, i: nat)
    requires i + 1 < |s| && s[i] == ' ' && !IsWs(s[i + 1])
    ensures Step(Ws1, s, i) == Some(i + 1)
  {
    assert RunLen(s, i + 1, IsWs) == 0;
  }

  /**
   * A keyword, one space and a name, written out as the patcher writes them, match the pattern
   * `keyword\s+name`.
   */
  lemma {:induction false} SpacedPairMatches(s: string, i: nat, keyword: string, name: string)
    requires |keyword| > 0 && |name| > 0 && !IsWs(name[0])
    requires OccursAt(s, keyword + " " + name, i)
    ensures MatchFrom([Lit(keyword), Ws1, Lit(name)], s, i) == Some(i + |keyword| + 1 + |name|)
  {
    var w := keyword + " " + name;
    var j := i + |keyword|;
    assert s[i..j] == w[..|keyword|] == keyword;
    assert OccursAt(s, keyword, i);
    assert s[j] == w[|keyword|] == ' ';
    assert s[j + 1] == w[|keyword| + 1] == name[0];
    OneSpace(s, j);
    assert s[j + 1..j + 1 + |name|] == w[|keyword| + 1..] == name;
    var p := [Lit(keyword), Ws1, Lit(name)];
    assert p[1..] == [Ws1, Lit(name)] && p[1..][1..] == [Lit(name)] && p[1..][1..][1..] == [];
    assert Step(Lit(name), s, j + 1) == Some(j + 1 + |name|);
    assert MatchFrom([Lit(name)], s, j + 1) == Some(j + 1 + |name|);
    assert MatchFrom([Ws1, Lit(name)], s, j) == Some(j + 1 + |name|);
    assert Step(Lit(keyword), s, i) == Some(j);
  }

  // ---------------------------------------------------------------------------
  // `(?P<cases>...)return ...;` rewritten to `\g<cases>return true;` by `subn`
  // ---------------------------------------------------------------------------

  const RETURN_TRUE := "return true;"

  /**
   * A guarded return: the alternative runs of case labels the `cases` group accepts, in the order
   * the regular expression tries them, and the return statement that follows them.
   */
  datatype Guarded = Guarded(labels: seq<seq<Elem>>, ret: seq<Elem>)

  predicate OpensWithLit(p: seq<Elem>) {
    |p| > 0 && p[0].Lit? && |p[0].s| > 0
  }

  /** Every label run opens with a literal, so a match is never empty. */
  predicate ValidGuarded(g: Guarded) {
    OpenWithLits(g.labels)
  }

  /** The first label run that, together with the return statement after it, matches at `i`. */
  function GuardedAt(labels: seq<seq<Elem>>, ret: seq<Elem>, s: string, i: nat): (r: Option<(nat, nat)>)
    requires i <= |s|
    ensures r.Some? ==> i <= r.value.0 <= r.value.1 <= |s|
    ensures r.Some? && OpenWithLits(labels) ==> r.value.0 > i
  {
    if labels == [] then None
    else
      var k := MatchFrom(labels[0], s, i);
      if k.Some? && MatchFrom(ret, s, k.value).Some? then
        assert OpenWithLits(labels) ==> k.value > i by {
          if OpenWithLits(labels) {
            assert labels[0] in labels;
            MatchAdvances(labels[0], s, i);
          }
        }
        Some((k.value, MatchFrom(ret, s, k.value).value))
      else
        var r := GuardedAt(labels[1..], ret, s, i);
        assert OpenWithLits(labels) ==> OpenWithLits(labels[1..]) by {
          forall b | b in labels[1..] ensures b in labels { }
        }
        r
  }

  predicate OpenWithLits(labels: seq<seq<Elem>>) {
    forall a :: a in labels ==> OpensWithLit(a)
  }

  /**
   * A guarded match is a label run matching at `i` followed by the return statement; there is
   * none exactly when no label run is followed by the return statement.
   */
  lemma {:induction false} GuardedAtSpec(labels: seq<seq<Elem>>, ret: seq<Elem>, s: string, i: nat)
    requires i <= |s|
    ensures var r := GuardedAt(labels, ret, s, i);
      && (r.Some? ==> MatchFrom(ret, s, r.value.0) == Some(r.value.1))
      && (r.Some? ==> exists a :: a in labels && MatchFrom(a, s, i) == Some(r.value.0))
      && (r.None? ==> forall a :: a in labels && MatchFrom(a, s, i).Some? ==> MatchFrom(ret, s, MatchFrom(a, s, i).value).None?)
  {
    if labels != [] {
      var k := MatchFrom(labels[0], s, i);
      if !(k.Some? && MatchFrom(ret, s, k.value).Some?) {
        GuardedAtSpec(labels[1..], ret, s, i);
        assert forall b :: b in labels ==> b == labels[0] || b in labels[1..];
      } else {
        assert labels[0] in labels;
      }
    }
  }

  /** The leftmost position from `start` where the guarded return matches. */
  function GuardedFind(g: Guarded, s: string, start: nat): (r: Option<nat>)
    requires start <= |s|
    ensures r.Some? ==> start <= r.value <= |s| && GuardedAt(g.labels, g.ret, s, r.value).Some?
    ensures r.Some? ==> forall j :: start <= j < r.value ==> GuardedAt(g.labels, g.ret, s, j).None?
    ensures r.None? ==> forall j :: start <= j <= |s| ==> GuardedAt(g.labels, g.ret, s, j).None?
  {
    var ok := (j: nat) => j <= |s| && GuardedAt(g.labels, g.ret, s, j).Some?;
    assert forall j: nat :: ok(j) == (j <= |s| && GuardedAt(g.labels, g.ret, s, j).Some?);
    Leftmost(ok, start, |s|)
  }

  /**
   * `subn` from `start`: each leftmost non-overlapping match keeps its labels and has its
   * return statement replaced by `return true;`; the count of replacements comes with it.
   */
  function Override(g: Guarded, s: string, start: nat): (r: (string, nat))
    requires ValidGuarded(g) && start <= |s|
    ensures r.1 <= |s| - start
    decreases |s| - start
  {
    match GuardedFind(g, s, start)
    case None => (s[start..], 0)
    case Some(i) =>
      var m := GuardedAt(g.labels, g.ret, s, i).value;
      var rest := Override(g, s, m.1);
      (s[start..m.0] + RETURN_TRUE + rest.0, rest.1 + 1)
  }

  /** Nothing is counted exactly when no guarded return matches, and then nothing changes. */
  lemma {:induction false} OverrideNone(g: Guarded, s: string, start: nat)
    requires ValidGuarded(g) && start <= |s|
    ensures Override(g, s, start).1 == 0 <==> forall j :: start <= j <= |s| ==> GuardedAt(g.labels, g.ret, s, j).None?
    ensures Override(g, s, start).1 == 0 ==> Override(g, s, start).0 == s[start..]
  {
    if GuardedFind(g, s, start).Some? {
      var i := GuardedFind(g, s, start).value;
      assert GuardedAt(g.labels, g.ret, s, i).Some?;
    }
  }

  /**
   * The first rewrite: everything before the leftmost return statement, its case labels and
   * whitespace included, is kept verbatim, the statement becomes `return true;`, and the scan
   * resumes after the statement.
   */
  lemma {:induction false} OverrideFirst(g: Guarded, s: string, start: nat, i: nat)
    requires ValidGuarded(g) && start <= i <= |s|
    requires GuardedAt(g.labels, g.ret, s, i).Some?
    requires forall j :: start <= j < i ==> GuardedAt(g.labels, g.ret, s, j).None?
    ensures var (k, e) := GuardedAt(g.labels, g.ret, s, i).value;
      && i < k <= e
      && Override(g, s, start).0 == s[start..k] + RETURN_TRUE + Override(g, s, e).0
      && Override(g, s, start).1 == Override(g, s, e).1 + 1
  {
    LeftmostIs((j: nat) => j <= |s| && GuardedAt(g.labels, g.ret, s, j).Some?, start, |s|, i);
  }

  // ---------------------------------------------------------------------------
  // `subn(..., count=1)`: the leftmost match only
  // ---------------------------------------------------------------------------

  /** `re.subn(r"(<p>)", r"\1" + add, s, count=1)`: `add` goes right after the leftmost match. */
  function InsertAfterFirst(p: seq<Elem>, s: string, add: string): Option<string> {
    match Search(p, s)
    case None => None
    case Some(i) =>
      var e := MatchFrom(p, s, i).value;
      Some(s[..e] + add + s[e..])
  }

  /** `re.subn(p, rep, s, count=1)`: the leftmost match is replaced; the count is 0 or 1. */
  function ReplaceFirst(p: seq<Elem>, s: string, rep: string): (string, nat) {
    match Search(p, s)
    case None => (s, 0)
    case Some(i) =>
      var e := MatchFrom(p, s, i).value;
      (s[..i] + rep + s[e..], 1)
  }

  /** The text written in place of a match is in the result. */
  lemma {:induction false} ReplaceFirstWrites(p: seq<Elem>, s: string, rep: string)
    ensures ReplaceFirst(p, s, rep).1 == 1 <==> Found(p, s)
    ensures ReplaceFirst(p, s, rep).1 == 0 ==> ReplaceFirst(p, s, rep).0 == s
    ensures ReplaceFirst(p, s, rep).1 == 1 ==> Contains(ReplaceFirst(p, s, rep).0, rep)
  {
    if Found(p, s) {
      var i := Search(p, s).value;
      var e := MatchFrom(p, s, i).value;
      assert rep[0..|rep|] == rep && OccursAt(rep, rep, 0);
      ContainsInMiddle(s[..i], rep, s[e..], rep);
    }
  }

  /** The inserted text follows the leftmost match, and the rest of the text is kept around it. */
  lemma {:induction false} InsertAfterFirstPlaces(p: seq<Elem>, s: string, add: string)
    ensures InsertAfterFirst(p, s, add).Some? <==> Found(p, s)
    ensures Found(p, s) ==> var i := Search(p, s).value; var e := MatchFrom(p, s, i).value;
      && (forall j :: 0 <= j < i ==> MatchFrom(p, s, j).None?)
      && InsertAfterFirst(p, s, add).value == s[..e] + add + s[e..]
      && Contains(InsertAfterFirst(p, s, add).value, add)
  {
    if Found(p, s) {
      var i := Search(p, s).value;
      var e := MatchFrom(p, s, i).value;
      assert add[0..|add|] == add && OccursAt(add, add, 0);
      ContainsInMiddle(s[..e], add, s[e..], add);
    }
  }

  /** A pattern opening with `^` only matches at the start of a line. */
  lemma {:induction false} StartsLine(p: seq<Elem>, s: string, i: nat)
    requires i <= |s| && |p| > 0 && p[0] == LineStart
    requires MatchFrom(p, s, i).Some?
    ensures i == 0 || s[i - 1] == '\n'
  {
    assert Step(p[0], s, i).Some?;
  }

  /** A pattern ending in `\s*\n` ends its match just after a line break. */
  lemma {:induction false} EndsAfterBreak(p: seq<Elem>, s: string, i: nat)
    requires i <= |s| && |p| > 0 && p[|p| - 1] == WsNlEnd
    requires MatchFrom(p, s, i).Some?
    ensures MatchFrom(p, s, i).value > 0 && s[MatchFrom(p, s, i).value - 1] == '\n'
    decreases |p|
  {
    if |p| > 1 {
      var k := Step(p[0], s, i).value;
      assert p[1..][|p[1..]| - 1] == WsNlEnd;
      EndsAfterBreak(p[1..], s, k);
    }
  }
}
