/** Character classes, substring search and the line structure of text. */
module Text {
  import opened Wrappers

  /** The ASCII characters Python's `\s` matches. */
  predicate IsWs(c: char) {
    c == ' ' || c == '\t' || c == '\n' || c == '\r' || c == '\U{000B}' || c == '\U{000C}'
  }

  /** The ASCII characters Python's `\w` matches. */
  predicate IsWordChar(c: char) {
    ('a' <= c <= 'z') || ('A' <= c <= 'Z') || ('0' <= c <= '9') || c == '_'
  }

  predicate AllWs(s: string) {
    forall k :: 0 <= k < |s| ==> IsWs(s[k])
  }

  predicate NoNewline(s: string) {
    forall k :: 0 <= k < |s| ==> s[k] != '\n'
  }

  lemma {:induction false} NoNewlineConcat(a: string, b: string)
    requires NoNewline(a) && NoNewline(b)
    ensures NoNewline(a + b)
  {
    forall k | 0 <= k < |a + b| ensures (a + b)[k] != '\n' {
      if k < |a| { assert (a + b)[k] == a[k]; } else { assert (a + b)[k] == b[k - |a|]; }
    }
  }

  /** A catalog token (a flag or list entry): non-empty and free of whitespace. */
  predicate IsToken(s: string) {
    |s| > 0 && forall k :: 0 <= k < |s| ==> !IsWs(s[k])
  }

  predicate StartsWith(s: string, p: string) {
    |p| <= |s| && s[..|p|] == p
  }

  predicate EndsWith(s: string, p: string) {
    |p| <= |s| && s[|s| - |p|..] == p
  }

  predicate OccursAt(s: string, sub: string, i: nat) {
    i + |sub| <= |s| && s[i..i + |sub|] == sub
  }

  /** Python's `sub in s`. */
  predicate Contains(s: string, sub: string) {
    exists i: nat | i <= |s| :: OccursAt(s, sub, i)
  }

  /** An occurrence inside the middle part of a concatenation is an occurrence of the whole. */
  lemma {:induction false} ContainsInMiddle(a: string, x: string, b: string, sub: string)
    requires Contains(x, sub)
    ensures Contains(a + x + b, sub)
  {
    var i: nat :| i <= |x| && OccursAt(x, sub, i);
    var s := a + x + b;
    assert s[|a| + i..|a| + i + |sub|] == x[i..i + |sub|];
    assert OccursAt(s, sub, |a| + i);
  }

  lemma {:induction false} ContainsTrans(s: string, x: string, sub: string)
    requires Contains(s, x) && Contains(x, sub)
    ensures Contains(s, sub)
  {
    var i: nat :| i <= |s| && OccursAt(s, x, i);
    var j: nat :| j <= |x| && OccursAt(x, sub, j);
    forall k | 0 <= k < |sub|
      ensures s[i + j + k] == sub[k]
    {
      assert s[i + j + k] == s[i..i + |x|][j + k] == x[j + k] == x[j..j + |sub|][k];
    }
    assert s[i + j..i + j + |sub|] == sub;
    assert OccursAt(s, sub, i + j);
  }

  /** An occurrence that contains no line break survives a splice made right after a line break. */
  lemma {:induction false} ContainsAfterSplice(s: string, e: nat, ins: string, sub: string)
    requires 0 < e <= |s| && s[e - 1] == '\n'
    requires NoNewline(sub) && Contains(s, sub)
    ensures Contains(s[..e] + ins + s[e..], sub)
  {
    var i: nat :| i <= |s| && OccursAt(s, sub, i);
    var t := s[..e] + ins + s[e..];
    if i + |sub| <= e {
      assert t[i..i + |sub|] == s[i..i + |sub|];
      assert OccursAt(t, sub, i);
    } else if i >= e {
      assert t[i + |ins|..i + |ins| + |sub|] == s[i..i + |sub|];
      assert OccursAt(t, sub, i + |ins|);
    } else {
      assert false;
    }
  }

  /** Length of the longest all-whitespace prefix. */
  function LeadingWsLen(s: string): (k: nat)
    ensures k <= |s| && AllWs(s[..k])
    ensures k < |s| ==> !IsWs(s[k])
  {
    if |s| > 0 && IsWs(s[0]) then
      var k := 1 + LeadingWsLen(s[1..]);
      assert s[..k] == [s[0]] + s[1..][..k - 1];
      k
    else 0
  }

  lemma {:induction false} LeadingWsLenIs(s: string, k: nat)
    requires k <= |s| && AllWs(s[..k]) && (k < |s| ==> !IsWs(s[k]))
    ensures LeadingWsLen(s) == k
  {
    var n := LeadingWsLen(s);
    forall j | 0 <= j < k ensures IsWs(s[j]) { assert s[..k][j] == s[j]; }
    forall j | 0 <= j < n ensures IsWs(s[j]) { assert s[..n][j] == s[j]; }
  }

  /** The leading whitespace of a line: the group `(\s*)` of `^(\s*)`. */
  function LeadingWs(s: string): (w: string)
    ensures AllWs(w) && StartsWith(s, w)
    ensures |w| < |s| ==> !IsWs(s[|w|])
  {
    s[..LeadingWsLen(s)]
  }

  /** Text with a non-blank character has its first non-blank inside it, so a line's indent holds no line break. */
  lemma {:induction false} IndentOfNonBlank(s: string)
    requires TrimEndWs(s) != []
    ensures LeadingWsLen(s) < |s|
    ensures IsLine(s) ==> NoNewline(LeadingWs(s))
  {
    var t := TrimEndWs(s);
    var k := LeadingWsLen(s);
    assert s[|t| - 1] == t[|t| - 1];
    forall j | 0 <= j < k ensures IsWs(s[j]) { assert s[..k][j] == s[j]; }
    assert k <= |t| - 1;
    if IsLine(s) {
      forall j | 0 <= j < k ensures LeadingWs(s)[j] != '\n' {
        assert LeadingWs(s)[j] == s[..|s| - 1][j];
      }
    }
  }

  /** `s` with its trailing whitespace (line breaks included) removed: what `\s*$` can absorb. */
  function TrimEndWs(s: string): (t: string)
    ensures |t| <= |s| && t == s[..|t|] && AllWs(s[|t|..])
    ensures t == [] || !IsWs(t[|t| - 1])
  {
    if |s| > 0 && IsWs(s[|s| - 1]) then
      var t := TrimEndWs(s[..|s| - 1]);
      assert s[|t|..] == s[..|s| - 1][|t|..] + [s[|s| - 1]];
      t
    else s
  }

  lemma {:induction false} TrimEndWsAppendWs(x: string, w: string)
    requires AllWs(w)
    ensures TrimEndWs(x + w) == TrimEndWs(x)
    decreases |w|
  {
    if w != [] {
      var v := w[..|w| - 1];
      assert (x + w)[..|x + w| - 1] == x + v;
      assert (x + w)[|x + w| - 1] == w[|w| - 1];
      TrimEndWsAppendWs(x, v);
    } else {
      assert x + w == x;
    }
  }

  /** A line with every trailing '\r' and '\n' removed: Python's `line.rstrip("\r\n")`. */
  function StripEol(s: string): (t: string)
    ensures |t| <= |s| && t == s[..|t|]
    ensures t == [] || (t[|t| - 1] != '\r' && t[|t| - 1] != '\n')
  {
    if |s| > 0 && (s[|s| - 1] == '\r' || s[|s| - 1] == '\n') then StripEol(s[..|s| - 1]) else s
  }

  // ---------------------------------------------------------------------------
  // Lines: `text.splitlines(keepends=True)` and `"".join(lines)`
  // ---------------------------------------------------------------------------

  /** Index of the first '\n' of `s`, or `|s|` when there is none. */
  function NewlineIndex(s: string): (k: nat)
    ensures k <= |s| && NoNewline(s[..k])
    ensures k < |s| ==> s[k] == '\n'
  {
    if s == [] || s[0] == '\n' then 0
    else
      var k := 1 + NewlineIndex(s[1..]);
      assert s[..k] == [s[0]] + s[1..][..k - 1];
      k
  }

  lemma {:induction false} NewlineIndexIs(s: string, k: nat)
    requires k < |s| && s[k] == '\n' && NoNewline(s[..k])
    ensures NewlineIndex(s) == k
  {
    var n := NewlineIndex(s);
    forall j | 0 <= j < k ensures s[j] != '\n' { assert s[..k][j] == s[j]; }
    forall j | 0 <= j < n ensures s[j] != '\n' { assert s[..n][j] == s[j]; }
  }

  /** A line as `splitlines(keepends=True)` yields it: non-empty, '\n' at most as its last character. */
  predicate IsLine(l: string) {
    |l| > 0 && NoNewline(l[..|l| - 1])
  }

  predicate EndsInNewline(l: string) {
    |l| > 0 && l[|l| - 1] == '\n'
  }

  /** A sequence of lines as a split produces it: every line but the last ends in '\n'. */
  predicate LinesShape(ls: seq<string>) {
    && (forall i :: 0 <= i < |ls| ==> IsLine(ls[i]))
    && (forall i :: 0 <= i < |ls| - 1 ==> EndsInNewline(ls[i]))
  }

  function Join(ls: seq<string>): string {
    if ls == [] then [] else ls[0] + Join(ls[1..])
  }

  /** `text.splitlines(keepends=True)`, splitting after every '\n'. */
  function Lines(s: string): (ls: seq<string>)
    ensures Join(ls) == s && LinesShape(ls)
    ensures (s == [] || s[|s| - 1] == '\n') ==> forall i :: 0 <= i < |ls| ==> EndsInNewline(ls[i])
    decreases |s|
  {
    if s == [] then []
    else
      var k := NewlineIndex(s);
      if k == |s| then [s]
      else
        var rest := Lines(s[k + 1..]);
        assert s[..k + 1][..k] == s[..k];
        assert s == s[..k + 1] + s[k + 1..];
        ConsLine(s[..k + 1], rest);
        [s[..k + 1]] + rest
  }

  lemma {:induction false} ConsLine(l: string, rest: seq<string>)
    requires IsLine(l) && EndsInNewline(l) && LinesShape(rest)
    ensures LinesShape([l] + rest) && Join([l] + rest) == l + Join(rest)
    ensures (forall i :: 0 <= i < |rest| ==> EndsInNewline(rest[i])) ==>
              forall i :: 0 <= i < |[l] + rest| ==> EndsInNewline(([l] + rest)[i])
  {
    var r := [l] + rest;
    assert r[1..] == rest;
    forall i | 1 <= i < |r| ensures r[i] == rest[i - 1] { }
  }

  lemma {:induction false} JoinAppend(a: seq<string>, b: seq<string>)
    ensures Join(a + b) == Join(a) + Join(b)
  {
    if a == [] {
      assert a + b == b;
    } else {
      assert (a + b)[1..] == a[1..] + b;
      JoinAppend(a[1..], b);
    }
  }

  /** Splitting joined lines gives the lines back: the round trip `splitlines` / `join`. */
  lemma {:induction false} LinesOfJoin(ls: seq<string>)
    requires LinesShape(ls)
    ensures Lines(Join(ls)) == ls
  {
    if ls != [] {
      var s := Join(ls);
      var l := ls[0];
      assert s == l + Join(ls[1..]);
      assert LinesShape(ls[1..]) by {
        forall i | 0 <= i < |ls[1..]| ensures IsLine(ls[1..][i]) { assert ls[1..][i] == ls[i + 1]; }
        forall i | 0 <= i < |ls[1..]| - 1 ensures EndsInNewline(ls[1..][i]) { assert ls[1..][i] == ls[i + 1]; }
      }
      if EndsInNewline(l) {
        assert s[..|l| - 1] == l[..|l| - 1];
        NewlineIndexIs(s, |l| - 1);
        assert s[..|l|] == l && s[|l|..] == Join(ls[1..]);
        LinesOfJoin(ls[1..]);
      } else {
        assert |ls| == 1;
        assert s == l;
        assert NoNewline(s);
        assert NewlineIndex(s) == |s|;
      }
    }
  }

  /** Text ending in a line break splits independently of what follows it. */
  lemma {:induction false} LinesAppend(p: string, q: string)
    requires p == [] || p[|p| - 1] == '\n'
    ensures Lines(p + q) == Lines(p) + Lines(q)
  {
    var a, b := Lines(p), Lines(q);
    JoinAppend(a, b);
    ShapeAppend(a, b);
    LinesOfJoin(a + b);
  }

  /** Lines appended after text that ends in a line break split back into themselves. */
  lemma {:induction false} LinesAfter(p: string, ls: seq<string>)
    requires p == [] || p[|p| - 1] == '\n'
    requires LinesShape(ls)
    ensures Lines(p + Join(ls)) == Lines(p) + ls
  {
    LinesOfJoin(ls);
    LinesAppend(p, Join(ls));
  }

  lemma {:induction false} JoinTwoMore(init: seq<string>, last: string, nl: string)
    ensures Join(init + [last + nl, nl]) == Join(init + [last]) + (nl + nl)
  {
    JoinAppend(init, [last + nl, nl]);
    JoinAppend(init, [last]);
    assert [last + nl, nl][1..] == [nl];
    assert Join([nl]) == nl;
    assert Join([last]) == last;
  }

  /** Either line break is a single terminated line of blanks. */
  lemma {:induction false} BreakShape(nl: string)
    requires nl == "\n" || nl == "\r\n"
    ensures IsLine(nl) && EndsInNewline(nl) && AllWs(nl)
  {
  }

  /** A line that does not end in '\n' has none at all. */
  lemma {:induction false} UnterminatedLine(l: string)
    requires IsLine(l) && l[|l| - 1] != '\n'
    ensures NoNewline(l)
  {
    forall k | 0 <= k < |l| ensures l[k] != '\n' {
      if k < |l| - 1 { assert l[k] == l[..|l| - 1][k]; }
    }
  }

  /** Terminating a line with either line break. */
  lemma {:induction false} TerminatedLine(l: string, nl: string)
    requires NoNewline(l) && IsLine(nl) && EndsInNewline(nl)
    ensures IsLine(l + nl) && EndsInNewline(l + nl)
  {
    assert (l + nl)[..|l + nl| - 1] == l + nl[..|nl| - 1];
    NoNewlineConcat(l, nl[..|nl| - 1]);
  }

  /**
   * Two line breaks after text whose last line is unterminated: that line gets the first break,
   * and the second forms a line of its own.
   */
  lemma {:induction false} LinesTerminated(text: string, nl: string)
    requires text != [] && text[|text| - 1] != '\n'
    requires IsLine(nl) && EndsInNewline(nl)
    ensures var ls := Lines(text);
      |ls| > 0 && Lines(text + (nl + nl)) == ls[..|ls| - 1] + [ls[|ls| - 1] + nl, nl]
  {
    var ls := Lines(text);
    var init, last := ls[..|ls| - 1], ls[|ls| - 1];
    assert ls == init + [last];
    LastLineEnd(init, last);
    UnterminatedLine(last);
    TerminatedLine(last, nl);
    var out := init + [last + nl, nl];
    assert LinesShape(init) && forall i :: 0 <= i < |init| ==> EndsInNewline(init[i]);
    assert LinesShape([last + nl, nl]);
    ShapeAppend(init, [last + nl, nl]);
    JoinTwoMore(init, last, nl);
    LinesOfJoin(out);
  }

  lemma {:induction false} LastLineEnd(init: seq<string>, last: string)
    requires last != []
    ensures var t := Join(init + [last]); |t| > 0 && t[|t| - 1] == last[|last| - 1]
  {
    JoinAppend(init, [last]);
    assert Join([last]) == last;
  }

  lemma {:induction false} ShapeAppend(a: seq<string>, b: seq<string>)
    requires LinesShape(a) && LinesShape(b)
    requires forall i :: 0 <= i < |a| ==> EndsInNewline(a[i])
    ensures LinesShape(a + b)
  {
    forall i | 0 <= i < |a + b| ensures IsLine((a + b)[i]) && (i < |a + b| - 1 ==> EndsInNewline((a + b)[i])) {
      if i < |a| { assert (a + b)[i] == a[i]; } else { assert (a + b)[i] == b[i - |a|]; }
    }
  }

  /** Splicing lines that each end in a line break before line `k` keeps the shape of a split. */
  lemma {:induction false} SpliceShape(ls: seq<string>, k: nat, ins: seq<string>)
    requires LinesShape(ls) && k < |ls|
    requires forall j :: 0 <= j < |ins| ==> IsLine(ins[j]) && EndsInNewline(ins[j])
    ensures LinesShape(ls[..k] + ins + ls[k..])
  {
    var r := ls[..k] + ins + ls[k..];
    forall i | 0 <= i < |r| ensures IsLine(r[i]) && (i < |r| - 1 ==> EndsInNewline(r[i])) {
      if i < k {
        assert r[i] == ls[i];
      } else if i < k + |ins| {
        assert r[i] == ins[i - k];
      } else {
        assert r[i] == ls[i - |ins|];
      }
    }
  }

  /** Joining a splice puts the inserted text between the two halves of the original. */
  lemma {:induction false} JoinSplice(ls: seq<string>, k: nat, ins: seq<string>)
    requires k <= |ls|
    ensures Join(ls[..k] + ins + ls[k..]) == Join(ls[..k]) + Join(ins) + Join(ls[k..])
    ensures Join(ls) == Join(ls[..k]) + Join(ls[k..])
  {
    JoinAppend(ls[..k] + ins, ls[k..]);
    JoinAppend(ls[..k], ins);
    JoinAppend(ls[..k], ls[k..]);
    assert ls[..k] + ls[k..] == ls;
  }

  // ---------------------------------------------------------------------------
  // Decimal numerals, as `str(n)` writes them
  // ---------------------------------------------------------------------------

  predicate IsDigit(c: char) {
    '0' <= c <= '9'
  }

  function DigitChar(d: nat): (c: char)
    requires d < 10
    ensures IsDigit(c) && (c as int) - ('0' as int) == d
  {
    (('0' as int) + d) as char
  }

  /** Python's `str(n)` for a natural number. */
  function NatToString(n: nat): (s: string)
    ensures |s| > 0 && AllDigits(s)
    decreases n
  {
    if n < 10 then [DigitChar(n)] else NatToString(n / 10) + [DigitChar(n % 10)]
  }

  predicate AllDigits(s: string) {
    forall k :: 0 <= k < |s| ==> IsDigit(s[k])
  }

  /** The value of a string of decimal digits. */
  function DecimalValue(s: string): nat
    requires AllDigits(s)
  {
    if s == [] then 0
    else DecimalValue(s[..|s| - 1]) * 10 + ((s[|s| - 1] as int) - ('0' as int))
  }

  /** The numeral reads back as the number, and has no leading zero. */
  lemma {:induction false} NatToStringRoundTrip(n: nat)
    ensures DecimalValue(NatToString(n)) == n
    ensures NatToString(n)[0] == '0' ==> n == 0
    decreases n
  {
    if n >= 10 {
      NatToStringRoundTrip(n / 10);
      var s := NatToString(n);
      assert s[..|s| - 1] == NatToString(n / 10);
      assert s[0] == NatToString(n / 10)[0];
    }
  }

  /** The leftmost position from `start` up to `n` that satisfies `ok`. */
  function Leftmost(ok: nat -> bool, start: nat, n: nat): (r: Option<nat>)
    requires start <= n
    ensures r.Some? ==> start <= r.value <= n && ok(r.value)
    ensures r.Some? ==> forall j :: start <= j < r.value ==> !ok(j)
    ensures r.None? ==> forall j :: start <= j <= n ==> !ok(j)
    decreases n - start
  {
    if ok(start) then Some(start)
    else if start == n then None
    else Leftmost(ok, start + 1, n)
  }

  /** A position satisfying `ok` with none before it from `start` is the one `Leftmost` finds. */
  lemma {:induction false} LeftmostIs(ok: nat -> bool, start: nat, n: nat, i: nat)
    requires start <= i <= n && ok(i)
    requires forall j :: start <= j < i ==> !ok(j)
    ensures Leftmost(ok, start, n) == Some(i)
    decreases i - start
  {
    if start < i {
      LeftmostIs(ok, start + 1, n, i);
    }
  }
}
