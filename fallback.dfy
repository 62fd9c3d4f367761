/**
 * Inserting case labels before a stable sibling label, at that label's indentation, unless a
 * guard pattern shows they are already there: the `marker_re = ([ \t]*)(case ...)` insertions of
 * the Chromium media patcher.
 */
module Fallback {
  import opened Wrappers
  import opened Text
  import opened Pattern

  /**
   * One guarded insertion: `guard` is searched first; when it is absent the `lines` are inserted,
   * each indented like the label `marker` finds and ended by '\n', before that label's line;
   * when `marker` is absent too, the insertion fails with `error`. `note` is the change entry.
   */
  datatype Insertion = Insertion(guard: seq<Elem>, marker: seq<Elem>, lines: seq<string>, error: string, note: string)

  /** Each line prefixed with the indent and followed by '\n'. */
  function Indented(indent: string, lines: seq<string>): (r: string)
    ensures |lines| > 0 ==> r == indent + lines[0] + "\n" + Indented(indent, lines[1..])
  {
    if lines == [] then [] else indent + lines[0] + "\n" + Indented(indent, lines[1..])
  }

  /** The `[ \t]*` group at `q`: the indentation of the label found there. */
  function IndentAt(s: string, q: nat): (indent: string)
    requires q <= |s|
    ensures q + |indent| <= |s| && indent == s[q..q + |indent|]
    ensures forall k :: 0 <= k < |indent| ==> IsBlank(indent[k])
  {
    s[q..q + RunLen(s, q, IsBlank)]
  }

  /**
   * A failure carries the insertion's own message; a success records at most the one change
   * entry, removes nothing, and leaves the text as it was when it records nothing.
   */
  function Apply(f: Insertion, text: string): (r: Result<(string, seq<string>)>)
    ensures r.Err? ==> r.message == f.error
    ensures r.Ok? ==> |r.value.1| <= 1 && |text| <= |r.value.0|
    ensures r.Ok? && r.value.1 == [] ==> r.value.0 == text
  {
    if Found(f.guard, text) then Ok((text, []))
    else
      match Search(f.marker, text)
      case None => Err(f.error)
      case Some(q) =>
        var insert := Indented(IndentAt(text, q), f.lines);
        Ok((text[..q] + insert + text[q..], [f.note]))
  }

  /** The insertion fails exactly when neither the guard nor the marker is found. */
  lemma {:induction false} ApplyFails(f: Insertion, text: string)
    ensures Apply(f, text).Err? <==> !Found(f.guard, text) && !Found(f.marker, text)
    ensures Apply(f, text).Err? ==> Apply(f, text).message == f.error
  {
  }

  /**
   * When the guard is absent and the marker present, the indented lines go in at the leftmost
   * marker match, which starts at the beginning of the label's indentation; the rest of the text
   * is kept on both sides, and the change entry is recorded.
   */
  lemma {:induction false} ApplyInserts(f: Insertion, text: string)
    requires !Found(f.guard, text) && Found(f.marker, text)
    ensures var q := Search(f.marker, text).value;
      && MatchFrom(f.marker, text, q).Some?
      && (forall j :: 0 <= j < q ==> MatchFrom(f.marker, text, j).None?)
      && Apply(f, text) == Ok((text[..q] + Indented(IndentAt(text, q), f.lines) + text[q..], [f.note]))
  {
  }

  /** With the guard present nothing is inserted and nothing is recorded. */
  lemma {:induction false} ApplyGuarded(f: Insertion, text: string)
    requires Found(f.guard, text)
    ensures Apply(f, text) == Ok((text, []))
  {
  }

  /**
   * When the guard is `keyword\s+name` and the first inserted line spells it with one space, a
   * second application finds the guard and changes nothing.
   */
  lemma {:induction false} ApplySettles(f: Insertion, text: string, keyword: string, name: string)
    requires f.guard == [Lit(keyword), Ws1, Lit(name)]
    requires |keyword| > 0 && |name| > 0 && !IsWs(name[0])
    requires |f.lines| > 0 && f.lines[0] == keyword + " " + name
    requires Apply(f, text).Ok?
    ensures Found(f.guard, Apply(f, text).value.0)
    ensures Apply(f, Apply(f, text).value.0) == Ok((Apply(f, text).value.0, []))
  {
    if !Found(f.guard, text) {
      var q := Search(f.marker, text).value;
      var indent := IndentAt(text, q);
      var post := "\n" + Indented(indent, f.lines[1..]) + text[q..];
      InsertedFirst(text, q, indent, f.lines);
      PairFound(text[..q] + indent, keyword, name, post);
    }
  }

  /** The first inserted line follows the text before the marker and the indentation. */
  lemma {:induction false} InsertedFirst(text: string, q: nat, indent: string, lines: seq<string>)
    requires q <= |text| && |lines| > 0
    ensures text[..q] + Indented(indent, lines) + text[q..]
      == (text[..q] + indent) + (lines[0] + ("\n" + Indented(indent, lines[1..]) + text[q..]))
  {
  }

  /** `keyword name` written with one space, anywhere in a text, is found by `keyword\s+name`. */
  lemma {:induction false} PairFound(pre: string, keyword: string, name: string, post: string)
    requires |keyword| > 0 && |name| > 0 && !IsWs(name[0])
    ensures Found([Lit(keyword), Ws1, Lit(name)], pre + (keyword + " " + name + post))
  {
    var x := keyword + " " + name;
    var w := x + post;
    assert w[..|x|] == x;
    SpacedPairMatches(w, 0, keyword, name);
    ShiftedFound([Lit(keyword), Ws1, Lit(name)], pre, w);
  }

  /**
   * When the guard is `keyword\s+name\s*\n\s*<rest>`, the marker `[ \t]*<rest>` and the one
   * inserted line `keyword name`, the inserted line and the marker's line after it together
   * match the guard, so a second application changes nothing.
   */
  lemma {:induction false} ApplyJoins(f: Insertion, text: string, keyword: string, name: string, rest: seq<Elem>)
    requires f.guard == [Lit(keyword), Ws1, Lit(name), WsNl] + rest && f.marker == [Blanks] + rest
    requires |keyword| > 0 && |name| > 0 && !IsWs(name[0])
    requires OpensWithLit(rest) && !IsWs(rest[0].s[0]) && Unanchored(rest)
    requires |f.lines| == 1 && f.lines[0] == keyword + " " + name
    requires Apply(f, text).Ok?
    ensures Found(f.guard, Apply(f, text).value.0)
    ensures Apply(f, Apply(f, text).value.0) == Ok((Apply(f, text).value.0, []))
  {
    if !Found(f.guard, text) {
      var q := Search(f.marker, text).value;
      var indent := IndentAt(text, q);
      assert Indented(indent, f.lines[1..]) == [];
      assert Apply(f, text).value.0 == (text[..q] + indent) + (keyword + " " + name + "\n" + text[q..]);
      LineJoinsNext(text, q, indent, keyword, name, rest);
    }
  }

  /** The line `keyword name` put in front of the line the marker matches at `q`. */
  lemma {:induction false} LineJoinsNext(text: string, q: nat, indent: string, keyword: string, name: string, rest: seq<Elem>)
    requires q <= |text| && MatchFrom([Blanks] + rest, text, q).Some?
    requires |keyword| > 0 && |name| > 0 && !IsWs(name[0])
    requires OpensWithLit(rest) && !IsWs(rest[0].s[0]) && Unanchored(rest)
    ensures Found([Lit(keyword), Ws1, Lit(name), WsNl] + rest, (text[..q] + indent) + (keyword + " " + name + "\n" + text[q..]))
  {
    var guard := [Lit(keyword), Ws1, Lit(name), WsNl] + rest;
    MatchFromHere([Blanks] + rest, text, q);
    var w := keyword + " " + name + "\n" + text[q..];
    SpacedPairThenLine(w, keyword, name, rest, text[q..]);
    assert MatchFrom(guard, w, 0).Some?;
    ShiftedFound(guard, text[..q] + indent, w);
  }

  /** A match at the start of `w` is found once any text is put in front of it. */
  lemma {:induction false} ShiftedFound(p: seq<Elem>, pre: string, w: string)
    requires Unanchored(p) && MatchFrom(p, w, 0).Some?
    ensures Found(p, pre + w)
  {
    MatchShift(p, pre, w, 0);
    FoundAt(p, pre + w, |pre|);
  }

  /** A match at `q` is a match at the start of `text[q..]`. */
  lemma {:induction false} MatchFromHere(p: seq<Elem>, text: string, q: nat)
    requires q <= |text| && Unanchored(p) && MatchFrom(p, text, q).Some?
    ensures MatchFrom(p, text[q..], 0).Some?
  {
    assert text[..q] + text[q..] == text;
    MatchShift(p, text[..q], text[q..], 0);
  }
}
