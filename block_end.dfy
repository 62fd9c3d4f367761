/** `find_block_end`: the balanced-brace scanner. */
module BlockEnd {
  import opened Wrappers

  /** Number of occurrences of `c` in `s`. */
  function Count(s: string, c: char): nat {
    if s == [] then 0 else Count(s[..|s| - 1], c) + (if s[|s| - 1] == c then 1 else 0)
  }

  /** Brace depth after scanning `text[open..i]`: opening braces minus closing braces. */
  function Depth(text: string, open: nat, i: nat): int
    requires open <= i <= |text|
  {
    Count(text[open..i], '{') - Count(text[open..i], '}')
  }

  lemma {:induction false} DepthStep(text: string, open: nat, i: nat)
    requires open <= i < |text|
    ensures Depth(text, open, i + 1) ==
              Depth(text, open, i) + (if text[i] == '{' then 1 else if text[i] == '}' then -1 else 0)
  {
    assert text[open..i + 1][..i - open] == text[open..i];
  }

  /** Position `j` is just past a `}` at which the depth counted from `open` is back to zero. */
  predicate ClosesAt(text: string, open: nat, j: nat) {
    open < j <= |text| && text[j - 1] == '}' && Depth(text, open, j) == 0
  }

  /**
   * Scans forward from `open`, counting `{` up and `}` down, and returns the position
   * just past the first `}` that brings the depth back to zero; None when none does.
   */
  method FindBlockEnd(text: string, open: nat) returns (r: Option<nat>)
    ensures r.Some? ==> ClosesAt(text, open, r.value)
    ensures r.Some? ==> forall j :: open < j < r.value ==> !ClosesAt(text, open, j)
    ensures r.None? ==> forall j :: open < j <= |text| ==> !ClosesAt(text, open, j)
  {
    if open >= |text| {
      // the scanned range is empty
      return None;
    }
    var depth := 0;
    var i := open;
    while i < |text|
      invariant open <= i <= |text|
      invariant depth == Depth(text, open, i)
      invariant forall j :: open < j <= i ==> !ClosesAt(text, open, j)
    {
      DepthStep(text, open, i);
      if text[i] == '{' {
        depth := depth + 1;
      } else if text[i] == '}' {
        depth := depth - 1;
        if depth == 0 {
          return Some(i + 1);
        }
      }
      i := i + 1;
    }
    return None;
  }

  /**
   * Starting on an opening brace, the depth stays positive strictly inside the block:
   * the scanner returns the brace that matches the one at `open`, not an inner one.
   */
  lemma {:induction false} DepthPositiveInside(text: string, open: nat, e: nat)
    requires open < |text| && text[open] == '{'
    requires open < e <= |text|
    requires forall j :: open < j < e ==> !ClosesAt(text, open, j)
    ensures forall j :: open < j < e ==> Depth(text, open, j) > 0
  {
    forall j | open < j < e ensures Depth(text, open, j) > 0 {
      DepthPositiveUpTo(text, open, e, j);
    }
  }

  lemma {:induction false} DepthPositiveUpTo(text: string, open: nat, e: nat, j: nat)
    requires open < |text| && text[open] == '{'
    requires open < j < e <= |text|
    requires forall k :: open < k < e ==> !ClosesAt(text, open, k)
    ensures Depth(text, open, j) > 0
    decreases j
  {
    DepthStep(text, open, j - 1);
    if j == open + 1 {
      assert text[open..open] == [];
    } else {
      DepthPositiveUpTo(text, open, e, j - 1);
      assert !ClosesAt(text, open, j);
    }
  }
}
