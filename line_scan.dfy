/** The index scans `for index in range(start, stop): if <line matches>: break` over split lines. */
module LineScan {
  import opened Wrappers

  /** Index of the first line in `ls[start..stop]` that satisfies `p`. */
  function FirstFrom(ls: seq<string>, start: nat, stop: nat, p: string -> bool): (r: Option<nat>)
    requires stop <= |ls|
    ensures r.Some? ==> start <= r.value < stop && p(ls[r.value])
    decreases stop - start
  {
    if start >= stop then None
    else if p(ls[start]) then Some(start)
    else FirstFrom(ls, start + 1, stop, p)
  }

  /** The scan stops at the first matching line: none before it matches, and none at all when it gives up. */
  lemma {:induction false} FirstFromSpec(ls: seq<string>, start: nat, stop: nat, p: string -> bool)
    requires stop <= |ls|
    ensures var r := FirstFrom(ls, start, stop, p);
      && (r.Some? ==> forall j :: start <= j < r.value ==> !p(ls[j]))
      && (r.None? ==> forall j :: start <= j < stop ==> !p(ls[j]))
    decreases stop - start
  {
    if start < stop && !p(ls[start]) {
      FirstFromSpec(ls, start + 1, stop, p);
    }
  }

  /** The scan loop itself, stopping at the first matching line. */
  method FindLine(ls: seq<string>, start: nat, stop: nat, p: string -> bool) returns (r: Option<nat>)
    requires stop <= |ls|
    ensures r == FirstFrom(ls, start, stop, p)
  {
    var index := start;
    while index < stop
      invariant start <= index
      invariant FirstFrom(ls, index, stop, p) == FirstFrom(ls, start, stop, p)
    {
      if p(ls[index]) {
        return Some(index);
      }
      index := index + 1;
    }
    return None;
  }
}
