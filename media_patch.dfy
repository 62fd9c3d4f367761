/**
 * The `main` of the Chromium media patcher: every target's new text is computed before anything
 * is written, and only changed files are written, each after a one-time `.orig` backup.
 */
module MediaPatch {
  import opened Wrappers
  import SupportedTypes
  import FfmpegCommon
  import VideoDecoder
  import GlueDemuxers

  const TARGETS := ["media/base/supported_types.cc", "media/ffmpeg/ffmpeg_common.cc",
                    "media/filters/ffmpeg_video_decoder.cc", "media/filters/ffmpeg_glue.cc"]

  /** The patch function of target `k`. */
  function Patcher(k: nat, text: string): Result<(string, seq<string>)>
    requires k < |TARGETS|
  {
    if k == 0 then SupportedTypes.PatchSupportedTypes(text)
    else if k == 1 then FfmpegCommon.PatchFfmpegCommon(text)
    else if k == 2 then VideoDecoder.PatchVideoDecoder(text)
    else GlueDemuxers.PatchGlueDemuxers(text)
  }

  /** `path.with_suffix(path.suffix + ".orig")`: every target has a suffix, so `.orig` is appended. */
  function BackupPath(path: string): string {
    path + ".orig"
  }

  /** One target: its text as read, as patched, and the change entries the patch recorded. */
  datatype Edit = Edit(path: string, original: string, patched: string, changes: seq<string>)

  predicate Changed(e: Edit) {
    e.original != e.patched
  }

  /** The edits of the first `n` targets, computed in order; the first failing patch is the error. */
  function ComputeEdits(files: map<string, string>, n: nat): Result<seq<Edit>>
    requires n <= |TARGETS| && forall t :: t in TARGETS ==> t in files
  {
    if n == 0 then Ok([])
    else
      var before :- ComputeEdits(files, n - 1);
      var out :- Patcher(n - 1, files[TARGETS[n - 1]]);
      Ok(before + [Edit(TARGETS[n - 1], files[TARGETS[n - 1]], out.0, out.1)])
  }

  /** What `main` decides before writing: a missing target or a failing patch stops it. */
  function Plan(files: map<string, string>): Result<seq<Edit>> {
    if exists t :: t in TARGETS && t !in files then Err("Missing file")
    else ComputeEdits(files, |TARGETS|)
  }

  /** The change entries of the changed files, in target order. */
  function Summary(edits: seq<Edit>): seq<string> {
    if edits == [] then []
    else
      var last := edits[|edits| - 1];
      Summary(edits[..|edits| - 1]) + (if Changed(last) then last.changes else [])
  }

  /** `backup_once`: copy the file to its backup path unless a backup is already there. */
  function Backup(files: map<string, string>, path: string): map<string, string>
    requires path in files
  {
    if BackupPath(path) in files then files else files[BackupPath(path) := files[path]]
  }

  /** The write step of one edit: nothing for an unchanged file, else back up and write. */
  function WriteOne(files: map<string, string>, e: Edit): map<string, string>
    requires e.path in files
  {
    if Changed(e) then Backup(files, e.path)[e.path := e.patched] else files
  }

  /** The write steps of all edits, in order. */
  function WriteAll(files: map<string, string>, edits: seq<Edit>): (r: map<string, string>)
    requires forall k :: 0 <= k < |edits| ==> edits[k].path in files
    ensures files.Keys <= r.Keys
  {
    if edits == [] then files
    else
      var before := WriteAll(files, edits[..|edits| - 1]);
      WriteOne(before, edits[|edits| - 1])
  }

  /**
   * Edits that read their file from `files`, touch distinct files, and never have one edit's
   * backup path be another edit's file.
   */
  predicate Consistent(files: map<string, string>, edits: seq<Edit>) {
    && (forall k :: 0 <= k < |edits| ==> edits[k].path in files && files[edits[k].path] == edits[k].original)
    && (forall j, k :: 0 <= j < k < |edits| ==> edits[j].path != edits[k].path)
    && (forall j, k :: 0 <= j < |edits| && 0 <= k < |edits| ==> BackupPath(edits[j].path) != edits[k].path)
  }

  lemma {:induction false} ConsistentPrefix(files: map<string, string>, edits: seq<Edit>, n: nat)
    requires Consistent(files, edits) && n <= |edits|
    ensures Consistent(files, edits[..n])
  {
  }

  /** A file no edit targets keeps its content, existing backups included. */
  lemma {:induction false} WriteAllKeepsOthers(files: map<string, string>, edits: seq<Edit>, p: string)
    requires Consistent(files, edits) && p in files
    requires forall k :: 0 <= k < |edits| ==> edits[k].path != p
    ensures WriteAll(files, edits)[p] == files[p]
    decreases |edits|
  {
    if edits != [] {
      ConsistentPrefix(files, edits, |edits| - 1);
      WriteAllKeepsOthers(files, edits[..|edits| - 1], p);
    }
  }

  /** Every edited file ends with its patched text; an unchanged one keeps its original text. */
  lemma {:induction false} WriteAllWrites(files: map<string, string>, edits: seq<Edit>)
    requires Consistent(files, edits)
    ensures forall k :: 0 <= k < |edits| ==> WriteAll(files, edits)[edits[k].path] == edits[k].patched
    decreases |edits|
  {
    if edits != [] {
      var n := |edits| - 1;
      var init := edits[..n];
      var last := edits[n];
      ConsistentPrefix(files, edits, n);
      WriteAllWrites(files, init);
      var before := WriteAll(files, init);
      WriteAllKeepsOthers(files, init, last.path);
      forall k | 0 <= k < |edits|
        ensures WriteAll(files, edits)[edits[k].path] == edits[k].patched
      {
        if k < n {
          assert edits[k] == init[k];
          assert edits[k].path != last.path && edits[k].path != BackupPath(last.path);
        }
      }
    }
  }

  /**
   * Every changed file has a backup afterwards; a backup that did not exist holds the original
   * text, and one that existed is left as it was.
   */
  lemma {:induction false} WriteAllBacksUp(files: map<string, string>, edits: seq<Edit>, k: nat)
    requires Consistent(files, edits) && k < |edits| && Changed(edits[k])
    ensures BackupPath(edits[k].path) in WriteAll(files, edits)
    ensures BackupPath(edits[k].path) !in files ==> WriteAll(files, edits)[BackupPath(edits[k].path)] == edits[k].original
    ensures BackupPath(edits[k].path) in files ==> WriteAll(files, edits)[BackupPath(edits[k].path)] == files[BackupPath(edits[k].path)]
    decreases |edits|
  {
    var n := |edits| - 1;
    var init := edits[..n];
    var last := edits[n];
    var b := BackupPath(edits[k].path);
    ConsistentPrefix(files, edits, n);
    if k < n {
      assert edits[k] == init[k];
      WriteAllBacksUp(files, init, k);
      assert b != last.path;
      assert b != BackupPath(last.path) by {
        assert edits[k].path != last.path;
        assert |b| == |edits[k].path| + 5;
        assert b[..|edits[k].path|] == edits[k].path;
        assert BackupPath(last.path)[..|last.path|] == last.path;
      }
    } else {
      if b in files {
        assert forall j :: 0 <= j < |init| ==> init[j].path != b;
        WriteAllKeepsOthers(files, init, b);
      } else {
        forall j | 0 <= j < |init|
          ensures b != BackupPath(init[j].path)
        {
          assert init[j].path != last.path;
          assert b[..|last.path|] == last.path;
          assert BackupPath(init[j].path)[..|init[j].path|] == init[j].path;
        }
        WriteAllAddsOnlyBackups(files, init, b);
      }
      WriteAllKeepsOthers(files, init, last.path);
    }
  }

  /** The only files the write step creates are backups of edited files. */
  lemma {:induction false} WriteAllAddsOnlyBackups(files: map<string, string>, edits: seq<Edit>, p: string)
    requires forall k :: 0 <= k < |edits| ==> edits[k].path in files
    requires p !in files && forall k :: 0 <= k < |edits| ==> p != BackupPath(edits[k].path)
    ensures p !in WriteAll(files, edits)
    decreases |edits|
  {
    if edits != [] {
      WriteAllAddsOnlyBackups(files, edits[..|edits| - 1], p);
    }
  }

  /** A patch failure at some target is the failure of every longer prefix too. */
  lemma {:induction false} ComputeFailsOn(files: map<string, string>, n: nat, m: nat)
    requires forall t :: t in TARGETS ==> t in files
    requires n <= m <= |TARGETS| && ComputeEdits(files, n).Err?
    ensures ComputeEdits(files, m) == ComputeEdits(files, n)
    decreases m - n
  {
    if n < m {
      ComputeFailsOn(files, n, m - 1);
    }
  }

  /** The edits of the first `n` targets fail exactly when one of their patches fails. */
  lemma {:induction false} ComputeFailsIff(files: map<string, string>, n: nat)
    requires n <= |TARGETS| && forall t :: t in TARGETS ==> t in files
    ensures ComputeEdits(files, n).Err? <==> exists k :: 0 <= k < n && Patcher(k, files[TARGETS[k]]).Err?
  {
    if n > 0 {
      ComputeFailsIff(files, n - 1);
    }
  }

  /** With every target present, the plan fails exactly when some target's patch fails. */
  lemma {:induction false} PlanFails(files: map<string, string>)
    ensures (exists t :: t in TARGETS && t !in files) ==> Plan(files).Err?
    ensures (forall t :: t in TARGETS ==> t in files) ==>
      (Plan(files).Err? <==> exists k :: 0 <= k < |TARGETS| && Patcher(k, files[TARGETS[k]]).Err?)
  {
    if forall t :: t in TARGETS ==> t in files {
      ComputeFailsIff(files, |TARGETS|);
    }
  }

  /** The computed edits are the four targets, in order, each read from the tree and patched. */
  lemma {:induction false} ComputeEditsShape(files: map<string, string>, n: nat)
    requires n <= |TARGETS| && (forall t :: t in TARGETS ==> t in files) && ComputeEdits(files, n).Ok?
    ensures var edits := ComputeEdits(files, n).value;
      && |edits| == n
      && forall k :: 0 <= k < n ==>
           && edits[k].path == TARGETS[k] && edits[k].original == files[TARGETS[k]]
           && Patcher(k, files[TARGETS[k]]) == Ok((edits[k].patched, edits[k].changes))
  {
    if n > 0 {
      ComputeEditsShape(files, n - 1);
    }
  }

  lemma {:induction false} TargetsApart()
    ensures forall j, k :: 0 <= j < k < |TARGETS| ==> TARGETS[j] != TARGETS[k]
    ensures forall j, k :: 0 <= j < |TARGETS| && 0 <= k < |TARGETS| ==> BackupPath(TARGETS[j]) != TARGETS[k]
  {
    forall j, k | 0 <= j < |TARGETS| && 0 <= k < |TARGETS|
      ensures BackupPath(TARGETS[j]) != TARGETS[k]
    {
      var b := BackupPath(TARGETS[j]);
      assert b[|b| - 1] == 'g' && TARGETS[k][|TARGETS[k]| - 1] == 'c';
    }
  }

  /** A successful plan's edits fit the tree they were read from. */
  lemma {:induction false} PlanConsistent(files: map<string, string>)
    requires Plan(files).Ok?
    ensures Consistent(files, Plan(files).value) && |Plan(files).value| == |TARGETS|
    ensures forall k :: 0 <= k < |TARGETS| ==> Plan(files).value[k].path == TARGETS[k]
  {
    ComputeEditsShape(files, |TARGETS|);
    TargetsApart();
  }

  /** The Chromium checkout, by path. */
  class SourceTree {
    var files: map<string, string>

    constructor (files: map<string, string>)
      ensures this.files == files
    {
      this.files := files;
    }

    /** `backup_once`: an existing backup is never overwritten. */
    method BackupOnce(path: string)
      requires path in files
      modifies this
      ensures files == Backup(old(files), path)
    {
      var backup := BackupPath(path);
      if backup !in files {
        files := files[backup := files[path]];
      }
    }

    /** The existence check of every target, in order. */
    method AllTargetsExist() returns (ok: bool)
      ensures ok <==> forall t :: t in TARGETS ==> t in files
    {
      var k := 0;
      while k < |TARGETS|
        invariant k <= |TARGETS|
        invariant forall j :: 0 <= j < k ==> TARGETS[j] in files
      {
        if TARGETS[k] !in files {
          return false;
        }
        k := k + 1;
      }
      return true;
    }

    /** Every target read and patched, in order, before anything is written; the first error stops it. */
    method ComputeAll() returns (r: Result<seq<Edit>>)
      requires forall t :: t in TARGETS ==> t in files
      ensures r == ComputeEdits(files, |TARGETS|)
    {
      var edits: seq<Edit> := [];
      var k := 0;
      while k < |TARGETS|
        invariant k <= |TARGETS|
        invariant ComputeEdits(files, k) == Ok(edits)
      {
        var original := files[TARGETS[k]];
        var out := Patcher(k, original);
        if out.Err? {
          assert ComputeEdits(files, k + 1) == Err(out.message);
          ComputeFailsOn(files, k + 1, |TARGETS|);
          return Err(out.message);
        }
        edits := edits + [Edit(TARGETS[k], original, out.value.0, out.value.1)];
        k := k + 1;
      }
      return Ok(edits);
    }

    /** Write every changed file, each after its backup. */
    method WriteChanged(edits: seq<Edit>)
      requires Consistent(files, edits)
      modifies this
      ensures files == WriteAll(old(files), edits)
    {
      var k := 0;
      while k < |edits|
        invariant k <= |edits|
        invariant files == WriteAll(old(files), edits[..k])
      {
        assert edits[..k + 1][..k] == edits[..k];
        if Changed(edits[k]) {
          BackupOnce(edits[k].path);
          files := files[edits[k].path := edits[k].patched];
        }
        k := k + 1;
      }
      assert edits[..k] == edits;
    }

    /**
     * `main`: status 1, and nothing written, when a target is missing or a patch fails; otherwise
     * status 0 with the summary of the changed files, and, unless this is a dry run or nothing
     * changed, every changed file written after its backup.
     */
    method PatchMedia(dryRun: bool) returns (status: nat, summary: seq<string>)
      modifies this
      ensures status == 1 <==> Plan(old(files)).Err?
      ensures status == 1 ==> files == old(files) && summary == []
      ensures status == 0 ==> summary == Summary(Plan(old(files)).value)
      ensures status == 0 && (dryRun || summary == []) ==> files == old(files)
      ensures status == 0 && !dryRun && summary != [] ==>
        Consistent(old(files), Plan(old(files)).value) && files == WriteAll(old(files), Plan(old(files)).value)
    {
      var exist := AllTargetsExist();
      if !exist {
        return 1, [];
      }
      var planned := ComputeAll();
      if planned.Err? {
        return 1, [];
      }
      var edits := planned.value;
      summary := SummaryOf(edits);
      if summary == [] || dryRun {
        return 0, summary;
      }
      PlanConsistent(files);
      WriteChanged(edits);
      return 0, summary;
    }
  }

  /** The summary loop: the change entries of the changed files, in order. */
  method SummaryOf(edits: seq<Edit>) returns (summary: seq<string>)
    ensures summary == Summary(edits)
  {
    summary := [];
    var k := 0;
    while k < |edits|
      invariant k <= |edits|
      invariant summary == Summary(edits[..k])
    {
      assert edits[..k + 1][..k] == edits[..k];
      if Changed(edits[k]) {
        summary := summary + edits[k].changes;
      }
      k := k + 1;
    }
    assert edits[..k] == edits;
  }
}
