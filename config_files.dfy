/** `apply_patch`: the write decision of the FFmpeg config patcher over a tree of files. */
module ConfigFiles {
  import opened Wrappers

  /** The generated config files of the Chromium tree, by path. */
  class Tree {
    var files: map<string, string>

    constructor (files: map<string, string>)
      ensures this.files == files
    {
      this.files := files;
    }

    /**
     * Read the file at `path`, run `patcher` on it, and write the result back only when it differs
     * from what was read and check mode is off. The patcher's change count and whether the text
     * changed are returned; an error raised by the patcher leaves every file as it was.
     */
    method ApplyPatch(path: string, patcher: string -> Result<(string, nat)>, check: bool)
      returns (r: Result<(nat, bool)>)
      requires path in files
      modifies this
      ensures var out := patcher(old(files)[path]);
        && (out.Err? ==> r == Err(out.message) && files == old(files))
        && (out.Ok? ==> r == Ok((out.value.1, out.value.0 != old(files)[path])))
        && (out.Ok? && out.value.0 != old(files)[path] && !check ==> files == old(files)[path := out.value.0])
        && (out.Ok? && (out.value.0 == old(files)[path] || check) ==> files == old(files))
    {
      var original := files[path];
      var out := patcher(original);
      if out.Err? {
        return Err(out.message);
      }
      var (updated, changeCount) := out.value;
      var changed := updated != original;
      if changed && !check {
        files := files[path := updated];
      }
      return Ok((changeCount, changed));
    }
  }
}
