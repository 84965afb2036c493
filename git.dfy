/**
 * The repository locator and the exclude-file store of `git local-ignore`.
 *
 * `FindRepo` walks from a directory up to the filesystem root and stops at
 * the nearest directory with a `.git` child. The store keeps one text file,
 * `<repo_dir>/info/exclude`: it lists the
 * file's non-comment lines, appends one line per entry, and truncates it,
 * creating the file empty first whenever it is absent.
 */
module Git {
  import opened Wrappers
  import opened Strings
  import opened Paths
  import opened ExcludeText

  const GitDirName: string := ".git"

  /** Where the exclude file sits inside the repository's metadata directory. */
  const ExcludeFileName: string := "info/exclude"

  /** A located repository: `rootDir` is the working tree, `repoDir` its `.git`. */
  datatype GitRepo = GitRepo(repoDir: Path, rootDir: Path)

  /** Whether `dir.join(".git").exists()` holds, `existing` being the paths that exist. */
  predicate HasGitDir(existing: set<Path>, dir: Path)
  {
    dir + [GitDirName] in existing
  }

  /**
   * `find_repo`: the nearest of `targetDir` and its ancestors, the root
   * included, that has a `.git` child; `None` when there is none. Nothing is
   * created: `existing` is only read.
   */
  method FindRepo(targetDir: Path, existing: set<Path>) returns (r: Option<GitRepo>)
    ensures r.Some? ==> r.value.rootDir <= targetDir
    ensures r.Some? ==> r.value.repoDir == r.value.rootDir + [GitDirName] && r.value.repoDir in existing
    ensures r.Some? ==> forall k :: |r.value.rootDir| < k <= |targetDir| ==> !HasGitDir(existing, targetDir[..k])
    ensures r.None? <==> forall k :: 0 <= k <= |targetDir| ==> !HasGitDir(existing, targetDir[..k])
  {
    var current: Option<Path> := Some(targetDir);
    while current.Some?
      invariant current.Some? ==> current.value <= targetDir
      invariant forall k :: (if current.Some? then |current.value| else -1) < k <= |targetDir|
                           ==> !HasGitDir(existing, targetDir[..k])
      decreases if current.Some? then |current.value| + 1 else 0
    {
      var dir := current.value;
      assert targetDir[..|dir|] == dir;
      var potentialRepo := dir + [GitDirName];
      if potentialRepo in existing {
        return Some(GitRepo(potentialRepo, dir));
      }
      current := Parent(dir);
    }
    return None;
  }

  /** `repo_dir.join("info/exclude")`. */
  function ExcludeFileOf(repo: GitRepo): (p: Path)
    ensures p == repo.repoDir + ["info", "exclude"]
  {
    ExcludeFilePathComponents();
    Join(repo.repoDir, ExcludeFileName)
  }

  lemma ExcludeFilePathComponents()
    ensures Components(ExcludeFileName) == ["info", "exclude"]
  {
    var p := ["info", "exclude"];
    assert Render(p[1..]) == "exclude";
    assert Render(p) == ExcludeFileName;
    ComponentsOfRender(p);
  }

  /**
   * `pathdiff::diff_paths(path, base)` is not modelled; every property below
   * holds for any function that, when `base` is a prefix of `path`, returns
   * the rest of `path`.
   */
  ghost predicate AgreesOnPrefix(diff: (Path, Path) -> Option<Path>)
  {
    forall path: Path, base: Path {:trigger diff(path, base)} :: base <= path ==> diff(path, base) == Some(path[|base|..])
  }

  /** The line `append_to_exclude_list` writes for `entry`. */
  function WrittenLine(rootDir: Path, basePath: Path, entry: string,
                       diff: (Path, Path) -> Option<Path>): (line: string)
    ensures diff(Join(basePath, entry), rootDir).None? ==> line == entry
    ensures diff(Join(basePath, entry), rootDir).Some? ==> line == Render(diff(Join(basePath, entry), rootDir).value)
  {
    match diff(Join(basePath, entry), rootDir)
    case Some(relative) => Render(relative)
    case None => entry
  }

  /** The lines written for `entries`, in input order. */
  function WrittenLines(rootDir: Path, basePath: Path, entries: seq<string>,
                        diff: (Path, Path) -> Option<Path>): (lines: seq<string>)
    ensures |lines| == |entries|
    ensures forall i :: 0 <= i < |entries| && diff(Join(basePath, entries[i]), rootDir).None?
              ==> lines[i] == entries[i]
    ensures forall i :: 0 <= i < |entries| && diff(Join(basePath, entries[i]), rootDir).Some?
              ==> lines[i] == Render(diff(Join(basePath, entries[i]), rootDir).value)
    ensures forall i :: 0 <= i < |entries| ==> lines[i] == WrittenLine(rootDir, basePath, entries[i], diff)
  {
    seq(|entries|, i requires 0 <= i < |entries| => WrittenLine(rootDir, basePath, entries[i], diff))
  }

  /** An entry that resolves under the repository root is written relative to it. */
  lemma WrittenLineUnderRoot(rootDir: Path, basePath: Path, entry: string,
                             diff: (Path, Path) -> Option<Path>)
    requires AgreesOnPrefix(diff)
    requires rootDir <= Join(basePath, entry)
    ensures WrittenLine(rootDir, basePath, entry, diff) == Render(Join(basePath, entry)[|rootDir|..])
  {
  }

  /** Root `/repo`, base `/repo/sub` and entry `file.txt` give the line `sub/file.txt`. */
  lemma RelativeEntryExample(diff: (Path, Path) -> Option<Path>)
    requires AgreesOnPrefix(diff)
    ensures WrittenLine(["repo"], ["repo", "sub"], "file.txt", diff) == "sub/file.txt"
  {
    var absolute: Path := ["repo", "sub", "file.txt"];
    assert Join(["repo", "sub"], "file.txt") == absolute by {
      var entry: Path := ["file.txt"];
      assert Render(entry) == "file.txt";
      JoinRendered(["repo", "sub"], entry);
    }
    assert Render(absolute[1..]) == "sub/file.txt" by {
      assert absolute[1..] == ["sub", "file.txt"];
      assert Render(["sub", "file.txt"][1..]) == "file.txt";
    }
    WrittenLineUnderRoot(["repo"], ["repo", "sub"], "file.txt", diff);
  }

  /** Writing the next line extends the text written for the lines before it. */
  lemma WriteOneMoreLine(before: string, written: seq<string>, i: nat)
    requires i < |written|
    ensures before + Terminated(written[..i]) + (written[i] + [Newline])
         == before + Terminated(written[..i + 1])
  {
    assert written[..i + 1] == written[..i] + [written[i]];
    TerminatedSnoc(written[..i], written[i]);
    AppendAssociates(before, Terminated(written[..i]), written[i] + [Newline]);
  }

  /**
   * The exclude file `<repo_dir>/info/exclude` of one located repository:
   * whether it exists and, if so, its text.
   */
  class ExcludeStore {
    const repo: GitRepo
    var present: bool
    var contents: string

    /** An absent file has no text. */
    ghost predicate Valid()
      reads this
    {
      present || contents == []
    }

    constructor (repo: GitRepo, present: bool, contents: string)
      requires present || contents == []
      ensures Valid()
      ensures this.repo == repo && this.present == present && this.contents == contents
    {
      this.repo := repo;
      this.present := present;
      this.contents := contents;
    }

    /**
     * `exclude_file_path`: always `<repo_dir>/info/exclude`; an absent file
     * is created empty, a present one is left as it is.
     */
    method ExcludeFilePath() returns (p: Path)
      requires Valid()
      modifies this
      ensures Valid() && present
      ensures p == ExcludeFileOf(repo)
      ensures contents == old(contents)
    {
      p := Join(repo.repoDir, ExcludeFileName);
      if !present {
        present, contents := true, "";
      }
    }

    /**
     * `exclude_list`: the lines of the exclude file that do not start with
     * '#', in file order. The text is not changed, so a second call yields
     * the same entries.
     */
    method ExcludeList() returns (entries: seq<string>)
      requires Valid()
      modifies this
      ensures Valid() && present
      ensures contents == old(contents)
      ensures entries == ExcludeEntries(contents)
    {
      var _ := ExcludeFilePath();
      entries := ExcludeEntries(contents);
    }

    /**
     * `append_to_exclude_list`: one line per entry, in input order, after
     * the existing text, which is kept as it is.
     */
    method AppendToExcludeList(basePath: Path, entries: seq<string>,
                               diff: (Path, Path) -> Option<Path>)
      requires Valid()
      modifies this
      ensures Valid() && present
      ensures contents == old(contents) + Terminated(WrittenLines(repo.rootDir, basePath, entries, diff))
    {
      var _ := ExcludeFilePath();
      ghost var written := WrittenLines(repo.rootDir, basePath, entries, diff);
      assert written[..0] == [];
      for i := 0 to |entries|
        invariant present
        invariant contents == old(contents) + Terminated(written[..i])
      {
        var line := WrittenLine(repo.rootDir, basePath, entries[i], diff);
        WriteOneMoreLine(old(contents), written, i);
        contents := contents + (line + [Newline]);
      }
      assert written[..|entries|] == written;
    }

    /** `clear_exclude_list`: the file is present and empty, so nothing is listed. */
    method ClearExcludeList()
      requires Valid()
      modifies this
      ensures Valid() && present
      ensures contents == []
      ensures ExcludeEntries(contents) == []
    {
      var _ := ExcludeFilePath();
      contents := "";
    }
  }
}
