# git-local-ignore: repository locator and exclude-file store

`git local-ignore` adds patterns to a repository's local-only exclude file,
`<repo_dir>/info/exclude`. Git honours this file, but it is never committed.
This project models the two parts of `src/git.rs` that hold the tool's logic.
It proves what each part promises.

- **Repository locator** (`Git.FindRepo`, from `find_repo`). It starts at a
  directory and walks up through its parents, the filesystem root included.
  It stops at the first directory that has a `.git` child. Paths are
  sequences of components, and the root is the empty sequence. Which paths
  exist is a set that the method only reads.
- **Exclude-file store** (`Git.ExcludeStore`, from `GitRepo`'s methods). This
  is a class over one file. It records whether the file exists and what text
  it holds. Every operation first creates the file empty when it is absent
  (`exclude_file_path`). Then:
  - `exclude_list` yields the non-comment lines;
  - `append_to_exclude_list` writes one `\n`-terminated line per entry;
  - `clear_exclude_list` truncates the file.

  The text is kept as a string, not as a list of lines. That lets the model
  capture what `BufRead::lines` does to it (module `ExcludeText`):
  - it strips the `\n` and a `\r` just before it;
  - it still yields a last line that has no terminator;
  - it yields nothing for an empty file.

  A consequence follows from this. Appending to a file whose last line has no
  terminator glues the first new entry onto that line
  (`ExcludeText.GlueOntoLastLine`).

The parts of `std::path` the code relies on are modelled in module `Paths`:
- `parent`;
- `join`, where an absolute argument replaces the base and a relative one is
  appended;
- splitting a string into components, which drops empty and `.` components;
- rendering components with `/`.

`Strings` holds the split and join of strings at a separator that `Paths`
builds on. `pathdiff::diff_paths` is a function parameter. It is constrained
only by `Git.AgreesOnPrefix`: when the root is a prefix of the resolved
entry, it returns the rest of the entry.

The model keeps these details of the code:
- `lines()` strips a `\r` before the `\n` as well as the `\n` itself. So a
  line is not always returned exactly as stored.
- Appending followed by listing gives back the written lines only when the
  file already ended at a line boundary (`ExcludeText.ExcludeEntriesAfterAppend`).
  Otherwise the first written line is glued onto the old last line.
- `append_to_exclude_list` accepts an empty entry list. It then only creates
  the file. Refusing zero entries is left to a command-line layer, and
  `src/main.rs` of this revision does not call into `src/git.rs` at all.

## Model

| member | source | states |
|---|---|---|
| Git.FindRepo | src/git.rs:68-85 | A result is `targetDir` or one of its ancestors, and its `.git` child exists. No directory between it and `targetDir` has a `.git` child, so the nearest one is chosen. `None` is returned exactly when no directory from `targetDir` up to the root has one. The set of existing paths is only read. |
| Git.ExcludeFileOf | src/git.rs:58 | The exclude file's path is `repo_dir` followed by the components `info` and `exclude`. |
| Git.ExcludeFilePathComponents | src/git.rs:58 | The relative path `info/exclude` splits into the two components `info` and `exclude`. |
| Git.ExcludeStore.ExcludeFilePath | src/git.rs:57-65 | Always returns `<repo_dir>/info/exclude`. Afterwards the file exists. Its text is unchanged: a present file keeps its text, and an absent one is created with empty text. |
| Git.ExcludeStore.ExcludeList | src/git.rs:12-20 | Afterwards the file exists. Its text is unchanged. The entries are `ExcludeEntries` of that text: its lines with comment lines dropped, in file order. So two calls in a row yield the same entries. |
| Git.ExcludeStore.AppendToExcludeList | src/git.rs:22-47 | Afterwards the file exists. Its new text is the old text, kept as it was, followed by one `\n`-terminated line per entry, in input order. |
| Git.ExcludeStore.ClearExcludeList | src/git.rs:49-55 | Afterwards the file exists with empty text, so listing it yields no entry whatever it held before. |
| Git.HasGitDir | src/git.rs:72-74 | Definition: `dir.join(".git").exists()`, meaning the path `dir` followed by `.git` is among the existing paths. |
| Git.WrittenLine | src/git.rs:38-43 | The line written for one entry. When `diff_paths(base_path.join(entry), root_dir)` is `None`, it is the entry verbatim. When that call gives a path, it is that path rendered with `/`. |
| Git.WrittenLines | src/git.rs:34-44 | Exactly one written line per entry, in input order. An entry whose `diff_paths` result is `None` is written verbatim. Otherwise the relative path it gives is written, rendered with `/`. |
| Git.WrittenLineUnderRoot | src/git.rs:35-40 | When `base_path.join(entry)` lies under the repository root, the written line is the rest of that path after the root, rendered with `/`. |
| Git.RelativeEntryExample | src/git.rs:35-40 | Root `/repo`, base `/repo/sub` and entry `file.txt` give the line `sub/file.txt`. |
| ExcludeText.Lines | src/git.rs:16-17 | No yielded line contains `\n`. The empty text, and only the empty text, yields no line. |
| ExcludeText.LinesRewritten | src/git.rs:17 | Writing back the lines read from text without `\r` reproduces that text. A `\n` is added at the end when the text did not end with one. |
| ExcludeText.LinesAppend | src/git.rs:17 | Text that ends at a line boundary is split into lines independently of what follows it. |
| ExcludeText.LinesOfUnterminated | src/git.rs:17 | A non-empty text without `\n` is yielded as one line. |
| ExcludeText.UnterminatedLastLine | src/git.rs:17 | A last line without terminator is still yielded, after the complete lines. |
| ExcludeText.LinesOfOneLine | src/git.rs:40-42 | One line written with `writeln!` is read back as that line when it has no `\n` and no trailing `\r`. |
| ExcludeText.LinesOfTerminated | src/git.rs:40-42 | Reading back what `writeln!` wrote for lines without `\n` or a trailing `\r` gives exactly those lines. |
| ExcludeText.Terminated | src/git.rs:40-42 | The written text is empty exactly when there is no line. Otherwise it ends in `\n`. |
| ExcludeText.TerminatedSnoc | src/git.rs:40-42 | Writing one more line appends that line and a `\n` to what was written before. |
| ExcludeText.TerminatedAppend | src/git.rs:34-44 | Writing two line lists one after the other gives the same text as writing their concatenation. |
| ExcludeText.ExcludeEntries | src/git.rs:16-19 | Definition of the `lines().filter_map().filter()` pipeline as `Uncommented(Lines(contents))`. An entry is listed exactly when it is a line of the text and does not start with `#`. No entry contains `\n`, and empty text lists nothing. |
| ExcludeText.Uncommented | src/git.rs:19 | A line is kept exactly when it is among the input lines and does not start with `#`. No more lines are kept than were given. Lines without comments are kept unchanged, in order. |
| ExcludeText.UncommentedAppend | src/git.rs:19 | The comment filter works line by line: filtering a concatenation concatenates the filtered parts. |
| ExcludeText.CommentLineNotListed | src/git.rs:19 | A file holding `# note` and `x.tmp` lists only `x.tmp`. |
| ExcludeText.ExcludeEntriesAfterAppend | src/git.rs:34-44 | Take a file that is empty or ends in `\n`, and append lines without `\n`, without a trailing `\r` and not starting with `#`. Listing it then gives the old entries followed by the appended lines, in order. |
| ExcludeText.DuplicateEntryListedTwice | src/git.rs:34-44 | Appending the same entry twice lists it twice: there is no deduplication. |
| ExcludeText.GlueOntoLastLine | src/git.rs:29-44 | Appending to a file whose last line has no terminator merges the first appended line into that last line. The remaining lines follow unchanged. |
| Paths.Parent | src/git.rs:81 | The root, and only the root, has no parent. Any other path's parent is that path with its last component dropped, so the walk moves to a strictly shorter path. |
| Paths.Join | src/git.rs:35 | Definition of `base_path.join(entry)`: an absolute entry gives its own components, and a relative one is appended to the base. The result is a normal path whenever the entry is absolute or the base is normal. |
| Paths.Render | src/git.rs:39 | Definition of `to_string_lossy`: the components separated by `/`. `Paths.ComponentsOfRender` proves it is the inverse of parsing. |
| Paths.Components | src/git.rs:35 | Parsing a path string yields only normal components: not empty, not `.`, and without `/`. |
| Paths.ComponentsOfRender | src/git.rs:39 | Parsing a path rendered with `/` gives back its components. |
| Paths.JoinRendered | src/git.rs:35 | Joining a base with a rendered relative path appends that path's components to the base. |
| Paths.JoinRelativeExtends | src/git.rs:35 | Joining a relative entry never leaves the base: the base is a prefix of the result. |
| Strings.JoinSplit | src/git.rs:35 | Joining the pieces of a split with the separator rebuilds the string. |
| Strings.SplitJoin | src/git.rs:39 | Splitting a join of pieces that do not contain the separator gives back the pieces. |

## Left out

- Input/output errors: `File::open`, `File::create`, `OpenOptions::open` and `writeln!` are modelled as always succeeding. So the `io::Error` results of every operation, and a missing `info/` directory, are not modelled.
- Git.ExcludeStore.ExcludeList: the text is a sequence of characters. So the dropping of lines that are not valid UTF-8 (`filter_map(Result::ok)`) is not modelled. The result is a sequence computed at the call, while the source returns a lazy iterator that reads the file as it is consumed.
- Git.WrittenLines: `pathdiff::diff_paths` is a parameter that is pinned down only when the root is a prefix of the resolved entry. Its answers for other paths, which may contain `..` components, are not modelled.
- Git.FindRepo: "exists" is membership in a set of paths. So it does not tell a `.git` directory from a `.git` file, and it does not follow symbolic links.
- Paths.Components: only empty and `.` components are dropped. A `..` component is kept as an ordinary name, as `Path::components` does, and there is no Windows prefix handling. A leading `.` of a relative path, which `Path::components` keeps as the current-directory component, is dropped too. This only makes a difference when `Join` is given an empty base.
- `to_string_lossy` is rendering with `/`. Components are already strings, so there is no lossy conversion.
- Concurrent invocations on the same exclude file: the source has no locking, and the model is sequential.
- `src/cli.rs` (confirmation prompts, printing, `report_error`'s process exit) and `src/main.rs` (argument parsing) are not part of this model. They are user interface and process control, not store logic.
