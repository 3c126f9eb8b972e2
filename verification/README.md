# reboot: switch the rEFInd default boot entry, then reboot

`reboot/boot.py` is a small command-line script. It is called as `boot.py FROM_OS_LABEL TARGET`,
where the label names the platform it runs on: `1` for Windows, `2` for Ubuntu, `4` for OSX. The
script then does the following:

1. It prepares the EFI partition. Windows mounts it as `z:`. Ubuntu runs `sudo -bash`.
   OSX creates `/Volumes/efi` if nothing is there yet and mounts the partition on it.
2. It walks the partition for `refind.conf`.
3. It copies that file to `refind_backup.conf`, unless a backup is already there.
4. It writes a rewritten copy of the configuration to a staging file. Every match of
   `.*?default_selection\s+\d` is replaced by `default_selection TARGET`. Both files are opened
   in text mode, so line endings are translated on the way in and on the way out.
5. It copies the staging file over the configuration and asks the system to reboot.

A wrong argument count stops the script before anything happens. So does an unknown label.

The model has five modules:

- `Common` (`common.dfy`): the `Option` type and the `Path` type.
- `Locator` (`locator.dfy`): `find_file`.
  - The directory walk is a parameter. It is the sequence of directories in the order the walk
    visits them, each with the names of its files.
  - `FindFile` is the nested loop of the source. It is proved to return the reference
    `FindFirst`.
  - The lemmas about `FindFirst` describe the search on its own terms:
    - which directory it picks;
    - when it fails;
    - what the found path ends with.
- `TextMode` (`textmode.dfy`): Python's text-mode files.
  - `ReadText` turns `\r\n` and a lone `\r` into `\n`, as `read()` does.
  - `WriteText` turns each `\n` into the system's line separator, as `write()` does.
  - `ReadAfterWrite` proves that reading back what was written gives the text again.
- `Substitution` (`substitution.dfy`): the `re.sub` call of `replace_text`, for this one pattern.
  - `MatchEnd(t, i)` is the match the regular-expression engine finds when it starts at `i`. It
    grows the lazy prefix one character at a time and never crosses a line feed.
  - `SubstituteFrom` and `Substitute` replace the matches one after another, left to right.
  - The lemmas relate this scanner to `DirectiveAt`. That predicate is a direct description of
    where a `default_selection\s+\d` occurrence begins.
  - `NextDirectiveRewrite` describes every match, not only the first. From any scan position,
    the text is copied up to the start of the line holding the next directive, or up to nothing
    when the scan position is later on that line (after a previous match). From there through the
    digit is replaced, and the scan resumes after the match. `TailCopied` keeps the text after the
    last match.
- `Boot` (`boot.dfy`): the argument check, the three platform branches, and the
  backup / stage / commit / reboot sequence.
  - The file system is a map from paths to contents plus a set of directories.
  - `Rewrite` is the text `replace_text` stages: the configuration read in text mode, rewritten
    by `re.sub`, and written with the branch's line separator (`\r\n` on Windows, `\n` on Ubuntu
    and OSX).
  - External commands, the mkdir, the copies, the staging write and the search are recorded in
    an action log.
  - `SwitchResult` and `RunResult` are the reference semantics of one branch and of one
    invocation.
  - The class `Machine` performs the same steps one at a time. Its `Switch` and `Run` are proved
    to reach exactly that reference state.
  - The lemmas prove what the script promises about `RunResult`:
    - the backup is taken once and never overwritten;
    - the configuration changes only at the final copy;
    - the reboot is the last action;
    - a rejected invocation has no effect.

The source does not always do what a tidier design would do. The model follows the code:

- The code has no "directive not found" error. A configuration without a match is copied back
  with only its line endings translated, and the script still reboots (`Substitution.NoDirectiveUnchanged`).
- The code has no check on an empty or malformed target. `default_selection ` followed by any
  text is written.
- The code replaces every match, not only the first one.
- The match takes in whatever comes before the keyword on the same line. For example, a
  commented-out `#default_selection 2` line becomes the active directive
  (`Substitution.CommentedDirectiveActivated`).
- The match takes one digit only, so a trailing second digit is kept
  (`Substitution.TrailingDigitKept`).
- A missing configuration ends the run with the exception Python raises (`Aborted`), after the
  prelude and the search.

## Model

| member | source | states |
|---|---|---|
| TextMode.ReadText | reboot/boot.py:22-23 | text read from a file holds no carriage return, is no longer than the stored characters, and equals them when they hold no carriage return |
| TextMode.WriteText | reboot/boot.py:23 | the stored characters equal the text when the separator is a line feed or the text holds no line feed |
| TextMode.ReadAfterWrite | reboot/boot.py:22-23 | reading back written text gives the text again, for either line separator, when it holds no carriage return |
| TextMode.ForeignLineEndingsRead | reboot/boot.py:22-23 | `\r\n` and a lone `\r` are both read as `\n` |
| Locator.Join | reboot/boot.py:19 | `os.path.join` result ends with one separator followed by the file name |
| Locator.LastComponentOfJoin | reboot/boot.py:19 | the last path component of `os.path.join(root, name)` is `name` when `name` holds no separator |
| Locator.FindFirstNoneIffAbsent | reboot/boot.py:15-19 | the search returns nothing exactly when no directory of the walk holds a file with that name |
| Locator.FindFirstReturnsFirstHolder | reboot/boot.py:15-19 | when some directory holds the file, the result is the joined path in the first such directory in walk order |
| Locator.FoundPathEndsInFilename | reboot/boot.py:15-19 | a found path's last component is the searched file name, when the name holds no separator, as `refind.conf` and every name `os.walk` yields do |
| Locator.FindFirst | reboot/boot.py:15-19 | the result of `find_file`: the joined path in the first directory of the walk holding the name, or nothing; a found path ends with the searched name |
| Locator.FindFile | reboot/boot.py:15-19 | the nested loop over directories and files returns the first match in walk order, or nothing, as `FindFirst` defines |
| Substitution.SpacesThenDigitLen | reboot/boot.py:23 | a `\s+\d` match is at least two characters, fits in the text and ends in a digit |
| Substitution.RunThenDigitMatches | reboot/boot.py:23 | a run of `n >= 1` whitespace characters then a digit is a `\s+\d` match of length `n + 1` |
| Substitution.MatchIsRunThenDigit | reboot/boot.py:23 | every character of a `\s+\d` match but the last is whitespace |
| Substitution.DirectiveLen | reboot/boot.py:23 | a `default_selection\s+\d` match is longer than the keyword by at least two, fits in the text and ends in a digit |
| Substitution.DirectiveMatchesPattern | reboot/boot.py:23 | the keyword, any whitespace run and a digit form a match covering exactly those characters |
| Substitution.DirectiveShape | reboot/boot.py:23 | conversely, a match is the keyword, a non-empty whitespace run and one digit |
| Substitution.NoDirectiveWithoutKeyword | reboot/boot.py:23 | no match begins at a character other than `d` |
| Substitution.MatchEnd | reboot/boot.py:23 | a match attempted at `j` ends at least past the keyword, whitespace and digit, and inside the text |
| Substitution.LineStart | reboot/boot.py:23 | the start of the line holding a position: at the text start or just after a line feed, with no line feed up to the position |
| Substitution.StopsAtLineBreak | reboot/boot.py:23 | the lazy `.*?` cannot cross a line feed: no match starts at `k` if no directive starts before the next line feed |
| Substitution.FindsFirstDirective | reboot/boot.py:23 | a match started at `l` ends right after the first directive at or after `l` on the same line |
| Substitution.MissesWithoutDirective | reboot/boot.py:23 | no directive from `k` onwards means no match starting at `k` |
| Substitution.CopiedUpTo | reboot/boot.py:23 | a stretch in which no match starts is copied unchanged |
| Substitution.SubstituteFrom | reboot/boot.py:23 | `re.sub` from a scan position: where a match starts, the replacement is emitted and the scan resumes after it; elsewhere one character is copied. `CopiedUpTo`, `NextDirectiveRewrite` and `TailCopied` describe the result over whole stretches |
| Substitution.Substitute | reboot/boot.py:23 | `re.sub` over the whole text, the scan from position 0; `FirstDirectiveRewrite`, `NoDirectiveUnchanged` and the scenario lemmas describe its result |
| Substitution.TailCopied | reboot/boot.py:23 | from a scan position with no directive at or after it, the rest of the text is copied verbatim: text after the last match is kept |
| Substitution.MatchStart | reboot/boot.py:23 | a match reached from scan position `i` begins at `i` or at a line start after `i`, with no line feed from there to the directive |
| Substitution.NextDirectiveRewrite | reboot/boot.py:23 | from any scan position, the text up to the line of the next directive is copied, that line's prefix through the one digit becomes the replacement, and the scan resumes after the match |
| Substitution.SubstituteAvoids | reboot/boot.py:23 | `re.sub` introduces no character found neither in the text nor in the replacement |
| Substitution.FirstDirectiveRewrite | reboot/boot.py:23 | with the first directive at `q`: the text before its line is kept, the line prefix through the directive becomes the replacement, and the rest is rewritten on from the match end |
| Substitution.NoDirectiveUnchanged | reboot/boot.py:23 | a text without any directive is returned unchanged |
| Substitution.DirectiveAtStart | reboot/boot.py:23 | a text starting with a directive starts with the replacement, then the rewrite of the rest |
| Substitution.WholeDirectiveReplaced | reboot/boot.py:23 | a configuration that is just `default_selection`, whitespace and a digit becomes exactly the replacement |
| Substitution.TrailingDigitKept | reboot/boot.py:23 | `default_selection 12` becomes `default_selection TARGET2`: only one digit is consumed |
| Substitution.CommentedDirectiveActivated | reboot/boot.py:23 | `#default_selection d` followed by a line feed becomes the replacement and the line feed: the comment mark is swallowed |
| Boot.ProfileOf | reboot/boot.py:11-13 | a branch is chosen exactly for labels `1`, `2`, `4`, and each branch reboots with a reboot command and writes `\r\n` line endings exactly on Windows |
| Boot.ProfilesAreSafe | reboot/boot.py:34-39 | in every branch the backup and staging paths differ and neither ends in `refind.conf` |
| Boot.ConfigIsNotBackupOrTemp | reboot/boot.py:33-41 | the located configuration is never the backup nor the staging file |
| Boot.Rewrite | reboot/boot.py:21-24 | on a system with line-feed separators, a configuration without carriage returns is staged as exactly its `re.sub` rewrite |
| Boot.RewriteReadsBack | reboot/boot.py:21-24 | reading the staged file back gives the `re.sub` rewrite of the configuration as read, on either system, when the replacement holds no carriage return |
| Boot.Replacement | reboot/boot.py:40 | the replacement text `"default_selection " + argv[2]`; `SwitchedConfigSwitchesAgain` shows what it means for the next run |
| Boot.SwitchedConfigSwitchesAgain | reboot/boot.py:40 | a configuration switched to a one-digit target is replaced whole by the next switch, whatever its target |
| Boot.SwitchResult | reboot/boot.py:30-90 | one platform branch as a function of the walk and the state: prelude, search, backup once, stage, commit, reboot, or the exception that stops it; characterised by the run lemmas below |
| Boot.RunResult | reboot/boot.py:26-93 | one invocation: bad usage for a wrong argument count, unknown label for another label, otherwise the chosen branch; characterised by the run lemmas below |
| Boot.StagingOverConfigAborts | reboot/boot.py:21-41 | a branch whose staging path were the found configuration would not reboot: the configuration is emptied by the staging open and the commit copy raises `SameFileError` |
| Boot.Exists | reboot/boot.py:34 | `os.path.exists`: a file or a directory is at the path, so a directory at the backup path also skips the backup copy and one at the mount point skips the mkdir |
| Boot.Prelude | reboot/boot.py:32-72 | the mount, shell or mkdir steps before the search change no file |
| Boot.RejectedInvocationHasNoEffect | reboot/boot.py:26-28 | a wrong argument count gives bad usage and an unknown label gives unknown label, and neither changes the state |
| Boot.RunKeepsWellFormed | reboot/boot.py:68-71 | no run makes a path both a file and a directory |
| Boot.BackupNeverOverwritten | reboot/boot.py:34-37 | an existing backup keeps its content through a run |
| Boot.FirstBackupHoldsOriginal | reboot/boot.py:30-90 | a backup made by a run holds the configuration as it was before the run, and a run that reboots always leaves one |
| Boot.TwoRunsKeepOriginal | reboot/boot.py:30-90 | when no backup existed before the first of two runs on one platform and that first run reached the reboot, after the second run the backup still holds the configuration from before the first |
| Boot.ConfigChangesOnlyAtCommit | reboot/boot.py:40-41 | a rebooting run sets both the configuration and the staging file to the text-mode rewrite of the original and changes no other file but the backup; any other run changes no file but the backup |
| Boot.CommittedConfigReadsBack | reboot/boot.py:40-41 | after a rebooting run, reading the configuration gives the `re.sub` rewrite of the configuration as read before the run |
| Boot.PreludeRunsNoReboot | reboot/boot.py:32-72 | the steps before the search only append to the log, and none of them is a reboot |
| Boot.SwitchLogShape | reboot/boot.py:30-43 | a branch only appends to the log; it reboots only after rewriting, as its last action, right after the staging write and the commit copy |
| Boot.RebootComesLastAfterCommit | reboot/boot.py:26-93 | in a whole run any reboot is the final action of a run that rewrote the configuration, preceded by the staging write and the commit copy |
| Boot.SearchedStateKept | reboot/boot.py:75-90 | after the search a branch creates no directory and only appends to the log |
| Boot.EfiMountedBeforeSearch | reboot/boot.py:65-75 | on OSX the mount point is created only if absent, then the partition is mounted, then searched, and the mount point exists afterwards |
| Boot.UbuntuScenario | reboot/boot.py:45-63 | on Ubuntu with a one-line configuration, the run reboots, the backup holds the original and the configuration becomes `default_selection TARGET` |
| Boot.UbuntuScenarioReboots | reboot/boot.py:48 | in that scenario the search finds `/boot/efi/refind.conf` and the branch reaches the reboot |
| Boot.Machine.Exec | reboot/boot.py:30-90 | an external command is recorded and changes nothing else; files and directories stay apart |
| Boot.Machine.MakeDirIfAbsent | reboot/boot.py:68-71 | the directory is created, and recorded, only when nothing is at that path |
| Boot.Machine.CopyFile | reboot/boot.py:30-90 | the copy succeeds exactly when the source exists and is not the destination (`SameFileError` otherwise), and then the destination holds the source's content |
| Boot.Machine.ReplaceText | reboot/boot.py:21-24 | the staging file receives the text-mode rewrite of the whole file (of the emptied file when both paths are the same, since the staging file is opened, and emptied, before the configuration is read); it fails without effect when the file is missing or the staging path is a directory |
| Boot.Machine.Switch | reboot/boot.py:30-90 | one platform branch, step by step, reaches exactly the outcome and state `SwitchResult` gives |
| Boot.Machine.Run | reboot/boot.py:26-93 | the whole script reaches exactly the outcome and state `RunResult` gives, and keeps files and directories apart |

## Left out

- `os.walk` and the real file system are not modelled. The walk is given as the sequence of
  directories it visits, each with its file names. Nothing checks that the sequence matches the
  file map, and the order of the walk is whatever that sequence says.
- `os.path.abspath` normalisation of the found path is not modelled. The path is taken as the
  join of the walk root and the name, and the walk's roots are taken to be absolute already.
- The external commands (`mountvol`, `sudo -bash`, `mount`, `shutdown`, `sudo reboot`) are only
  recorded in the log.
  - Their effect is not modelled: a mount does not make files visible, and the reboot does not
    stop anything.
  - A failing command is not modelled either. Python ignores their exit status, and so does the
    model.
- Printed messages (lines 9, 27, 31, 35, 38 and the others) are left out.
- Character decoding and encoding are left out: a file's content is its sequence of characters.
  The text-mode line-ending translation is modelled (`TextMode`).
- The line separator written is that of the branch's platform. The model takes the label to name
  the system the script actually runs on; a mismatch (label `1` on Linux, say) is not modelled.
- Boot.CommittedConfigReadsBack is stated for targets without a carriage return. A `\r` in the
  target is written as is and would itself read back as a line feed.
- `\s` and `\d` are taken in their ASCII meaning. Python 3 also accepts Unicode whitespace and
  Unicode decimal digits.
- Backslash escapes in the replacement are not modelled. `re.sub` interprets `\n`, `\1` and
  similar escapes in `argv[2]`; the model inserts the replacement literally.
- I/O errors are modelled only where the script's logic makes them happen:
  - a configuration that was not found;
  - a configuration path that is not a file;
  - a staging path that is a directory.
  Permission errors, a full disk and a missing parent directory of the staging file (`d:\`) are
  not modelled.
- Boot.Machine.CopyFile requires that the destination is not a directory. `shutil.copy` onto a
  directory would copy into it, and the script never does that: the backup is copied only when
  nothing is at its path, and the configuration is a file.
- `replace_text` opens the staging file for writing before it reads the configuration. The model
  performs the read and the write as one step, with the text read taken as empty when both paths
  are the same. In the script they never are (`Boot.ConfigIsNotBackupOrTemp`).
- Boot.Machine.CopyFile recognises the same file only by equal paths. `shutil.copy` also raises
  `SameFileError` for two paths that reach one file through links; links are not modelled.
- Concurrent invocations against the same partition are not modelled.
- `src/vm/corebindresult.cpp` is not part of this model. It is unrelated to the script.
