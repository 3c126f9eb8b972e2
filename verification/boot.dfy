/**
  The boot-target switcher: check the arguments, pick the platform's paths and commands, find
  `refind.conf`, back it up once, stage the rewritten text in a temporary file, copy that over
  the configuration and ask for a reboot.

  The file system is a map from file paths to contents plus a set of directory paths. External
  commands (mounting, `sudo -bash`, the reboot itself) are not run; they, and every change
  to the file system, are recorded in an action log. `SwitchResult` and `RunResult` give the
  outcome and the final state of one invocation as functions; the class `Machine` performs the
  same steps one at a time and is proved to reach exactly that state.
*/
module Boot {
  import opened Common
  import opened Substitution
  import opened Locator
  import opened TextMode

  /** The platform labels accepted as the first argument. */
  const WindowsLabel: string := "1"
  const UbuntuLabel: string := "2"
  const OsxLabel: string := "4"

  /** The file the switcher looks for. */
  const ConfigName: string := "refind.conf"

  /** External commands issued before the search. */
  const MountVolumeCommand: string := "mountvol z: /s"
  const SudoBashCommand: string := "sudo -bash"
  const MountEfiCommand: string := "sudo mount -t msdos /dev/disk0s1 /Volumes/efi"
  const EfiMountPoint: Path := "/Volumes/efi"

  /** The reboot commands. */
  const WindowsRebootCommand: string := "shutdown /t 5 /r"
  const UnixRebootCommand: string := "sudo reboot"

  datatype Platform = Windows | Ubuntu | Osx

  /** Everything a platform branch hard-codes. */
  datatype Profile = Profile(
    platform: Platform,
    searchRoot: Path,
    sep: char,
    backup: Path,
    temp: Path,
    newline: string,
    reboot: string)

  /** One effect of the switcher, in the order it happens. */
  datatype Action =
    | Exec(command: string)   // an external command
    | MakeDir(dir: Path)      // os.mkdir
    | Search(root: Path)      // the walk of find_file
    | Copy(src: Path, dst: Path)  // shutil.copy
    | Write(file: Path)       // the write of the staged text

  /** What one invocation ends in. */
  datatype Outcome =
    | BadUsage             // not exactly two arguments
    | UnknownLabel         // a platform label other than 1, 2 or 4
    | Aborted              // an exception: no configuration found, or it could not be read or staged
    | Rebooting(config: Path)  // the configuration was rewritten and the reboot was requested

  /** Files with their contents, directories, and the actions so far. */
  datatype FsState = FsState(files: map<Path, string>, dirs: set<Path>, log: seq<Action>)

  /** A path is never both a file and a directory. */
  ghost predicate WellFormed(s: FsState) {
    s.files.Keys !! s.dirs
  }

  /** `os.path.exists`: a file or a directory is there. */
  predicate Exists(s: FsState, p: Path) {
    p in s.files || p in s.dirs
  }

  predicate IsRebootCommand(command: string) {
    command == WindowsRebootCommand || command == UnixRebootCommand
  }

  predicate IsReboot(a: Action) {
    a.Exec? && IsRebootCommand(a.command)
  }

  /** The text written in place of each match: `"default_selection " + argv[2]`. */
  function Replacement(target: string): (r: string) {
    "default_selection " + target
  }

  /**
    A configuration switched to a one-digit target is again a single directive, so the next
    switch replaces it whole, whatever that switch's target.
  */
  lemma SwitchedConfigSwitchesAgain(d: char, target: string)
    requires IsDigit(d)
    ensures Substitute(Replacement([d]), Replacement(target)) == Replacement(target)
  {
    assert Replacement([d]) == Keyword + " " + [d];
    WholeDirectiveReplaced(" ", d, Replacement(target));
  }

  /** The three platform branches. */
  const WindowsProfile: Profile :=
    Profile(Windows, "z:\\", '\\', "z:\\refind_backup.conf", "d:\\refind1.conf", WindowsLineSeparator,
            WindowsRebootCommand)
  const UbuntuProfile: Profile :=
    Profile(Ubuntu, "/boot/efi", '/', "/boot/efi/refind_backup.conf", "/boot/efi/refind_temp.conf",
            PosixLineSeparator, UnixRebootCommand)
  const OsxProfile: Profile :=
    Profile(Osx, "/Volumes/efi", '/', "/Volumes/efi/refind_backup.conf", "/Volumes/efi/refind_temp.conf",
            PosixLineSeparator, UnixRebootCommand)

  /** The platform branch chosen by the first argument; `None` for an unknown label. */
  function ProfileOf(osLabel: string): (r: Option<Profile>)
    ensures r.Some? <==> osLabel == WindowsLabel || osLabel == UbuntuLabel || osLabel == OsxLabel
    ensures r.Some? ==> IsRebootCommand(r.value.reboot)
    ensures r.Some? ==> IsLineSeparator(r.value.newline)
    ensures r.Some? ==> (r.value.newline == WindowsLineSeparator <==> r.value.platform == Windows)
  {
    if osLabel == WindowsLabel then Some(WindowsProfile)
    else if osLabel == UbuntuLabel then Some(UbuntuProfile)
    else if osLabel == OsxLabel then Some(OsxProfile)
    else None
  }

  /**
    What keeps a branch safe: the backup and staging paths do not end in `refind.conf`, so the
    located configuration (whose path always does) is neither of them; and they differ.
  */
  predicate SafeProfile(p: Profile) {
    && !EndsWith(p.backup, ConfigName)
    && !EndsWith(p.temp, ConfigName)
    && p.backup != p.temp
  }

  /** Each of the three profiles is safe. */
  lemma ProfilesAreSafe(osLabel: string)
    requires ProfileOf(osLabel).Some?
    ensures SafeProfile(ProfileOf(osLabel).value)
  {
    if osLabel == WindowsLabel {
      SafeBySuffixLetters(WindowsProfile, 'e');
    } else if osLabel == UbuntuLabel {
      SafeBySuffixLetters(UbuntuProfile, 'd');
    } else {
      SafeBySuffixLetters(OsxProfile, 'd');
    }
  }

  /**
    A profile is safe when its backup and staging paths have different lengths and neither has
    the `r` of `refind.conf` where that name would begin.
  */
  lemma SafeBySuffixLetters(p: Profile, c: char)
    requires |p.backup| >= |ConfigName| && |p.temp| >= |ConfigName| && |p.backup| != |p.temp|
    requires p.backup[|p.backup| - |ConfigName|] == 'b'
    requires p.temp[|p.temp| - |ConfigName|] == c && c != 'r'
    ensures SafeProfile(p)
  {
    assert ConfigName[0] == 'r';
    assert p.backup[|p.backup| - |ConfigName|..][0] == 'b';
    assert p.temp[|p.temp| - |ConfigName|..][0] == c;
  }

  /** The located configuration is neither the backup nor the staging file. */
  lemma ConfigIsNotBackupOrTemp(osLabel: string, walk: seq<DirEntry>)
    requires ProfileOf(osLabel).Some?
    requires FindFirst(walk, ConfigName, ProfileOf(osLabel).value.sep).Some?
    ensures var p := ProfileOf(osLabel).value;
            var config := FindFirst(walk, ConfigName, p.sep).value;
            config != p.backup && config != p.temp
  {
    var p := ProfileOf(osLabel).value;
    ProfilesAreSafe(osLabel);
  }

  /**
    What `replace_text` stores in the staging file for the configuration text `content`: the file
    is read in text mode, rewritten by `re.sub`, and written in text mode with the system's line
    separator `newline`.
  */
  function Rewrite(content: string, replacement: string, newline: string): (staged: string)
    ensures newline == PosixLineSeparator && '\r' !in content ==> staged == Substitute(content, replacement)
  {
    WriteText(Substitute(ReadText(content), replacement), newline)
  }

  /**
    Reading the staged file back in text mode gives the rewrite of the configuration as it was
    read, on either system, provided the replacement holds no carriage return.
  */
  lemma RewriteReadsBack(content: string, replacement: string, newline: string)
    requires IsLineSeparator(newline) && '\r' !in replacement
    ensures ReadText(Rewrite(content, replacement, newline)) == Substitute(ReadText(content), replacement)
  {
    SubstituteAvoids(ReadText(content), 0, replacement, '\r');
    ReadAfterWrite(Substitute(ReadText(content), replacement), newline);
  }

  /**
    The steps before the search: Windows mounts the EFI volume as z:, Ubuntu runs `sudo -bash`,
    OSX creates the mount point if nothing is there yet and mounts the EFI partition on it.
  */
  function Prelude(p: Profile, s: FsState): (s': FsState)
    ensures s'.files == s.files
  {
    match p.platform
    case Windows => s.(log := s.log + [Exec(MountVolumeCommand)])
    case Ubuntu => s.(log := s.log + [Exec(SudoBashCommand)])
    case Osx =>
      var s1 := if Exists(s, EfiMountPoint) then s
                else s.(dirs := s.dirs + {EfiMountPoint}, log := s.log + [MakeDir(EfiMountPoint)]);
      s1.(log := s1.log + [Exec(MountEfiCommand)])
  }

  /**
    One platform branch, step by step: prelude, search, backup if the backup path is free, stage
    the rewrite in the temporary file, copy it over the configuration, reboot. A missing
    configuration (the search found nothing, or the found path cannot be opened) and a staging
    path that is a directory end the run with the exceptions Python would raise. The staging file
    is opened for writing, which empties it, before the configuration is read; were both the same
    path, the text read would be empty and the final copy would fail with `SameFileError`.
  */
  function SwitchResult(p: Profile, target: string, walk: seq<DirEntry>, s: FsState): (r: (Outcome, FsState))
  {
    var s1 := Prelude(p, s);
    var s2 := s1.(log := s1.log + [Search(p.searchRoot)]);
    match FindFirst(walk, ConfigName, p.sep)
    case None => (Aborted, s2)
    case Some(config) =>
      if !Exists(s2, p.backup) && config !in s2.files then (Aborted, s2)
      else
        var s3 := if Exists(s2, p.backup) then s2
                  else s2.(files := s2.files[p.backup := s2.files[config]],
                           log := s2.log + [Copy(config, p.backup)]);
        if config !in s3.files || p.temp in s3.dirs then (Aborted, s3)
        else
          var read := if config == p.temp then [] else s3.files[config];
          var s4 := s3.(files := s3.files[p.temp := Rewrite(read, Replacement(target), p.newline)],
                        log := s3.log + [Write(p.temp)]);
          if config == p.temp then (Aborted, s4)
          else
            var s5 := s4.(files := s4.files[config := s4.files[p.temp]],
                          log := s4.log + [Copy(p.temp, config)]);
            (Rebooting(config), s5.(log := s5.log + [Exec(p.reboot)]))
  }

  /** A whole invocation with argument vector `argv` (the script name first). */
  function RunResult(argv: seq<string>, walk: seq<DirEntry>, s: FsState): (r: (Outcome, FsState))
  {
    if |argv| != 3 then (BadUsage, s)
    else
      match ProfileOf(argv[1])
      case None => (UnknownLabel, s)
      case Some(p) => SwitchResult(p, argv[2], walk, s)
  }

  /** A wrong argument count or an unknown label changes no file, creates no directory, runs nothing. */
  lemma RejectedInvocationHasNoEffect(argv: seq<string>, walk: seq<DirEntry>, s: FsState)
    requires |argv| != 3 || ProfileOf(argv[1]).None?
    ensures RunResult(argv, walk, s).0 == (if |argv| != 3 then BadUsage else UnknownLabel)
    ensures RunResult(argv, walk, s).1 == s
  {
  }

  /** No run puts a path both among the files and among the directories. */
  lemma RunKeepsWellFormed(argv: seq<string>, walk: seq<DirEntry>, s: FsState)
    requires WellFormed(s)
    ensures WellFormed(RunResult(argv, walk, s).1)
  {
  }

  /** A backup that already exists keeps its content: it is never overwritten. */
  lemma BackupNeverOverwritten(argv: seq<string>, walk: seq<DirEntry>, s: FsState)
    requires |argv| == 3 && ProfileOf(argv[1]).Some?
    requires ProfileOf(argv[1]).value.backup in s.files
    ensures var backup := ProfileOf(argv[1]).value.backup;
            var s' := RunResult(argv, walk, s).1;
            backup in s'.files && s'.files[backup] == s.files[backup]
  {
    var p := ProfileOf(argv[1]).value;
    if FindFirst(walk, ConfigName, p.sep).Some? {
      ConfigIsNotBackupOrTemp(argv[1], walk);
    }
  }

  /**
    When the backup path was free, whatever backup a run leaves holds the configuration exactly as
    it was before the run; a run that reaches the reboot always leaves one.
  */
  lemma FirstBackupHoldsOriginal(argv: seq<string>, walk: seq<DirEntry>, s: FsState)
    requires |argv| == 3 && ProfileOf(argv[1]).Some?
    requires !Exists(s, ProfileOf(argv[1]).value.backup)
    ensures var p := ProfileOf(argv[1]).value;
            var (o, s') := RunResult(argv, walk, s);
            && (o.Rebooting? ==> p.backup in s'.files)
            && (p.backup in s'.files ==>
                  && FindFirst(walk, ConfigName, p.sep).Some?
                  && FindFirst(walk, ConfigName, p.sep).value in s.files
                  && s'.files[p.backup] == s.files[FindFirst(walk, ConfigName, p.sep).value])
  {
    var p := ProfileOf(argv[1]).value;
    if FindFirst(walk, ConfigName, p.sep).Some? {
      ConfigIsNotBackupOrTemp(argv[1], walk);
    }
  }

  /**
    Two runs in a row on the same platform: after the second, the backup still holds the
    configuration as it was before the first.
  */
  lemma TwoRunsKeepOriginal(argv1: seq<string>, argv2: seq<string>, walk1: seq<DirEntry>,
                            walk2: seq<DirEntry>, s: FsState)
    requires |argv1| == 3 && |argv2| == 3 && argv1[1] == argv2[1]
    requires ProfileOf(argv1[1]).Some?
    requires !Exists(s, ProfileOf(argv1[1]).value.backup)
    requires RunResult(argv1, walk1, s).0.Rebooting?
    ensures var backup := ProfileOf(argv1[1]).value.backup;
            var (o1, s1) := RunResult(argv1, walk1, s);
            var s2 := RunResult(argv2, walk2, s1).1;
            o1.config in s.files && backup in s2.files && s2.files[backup] == s.files[o1.config]
  {
    FirstBackupHoldsOriginal(argv1, walk1, s);
    BackupNeverOverwritten(argv2, walk2, RunResult(argv1, walk1, s).1);
  }

  /**
    The configuration changes only through the final copy of the staged file. A run that reaches
    the reboot changes exactly the backup (when it was free), the staging file and the
    configuration, the last two to the text-mode rewrite of the original configuration; any other
    run changes no file but a newly created backup.
  */
  lemma ConfigChangesOnlyAtCommit(argv: seq<string>, walk: seq<DirEntry>, s: FsState)
    requires |argv| == 3 && ProfileOf(argv[1]).Some?
    ensures var p := ProfileOf(argv[1]).value;
            var (o, s') := RunResult(argv, walk, s);
            && (!o.Rebooting? ==> s'.files - {p.backup} == s.files - {p.backup})
            && (o.Rebooting? ==>
                  && o.config in s.files
                  && var rewritten := Rewrite(s.files[o.config], Replacement(argv[2]), p.newline);
                     && s'.files[o.config] == rewritten
                     && s'.files[p.temp] == rewritten
                     && s'.files - {o.config, p.temp, p.backup} == s.files - {o.config, p.temp, p.backup})
  {
    var p := ProfileOf(argv[1]).value;
    if FindFirst(walk, ConfigName, p.sep).Some? {
      ConfigIsNotBackupOrTemp(argv[1], walk);
    }
  }

  /**
    After a run that reaches the reboot, reading the configuration in text mode gives `re.sub`'s
    rewrite of the configuration as read before the run, whatever the platform's line separator,
    when the target holds no carriage return.
  */
  lemma CommittedConfigReadsBack(argv: seq<string>, walk: seq<DirEntry>, s: FsState)
    requires |argv| == 3 && ProfileOf(argv[1]).Some?
    requires RunResult(argv, walk, s).0.Rebooting?
    requires '\r' !in argv[2]
    ensures var (o, s') := RunResult(argv, walk, s);
            && o.config in s.files && o.config in s'.files
            && ReadText(s'.files[o.config]) == Substitute(ReadText(s.files[o.config]), Replacement(argv[2]))
  {
    var p := ProfileOf(argv[1]).value;
    var o := RunResult(argv, walk, s).0;
    ConfigChangesOnlyAtCommit(argv, walk, s);
    assert '\r' !in Replacement(argv[2]) by {
      assert forall k :: 0 <= k < |Replacement(argv[2])| ==> Replacement(argv[2])[k] != '\r';
    }
    RewriteReadsBack(s.files[o.config], Replacement(argv[2]), p.newline);
  }

  /**
    A branch whose staging path is the located configuration never reboots: `replace_text` empties
    the configuration before reading it, and the commit copy fails with `SameFileError`. A
    configuration that was a file before the run is left empty. None of the three branches of the
    script is such a branch (`ConfigIsNotBackupOrTemp`).
  */
  lemma StagingOverConfigAborts(p: Profile, target: string, walk: seq<DirEntry>, s: FsState)
    requires FindFirst(walk, ConfigName, p.sep) == Some(p.temp)
    ensures var (o, s') := SwitchResult(p, target, walk, s);
            && o == Aborted
            && (WellFormed(s) && p.temp in s.files ==> p.temp in s'.files && s'.files[p.temp] == [])
  {
    assert Substitute([], Replacement(target)) == [];
  }

  /** None of `actions` asks for a reboot. */
  ghost predicate NoReboot(actions: seq<Action>) {
    forall k :: 0 <= k < |actions| ==> !IsReboot(actions[k])
  }

  /** The commands issued before the search are not reboot commands. */
  lemma PreludeRunsNoReboot(p: Profile, s: FsState)
    ensures ExtendsWithoutReboot(s.log, Prelude(p, s).log)
  {
    assert MountVolumeCommand[0] != WindowsRebootCommand[0];
    assert MountVolumeCommand[0] != UnixRebootCommand[0];
    assert SudoBashCommand[5] != WindowsRebootCommand[5];
    assert SudoBashCommand[5] != UnixRebootCommand[5];
    assert MountEfiCommand[5] != WindowsRebootCommand[5];
    assert MountEfiCommand[5] != UnixRebootCommand[5];
  }

  /** `log` extends `log0` by actions none of which is a reboot. */
  ghost predicate ExtendsWithoutReboot(log0: seq<Action>, log: seq<Action>) {
    |log| >= |log0| && log[..|log0|] == log0 && NoReboot(log[|log0|..])
  }

  /** Appending actions that are not reboots keeps a log free of new reboots. */
  lemma AppendNoReboot(log0: seq<Action>, log: seq<Action>, extra: seq<Action>)
    requires ExtendsWithoutReboot(log0, log) && NoReboot(extra)
    ensures ExtendsWithoutReboot(log0, log + extra)
  {
    assert (log + extra)[..|log0|] == log[..|log0|];
    assert (log + extra)[|log0|..] == log[|log0|..] + extra;
  }

  /** The last three actions of a branch that reached the reboot. */
  lemma CommitThenReboot(log0: seq<Action>, log: seq<Action>, temp: Path, config: Path, reboot: string)
    requires ExtendsWithoutReboot(log0, log)
    ensures var log' := log + [Write(temp), Copy(temp, config), Exec(reboot)];
            && |log'| >= |log0| + 3
            && log'[..|log0|] == log0
            && log'[|log'| - 3..] == [Write(temp), Copy(temp, config), Exec(reboot)]
            && NoReboot(log'[|log0|..|log'| - 1])
  {
    var log' := log + [Write(temp), Copy(temp, config), Exec(reboot)];
    AppendNoReboot(log0, log, [Write(temp), Copy(temp, config)]);
    assert log'[..|log'| - 1] == log + [Write(temp), Copy(temp, config)];
    assert log'[|log0|..|log'| - 1] == (log + [Write(temp), Copy(temp, config)])[|log0|..];
    assert log'[..|log0|] == log[..|log0|];
  }

  /**
    A branch only appends to the log; it appends no reboot except, when it rewrote the
    configuration, one final reboot right after the staging write and the commit copy.
  */
  lemma SwitchLogShape(p: Profile, target: string, walk: seq<DirEntry>, s: FsState)
    ensures var (o, s') := SwitchResult(p, target, walk, s);
            && |s'.log| >= |s.log|
            && s'.log[..|s.log|] == s.log
            && (!o.Rebooting? ==> NoReboot(s'.log[|s.log|..]))
            && (o.Rebooting? ==>
                  && |s'.log| >= |s.log| + 3
                  && s'.log[|s'.log| - 3..] == [Write(p.temp), Copy(p.temp, o.config), Exec(p.reboot)]
                  && NoReboot(s'.log[|s.log|..|s'.log| - 1]))
  {
    var r := SwitchResult(p, target, walk, s);
    var s1 := Prelude(p, s);
    PreludeRunsNoReboot(p, s);
    var s2 := s1.(log := s1.log + [Search(p.searchRoot)]);
    AppendNoReboot(s.log, s1.log, [Search(p.searchRoot)]);
    match FindFirst(walk, ConfigName, p.sep)
    case None =>
      assert r == (Aborted, s2);
    case Some(config) =>
      if !Exists(s2, p.backup) && config !in s2.files {
        assert r == (Aborted, s2);
      } else {
        var s3 := if Exists(s2, p.backup) then s2
                  else s2.(files := s2.files[p.backup := s2.files[config]],
                           log := s2.log + [Copy(config, p.backup)]);
        if !Exists(s2, p.backup) {
          AppendNoReboot(s.log, s2.log, [Copy(config, p.backup)]);
        }
        if config !in s3.files || p.temp in s3.dirs {
          assert r == (Aborted, s3);
        } else if config == p.temp {
          AppendNoReboot(s.log, s3.log, [Write(p.temp)]);
          assert r.0 == Aborted;
          assert r.1.log == s3.log + [Write(p.temp)];
        } else {
          CommitThenReboot(s.log, s3.log, p.temp, config, p.reboot);
          assert r.0 == Rebooting(config);
          assert r.1.log == s3.log + [Write(p.temp), Copy(p.temp, config), Exec(p.reboot)];
        }
      }
  }

  /**
    The reboot is requested only by a run that rewrote the configuration, as its very last action,
    right after the staged file was written and copied over the configuration.
  */
  lemma RebootComesLastAfterCommit(argv: seq<string>, walk: seq<DirEntry>, s: FsState)
    requires |argv| == 3 && ProfileOf(argv[1]).Some?
    ensures var p := ProfileOf(argv[1]).value;
            var (o, s') := RunResult(argv, walk, s);
            && s.log <= s'.log
            && (forall k :: |s.log| <= k < |s'.log| && IsReboot(s'.log[k]) ==>
                  o.Rebooting? && k == |s'.log| - 1)
            && (o.Rebooting? ==>
                  && |s'.log| >= |s.log| + 3
                  && s'.log[|s'.log| - 3..] == [Write(p.temp), Copy(p.temp, o.config), Exec(p.reboot)])
  {
    var p := ProfileOf(argv[1]).value;
    var (o, s') := RunResult(argv, walk, s);
    SwitchLogShape(p, argv[2], walk, s);
    forall k | |s.log| <= k < |s'.log|
      ensures IsReboot(s'.log[k]) ==> o.Rebooting? && k == |s'.log| - 1
    {
      if !o.Rebooting? {
        assert s'.log[|s.log|..][k - |s.log|] == s'.log[k];
      } else if k < |s'.log| - 1 {
        assert s'.log[|s.log|..|s'.log| - 1][k - |s.log|] == s'.log[k];
      }
    }
  }

  /**
    On OSX the mount point is created only when nothing is at that path, and that happens before
    the mount, which happens before the search.
  */
  lemma EfiMountedBeforeSearch(argv: seq<string>, walk: seq<DirEntry>, s: FsState)
    requires |argv| == 3 && argv[1] == OsxLabel
    ensures var s' := RunResult(argv, walk, s).1;
            var steps := (if Exists(s, EfiMountPoint) then [] else [MakeDir(EfiMountPoint)])
                         + [Exec(MountEfiCommand), Search(EfiMountPoint)];
            && |s'.log| >= |s.log| + |steps|
            && s'.log[|s.log|..|s.log| + |steps|] == steps
            && Exists(s', EfiMountPoint)
            && (s'.dirs == if Exists(s, EfiMountPoint) then s.dirs else s.dirs + {EfiMountPoint})
  {
    var s1 := Prelude(OsxProfile, s);
    var s' := RunResult(argv, walk, s).1;
    var steps := (if Exists(s, EfiMountPoint) then [] else [MakeDir(EfiMountPoint)])
                 + [Exec(MountEfiCommand), Search(EfiMountPoint)];
    SearchedStateKept(OsxProfile, argv[2], walk, s);
    assert s1.log + [Search(EfiMountPoint)] == s.log + steps;
    assert s'.log[|s.log|..|s.log| + |steps|] == s'.log[..|s1.log| + 1][|s.log|..];
  }

  /**
    After the search a branch only appends to the log and creates no directory: the log up to
    the search and the directories stay as the prelude left them.
  */
  lemma SearchedStateKept(p: Profile, target: string, walk: seq<DirEntry>, s: FsState)
    ensures var s1 := Prelude(p, s);
            var s' := SwitchResult(p, target, walk, s).1;
            && |s'.log| >= |s1.log| + 1
            && s'.log[..|s1.log| + 1] == s1.log + [Search(p.searchRoot)]
            && s'.dirs == s1.dirs
  {
    var s1 := Prelude(p, s);
    var s2 := s1.(log := s1.log + [Search(p.searchRoot)]);
    var s' := SwitchResult(p, target, walk, s).1;
    var extra: seq<Action>;
    match FindFirst(walk, ConfigName, p.sep)
    case None =>
      extra := [];
      assert s' == s2;
    case Some(config) =>
      if !Exists(s2, p.backup) && config !in s2.files {
        extra := [];
        assert s' == s2;
      } else {
        var s3 := if Exists(s2, p.backup) then s2
                  else s2.(files := s2.files[p.backup := s2.files[config]],
                           log := s2.log + [Copy(config, p.backup)]);
        var backupSteps := if Exists(s2, p.backup) then [] else [Copy(config, p.backup)];
        assert s3.log == s2.log + backupSteps && s3.dirs == s2.dirs;
        if config !in s3.files || p.temp in s3.dirs {
          extra := backupSteps;
          assert s' == s3;
        } else if config == p.temp {
          extra := backupSteps + [Write(p.temp)];
          assert s'.log == s3.log + [Write(p.temp)] && s'.dirs == s3.dirs;
        } else {
          extra := backupSteps + [Write(p.temp), Copy(p.temp, config), Exec(p.reboot)];
          assert s'.log == s3.log + [Write(p.temp), Copy(p.temp, config), Exec(p.reboot)] && s'.dirs == s3.dirs;
        }
      }
    assert s'.log == s2.log + extra;
    assert s'.log[..|s2.log|] == s2.log;
  }

  /**
    The worked scenario for Ubuntu: with `/boot/efi/refind.conf` holding `default_selection d` for
    a digit `d`, switching to `target` backs up the original, rewrites the configuration to
    `default_selection target` and ends with the reboot command.
  */
  lemma UbuntuScenario(d: char, target: string)
    requires IsDigit(d)
    ensures var config := "/boot/efi/refind.conf";
            var original := Keyword + " " + [d];
            var s := FsState(map[config := original], {}, []);
            var (o, s') := RunResult(["boot.py", UbuntuLabel, target], [DirEntry("/boot/efi", [ConfigName])], s);
            && o == Rebooting(config)
            && s'.files[UbuntuProfile.backup] == original
            && s'.files[config] == Replacement(target)
            && s'.log[|s'.log| - 1] == Exec(UnixRebootCommand)
  {
    var config := "/boot/efi/refind.conf";
    var s := FsState(map[config := Keyword + " " + [d]], {}, []);
    var argv := ["boot.py", UbuntuLabel, target];
    var walk := [DirEntry("/boot/efi", [ConfigName])];
    assert '\r' !in Keyword + " " + [d];
    UbuntuScenarioReboots(s, target);
    assert RunResult(argv, walk, s) == SwitchResult(UbuntuProfile, target, walk, s);
    FirstBackupHoldsOriginal(argv, walk, s);
    ConfigChangesOnlyAtCommit(argv, walk, s);
    RebootComesLastAfterCommit(argv, walk, s);
    WholeDirectiveReplaced(" ", d, Replacement(target));
  }

  /** In the scenario the Ubuntu branch reaches the reboot. */
  lemma UbuntuScenarioReboots(s: FsState, target: string)
    requires s.files.Keys == {"/boot/efi/refind.conf"} && s.dirs == {}
    ensures ProfileOf(UbuntuLabel) == Some(UbuntuProfile)
    ensures !Exists(s, UbuntuProfile.backup)
    ensures SwitchResult(UbuntuProfile, target, [DirEntry("/boot/efi", [ConfigName])], s).0
            == Rebooting("/boot/efi/refind.conf")
  {
    var config := "/boot/efi/refind.conf";
    assert Join("/boot/efi", ConfigName, '/') == config;
    assert FindFirst([DirEntry("/boot/efi", [ConfigName])], ConfigName, '/') == Some(config);
    assert |UbuntuProfile.backup| != |config|;
  }

  /**
    The machine the script runs on: its files, its directories and the log of what the script
    has done. Each method is one step of the script; `Run` is the whole script.
  */
  class Machine {
    var files: map<Path, string>
    var dirs: set<Path>
    var log: seq<Action>

    function State(): (s: FsState)
      reads this
    {
      FsState(files, dirs, log)
    }

    ghost predicate Valid()
      reads this
    {
      WellFormed(State())
    }

    constructor (files0: map<Path, string>, dirs0: set<Path>)
      requires files0.Keys !! dirs0
      ensures Valid()
      ensures State() == FsState(files0, dirs0, [])
    {
      files, dirs, log := files0, dirs0, [];
    }

    /** `subprocess.call` / `os.system`: the command is only recorded. */
    method Exec(command: string)
      requires Valid()
      modifies this
      ensures Valid()
      ensures State() == old(State()).(log := old(log) + [Action.Exec(command)])
    {
      log := log + [Action.Exec(command)];
    }

    /** `if not os.path.exists(d): os.mkdir(d)`. */
    method MakeDirIfAbsent(d: Path)
      requires Valid()
      modifies this
      ensures Valid()
      ensures State() == if Exists(old(State()), d) then old(State())
                         else old(State()).(dirs := old(dirs) + {d}, log := old(log) + [MakeDir(d)])
    {
      if !Exists(State(), d) {
        dirs := dirs + {d};
        log := log + [MakeDir(d)];
      }
    }

    /**
      `shutil.copy(src, dst)` onto a path that is not a directory. It fails when `src` is missing,
      and with `SameFileError` when both name the same file.
    */
    method CopyFile(src: Path, dst: Path) returns (ok: bool)
      requires Valid() && dst !in dirs
      modifies this
      ensures Valid()
      ensures ok == (src in old(files) && src != dst)
      ensures State() == if ok then old(State()).(files := old(files)[dst := old(files)[src]],
                                                   log := old(log) + [Copy(src, dst)])
                         else old(State())
    {
      ok := src in files && src != dst;
      if ok {
        files := files[dst := files[src]];
        log := log + [Copy(src, dst)];
      }
    }

    /**
      `replace_text`: open `file`, open `temp` for writing (which empties it), read `file` whole
      in text mode and write its rewrite to `temp` in text mode with line separator `newline`.
      It writes only `temp`; it fails, changing nothing, when `file` is missing or `temp` is a
      directory. When both are the same path, the text read is the emptied file.
    */
    method ReplaceText(file: Path, temp: Path, replacement: string, newline: string) returns (ok: bool)
      requires Valid()
      modifies this
      ensures Valid()
      ensures ok == (file in old(files) && temp !in old(dirs))
      ensures State() == if ok then old(State()).(files := old(files)[temp := Rewrite(if file == temp then [] else old(files)[file],
                                                                                        replacement, newline)],
                                                   log := old(log) + [Write(temp)])
                         else old(State())
    {
      if file !in files || temp in dirs {
        return false;
      }
      var content := if file == temp then [] else files[file];
      files := files[temp := Rewrite(content, replacement, newline)];
      log := log + [Write(temp)];
      ok := true;
    }

    /** One platform branch of the script. */
    method Switch(p: Profile, target: string, walk: seq<DirEntry>) returns (outcome: Outcome)
      requires Valid()
      modifies this
      ensures Valid()
      ensures (outcome, State()) == SwitchResult(p, target, walk, old(State()))
    {
      match p.platform {
        case Windows =>
          Exec(MountVolumeCommand);
        case Ubuntu =>
          Exec(SudoBashCommand);
        case Osx =>
          MakeDirIfAbsent(EfiMountPoint);
          Exec(MountEfiCommand);
      }
      assert State() == Prelude(p, old(State()));
      log := log + [Search(p.searchRoot)];
      ghost var s2 := State();
      var found := FindFile(walk, ConfigName, p.sep);
      if found.None? {
        return Aborted;
      }
      var config := found.value;
      if !Exists(State(), p.backup) {
        var copied := CopyFile(config, p.backup);
        if !copied {
          return Aborted;
        }
      }
      var staged := ReplaceText(config, p.temp, Replacement(target), p.newline);
      if !staged {
        return Aborted;
      }
      assert config !in dirs;
      var committed := CopyFile(p.temp, config);
      if !committed {
        return Aborted;
      }
      Exec(p.reboot);
      outcome := Rebooting(config);
    }

    /** The script: check the argument count, dispatch on the platform label. */
    method Run(argv: seq<string>, walk: seq<DirEntry>) returns (outcome: Outcome)
      requires Valid()
      modifies this
      ensures Valid()
      ensures (outcome, State()) == RunResult(argv, walk, old(State()))
    {
      ghost var s0 := State();
      if |argv| != 3 {
        return BadUsage;
      }
      match ProfileOf(argv[1]) {
        case None =>
          return UnknownLabel;
        case Some(p) =>
          outcome := Switch(p, argv[2], walk);
      }
      RunKeepsWellFormed(argv, walk, s0);
    }
  }
}
