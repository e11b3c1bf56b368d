/**
 The patcher itself: the marker check, the generation of the staging file, the
 line-by-line copy back onto the configuration and the top-level decision, run
 against a file system reduced to a map from paths to contents plus the set of
 paths the operating system refuses to open. An open that fails ends the run
 with exit status 1, as `OpenFileOrDie` does.
 */
module Patcher {
  import opened Lines
  import opened PamConfig

  type Path = string

  /** The sudo PAM configuration the program patches. */
  const PamFile: Path := "/etc/pam.d/sudo"

  /** Where the patched configuration is generated before it is copied back. */
  const StagingFile: Path := "/tmp/persistent-touch-id-sudo-pam"

  /** `fopen` modes used by the program: "r" and "w". */
  datatype Mode = Read | Write

  /** Paths whose opens the operating system refuses, for want of permission,
      of a parent directory, or the like. */
  datatype Access = Access(unreadable: set<Path>, unwritable: set<Path>)

  /** Whether `fopen(path, mode)` succeeds: reading needs an existing file,
      writing creates one when it is missing. */
  predicate CanOpen(files: map<Path, string>, access: Access, path: Path, mode: Mode)
  {
    match mode
    case Read => path in files && path !in access.unreadable
    case Write => path !in access.unwritable
  }

  /** `Continue`: every open so far succeeded; `Fatal(p)`: opening `p` failed
      and the process has exited with status 1. */
  datatype Outcome = Continue | Fatal(path: Path)

  /** The outcome of a step and the files it leaves behind. */
  datatype Step = Step(outcome: Outcome, files: map<Path, string>)

  /** What the process ends with: its exit status and the files. */
  datatype Exit = Exit(code: int, files: map<Path, string>)

  /** Opening for writing truncates (or creates) the file; opening for reading
      changes nothing. */
  ghost function OpenSpec(files: map<Path, string>, access: Access, path: Path, mode: Mode): Step
  {
    if !CanOpen(files, access, path, mode) then Step(Fatal(path), files)
    else if mode == Write then Step(Continue, files[path := []])
    else Step(Continue, files)
  }

  /** The copy: the source is opened before the destination is truncated, so a
      source that cannot be read leaves the destination as it was; on success
      the destination holds the source's bytes (nothing, when they are the same
      file, since truncating it empties what is then read). */
  ghost function CopySpec(files: map<Path, string>, access: Access, src: Path, dst: Path): Step
  {
    if !CanOpen(files, access, src, Read) then Step(Fatal(src), files)
    else if !CanOpen(files, access, dst, Write) then Step(Fatal(dst), files)
    else Step(Continue, files[dst := if src == dst then [] else files[src]])
  }

  /** The generation: the configuration is opened before the staging file, and
      on success the staging file holds the patched configuration. */
  ghost function GenerateSpec(files: map<Path, string>, access: Access): Step
  {
    if !CanOpen(files, access, PamFile, Read) then Step(Fatal(PamFile), files)
    else if !CanOpen(files, access, StagingFile, Write) then Step(Fatal(StagingFile), files)
    else Step(Continue, files[StagingFile := Concat(Patched(Chunks(files[PamFile])))])
  }

  /** Generation, then the copy of the staging file onto the configuration. */
  ghost function ConfigureSpec(files: map<Path, string>, access: Access): Step
  {
    var g := GenerateSpec(files, access);
    if g.outcome.Fatal? then g else CopySpec(g.files, access, StagingFile, PamFile)
  }

  /** A whole run: nothing happens to a configuration that already has the
      marker; otherwise it is patched by way of the staging file. */
  ghost function RunSpec(files: map<Path, string>, access: Access): Exit
  {
    if !CanOpen(files, access, PamFile, Read) then Exit(1, files)
    else if IsConfigured(Chunks(files[PamFile])) then Exit(0, files)
    else
      var c := ConfigureSpec(files, access);
      Exit(if c.outcome.Fatal? then 1 else 0, c.files)
  }

  /** Running the program a second time changes nothing: not the files, not
      the exit status, whether the first run succeeded or died on an open. */
  lemma RunIdempotent(files: map<Path, string>, access: Access)
    ensures RunSpec(RunSpec(files, access).files, access) == RunSpec(files, access)
  {
    var r := RunSpec(files, access);
    if CanOpen(files, access, PamFile, Read) && !IsConfigured(Chunks(files[PamFile])) {
      var old_ := files[PamFile];
      var patched := Concat(Patched(Chunks(old_)));
      if CanOpen(files, access, StagingFile, Write) {
        var staged := files[StagingFile := patched];
        assert staged[PamFile] == old_;
        if CanOpen(staged, access, StagingFile, Read) && CanOpen(staged, access, PamFile, Write) {
          assert r.files == staged[PamFile := patched];
          PatchedFileIsConfigured(old_);
          if old_ == [] {
            assert patched == [];
            assert r.files == files[StagingFile := []];
          }
        } else {
          assert r.files == staged;
          assert staged[StagingFile := patched] == staged;
        }
      }
    }
  }

  /** A run that ends with status 1 has left every file but the staging file
      as it found it, the configuration above all. */
  lemma RunFailurePreservesConfiguration(files: map<Path, string>, access: Access)
    ensures RunSpec(files, access).code == 1 ==>
      RunSpec(files, access).files - {StagingFile} == files - {StagingFile}
  {
    var r := RunSpec(files, access);
    if r.code == 1 && CanOpen(files, access, PamFile, Read) && CanOpen(files, access, StagingFile, Write) {
      var staged := files[StagingFile := Concat(Patched(Chunks(files[PamFile])))];
      assert r.files == staged;
      assert staged - {StagingFile} == files - {StagingFile};
    }
  }

  /** No run touches any file but the configuration and the staging file. */
  lemma RunTouchesOnlyTwoFiles(files: map<Path, string>, access: Access)
    ensures RunSpec(files, access).files - {PamFile, StagingFile} == files - {PamFile, StagingFile}
  {
    var r := RunSpec(files, access);
    if CanOpen(files, access, PamFile, Read) && !IsConfigured(Chunks(files[PamFile]))
       && CanOpen(files, access, StagingFile, Write) {
      var patched := Concat(Patched(Chunks(files[PamFile])));
      var staged := files[StagingFile := patched];
      assert staged - {PamFile, StagingFile} == files - {PamFile, StagingFile};
      if r.code == 0 {
        assert r.files == staged[PamFile := patched];
        assert r.files - {PamFile, StagingFile} == staged - {PamFile, StagingFile};
      }
    }
  }

  /** A run that ends with status 0 leaves a configuration that passes the
      marker check, or an empty one; when it patched, the configuration and the
      staging file both hold the patched text. */
  lemma RunSuccessConfigures(files: map<Path, string>, access: Access)
    ensures RunSpec(files, access).code == 0 ==>
      var after := RunSpec(files, access).files;
      && PamFile in files && PamFile in after
      && (IsConfigured(Chunks(after[PamFile])) || after[PamFile] == files[PamFile] == [])
      && (!IsConfigured(Chunks(files[PamFile])) ==>
            after[PamFile] == after[StagingFile] == Concat(Patched(Chunks(files[PamFile]))))
  {
    var r := RunSpec(files, access);
    if r.code == 0 && !IsConfigured(Chunks(files[PamFile])) {
      var old_ := files[PamFile];
      var patched := Concat(Patched(Chunks(old_)));
      assert r.files == files[StagingFile := patched][PamFile := patched];
      PatchedFileIsConfigured(old_);
      if old_ == [] {
        assert patched == [];
      }
    }
  }

  /** A second write to the same path replaces the first. */
  lemma OverwriteTwice(m: map<Path, string>, p: Path, x: string, y: string)
    ensures m[p := x][p := y] == m[p := y]
  {
  }

  /** The file system the program runs against. */
  class FileSystem {
    var files: map<Path, string>
    const access: Access

    constructor (files: map<Path, string>, access: Access)
      ensures this.files == files && this.access == access
    {
      this.files := files;
      this.access := access;
    }

    /** `fopen`, or exit with status 1 naming the path. */
    method OpenFileOrDie(path: Path, mode: Mode) returns (outcome: Outcome)
      modifies this
      ensures Step(outcome, files) == OpenSpec(old(files), access, path, mode)
    {
      if !CanOpen(files, access, path, mode) {
        return Fatal(path);
      }
      if mode == Write {
        files := files[path := []];
      }
      return Continue;
    }

    /** `fputs(text, stream)` on the stream opened for writing `path`. */
    method AppendText(path: Path, text: string)
      requires path in files
      modifies this
      ensures files == old(files)[path := old(files)[path] + text]
    {
      files := files[path := files[path] + text];
    }

    /** Reads the configuration line by line and stops at the first line that
        holds the marker. `linesRead` counts the `getline` calls that
        returned a line. */
    method IsPamAlreadyConfigured() returns (outcome: Outcome, configured: bool, ghost linesRead: nat)
      modifies this
      ensures files == old(files)
      ensures outcome == if CanOpen(files, access, PamFile, Read) then Continue else Fatal(PamFile)
      ensures outcome == Continue ==>
        var lines := Chunks(files[PamFile]);
        && (configured <==> IsConfigured(lines))
        && linesRead <= |lines|
        && (configured ==> 0 < linesRead && Contains(lines[linesRead - 1], Marker))
        && (!configured ==> linesRead == |lines|)
        && forall j :: 0 <= j < linesRead - 1 ==> !Contains(lines[j], Marker)
    {
      configured, linesRead := false, 0;
      outcome := OpenFileOrDie(PamFile, Read);
      if outcome.Fatal? {
        return;
      }
      var lines := Chunks(files[PamFile]);
      var i := 0;
      while i < |lines|
        invariant 0 <= i <= |lines| && linesRead == i
        invariant forall j :: 0 <= j < i ==> !Contains(lines[j], Marker)
      {
        var line := lines[i];
        linesRead := linesRead + 1;
        if Contains(line, Marker) {
          configured := true;
          break;
        }
        i := i + 1;
      }
    }

    /** Copies `src` onto `dst` line by line, truncating `dst` first. */
    method CopyFile(src: Path, dst: Path) returns (outcome: Outcome)
      modifies this
      ensures Step(outcome, files) == CopySpec(old(files), access, src, dst)
    {
      outcome := OpenFileOrDie(src, Read);
      if outcome.Fatal? {
        return;
      }
      outcome := OpenFileOrDie(dst, Write);
      if outcome.Fatal? {
        return;
      }
      ghost var truncated := files;
      var lines := Chunks(files[src]);
      var i := 0;
      while i < |lines|
        invariant 0 <= i <= |lines|
        invariant files == truncated[dst := Concat(lines[..i])]
      {
        ConcatAppend(lines[..i], [lines[i]]);
        assert Concat([lines[i]]) == lines[i];
        assert lines[..i + 1] == lines[..i] + [lines[i]];
        AppendText(dst, lines[i]);
        OverwriteTwice(truncated, dst, Concat(lines[..i]), Concat(lines[..i]) + lines[i]);
        i := i + 1;
      }
      assert lines[..i] == lines;
      ConcatChunks(truncated[src]);
    }

    /** Writes the patched configuration to the staging file, counting lines
        to find the first one. */
    method GeneratePamConfig() returns (outcome: Outcome)
      modifies this
      ensures Step(outcome, files) == GenerateSpec(old(files), access)
    {
      outcome := OpenFileOrDie(PamFile, Read);
      if outcome.Fatal? {
        return;
      }
      outcome := OpenFileOrDie(StagingFile, Write);
      if outcome.Fatal? {
        return;
      }
      ghost var truncated := files;
      var lines := Chunks(files[PamFile]);
      var lineCounter := 0;
      var i := 0;
      ghost var written: string := [];
      while i < |lines|
        invariant 0 <= i <= |lines| && lineCounter == i
        invariant written == Concat(Patched(lines[..i]))
        invariant files == truncated[StagingFile := written]
      {
        var line := lines[i];
        PatchedPrefixStep(lines, i);
        lineCounter := lineCounter + 1;
        if lineCounter == 1 {
          var header := Contains(line, "#");
          HeaderTest(line);
          if header {
            AppendText(StagingFile, line);
            OverwriteTwice(truncated, StagingFile, written, written + line);
            AppendText(StagingFile, TidLine);
            OverwriteTwice(truncated, StagingFile, written + line, written + line + TidLine);
            written := written + line + TidLine;
          } else {
            AppendText(StagingFile, TidLine);
            OverwriteTwice(truncated, StagingFile, written, written + TidLine);
            AppendText(StagingFile, line);
            OverwriteTwice(truncated, StagingFile, written + TidLine, written + TidLine + line);
            written := written + TidLine + line;
          }
        } else {
          AppendText(StagingFile, line);
          OverwriteTwice(truncated, StagingFile, written, written + line);
          written := written + line;
        }
        i := i + 1;
      }
      assert lines[..i] == lines;
    }

    /** Generation followed by the copy back onto the configuration. */
    method ConfigurePam() returns (outcome: Outcome)
      modifies this
      ensures Step(outcome, files) == ConfigureSpec(old(files), access)
    {
      outcome := GeneratePamConfig();
      if outcome.Fatal? {
        return;
      }
      outcome := CopyFile(StagingFile, PamFile);
    }

    /** The program's entry point; returns its exit status. */
    method Run() returns (code: int)
      modifies this
      ensures Exit(code, files) == RunSpec(old(files), access)
    {
      var outcome, configured, _ := IsPamAlreadyConfigured();
      if outcome.Fatal? {
        return 1;
      }
      if configured {
        return 0;
      }
      outcome := ConfigurePam();
      code := if outcome.Fatal? then 1 else 0;
    }
  }
}
