/** The release sequence of main (main.go:61-118): date the Unreleased
    header, tidy, commit, tag and push, build the release, clean ./dist,
    re-open the next patch version, commit and push again. The first step
    that fails ends the run. The git, go and goreleaser steps are not part of
    this model: each is a caller-supplied verdict. */
module Workflow {
  import opened Text
  import opened Numbers
  import opened Header
  import opened Bump
  import opened Files
  import opened Changelog

  const ChangelogFile := "CHANGELOG.md"

  /** Whether each external step succeeds: RunTidy, CommitRepo, PushRepo,
      ReleaseExec, os.RemoveAll("./dist"), then the second CommitRepo and
      SimplePush. */
  datatype Collaborators = Collaborators(
    tidy: bool, commit: bool, push: bool, build: bool, cleanDist: bool,
    commitNext: bool, pushNext: bool)

  predicate AllSucceed(ext: Collaborators)
  {
    ext.tidy && ext.commit && ext.push && ext.build && ext.cleanDist && ext.commitNext && ext.pushNext
  }

  /** Where the run ended early. IndexOutOfRange is the panic of `strs[2]`
      when the released version has fewer than three parts. */
  datatype Stop = ReleaseFailed(failure: Failure) | TidyFailed | CommitFailed | PushFailed
                | BuildFailed | CleanDistFailed | IndexOutOfRange
                | AdvanceFailed(cause: Failure) | CommitNextFailed | PushNextFailed

  datatype Outcome = Finished(version: string) | Stopped(at: Stop)

  /** The run on a directory holding `files`: what the directory holds at
      the end and how the run ended. */
  function Cycle(files: map<string, string>, plan: FaultPlan, today: Date, ext: Collaborators)
    : Effect<Outcome>
  {
    AfterRelease(Release(files, plan, ChangelogFile, today), plan, ext)
  }

  /** The steps after ModifyChangelog, from what it left and returned. */
  function AfterRelease(r: Effect<Result<string>>, plan: FaultPlan, ext: Collaborators): Effect<Outcome>
  {
    if r.result.Err? then Effect(r.files, Stopped(ReleaseFailed(r.result.failure)))
    else
      var ver := r.result.value;
      if !ext.tidy then Effect(r.files, Stopped(TidyFailed))
      else if !ext.commit then Effect(r.files, Stopped(CommitFailed))
      else if !ext.push then Effect(r.files, Stopped(PushFailed))
      else if !ext.build then Effect(r.files, Stopped(BuildFailed))
      else if !ext.cleanDist then Effect(r.files, Stopped(CleanDistFailed))
      else if StageVer >= |Split(ver)| then Effect(r.files, Stopped(IndexOutOfRange))
      else AfterAdvance(Advance(r.files, plan, ChangelogFile, ver, StageVer), ver, ext)
  }

  /** The steps after SetNewVersion, from what it left and returned. */
  function AfterAdvance(a: Effect<Result<()>>, ver: string, ext: Collaborators): Effect<Outcome>
  {
    if a.result.Err? then Effect(a.files, Stopped(AdvanceFailed(a.result.failure)))
    else if !ext.commitNext then Effect(a.files, Stopped(CommitNextFailed))
    else if !ext.pushNext then Effect(a.files, Stopped(PushNextFailed))
    else Effect(a.files, Finished(ver))
  }

  /** When ModifyChangelog and SetNewVersion succeed, and so do the other
      steps, the run finishes with the version released. */
  lemma CycleSucceeds(files: map<string, string>, plan: FaultPlan, today: Date, ext: Collaborators,
                      released: map<string, string>, ver: string, advanced: map<string, string>)
    requires Release(files, plan, ChangelogFile, today) == Effect(released, Ok(ver))
    requires AllSucceed(ext) && StageVer < |Split(ver)|
    requires Advance(released, plan, ChangelogFile, ver, StageVer) == Effect(advanced, Ok(()))
    ensures Cycle(files, plan, today, ext) == Effect(advanced, Finished(ver))
  {
  }

  method ReleaseCycle(fs: FileStore, today: Date, ext: Collaborators) returns (outcome: Outcome)
    modifies fs
    ensures Effect(fs.files, outcome) == Cycle(old(fs.files), fs.plan, today, ext)
  {
    var released := ModifyChangelog(fs, ChangelogFile, today);
    if released.Err? { return Stopped(ReleaseFailed(released.failure)); }
    var ver := released.value;
    if !ext.tidy { return Stopped(TidyFailed); }
    if !ext.commit { return Stopped(CommitFailed); }
    if !ext.push { return Stopped(PushFailed); }
    if !ext.build { return Stopped(BuildFailed); }
    if !ext.cleanDist { return Stopped(CleanDistFailed); }
    if StageVer >= |Split(ver)| { return Stopped(IndexOutOfRange); }
    var err := SetNewVersion(fs, ChangelogFile, ver, StageVer);
    if err.Err? { return Stopped(AdvanceFailed(err.failure)); }
    if !ext.commitNext { return Stopped(CommitNextFailed); }
    if !ext.pushNext { return Stopped(PushNextFailed); }
    return Finished(ver);
  }

  /** The version a first run re-opens: 1.0.1. */
  const NextVersion := Itoa(1) + "." + Itoa(0) + "." + Itoa(1)

  /** The changelog a first run leaves behind:
      "## 1.0.1 (Unreleased)\n## 1.0.0 (Unreleased)\n". */
  const FreshChangelog := UnreleasedHeader(NextVersion) + "\n" + SeedHeader + "\n"

  lemma NextVersionLiteral()
    ensures NextVersion == "1.0.1"
  {
    var f := NextVersion;
    assert Itoa(0) == "0" && Itoa(1) == "1";
    assert f == "1" + "." + "0" + "." + "1";
    assert |f| == 5 && f[0] == '1' && f[1] == '.' && f[2] == '0' && f[3] == '.' && f[4] == '1';
  }

  /** Without a changelog, a run that meets no failure releases 1.0.0 and
      leaves two Unreleased headers: 1.0.1 on top of the undated seed. */
  lemma FreshCycle(files: map<string, string>, plan: FaultPlan, today: Date, ext: Collaborators)
    requires ChangelogFile !in files
    requires Reliable(plan, ChangelogFile) && Reliable(plan, TempName(ChangelogFile))
    requires AllSucceed(ext)
    ensures Cycle(files, plan, today, ext) ==
      Effect((files - {TempName(ChangelogFile)})[ChangelogFile := FreshChangelog], Finished(SeedVersion))
  {
    var tmp := TempName(ChangelogFile);
    var released := (files - {tmp})[ChangelogFile := SeedHeader + "\n"];
    assert Release(files, plan, ChangelogFile, today) == Effect(released, Ok(SeedVersion)) by {
      ReleaseOfAbsentFile(files, plan, ChangelogFile, today);
    }
    assert StageVer < |Split(SeedVersion)| && Advance(released, plan, ChangelogFile, SeedVersion, StageVer) == Effect(released[ChangelogFile := FreshChangelog], Ok(())) by {
      AdvanceOfTriple(released, plan, 1, 0, 0);
      FreshChangelogJoins();
    }
    CycleSucceeds(files, plan, today, ext, released, SeedVersion, released[ChangelogFile := FreshChangelog]);
    Overwrite(files - {tmp}, ChangelogFile, SeedHeader + "\n", FreshChangelog);
  }

  lemma FreshChangelogJoins()
    ensures FreshChangelog == UnreleasedHeader(FormatVersion(1, 0, 1)) + "\n" + (SeedHeader + "\n")
  {
  }

  /** Both headers of that changelog are Unreleased headers. */
  lemma FreshChangelogHeaders()
    ensures Lines(FreshChangelog) == [UnreleasedHeader(NextVersion), SeedHeader]
    ensures CountUnreleased(Lines(FreshChangelog)) == 2
  {
    assert '\n' !in NextVersion && '\n' !in SeedVersion by { ItoaChars(0); ItoaChars(1); }
    UnreleasedHeaderIsHeader(NextVersion);
    UnreleasedHeaderIsHeader(SeedVersion);
    TwoHeaders(UnreleasedHeader(NextVersion), SeedHeader);
  }

  /** Two header lines written one after the other are read back as two
      Unreleased headers. */
  lemma TwoHeaders(top: string, bottom: string)
    requires IsUnreleasedHeader(top) && IsUnreleasedHeader(bottom)
    ensures Lines(top + "\n" + bottom + "\n") == [top, bottom]
    ensures CountUnreleased([top, bottom]) == 2
  {
    UnreleasedHeaderShape(top);
    UnreleasedHeaderShape(bottom);
    LinesCons(bottom, "");
    LinesCons(top, bottom + "\n");
    assert top + "\n" + bottom + "\n" == top + "\n" + (bottom + "\n");
    var both := [top, bottom];
    assert both[0] == top && both[1..] == [bottom];
    assert [bottom][0] == bottom && [bottom][1..] == [];
    assert CountUnreleased([bottom]) == 1;
  }

  /** A run on a changelog whose last Unreleased header names
      major.minor.patch releases exactly that version and leaves the
      rewritten changelog under the header of major.minor.(patch+1). */
  lemma SteadyCycle(files: map<string, string>, plan: FaultPlan, today: Date, ext: Collaborators,
                    k: nat, major: nat, minor: nat, patch: nat)
    requires ChangelogFile in files
    requires Reliable(plan, ChangelogFile) && Reliable(plan, TempName(ChangelogFile))
    requires AllSucceed(ext)
    requires patch < MaxInt64
    requires var lines := Lines(files[ChangelogFile]);
      && k < |lines| && lines[k] == UnreleasedHeader(FormatVersion(major, minor, patch))
      && forall j :: k < j < |lines| ==> !IsUnreleasedHeader(lines[j])
    ensures Cycle(files, plan, today, ext) ==
      Effect((files - {TempName(ChangelogFile)})[ChangelogFile :=
                UnreleasedHeader(FormatVersion(major, minor, patch + 1)) + "\n" + ReleasedText(files[ChangelogFile], today)],
             Finished(FormatVersion(major, minor, patch)))
  {
    var content := files[ChangelogFile];
    var v := FormatVersion(major, minor, patch);
    var tmp := TempName(ChangelogFile);
    var released := (files - {tmp})[ChangelogFile := ReleasedText(content, today)];
    var final := UnreleasedHeader(FormatVersion(major, minor, patch + 1)) + "\n" + ReleasedText(content, today);
    assert Release(files, plan, ChangelogFile, today) == Effect(released, Ok(v)) by {
      ReleaseOfLastHeader(files, plan, ChangelogFile, today, k, major, minor, patch);
    }
    assert StageVer < |Split(v)| && Advance(released, plan, ChangelogFile, v, StageVer) == Effect(released[ChangelogFile := final], Ok(())) by {
      AdvanceOfTriple(released, plan, major, minor, patch);
    }
    CycleSucceeds(files, plan, today, ext, released, v, released[ChangelogFile := final]);
    Overwrite(files - {tmp}, ChangelogFile, ReleasedText(content, today), final);
  }

  /** SetNewVersion on the version major.minor.patch puts the header of
      major.minor.(patch+1) on top of the reliable changelog. */
  lemma AdvanceOfTriple(files: map<string, string>, plan: FaultPlan, major: nat, minor: nat, patch: nat)
    requires ChangelogFile in files && Reliable(plan, ChangelogFile)
    requires patch < MaxInt64
    ensures StageVer < |Split(FormatVersion(major, minor, patch))|
    ensures Advance(files, plan, ChangelogFile, FormatVersion(major, minor, patch), StageVer) ==
      Effect(files[ChangelogFile := UnreleasedHeader(FormatVersion(major, minor, patch + 1)) + "\n" + files[ChangelogFile]], Ok(()))
  {
    BumpTriple(major, minor, patch, StageVer);
    AdvancePrepends(files, plan, ChangelogFile, FormatVersion(major, minor, patch), StageVer);
  }

  lemma Overwrite(m: map<string, string>, key: string, a: string, b: string)
    ensures m[key := a][key := b] == m[key := b]
  {
  }

  /** Releasing a changelog whose last Unreleased header names
      major.minor.patch returns that version. */
  lemma ReleaseOfLastHeader(files: map<string, string>, plan: FaultPlan, name: string, today: Date,
                            k: nat, major: nat, minor: nat, patch: nat)
    requires name in files
    requires Reliable(plan, name) && Reliable(plan, TempName(name))
    requires var lines := Lines(files[name]);
      && k < |lines| && lines[k] == UnreleasedHeader(FormatVersion(major, minor, patch))
      && forall j :: k < j < |lines| ==> !IsUnreleasedHeader(lines[j])
    ensures Release(files, plan, name, today) ==
      Effect((files - {TempName(name)})[name := ReleasedText(files[name], today)],
             Ok(FormatVersion(major, minor, patch)))
  {
    ReleaseOfExistingFile(files, plan, name, today);
    VersionOfUnreleasedHeader(major, minor, patch);
    LastVersionOfLastHeader(Lines(files[name]), k);
  }

  /** On a changelog without carriage returns, the file a successful run
      leaves holds exactly one Unreleased header: the new one on top. */
  lemma CycleLeavesOneHeader(content: string, today: Date, ver: string, mode: nat)
    requires '\r' !in content
    requires mode < |Split(ver)| && '\n' !in ver
    ensures CountUnreleased(Lines(UnreleasedHeader(BumpVersion(ver, mode)) + "\n" + ReleasedText(content, today))) == 1
  {
    AdvanceAddsOneHeader(ReleasedText(content, today), ver, mode);
    ReleaseIdempotent(content, today);
    ReleasedHasNoUnreleased(Lines(content), today);
  }

  /** A changelog without any Unreleased header is rewritten, "" is
      released, and the run panics on indexing the patch part of "". */
  lemma NoHeaderCycle(files: map<string, string>, plan: FaultPlan, today: Date, ext: Collaborators)
    requires ChangelogFile in files
    requires Reliable(plan, ChangelogFile) && Reliable(plan, TempName(ChangelogFile))
    requires ext.tidy && ext.commit && ext.push && ext.build && ext.cleanDist
    requires var lines := Lines(files[ChangelogFile]);
      forall j :: 0 <= j < |lines| ==> !IsUnreleasedHeader(lines[j])
    ensures Cycle(files, plan, today, ext) ==
      Effect((files - {TempName(ChangelogFile)})[ChangelogFile := ReleasedText(files[ChangelogFile], today)],
             Stopped(IndexOutOfRange))
  {
    ReleaseOfExistingFile(files, plan, ChangelogFile, today);
    LastVersionNoHeader(Lines(files[ChangelogFile]));
    assert Split("") == [""];
  }

  /** A run that gets through both commits has released a three-part
      version; and whatever happens the ledger steps change no file but the
      changelog and its temporary file. */
  lemma CycleGuarantees(files: map<string, string>, plan: FaultPlan, today: Date, ext: Collaborators)
    ensures var e := Cycle(files, plan, today, ext);
      e.result.Finished? ==> IsVersionText(e.result.version) && |Split(e.result.version)| == 3
    ensures var e := Cycle(files, plan, today, ext);
      forall n :: n != ChangelogFile && n != TempName(ChangelogFile) ==>
        (n in e.files <==> n in files) && (n in files ==> e.files[n] == files[n])
  {
    var r := Release(files, plan, ChangelogFile, today);
    ReleaseVersionShape(files, plan, ChangelogFile, today);
    ReleaseFailure(files, plan, ChangelogFile, today);
    if r.result.Ok? && StageVer < |Split(r.result.value)| {
      assert r.result.value != "" by { assert Split("") == [""]; }
      AdvanceFailure(r.files, plan, ChangelogFile, r.result.value, StageVer);
    }
  }

  /** After a first run, the next release dates both headers and returns
      1.0.0 again: the seed header was never dated, and the version kept
      is that of the last header in the file. */
  lemma SecondReleaseRepeatsSeed(files: map<string, string>, plan: FaultPlan, today: Date)
    requires ChangelogFile in files && files[ChangelogFile] == FreshChangelog
    requires Reliable(plan, ChangelogFile) && Reliable(plan, TempName(ChangelogFile))
    ensures Release(files, plan, ChangelogFile, today).result == Ok(SeedVersion)
  {
    ReleaseOfExistingFile(files, plan, ChangelogFile, today);
    FreshChangelogHeaders();
    LogGeneratorSeed(today);
    SeedShape();
    VersionOfUnreleasedHeader(1, 0, 0);
    LastVersionOfLastHeader(Lines(FreshChangelog), 1);
  }
}
