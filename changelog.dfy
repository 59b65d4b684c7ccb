/** The changelog ledger: ModifyChangelog, which dates every Unreleased
    header (changelog.go:25-109, main.go:299-383), and SetNewVersion, which
    re-opens the next version at the top of the file (changelog.go:126-152,
    main.go:400-426). Each method is proved against a function of the
    directory it starts from; the lemmas below state what those functions
    promise. */
module Changelog {
  import opened Text
  import opened Numbers
  import opened Header
  import opened Bump
  import opened Files

  /** The call whose failure made the operation return early. */
  datatype Step = CreateFile | OpenFile | CreateTemp | ReadLine | FlushWriter
                | RemoveFile | RenameFile | OpenForWrite | WriteFile

  datatype Failure = Failure(step: Step, name: string)

  datatype Result<T> = Ok(value: T) | Err(failure: Failure)

  /** The directory after an operation, and what the operation returned. */
  datatype Effect<T> = Effect(files: map<string, string>, result: T)

  function TempName(name: string): string { name + ".tmp" }

  // ---------------------------------------------------------------------
  // The line rewriting of ModifyChangelog

  /** A line as ModifyChangelog writes it: an Unreleased header dated by
      LogGenerator, anything else unchanged. */
  function ReleaseLine(line: string, today: Date): string
  {
    if IsUnreleasedHeader(line) then LogGenerator(line, today).line else line
  }

  function ReleaseLines(lines: seq<string>, today: Date): seq<string>
  {
    seq(|lines|, i requires 0 <= i < |lines| => ReleaseLine(lines[i], today))
  }

  /** The text ModifyChangelog writes for an existing file's contents. */
  function ReleasedText(content: string, today: Date): string
  {
    Unlines(ReleaseLines(Lines(content), today))
  }

  /** The version `newVersion` holds after the lines are read: that of the
      last Unreleased header, since every match overwrites it. */
  function LastVersion(lines: seq<string>): string
  {
    if lines == [] then ""
    else if IsUnreleasedHeader(lines[|lines| - 1]) then VersionIn(lines[|lines| - 1])
    else LastVersion(lines[..|lines| - 1])
  }

  function CountUnreleased(lines: seq<string>): nat
  {
    if lines == [] then 0
    else (if IsUnreleasedHeader(lines[0]) then 1 else 0) + CountUnreleased(lines[1..])
  }

  // ---------------------------------------------------------------------
  // What ModifyChangelog does to the directory

  /** ModifyChangelog(name) on `files`: create the file if it is absent (and
      then write the seed header), otherwise open it and rewrite its lines;
      the output goes to `<name>.tmp`, which replaces the original. Each
      failing call returns at once with "" and the directory as it stands. */
  function Release(files: map<string, string>, plan: FaultPlan, name: string, today: Date)
    : Effect<Result<string>>
  {
    var tmp := TempName(name);
    var present := name in files;
    if !present && name in plan.createFails then Effect(files, Err(Failure(CreateFile, name)))
    else if present && name in plan.openFails then Effect(files, Err(Failure(OpenFile, name)))
    else
      var start := if present then files else files[name := ""];
      if tmp in plan.createFails then Effect(start, Err(Failure(CreateTemp, name)))
      else
        var created := start[tmp := ""];
        if !present then Publish(created, plan, name, SeedHeader + "\n", SeedVersion)
        else
          var stream := StreamOf(files[name], plan, name);
          if stream.broken then Effect(created, Err(Failure(ReadLine, name)))
          else Publish(created, plan, name, ReleasedText(stream.bytes, today), LastVersion(Lines(stream.bytes)))
  }

  /** Flush `output` into the temporary file, remove the original, rename. */
  function Publish(files: map<string, string>, plan: FaultPlan, name: string, output: string, version: string)
    : Effect<Result<string>>
    requires TempName(name) in files
  {
    var tmp := TempName(name);
    var written := Accepted(plan, tmp, |output|);
    var flushed := files[tmp := files[tmp] + output[..written]];
    if written < |output| then Effect(flushed, Err(Failure(FlushWriter, name)))
    else if name !in flushed || name in plan.removeFails then Effect(flushed, Err(Failure(RemoveFile, name)))
    else
      var removed := flushed - {name};
      if tmp in plan.renameFails then Effect(removed, Err(Failure(RenameFile, name)))
      else Effect((removed - {tmp})[name := removed[tmp]], Ok(version))
  }

  method ModifyChangelog(fs: FileStore, filename: string, today: Date) returns (version: Result<string>)
    modifies fs
    ensures Effect(fs.files, version) == Release(old(fs.files), fs.plan, filename, today)
  {
    var present := fs.Exists(filename);
    var stream := Stream("", false);
    if !present {
      var created := fs.Create(filename);
      if !created { return Err(Failure(CreateFile, filename)); }
    } else {
      var isOpen;
      isOpen, stream := fs.Open(filename);
      if !isOpen { return Err(Failure(OpenFile, filename)); }
    }
    var tmp := TempName(filename);
    var tmpCreated := fs.Create(tmp);
    if !tmpCreated { return Err(Failure(CreateTemp, filename)); }
    var out, newVersion;
    if !present {
      var g := LogGenerator("", today);
      LogGeneratorSeed(today);
      out, newVersion := g.line + "\n", g.version;
    } else {
      out, newVersion := RewriteLines(stream.bytes, today);
      if stream.broken { return Err(Failure(ReadLine, filename)); }
    }
    version := Flush(fs, filename, out, newVersion);
  }

  /** The read loop of ModifyChangelog (changelog.go:75-91): each line goes
      to the writer, an Unreleased header dated, and the version of each
      header read replaces `newVersion`. */
  method RewriteLines(bytes: string, today: Date) returns (out: string, newVersion: string)
    ensures out == ReleasedText(bytes, today)
    ensures newVersion == LastVersion(Lines(bytes))
  {
    out, newVersion := "", "";
    var rest := bytes;
    ghost var done: seq<string> := [];
    while rest != []
      invariant Lines(bytes) == done + Lines(rest)
      invariant out == Unlines(ReleaseLines(done, today))
      invariant newVersion == LastVersion(done)
      decreases |rest|
    {
      var next := NextLine(rest);
      var str := next.0;
      if IsUnreleasedHeader(str) {
        var g := LogGenerator(str, today);
        str, newVersion := g.line, g.version;
      }
      assert str == ReleaseLine(next.0, today);
      RewriteStep(done, next.0, today);
      LinesStep(bytes, done, rest);
      out := out + str + "\n";
      done := done + [next.0];
      rest := next.1;
    }
    assert Lines(bytes) == done + [] == done;
  }

  /** Flush the writer into `<filename>.tmp`, remove the original and rename
      the temporary file over it (changelog.go:93-108). */
  method Flush(fs: FileStore, filename: string, out: string, newVersion: string) returns (version: Result<string>)
    requires TempName(filename) in fs.files
    modifies fs
    ensures Effect(fs.files, version) == Publish(old(fs.files), fs.plan, filename, out, newVersion)
  {
    var tmp := TempName(filename);
    var written := fs.Write(tmp, out);
    if written < |out| { return Err(Failure(FlushWriter, filename)); }
    var removed := fs.Remove(filename);
    if !removed { return Err(Failure(RemoveFile, filename)); }
    var renamed := fs.Rename(tmp, filename);
    if !renamed { return Err(Failure(RenameFile, filename)); }
    version := Ok(newVersion);
  }

  /** One more line read: the output grows by its rewritten form, and the
      version changes exactly when the line is an Unreleased header. */
  lemma RewriteStep(done: seq<string>, line: string, today: Date)
    ensures Unlines(ReleaseLines(done + [line], today)) == Unlines(ReleaseLines(done, today)) + ReleaseLine(line, today) + "\n"
    ensures LastVersion(done + [line]) == if IsUnreleasedHeader(line) then LogGenerator(line, today).version else LastVersion(done)
  {
    ReleaseLinesSnoc(done, line, today);
    UnlinesAppend(ReleaseLines(done, today), ReleaseLine(line, today));
    assert (done + [line])[..|done|] == done;
  }

  lemma LinesStep(bytes: string, done: seq<string>, rest: string)
    requires rest != [] && Lines(bytes) == done + Lines(rest)
    ensures Lines(bytes) == (done + [NextLine(rest).0]) + Lines(NextLine(rest).1)
  {
    assert Lines(rest) == [NextLine(rest).0] + Lines(NextLine(rest).1);
  }

  lemma {:induction false} ReleaseLinesSnoc(lines: seq<string>, line: string, today: Date)
    ensures ReleaseLines(lines + [line], today) == ReleaseLines(lines, today) + [ReleaseLine(line, today)]
  {
    if lines != [] {
      assert (lines + [line])[1..] == lines[1..] + [line];
      ReleaseLinesSnoc(lines[1..], line, today);
    }
  }

  // ---------------------------------------------------------------------
  // What ModifyChangelog promises

  /** Every Unreleased header is replaced by its dated form, keeping the
      version it names; every other line is copied unchanged. */
  lemma {:induction false} ReleaseRewritesHeaders(lines: seq<string>, today: Date)
    ensures |ReleaseLines(lines, today)| == |lines|
    ensures forall i :: 0 <= i < |lines| ==> ReleaseLines(lines, today)[i] == ReleaseLine(lines[i], today)
    ensures forall i :: 0 <= i < |lines| && IsUnreleasedHeader(lines[i]) ==>
      ReleaseLines(lines, today)[i] == DatedHeader(VersionIn(lines[i]), today)
    ensures forall i :: 0 <= i < |lines| && !IsUnreleasedHeader(lines[i]) ==>
      ReleaseLines(lines, today)[i] == lines[i]
  {
    if lines != [] {
      ReleaseRewritesHeaders(lines[1..], today);
      assert forall i :: 1 <= i < |lines| ==> lines[i] == lines[1..][i - 1];
    }
  }

  /** After the rewrite no line is an Unreleased header any more. */
  lemma {:induction false} ReleasedHasNoUnreleased(lines: seq<string>, today: Date)
    ensures CountUnreleased(ReleaseLines(lines, today)) == 0
  {
    if lines != [] {
      var out := ReleaseLines(lines, today);
      assert out[1..] == ReleaseLines(lines[1..], today);
      DatedHeaderIsNotUnreleased(VersionIn(lines[0]), today);
      ReleasedHasNoUnreleased(lines[1..], today);
    }
  }

  lemma {:induction false} NoHeaderCounted(lines: seq<string>)
    requires CountUnreleased(lines) == 0
    ensures forall i :: 0 <= i < |lines| ==> !IsUnreleasedHeader(lines[i])
  {
    if lines != [] {
      NoHeaderCounted(lines[1..]);
      assert forall i :: 1 <= i < |lines| ==> lines[i] == lines[1..][i - 1];
    }
  }

  /** The version returned is that of the last Unreleased header. */
  lemma {:induction false} LastVersionOfLastHeader(lines: seq<string>, k: nat)
    requires k < |lines| && IsUnreleasedHeader(lines[k])
    requires forall j :: k < j < |lines| ==> !IsUnreleasedHeader(lines[j])
    ensures LastVersion(lines) == VersionIn(lines[k])
    decreases |lines|
  {
    if k < |lines| - 1 {
      var init := lines[..|lines| - 1];
      assert init[k] == lines[k];
      LastVersionOfLastHeader(init, k);
    }
  }

  /** Without an Unreleased header the version returned is "". */
  lemma {:induction false} LastVersionNoHeader(lines: seq<string>)
    requires forall j :: 0 <= j < |lines| ==> !IsUnreleasedHeader(lines[j])
    ensures LastVersion(lines) == ""
    decreases |lines|
  {
    if lines != [] {
      LastVersionNoHeader(lines[..|lines| - 1]);
    }
  }

  /** The version returned is "" or a version text, which has three parts. */
  lemma {:induction false} LastVersionShape(lines: seq<string>)
    ensures LastVersion(lines) == "" || (IsVersionText(LastVersion(lines)) && |Split(LastVersion(lines))| == 3)
    decreases |lines|
  {
    if lines != [] {
      var last := lines[|lines| - 1];
      if IsUnreleasedHeader(last) {
        VersionInIsVersionText(last);
        if VersionIn(last) != "" { SplitVersionText(VersionIn(last)); }
      } else {
        LastVersionShape(lines[..|lines| - 1]);
      }
    }
  }

  /** A successful release returns "" or a version text of three parts. */
  lemma ReleaseVersionShape(files: map<string, string>, plan: FaultPlan, name: string, today: Date)
    ensures var r := Release(files, plan, name, today).result;
      r.Ok? ==> r.value == "" || (IsVersionText(r.value) && |Split(r.value)| == 3)
  {
    var r := Release(files, plan, name, today).result;
    if r.Ok? {
      if name in files {
        LastVersionShape(Lines(StreamOf(files[name], plan, name).bytes));
      } else {
        assert r.value == SeedVersion;
        SeedShape();
      }
    }
  }

  lemma TempNameDiffers(name: string)
    ensures TempName(name) != name
  {
    assert |TempName(name)| > |name|;
  }

  /** When no call fails, publishing `output` replaces the changelog by it
      and consumes the (empty) temporary file. */
  lemma PublishReliable(files: map<string, string>, plan: FaultPlan, name: string, output: string, version: string)
    requires TempName(name) in files && files[TempName(name)] == "" && name in files
    requires Reliable(plan, name) && Reliable(plan, TempName(name))
    ensures Publish(files, plan, name, output, version) ==
      Effect((files - {TempName(name)})[name := output], Ok(version))
  {
    var tmp := TempName(name);
    TempNameDiffers(name);
    assert output[..|output|] == output;
    var flushed := files[tmp := "" + output];
    assert "" + output == output;
    MoveOver(flushed, tmp, name);
    assert (flushed - {name})[tmp] == output;
    assert (flushed - {tmp}).Keys == (files - {tmp}).Keys;
    assert flushed - {tmp} == files - {tmp};
  }

  /** Renaming `from` over `to` after `to` was removed. */
  lemma MoveOver(m: map<string, string>, from: string, to: string)
    requires from in m && from != to
    ensures ((m - {to}) - {from})[to := m[from]] == (m - {from})[to := m[from]]
  {
    var a, b := ((m - {to}) - {from})[to := m[from]], (m - {from})[to := m[from]];
    assert a.Keys == b.Keys;
  }

  /** A missing changelog is created holding the seed header alone, and
      "1.0.0" is returned; a stale temporary file is consumed. */
  lemma ReleaseOfAbsentFile(files: map<string, string>, plan: FaultPlan, name: string, today: Date)
    requires name !in files
    requires Reliable(plan, name) && Reliable(plan, TempName(name))
    ensures Release(files, plan, name, today) ==
      Effect((files - {TempName(name)})[name := SeedHeader + "\n"], Ok(SeedVersion))
  {
    var tmp := TempName(name);
    TempNameDiffers(name);
    var created := files[name := ""][tmp := ""];
    assert Release(files, plan, name, today) == Publish(created, plan, name, SeedHeader + "\n", SeedVersion);
    PublishReliable(created, plan, name, SeedHeader + "\n", SeedVersion);
    var a, b := (created - {tmp})[name := SeedHeader + "\n"], (files - {tmp})[name := SeedHeader + "\n"];
    assert a.Keys == b.Keys;
  }

  /** An existing changelog is replaced by its rewritten text, and the
      version of its last Unreleased header is returned. */
  lemma ReleaseOfExistingFile(files: map<string, string>, plan: FaultPlan, name: string, today: Date)
    requires name in files
    requires Reliable(plan, name) && Reliable(plan, TempName(name))
    ensures Release(files, plan, name, today) ==
      Effect((files - {TempName(name)})[name := ReleasedText(files[name], today)],
             Ok(LastVersion(Lines(files[name]))))
  {
    var tmp := TempName(name);
    TempNameDiffers(name);
    var created := files[tmp := ""];
    var out, v := ReleasedText(files[name], today), LastVersion(Lines(files[name]));
    assert StreamOf(files[name], plan, name) == Stream(files[name], false);
    assert Release(files, plan, name, today) == Publish(created, plan, name, out, v);
    PublishReliable(created, plan, name, out, v);
    assert created - {tmp} == files - {tmp};
  }

  /** Whatever fails, no file other than the changelog and its temporary
      file is touched; up to the rename the changelog keeps its contents,
      and a failed rename leaves the changelog removed and the whole
      rewritten text (or the seed header) only in the temporary file. */
  lemma ReleaseFailure(files: map<string, string>, plan: FaultPlan, name: string, today: Date)
    ensures var e := Release(files, plan, name, today);
      forall n :: n != name && n != TempName(name) ==>
        (n in e.files <==> n in files) && (n in files ==> e.files[n] == files[n])
    ensures var e := Release(files, plan, name, today);
      e.result.Err? && e.result.failure.step != RenameFile && name in files ==>
        name in e.files && e.files[name] == files[name]
    ensures var e := Release(files, plan, name, today);
      e.result.Err? && e.result.failure.step == RenameFile ==>
        name !in e.files && TempName(name) in e.files
    ensures var e := Release(files, plan, name, today);
      e.result.Err? && e.result.failure.step == RenameFile ==>
        e.files[TempName(name)] == if name in files then ReleasedText(files[name], today) else SeedHeader + "\n"
    ensures var e := Release(files, plan, name, today);
      e.result.Ok? ==> name in e.files && TempName(name) !in e.files
  {
    var tmp := TempName(name);
    assert name != tmp by { assert |tmp| > |name|; }
    var present := name in files;
    var start := if present then files else files[name := ""];
    var created := start[tmp := ""];
    if !(!present && name in plan.createFails) && !(present && name in plan.openFails) && tmp !in plan.createFails {
      if !present {
        PublishFrame(created, plan, name, SeedHeader + "\n", SeedVersion);
      } else {
        var stream := StreamOf(files[name], plan, name);
        if !stream.broken {
          PublishFrame(created, plan, name, ReleasedText(stream.bytes, today), LastVersion(Lines(stream.bytes)));
        }
      }
    }
  }

  /** The same for the flush, remove and rename steps alone. */
  lemma PublishFrame(files: map<string, string>, plan: FaultPlan, name: string, output: string, version: string)
    requires TempName(name) in files && name != TempName(name)
    ensures var e := Publish(files, plan, name, output, version);
      forall n :: n != name && n != TempName(name) ==>
        (n in e.files <==> n in files) && (n in files ==> e.files[n] == files[n])
    ensures var e := Publish(files, plan, name, output, version);
      e.result.Err? && e.result.failure.step != RenameFile && name in files ==>
        name in e.files && e.files[name] == files[name]
    ensures var e := Publish(files, plan, name, output, version);
      e.result.Err? && e.result.failure.step == RenameFile ==>
        name !in e.files && TempName(name) in e.files && e.files[TempName(name)] == files[TempName(name)] + output
    ensures var e := Publish(files, plan, name, output, version);
      e.result.Ok? ==> name in e.files && TempName(name) !in e.files
  {
  }

  /** A changelog without an Unreleased header is copied line for line and
      "" is returned; one without carriage returns that ends in a newline
      comes out byte for byte the same. */
  lemma ReleaseWithoutHeader(content: string, today: Date)
    requires forall i :: 0 <= i < |Lines(content)| ==> !IsUnreleasedHeader(Lines(content)[i])
    ensures ReleaseLines(Lines(content), today) == Lines(content)
    ensures LastVersion(Lines(content)) == ""
    ensures '\r' !in content && (content == [] || content[|content| - 1] == '\n') ==>
      ReleasedText(content, today) == content
  {
    LastVersionNoHeader(Lines(content));
    ReleaseRewritesHeaders(Lines(content), today);
    assert ReleaseLines(Lines(content), today) == Lines(content);
    if '\r' !in content && (content == [] || content[|content| - 1] == '\n') {
      UnlinesOfLines(content);
    }
  }

  /** A dated header is a line that reads back as itself. */
  lemma ReleaseLineChars(line: string, today: Date)
    requires Rereadable(line) && '\r' !in line
    ensures Rereadable(ReleaseLine(line, today)) && '\r' !in ReleaseLine(line, today)
  {
    if IsUnreleasedHeader(line) {
      var v := VersionIn(line);
      VersionInChars(line);
      assert '\n' !in v && '\r' !in v by {
        forall k | 0 <= k < |v| ensures v[k] != '\n' && v[k] != '\r' { }
      }
      DatedHeaderChars(v, today);
    }
  }

  /** Releasing twice changes nothing the second time: the text written
      the first time is written again and the second release returns "". */
  lemma ReleaseIdempotent(content: string, today: Date)
    requires '\r' !in content
    ensures Lines(ReleasedText(content, today)) == ReleaseLines(Lines(content), today)
    ensures ReleasedText(ReleasedText(content, today), today) == ReleasedText(content, today)
    ensures LastVersion(Lines(ReleasedText(content, today))) == ""
  {
    var lines := Lines(content);
    var out := ReleaseLines(lines, today);
    LinesChars(content);
    ReleaseRewritesHeaders(lines, today);
    forall i | 0 <= i < |out| ensures Rereadable(out[i]) && '\r' !in out[i] {
      ReleaseLineChars(lines[i], today);
    }
    LinesOfUnlines(out);
    ReleasedHasNoUnreleased(lines, today);
    NoHeaderCounted(out);
    ReleaseWithoutHeader(Unlines(out), today);
    UnlinesChars(out, '\r');
    UnlinesEnd(out);
  }

  // ---------------------------------------------------------------------
  // What SetNewVersion does to the directory

  /** SetNewVersion(name, ver, mode) on `files`: read the whole file (a read
      error is ignored, so whatever was read is kept), then truncate it and
      write the new Unreleased header followed by those contents. */
  function Advance(files: map<string, string>, plan: FaultPlan, name: string, ver: string, mode: nat)
    : Effect<Result<()>>
    requires mode < |Split(ver)|
  {
    Prepend(files, plan, name, UnreleasedHeader(BumpVersion(ver, mode)) + "\n")
  }

  /** The file steps of SetNewVersion, with `top` the new header and "\n". */
  function Prepend(files: map<string, string>, plan: FaultPlan, name: string, top: string)
    : Effect<Result<()>>
  {
    if name !in files || name in plan.openFails then Effect(files, Err(Failure(OpenFile, name)))
    else
      var contents := StreamOf(files[name], plan, name).bytes;
      var data := top + contents;
      if name in plan.openWriteFails then Effect(files, Err(Failure(OpenForWrite, name)))
      else
        var written := Accepted(plan, name, |data|);
        var after := files[name := data[..written]];
        if written < |data| then Effect(after, Err(Failure(WriteFile, name))) else Effect(after, Ok(()))
  }

  method SetNewVersion(fs: FileStore, filename: string, ver: string, mode: nat) returns (err: Result<()>)
    requires mode < |Split(ver)|
    modifies fs
    ensures Effect(fs.files, err) == Advance(old(fs.files), fs.plan, filename, ver, mode)
  {
    var strs := Split(ver);
    var n := Atoi(strs[mode]);
    n := Increment(n);
    strs := strs[mode := Itoa(n)];
    var newVersion := Join(strs);
    var isOpen, f := fs.Open(filename);
    if !isOpen { return Err(Failure(OpenFile, filename)); }
    var contents := f.bytes;
    var newContents := UnreleasedHeader(newVersion) + "\n" + contents;
    var truncated := fs.OpenForWrite(filename);
    if !truncated { return Err(Failure(OpenForWrite, filename)); }
    var num := fs.Write(filename, newContents);
    assert "" + newContents[..num] == newContents[..num];
    if num < |newContents| || num < 1 { return Err(Failure(WriteFile, filename)); }
    return Ok(());
  }

  // ---------------------------------------------------------------------
  // What SetNewVersion promises

  /** When nothing fails, the new Unreleased header goes in front of the
      whole file, with no blank line between, and nothing else changes. */
  lemma AdvancePrepends(files: map<string, string>, plan: FaultPlan, name: string, ver: string, mode: nat)
    requires mode < |Split(ver)|
    requires name in files && Reliable(plan, name)
    ensures Advance(files, plan, name, ver, mode) ==
      Effect(files[name := UnreleasedHeader(BumpVersion(ver, mode)) + "\n" + files[name]], Ok(()))
  {
    var data := UnreleasedHeader(BumpVersion(ver, mode)) + "\n" + files[name];
    assert data[..|data|] == data;
  }

  /** Only the changelog can change. A failed open leaves it as it was; a
      failed or short write leaves a strict prefix of the new contents; and
      even a successful one keeps only what was read before a read error. */
  lemma AdvanceFailure(files: map<string, string>, plan: FaultPlan, name: string, ver: string, mode: nat)
    requires mode < |Split(ver)|
    ensures var e := Advance(files, plan, name, ver, mode);
      forall n :: n != name ==> (n in e.files <==> n in files) && (n in files ==> e.files[n] == files[n])
    ensures var e := Advance(files, plan, name, ver, mode);
      e.result.Err? && e.result.failure.step != WriteFile ==> e.files == files
    ensures var e := Advance(files, plan, name, ver, mode);
      var data := UnreleasedHeader(BumpVersion(ver, mode)) + "\n" + (if name in files then StreamOf(files[name], plan, name).bytes else "");
      e.result.Err? && e.result.failure.step == WriteFile ==> name in e.files && e.files[name] < data
    ensures var e := Advance(files, plan, name, ver, mode);
      e.result.Ok? ==> name in files && name in e.files
    ensures var e := Advance(files, plan, name, ver, mode);
      e.result.Ok? && name in files ==>
        var kept := StreamOf(files[name], plan, name).bytes;
        && kept <= files[name]
        && (name !in plan.readLimit ==> kept == files[name])
        && e.files[name] == UnreleasedHeader(BumpVersion(ver, mode)) + "\n" + kept
  {
    PrependFrame(files, plan, name, UnreleasedHeader(BumpVersion(ver, mode)) + "\n");
  }

  /** The same for the file steps alone, whatever the new top line. */
  lemma PrependFrame(files: map<string, string>, plan: FaultPlan, name: string, top: string)
    ensures var e := Prepend(files, plan, name, top);
      forall n :: n != name ==> (n in e.files <==> n in files) && (n in files ==> e.files[n] == files[n])
    ensures var e := Prepend(files, plan, name, top);
      e.result.Err? && e.result.failure.step != WriteFile ==> e.files == files
    ensures var e := Prepend(files, plan, name, top);
      var data := top + (if name in files then StreamOf(files[name], plan, name).bytes else "");
      e.result.Err? && e.result.failure.step == WriteFile ==> name in e.files && e.files[name] < data
    ensures var e := Prepend(files, plan, name, top);
      e.result.Ok? ==> name in files && name in e.files
    ensures var e := Prepend(files, plan, name, top);
      e.result.Ok? && name in files ==>
        var kept := StreamOf(files[name], plan, name).bytes;
        && kept <= files[name]
        && (name !in plan.readLimit ==> kept == files[name])
        && e.files[name] == top + kept
  {
    var e := Prepend(files, plan, name, top);
    if e.result.Ok? {
      var data := top + StreamOf(files[name], plan, name).bytes;
      assert data[..|data|] == data;
    }
  }

  /** For a version without a newline in it, the file afterwards reads as the new Unreleased header and then the old lines,
      so it holds exactly one more Unreleased header than before. */
  lemma AdvanceAddsOneHeader(content: string, ver: string, mode: nat)
    requires mode < |Split(ver)|
    requires '\n' !in ver
    ensures var h := UnreleasedHeader(BumpVersion(ver, mode));
      IsUnreleasedHeader(h) && Lines(h + "\n" + content) == [h] + Lines(content)
    ensures CountUnreleased(Lines(UnreleasedHeader(BumpVersion(ver, mode)) + "\n" + content))
         == CountUnreleased(Lines(content)) + 1
  {
    var h := UnreleasedHeader(BumpVersion(ver, mode));
    BumpChars(ver, mode, '\n');
    UnreleasedHeaderIsHeader(BumpVersion(ver, mode));
    assert h[|h| - 1] == ')';
    LinesCons(h, content);
    assert ([h] + Lines(content))[1..] == Lines(content);
  }
}
