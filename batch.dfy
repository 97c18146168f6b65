/** `batch_norm` of normalize.py: the walk over a DROID profile that converts
    or copies every file into the target tree and keeps the run's accounting. */
module Batch {
  import opened Wrappers
  import opened Text
  import opened PosixPath
  import opened Tools
  import opened Normalize

  /** One record of the DROID profile: its `TYPE`, `MIME_TYPE` and `FILE_PATH` columns. */
  datatype ProfileRow = ProfileRow(kind: string, mimeType: string, filePath: string)

  predicate IsFile(row: ProfileRow) {
    row.kind == "File"
  }

  /** What the dispatch table can hold: one of the `norm_to_*` functions, or `no_norm`. */
  datatype Action = Convert(target: Target) | NoNorm

  /** `mime_normalization_map`: exact MIME types and their actions. */
  const MimeNormalizationMap: map<string, Action> := map[
    "audio/mpeg" := Convert(Mp3),
    "audio/x-wav" := Convert(Mp3),
    "video/x-msvideo" := Convert(Mp4),
    "application/postscript" := Convert(Svg),
    "application/vnd.oasis.opendocument.text" := Convert(Doc),
    "application/xml" := Convert(Doc),
    "text/xml" := Convert(Doc),
    "text/plain" := NoNorm,
    "image/svg+xml" := NoNorm,
    DocxMime := Convert(Doc),
    "video/mp4" := NoNorm,
    "application/xml, text/xml" := Convert(Doc)
  ]

  /** How a MIME type is looked up: the table, and what a miss gives. */
  datatype Policy = Policy(table: map<string, Action>, fallback: Option<Action>)

  /** The lookup `mime_normalization_map.get(mime_type, no_norm)`: a miss falls
      back to copying the file through. */
  const AsWritten := Policy(MimeNormalizationMap, Some(NoNorm))

  /** The lookup `mime_normalization_map.get(mime_type)`: a miss yields nothing,
      so the type is counted as unconverted. */
  const Intended := Policy(MimeNormalizationMap, None)

  /** The conversion function found for `mime`; `None` is Python's falsy result. */
  function Lookup(policy: Policy, mime: string): (r: Option<Action>)
    ensures mime in policy.table ==> r == Some(policy.table[mime])
    ensures mime !in policy.table ==> r == policy.fallback
  {
    if mime in policy.table then Some(policy.table[mime]) else policy.fallback
  }

  // ---------------------------------------------------------------------------
  // Relative paths
  // ---------------------------------------------------------------------------

  /** The working directory with exactly one separator after it, unless it
      already ends in '/'. */
  function DirPrefix(workingDir: string): (r: string)
    ensures r != [] && r[|r| - 1] == '/'
    ensures r == workingDir || r == workingDir + "/"
  {
    if workingDir != [] && workingDir[|workingDir| - 1] == '/' then workingDir else workingDir + "/"
  }

  /** A relative path whose components are all real names: no empty component
      (so no leading, trailing or doubled '/'), no `.` and no `..`. */
  predicate CleanRelative(rel: string) {
    var parts := Split(rel, '/');
    forall i :: 0 <= i < |parts| ==> parts[i] != "" && parts[i] != "." && parts[i] != ".."
  }

  /** `filePath` is the working directory followed by a clean relative path. */
  predicate Beneath(filePath: string, workingDir: string) {
    var prefix := DirPrefix(workingDir);
    workingDir != [] && |prefix| < |filePath| && filePath[..|prefix|] == prefix
    && CleanRelative(filePath[|prefix|..])
  }

  /** `os.path.relpath(file_path, working_dir)` for a file beneath the working directory. */
  function RelPath(filePath: string, workingDir: string): (r: string)
    requires Beneath(filePath, workingDir)
    ensures CleanRelative(r) && DirPrefix(workingDir) + r == filePath
  {
    var prefix := DirPrefix(workingDir);
    assert prefix + filePath[|prefix|..] == filePath;
    filePath[|prefix|..]
  }

  // ---------------------------------------------------------------------------
  // One record
  // ---------------------------------------------------------------------------

  /** An external action `batch_norm` starts: a plain file copy, or a
      `norm_to_*` call with the directory to write into. */
  datatype Call = CopyFile(src: string, dst: string) | RunTool(target: Target, src: string, outputDir: string)

  /** Where a file goes: `os.path.join(target_dir, relpath(file_path, working_dir))`. */
  function TargetFilePath(row: ProfileRow, targetDir: string, workingDir: string): string
    requires Beneath(row.filePath, workingDir)
  {
    Join(targetDir, RelPath(row.filePath, workingDir))
  }

  /** The call made for a record with action `a`: conversions get the target
      path's directory as `output_dir`, `no_norm` becomes a `copyfile` to the
      target path itself. */
  function CallFor(a: Action, row: ProfileRow, targetDir: string, workingDir: string): (r: Call)
    requires Beneath(row.filePath, workingDir)
    ensures r.src == row.filePath
    ensures a == NoNorm <==> r.CopyFile?
  {
    var targetFilePath := TargetFilePath(row, targetDir, workingDir);
    match a
    case Convert(t) => RunTool(t, row.filePath, Dirname(targetFilePath))
    case NoNorm => CopyFile(row.filePath, targetFilePath)
  }

  /** What the call did, as the `try` block sees it. A conversion is `NormTo`;
      `copyfile` returns its destination unless it raises. */
  function Attempt(call: Call, e: Effect): (r: ActionResult)
    ensures r == Raised <==> e == Crashed
  {
    match call
    case RunTool(t, src, outputDir) => NormTo(t, src, Some(outputDir), e)
    case CopyFile(src, dst) => if e == Crashed then Raised else Returned(Some(dst))
  }

  /** Where a file record ends up in the accounting. */
  datatype Outcome = Succeeded | Failed | Unhandled

  /** A record whose lookup found an action succeeds unless the attempt raised,
      whatever it returned; a record with no action is unhandled. */
  function OutcomeOf(policy: Policy, row: ProfileRow, e: Effect): (r: Outcome)
    ensures r == Unhandled <==> Lookup(policy, row.mimeType).None?
    ensures r == Failed <==> Lookup(policy, row.mimeType).Some? && e == Crashed
  {
    match Lookup(policy, row.mimeType)
    case None => Unhandled
    case Some(_) => if e == Crashed then Failed else Succeeded
  }

  // ---------------------------------------------------------------------------
  // Reference definitions over a prefix of the profile
  // ---------------------------------------------------------------------------

  /** Every file record has a relative path wherever the lookup finds an action. */
  predicate RelPathsDefined(profile: seq<ProfileRow>, policy: Policy, workingDir: string) {
    forall i :: 0 <= i < |profile| && IsFile(profile[i]) && Lookup(policy, profile[i].mimeType).Some? ==>
      Beneath(profile[i].filePath, workingDir)
  }

  /** The number of file records among the first `n`. */
  function CountFiles(profile: seq<ProfileRow>, n: nat): nat
    requires n <= |profile|
  {
    if n == 0 then 0 else CountFiles(profile, n - 1) + if IsFile(profile[n - 1]) then 1 else 0
  }

  /** The paths of the file records among the first `n` with outcome `o`, in profile order. */
  function PathsWith(profile: seq<ProfileRow>, effects: seq<Effect>, policy: Policy, o: Outcome, n: nat): seq<string>
    requires n <= |profile| == |effects|
  {
    if n == 0 then []
    else
      var row := profile[n - 1];
      PathsWith(profile, effects, policy, o, n - 1)
        + if IsFile(row) && OutcomeOf(policy, row, effects[n - 1]) == o then [row.filePath] else []
  }

  /** The number of file records among the first `n` with no action and MIME type `mime`. */
  function UnhandledWith(profile: seq<ProfileRow>, policy: Policy, mime: string, n: nat): nat
    requires n <= |profile|
  {
    if n == 0 then 0
    else
      var row := profile[n - 1];
      UnhandledWith(profile, policy, mime, n - 1)
        + if IsFile(row) && Lookup(policy, row.mimeType).None? && row.mimeType == mime then 1 else 0
  }

  /** The `unconverted` histogram after the first `n` records. */
  function Histogram(profile: seq<ProfileRow>, policy: Policy, n: nat): map<string, nat>
    requires n <= |profile|
  {
    if n == 0 then map[]
    else
      var row := profile[n - 1];
      var h := Histogram(profile, policy, n - 1);
      if IsFile(row) && Lookup(policy, row.mimeType).None? then
        h[row.mimeType := if row.mimeType in h then h[row.mimeType] + 1 else 1]
      else h
  }

  /** The external calls started for the first `n` records, in order. */
  function CallsOf(profile: seq<ProfileRow>, policy: Policy, targetDir: string, workingDir: string, n: nat): seq<Call>
    requires n <= |profile|
    requires RelPathsDefined(profile, policy, workingDir)
  {
    if n == 0 then []
    else
      var row := profile[n - 1];
      CallsOf(profile, policy, targetDir, workingDir, n - 1)
        + if IsFile(row) && Lookup(policy, row.mimeType).Some? then
            [CallFor(Lookup(policy, row.mimeType).value, row, targetDir, workingDir)]
          else []
  }

  /** `status_dict` at the end of the run. */
  datatype Status = Status(success: seq<string>, fail: seq<string>, unconverted: map<string, nat>, fCount: nat)

  // ---------------------------------------------------------------------------
  // The loop
  // ---------------------------------------------------------------------------

  /** The accounting loop of `batch_norm` with lookup policy `policy`.
      `effects[i]` is what the external step started for record `i` did. */
  method RunBatch(profile: seq<ProfileRow>, effects: seq<Effect>, targetDir: string, workingDir: string, policy: Policy)
    returns (status: Status, calls: seq<Call>)
    requires |effects| == |profile|
    requires RelPathsDefined(profile, policy, workingDir)
    ensures status.fCount == CountFiles(profile, |profile|)
    ensures status.success == PathsWith(profile, effects, policy, Succeeded, |profile|)
    ensures status.fail == PathsWith(profile, effects, policy, Failed, |profile|)
    ensures status.unconverted == Histogram(profile, policy, |profile|)
    ensures calls == CallsOf(profile, policy, targetDir, workingDir, |profile|)
  {
    var success: seq<string> := [];
    var fail: seq<string> := [];
    var unconverted: map<string, nat> := map[];
    var fCount: nat := 0;
    calls := [];
    var i := 0;
    while i < |profile|
      invariant 0 <= i <= |profile|
      invariant fCount == CountFiles(profile, i)
      invariant success == PathsWith(profile, effects, policy, Succeeded, i)
      invariant fail == PathsWith(profile, effects, policy, Failed, i)
      invariant unconverted == Histogram(profile, policy, i)
      invariant calls == CallsOf(profile, policy, targetDir, workingDir, i)
    {
      var item := profile[i];
      if item.kind == "File" {
        var mimeType := item.mimeType;
        var filePath := item.filePath;
        fCount := fCount + 1;
        var conversionFunction := Lookup(policy, mimeType);
        if conversionFunction.Some? {
          var call := CallFor(conversionFunction.value, item, targetDir, workingDir);
          calls := calls + [call];
          var result := Attempt(call, effects[i]);
          if result.Returned? {
            success := success + [filePath];
          } else {
            fail := fail + [filePath];
          }
        } else {
          if mimeType in unconverted {
            unconverted := unconverted[mimeType := unconverted[mimeType] + 1];
          } else {
            unconverted := unconverted[mimeType := 1];
          }
        }
      }
      i := i + 1;
    }
    status := Status(success, fail, unconverted, fCount);
  }

  /** `batch_norm` as written: unknown types fall back to `no_norm`, so every
      file record lands in `success` or `fail` and `unconverted` stays empty. */
  method BatchNorm(profile: seq<ProfileRow>, effects: seq<Effect>, targetDir: string, workingDir: string)
    returns (status: Status, calls: seq<Call>)
    requires |effects| == |profile|
    requires RelPathsDefined(profile, AsWritten, workingDir)
    ensures |status.success| + |status.fail| == status.fCount
    ensures status.unconverted == map[]
    ensures forall p :: p in status.fail <==>
      exists i :: 0 <= i < |profile| && IsFile(profile[i]) && effects[i] == Crashed && profile[i].filePath == p
    ensures forall p :: p in status.success <==>
      exists i :: 0 <= i < |profile| && IsFile(profile[i]) && effects[i] != Crashed && profile[i].filePath == p
    ensures calls == CallsOf(profile, AsWritten, targetDir, workingDir, |profile|)
  {
    status, calls := RunBatch(profile, effects, targetDir, workingDir, AsWritten);
    EveryFileAccountedOnce(profile, effects, AsWritten, |profile|);
    AsWrittenLeavesNothingUnhandled(profile, |profile|);
    PathsWithMembers(profile, effects, AsWritten, Failed, |profile|);
    PathsWithMembers(profile, effects, AsWritten, Succeeded, |profile|);
  }

  /** `batch_norm` with the lookup its report describes: unknown types are
      counted per MIME type in `unconverted`, and start no external call. */
  method BatchNormIntended(profile: seq<ProfileRow>, effects: seq<Effect>, targetDir: string, workingDir: string)
    returns (status: Status, calls: seq<Call>)
    requires |effects| == |profile|
    requires RelPathsDefined(profile, Intended, workingDir)
    ensures |status.success| + |status.fail| + UnhandledCount(profile, Intended, |profile|) == status.fCount
    ensures forall m :: m in status.unconverted <==> UnhandledWith(profile, Intended, m, |profile|) > 0
    ensures forall m :: m in status.unconverted ==> status.unconverted[m] == UnhandledWith(profile, Intended, m, |profile|)
    ensures |calls| == |status.success| + |status.fail|
  {
    status, calls := RunBatch(profile, effects, targetDir, workingDir, Intended);
    EveryFileAccountedOnce(profile, effects, Intended, |profile|);
    HistogramCounts(profile, Intended, |profile|);
    OneCallPerHandledFile(profile, effects, Intended, targetDir, workingDir, |profile|);
  }

  // ---------------------------------------------------------------------------
  // Properties of the accounting
  // ---------------------------------------------------------------------------

  /** The number of file records among the first `n` with no action. */
  function UnhandledCount(profile: seq<ProfileRow>, policy: Policy, n: nat): nat
    requires n <= |profile|
  {
    if n == 0 then 0
    else
      var row := profile[n - 1];
      UnhandledCount(profile, policy, n - 1) + if IsFile(row) && Lookup(policy, row.mimeType).None? then 1 else 0
  }

  /** Each file record is counted once in `f_count` and lands in exactly one
      of `success`, `fail` and the unhandled records. */
  lemma {:induction false} EveryFileAccountedOnce(profile: seq<ProfileRow>, effects: seq<Effect>, policy: Policy, n: nat)
    requires n <= |profile| == |effects|
    ensures |PathsWith(profile, effects, policy, Succeeded, n)| + |PathsWith(profile, effects, policy, Failed, n)|
            + UnhandledCount(profile, policy, n) == CountFiles(profile, n)
  {
    if n > 0 {
      EveryFileAccountedOnce(profile, effects, policy, n - 1);
    }
  }

  /** A path is in the list for outcome `o` exactly when some file record with
      that path had outcome `o`. */
  lemma {:induction false} PathsWithMembers(profile: seq<ProfileRow>, effects: seq<Effect>, policy: Policy, o: Outcome, n: nat)
    requires n <= |profile| == |effects|
    ensures forall p :: p in PathsWith(profile, effects, policy, o, n) <==>
      exists i :: 0 <= i < n && IsFile(profile[i]) && OutcomeOf(policy, profile[i], effects[i]) == o && profile[i].filePath == p
  {
    if n > 0 {
      PathsWithMembers(profile, effects, policy, o, n - 1);
      var row := profile[n - 1];
      forall p | p in PathsWith(profile, effects, policy, o, n)
        ensures exists i :: 0 <= i < n && IsFile(profile[i]) && OutcomeOf(policy, profile[i], effects[i]) == o && profile[i].filePath == p
      {
        if p !in PathsWith(profile, effects, policy, o, n - 1) {
          assert IsFile(row) && OutcomeOf(policy, row, effects[n - 1]) == o && row.filePath == p;
        }
      }
    }
  }

  /** Under the as-written lookup every MIME type has an action: nothing is
      ever unhandled and the histogram stays empty. */
  lemma {:induction false} AsWrittenLeavesNothingUnhandled(profile: seq<ProfileRow>, n: nat)
    requires n <= |profile|
    ensures UnhandledCount(profile, AsWritten, n) == 0
    ensures Histogram(profile, AsWritten, n) == map[]
  {
    if n > 0 {
      AsWrittenLeavesNothingUnhandled(profile, n - 1);
      assert Lookup(AsWritten, profile[n - 1].mimeType).Some?;
    }
  }

  /** The histogram has an entry for exactly the MIME types of unhandled file
      records, and the entry is their number. */
  lemma {:induction false} HistogramCounts(profile: seq<ProfileRow>, policy: Policy, n: nat)
    requires n <= |profile|
    ensures forall m :: m in Histogram(profile, policy, n) <==> UnhandledWith(profile, policy, m, n) > 0
    ensures forall m :: m in Histogram(profile, policy, n) ==> Histogram(profile, policy, n)[m] == UnhandledWith(profile, policy, m, n)
  {
    if n > 0 {
      HistogramCounts(profile, policy, n - 1);
    }
  }

  /** One external call is started per file record that has an action. */
  lemma {:induction false} OneCallPerHandledFile(profile: seq<ProfileRow>, effects: seq<Effect>, policy: Policy,
                                                 targetDir: string, workingDir: string, n: nat)
    requires n <= |profile| == |effects|
    requires RelPathsDefined(profile, policy, workingDir)
    ensures |CallsOf(profile, policy, targetDir, workingDir, n)|
         == |PathsWith(profile, effects, policy, Succeeded, n)| + |PathsWith(profile, effects, policy, Failed, n)|
  {
    if n > 0 {
      OneCallPerHandledFile(profile, effects, policy, targetDir, workingDir, n - 1);
      var row := profile[n - 1];
      var handled := IsFile(row) && Lookup(policy, row.mimeType).Some?;
      var o := OutcomeOf(policy, row, effects[n - 1]);
      assert |CallsOf(profile, policy, targetDir, workingDir, n)|
          == |CallsOf(profile, policy, targetDir, workingDir, n - 1)| + if handled then 1 else 0;
      assert |PathsWith(profile, effects, policy, Succeeded, n)|
          == |PathsWith(profile, effects, policy, Succeeded, n - 1)| + if IsFile(row) && o == Succeeded then 1 else 0;
      assert |PathsWith(profile, effects, policy, Failed, n)|
          == |PathsWith(profile, effects, policy, Failed, n - 1)| + if IsFile(row) && o == Failed then 1 else 0;
    }
  }

  /** When no external step raises, nothing fails. */
  lemma {:induction false} NoCrashNoFailure(profile: seq<ProfileRow>, effects: seq<Effect>, policy: Policy, n: nat)
    requires n <= |profile| == |effects|
    requires forall i :: 0 <= i < n ==> effects[i] != Crashed
    ensures PathsWith(profile, effects, policy, Failed, n) == []
  {
    if n > 0 {
      NoCrashNoFailure(profile, effects, policy, n - 1);
    }
  }

  /** A conversion whose tool exited non-zero returns `None` from `norm_to_*`,
      and the record still counts as a success. */
  lemma SwallowedFailureCounts(policy: Policy, row: ProfileRow, t: Target, targetDir: string, workingDir: string)
    requires Beneath(row.filePath, workingDir)
    requires Lookup(policy, row.mimeType) == Some(Convert(t))
    ensures Attempt(CallFor(Convert(t), row, targetDir, workingDir), NonZeroExit) == Returned(None)
    ensures OutcomeOf(policy, row, NonZeroExit) == Succeeded
  {
  }

  // ---------------------------------------------------------------------------
  // Where files land
  // ---------------------------------------------------------------------------

  /** A clean relative path does not start with '/'. */
  lemma CleanNotAbsolute(rel: string)
    requires CleanRelative(rel)
    ensures rel != [] && rel[0] != '/'
  {
    assert Split(rel, '/')[0] != "";
  }

  /** `copyfile` keeps the file's whole name, extension included, unlike
      `no_norm`, which drops the extension. */
  lemma CopyKeepsName(row: ProfileRow, targetDir: string, workingDir: string)
    requires Beneath(row.filePath, workingDir)
    ensures Basename(TargetFilePath(row, targetDir, workingDir)) == Basename(row.filePath)
  {
    var rel := RelPath(row.filePath, workingDir);
    CleanNotAbsolute(rel);
    BasenameAfterSlash(DirPrefix(workingDir), rel);
    if targetDir == [] || targetDir[|targetDir| - 1] == '/' {
      BasenameAfterSlash(targetDir, rel);
    } else {
      assert Join(targetDir, rel) == (targetDir + "/") + rel;
      BasenameAfterSlash(targetDir + "/", rel);
    }
  }

  /** A file directly in the working directory is converted into the target
      directory itself, under its stem plus the target's suffix; this is the
      layout the batch test expects. */
  lemma TopLevelDerivative(row: ProfileRow, t: Target, targetDir: string, workingDir: string)
    requires Beneath(row.filePath, workingDir)
    requires '/' !in RelPath(row.filePath, workingDir)
    requires targetDir != [] && CanonicalDir(targetDir)
    ensures var call := CallFor(Convert(t), row, targetDir, workingDir);
      Attempt(call, Completed) == Returned(Some(Join(targetDir, ReplaceSuffix(row.filePath, Suffix(t)))))
  {
    var rel := RelPath(row.filePath, workingDir);
    CleanNotAbsolute(rel);
    DirnameOfJoin(targetDir, rel);
    assert CallFor(Convert(t), row, targetDir, workingDir) == RunTool(t, row.filePath, targetDir);
    assert ConstructOutputPath(row.filePath, Suffix(t), Some(targetDir))
        == Join(targetDir, ReplaceSuffix(row.filePath, Suffix(t)));
  }

  /** In a clean relative path, the last separator follows a name. */
  lemma CleanLastSeparator(rel: string)
    requires CleanRelative(rel) && '/' in rel
    ensures LastIndexOf(rel, '/') >= 1 && rel[LastIndexOf(rel, '/') - 1] != '/'
  {
    CleanNotAbsolute(rel);
    var l := LastIndexOf(rel, '/');
    if l < 0 {
      assert false;
    }
    if rel[l - 1] == '/' {
      SplitAdjacentSeparators(rel, '/', l - 1);
      assert false;
    }
  }

  /** A file in a subdirectory of the working directory is converted into the
      same subdirectory of the target tree: the conversion receives
      `join(target_dir, dirname(relpath))` as its output directory, the
      layout the batch test expects for nested inputs. */
  lemma MirroredDirectory(row: ProfileRow, t: Target, targetDir: string, workingDir: string)
    requires Beneath(row.filePath, workingDir)
    requires '/' in RelPath(row.filePath, workingDir)
    ensures CallFor(Convert(t), row, targetDir, workingDir)
         == RunTool(t, row.filePath, Join(targetDir, Dirname(RelPath(row.filePath, workingDir))))
  {
    var rel := RelPath(row.filePath, workingDir);
    CleanNotAbsolute(rel);
    CleanLastSeparator(rel);
    DirnameOfJoinedPath(targetDir, rel);
  }

  // ---------------------------------------------------------------------------
  // The unreachable `unconverted` branch
  // ---------------------------------------------------------------------------

  /** As written, a file whose MIME type has no table entry is copied through
      and counted as a success (or a failure if the copy raises); it never
      reaches the histogram. */
  lemma UnknownTypeAsWritten(row: ProfileRow, e: Effect)
    requires IsFile(row) && row.mimeType !in MimeNormalizationMap
    ensures PathsWith([row], [e], AsWritten, if e == Crashed then Failed else Succeeded, 1) == [row.filePath]
    ensures Histogram([row], AsWritten, 1) == map[]
  {
  }

  /** With the lookup the report describes, the same file is counted once in
      the histogram under its MIME type, and neither succeeds nor fails. */
  lemma UnknownTypeIntended(row: ProfileRow, e: Effect)
    requires IsFile(row) && row.mimeType !in MimeNormalizationMap
    ensures PathsWith([row], [e], Intended, Succeeded, 1) == []
    ensures PathsWith([row], [e], Intended, Failed, 1) == []
    ensures Histogram([row], Intended, 1) == map[row.mimeType := 1]
  {
  }

  /** A type DROID reports for unidentified binaries has no table entry. */
  lemma OctetStreamHasNoEntry()
    ensures "application/octet-stream" !in MimeNormalizationMap
  {
  }

  /** Table and substring chain disagree: `batch_norm` copies `video/mp4`
      through, `norm_file` converts it to MP4 again. */
  lemma VideoMp4Disagrees()
    ensures Lookup(AsWritten, "video/mp4") == Some(NoNorm)
    ensures NormRoute("video/mp4") == ConvertTo(Mp4)
  {
    NotContainsByChar("video/mp4", "audio", 'a');
    assert OccursAt("video/mp4", "video", 0);
  }
}
