/** normalize.py without its batch loop: the output-path builder, the parser
    of DROID's single-file output, the conversion actions as seen from Python
    (a path, `None`, or an exception) and the substring routing of `norm_file`. */
module Normalize {
  import opened Wrappers
  import opened Text
  import opened PosixPath
  import opened Tools

  // ---------------------------------------------------------------------------
  // Output paths
  // ---------------------------------------------------------------------------

  /** Python truthiness of the optional `output_dir`: `None` and `""` are false. */
  predicate Truthy(outputDir: Option<string>) {
    outputDir.Some? && outputDir.value != []
  }

  /** `replace_suffix`: the file's name without directory and without its last
      extension, followed by `newSuffix`. Putting the old extension back in
      place of `newSuffix` gives the file's name again. */
  function ReplaceSuffix(filename: string, newSuffix: string): (r: string)
    ensures |newSuffix| <= |r| && r[|r| - |newSuffix|..] == newSuffix
    ensures r[..|r| - |newSuffix|] + Ext(Basename(filename)) == Basename(filename)
    ensures '/' !in newSuffix ==> '/' !in r
  {
    var stem := Stem(Basename(filename));
    var r := stem + newSuffix;
    assert r[..|r| - |newSuffix|] == stem;
    r
  }

  /** The only name that keeps no character of the original: when the file
      name has a character other than '.', so does its stem. */
  lemma StemKeepsNonDot(b: string)
    requires '/' !in b && !AllDots(b)
    ensures '/' !in Stem(b) && !AllDots(Stem(b))
  {
    LastIndexOfIs(b, '/', -1);
    var dot := LastIndexOf(b, '.');
    if dot > -1 && !AllDots(b[0..dot]) {
      assert Stem(b) == b[0..dot];
    }
  }

  /** `construct_output_path`: the renamed file (see `ReplaceSuffix`) placed in
      `outputDir` when that is truthy, otherwise beside the input file. */
  function ConstructOutputPath(filepath: string, suffix: string, outputDir: Option<string>): (r: string)
    ensures '/' !in suffix ==> Basename(r) == ReplaceSuffix(filepath, suffix)
    ensures '/' !in suffix && ReplaceSuffix(filepath, suffix) != [] && Truthy(outputDir) && CanonicalDir(outputDir.value) ==>
              Dirname(r) == outputDir.value
    ensures '/' !in suffix && ReplaceSuffix(filepath, suffix) != [] && !Truthy(outputDir) ==>
              Dirname(r) == Dirname(filepath)
  {
    var name := ReplaceSuffix(filepath, suffix);
    var dir := if Truthy(outputDir) then outputDir.value else Dirname(filepath);
    JoinParts(dir, name);
    Join(dir, name)
  }

  /** Without an output directory, the stem plus suffix is joined to the input's directory. */
  lemma ConstructOutputPathUnfold(filepath: string, suffix: string)
    ensures ConstructOutputPath(filepath, suffix, None) == Join(Dirname(filepath), Stem(Basename(filepath)) + suffix)
  {
  }

  /** What `Join` keeps of its two parts. */
  lemma JoinParts(dir: string, name: string)
    ensures '/' !in name ==> Basename(Join(dir, name)) == name
    ensures '/' !in name && name != [] && CanonicalDir(dir) ==> Dirname(Join(dir, name)) == dir
  {
    if '/' !in name {
      BasenameOfJoin(dir, name);
      if name != [] && CanonicalDir(dir) {
        DirnameOfJoin(dir, name);
      }
    }
  }

  /** A path whose name is `name`, inside the canonical directory `dir`. */
  lemma PathParts(dir: string, name: string)
    requires CanonicalDir(dir) && '/' !in name && name != []
    ensures Basename(Join(dir, name)) == name && Dirname(Join(dir, name)) == dir
  {
    BasenameOfJoin(dir, name);
    DirnameOfJoin(dir, name);
  }

  /** The derivative's extension is exactly the suffix asked for, whenever the
      input's name has a character other than '.'. */
  lemma OutputPathExtension(filepath: string, ext: string, outputDir: Option<string>)
    requires !AllDots(Basename(filepath))
    requires '.' !in ext && '/' !in ext
    ensures Ext(ConstructOutputPath(filepath, "." + ext, outputDir)) == "." + ext
  {
    var stem := Stem(Basename(filepath));
    var suffix := "." + ext;
    assert suffix[1..] == ext;
    StemKeepsNonDot(Basename(filepath));
    SplitExtOfSuffixed(stem, suffix);
    var out := ConstructOutputPath(filepath, suffix, outputDir);
    assert Basename(out) == ReplaceSuffix(filepath, suffix) == stem + suffix;
    StemOfPath(out);
  }

  /** A file `dir/stem.ext` gets the derivative `stem` + `suffix`, in the
      truthy `outputDir` or else in `dir`. */
  lemma OutputPathOfNamedFile(dir: string, stem: string, ext: string, suffix: string, outputDir: Option<string>)
    requires CanonicalDir(dir)
    requires '/' !in stem && !AllDots(stem) && '/' !in ext && '.' !in ext
    ensures ConstructOutputPath(Join(dir, stem + "." + ext), suffix, outputDir)
         == Join(if Truthy(outputDir) then outputDir.value else dir, stem + suffix)
  {
    var name := stem + "." + ext;
    assert '/' !in name;
    PathParts(dir, name);
    SplitExtOfName(stem, ext);
  }

  /** How the test suite's input path decomposes into directory, stem and extension. */
  lemma TestSuiteInput()
    ensures CanonicalDir("/path/to/input") && !AllDots("file")
    ensures Join("/path/to/input", "file" + "." + "txt") == "/path/to/input/file.txt"
  {
    assert "/path/to/input"[13] != '/';
    assert "file"[0] != '.';
  }

  /** The test suite's input paths with a dotted name and with a relative directory. */
  lemma TestSuiteOtherInputs()
    ensures CanonicalDir("/path/to/input") && !AllDots("file.v1")
    ensures Join("/path/to/input", "file.v1" + "." + "txt") == "/path/to/input/file.v1.txt"
    ensures CanonicalDir("input") && !AllDots("file")
    ensures Join("input", "file" + "." + "txt") == "input/file.txt"
  {
    assert "/path/to/input"[13] != '/';
    assert "file.v1"[0] != '.';
    assert "input"[4] != '/';
    assert "file"[0] != '.';
  }

  /** The derivative paths the test suite expects, as joins of directory and name. */
  lemma TestSuiteOutputs()
    ensures Join("/path/to/output", "file" + ".mp4") == "/path/to/output/file.mp4"
    ensures Join("/path/to/input", "file" + ".doc") == "/path/to/input/file.doc"
    ensures Join("/path/to/input", "file" + "") == "/path/to/input/file"
  {
  }

  /** The derivative paths the test suite expects for its other inputs and output directories. */
  lemma TestSuiteOtherOutputs()
    ensures Join("/path/to/output./files", "file" + ".mp4") == "/path/to/output./files/file.mp4"
    ensures Join("/path/to/input", "file.v1" + ".doc") == "/path/to/input/file.v1.doc"
    ensures Join("output", "file" + ".mp4") == "output/file.mp4"
  {
  }

  /** `test_construct_output_path`: an output directory, or none. */
  lemma ConstructOutputPathExamples()
    ensures ConstructOutputPath("/path/to/input/file.txt", ".mp4", Some("/path/to/output")) == "/path/to/output/file.mp4"
    ensures ConstructOutputPath("/path/to/input/file.txt", ".doc", None) == "/path/to/input/file.doc"
  {
    TestSuiteInput();
    TestSuiteOutputs();
    OutputPathOfNamedFile("/path/to/input", "file", "txt", ".mp4", Some("/path/to/output"));
    OutputPathOfNamedFile("/path/to/input", "file", "txt", ".doc", None);
  }

  /** `test_construct_output_path`: an empty suffix, and a dot in the output directory. */
  lemma ConstructOutputPathSuffixExamples()
    ensures ConstructOutputPath("/path/to/input/file.txt", "", None) == "/path/to/input/file"
    ensures ConstructOutputPath("/path/to/input/file.txt", ".mp4", Some("/path/to/output./files")) == "/path/to/output./files/file.mp4"
  {
    TestSuiteInput();
    TestSuiteOutputs();
    TestSuiteOtherOutputs();
    OutputPathOfNamedFile("/path/to/input", "file", "txt", "", None);
    OutputPathOfNamedFile("/path/to/input", "file", "txt", ".mp4", Some("/path/to/output./files"));
  }

  /** `test_construct_output_path`: a dot in the name, and relative paths. */
  lemma ConstructOutputPathNameExamples()
    ensures ConstructOutputPath("/path/to/input/file.v1.txt", ".doc", None) == "/path/to/input/file.v1.doc"
    ensures ConstructOutputPath("input/file.txt", ".mp4", Some("output")) == "output/file.mp4"
  {
    TestSuiteOtherInputs();
    TestSuiteOtherOutputs();
    OutputPathOfNamedFile("/path/to/input", "file.v1", "txt", ".doc", None);
    OutputPathOfNamedFile("input", "file", "txt", ".mp4", Some("output"));
  }

  // ---------------------------------------------------------------------------
  // Single-file identification (DROID in no-profile mode)
  // ---------------------------------------------------------------------------

  /** The Python exceptions the parsers let escape. */
  datatype IdentifyError = IndexError | KeyError

  /** The dictionary filled by `metadata[keys[i]] = values[i]` for i < n, in order. */
  function Zip(keys: seq<string>, values: seq<string>, n: nat): map<string, string>
    requires n <= |keys| && n <= |values|
  {
    if n == 0 then map[] else Zip(keys, values, n - 1)[keys[n - 1] := values[n - 1]]
  }

  /** No key after position `i` and before `n` repeats `keys[i]`. */
  predicate LastBefore(keys: seq<string>, i: nat, n: nat)
    requires i < n <= |keys|
  {
    forall j :: i < j < n ==> keys[j] != keys[i]
  }

  /** Every key of the header gets a value, and a repeated key keeps the value
      of its last occurrence. */
  lemma {:induction false} ZipLastWins(keys: seq<string>, values: seq<string>, n: nat)
    requires n <= |keys| && n <= |values|
    ensures Zip(keys, values, n).Keys == set i | 0 <= i < n :: keys[i]
    ensures forall i :: 0 <= i < n && LastBefore(keys, i, n) ==> Zip(keys, values, n)[keys[i]] == values[i]
  {
    if n > 0 {
      ZipLastWins(keys, values, n - 1);
      var m := Zip(keys, values, n);
      forall i | 0 <= i < n && LastBefore(keys, i, n) ensures m[keys[i]] == values[i] {
        if i < n - 1 {
          assert keys[n - 1] != keys[i];
          assert LastBefore(keys, i, n - 1);
        }
      }
    }
  }

  /** The parsing half of `identify_file`: strip the tool's output, split it
      into lines, and pair the comma-separated fields of the first line with
      those of the second. */
  function ParseIdentification(output: string): Result<map<string, string>, IdentifyError> {
    var lines := Split(Strip(output), '\n');
    if |lines| < 2 then Failure(IndexError)
    else
      var keys := Split(lines[0], ',');
      var values := Split(lines[1], ',');
      if |values| < |keys| then Failure(IndexError) else Success(Zip(keys, values, |keys|))
  }

  /** `identify_file` once the tool has printed `output`. */
  method IdentifyFile(output: string) returns (r: Result<map<string, string>, IdentifyError>)
    ensures r == ParseIdentification(output)
  {
    var lines := Split(Strip(output), '\n');
    if |lines| < 2 {
      return Failure(IndexError);
    }
    var keys := Split(lines[0], ',');
    var values := Split(lines[1], ',');
    var metadata := map[];
    var i := 0;
    while i < |keys|
      invariant 0 <= i <= |keys| && i <= |values|
      invariant metadata == Zip(keys, values, i)
    {
      if i >= |values| {
        return Failure(IndexError);
      }
      metadata := metadata[keys[i] := values[i]];
      i := i + 1;
    }
    return Success(metadata);
  }

  /** Output with fewer than two lines, once stripped, has no value row. */
  lemma IdentificationNeedsTwoLines(output: string)
    requires '\n' !in Strip(output)
    ensures ParseIdentification(output) == Failure(IndexError)
  {
    SplitNoSeparator(Strip(output), '\n');
  }

  /** Text made of a header line and a value line, with nothing to strip
      around it, splits into exactly those two lines. */
  lemma TwoLines(header: string, row: string)
    requires '\n' !in header && '\n' !in row
    requires header != [] && !IsSpace(header[0])
    requires row != [] && !IsSpace(row[|row| - 1])
    ensures Split(Strip(header + "\n" + row), '\n') == [header, row]
  {
    var output := header + "\n" + row;
    TwoLinesEdges(header, row);
    StripUnchanged(output);
    SplitTwo(header, '\n', row);
  }

  lemma TwoLinesEdges(header: string, row: string)
    requires header != [] && row != []
    ensures var output := header + "\n" + row;
      output[0] == header[0] && output[|output| - 1] == row[|row| - 1]
  {
  }

  /** Comma-joined fields, none holding a comma or a line break, with a
      first field that starts with a character other than whitespace. */
  predicate FieldsStartClean(fields: seq<string>) {
    && |fields| >= 1
    && (forall i :: 0 <= i < |fields| ==> ',' !in fields[i] && '\n' !in fields[i])
    && fields[0] != [] && !IsSpace(fields[0][0])
  }

  /** The same, with a last field that ends with a character other than whitespace. */
  predicate FieldsEndClean(fields: seq<string>) {
    && |fields| >= 1
    && (forall i :: 0 <= i < |fields| ==> ',' !in fields[i] && '\n' !in fields[i])
    && fields[|fields| - 1] != [] && !IsSpace(fields[|fields| - 1][|fields[|fields| - 1]| - 1])
  }

  /** The tool's output rebuilt from its fields splits back into them. */
  lemma OutputFields(keys: seq<string>, values: seq<string>)
    requires FieldsStartClean(keys) && FieldsEndClean(values)
    ensures var lines := Split(Strip(JoinWith(keys, ',') + "\n" + JoinWith(values, ',')), '\n');
      |lines| == 2 && Split(lines[0], ',') == keys && Split(lines[1], ',') == values
  {
    NoSeparatorInJoin(keys, ',', '\n');
    NoSeparatorInJoin(values, ',', '\n');
    JoinWithFirst(keys, ',');
    JoinWithLast(values, ',');
    TwoLines(JoinWith(keys, ','), JoinWith(values, ','));
    SplitJoinWith(keys, ',');
    SplitJoinWith(values, ',');
  }

  /** A value row with fewer fields than the header makes the lookup
      `values[i]` fail. */
  lemma IdentificationShortValueRow(keys: seq<string>, values: seq<string>)
    requires FieldsStartClean(keys) && FieldsEndClean(values)
    requires |values| < |keys|
    ensures ParseIdentification(JoinWith(keys, ',') + "\n" + JoinWith(values, ',')) == Failure(IndexError)
  {
    OutputFields(keys, values);
  }

  /** Round trip: a header line and a value line written by joining fields
      with commas parse back to the pairing of each key with its value; extra
      values are ignored. */
  lemma IdentificationRoundTrip(keys: seq<string>, values: seq<string>)
    requires FieldsStartClean(keys) && FieldsEndClean(values)
    requires |keys| <= |values|
    ensures ParseIdentification(JoinWith(keys, ',') + "\n" + JoinWith(values, ',')).Success?
    ensures var m := ParseIdentification(JoinWith(keys, ',') + "\n" + JoinWith(values, ',')).value;
      m.Keys == (set i | 0 <= i < |keys| :: keys[i]) &&
      forall i :: 0 <= i < |keys| && LastBefore(keys, i, |keys|) ==> m[keys[i]] == values[i]
  {
    OutputFields(keys, values);
    ZipLastWins(keys, values, |keys|);
  }

  /** Joining pieces free of `c` with a separator other than `c` gives text free of `c`. */
  lemma {:induction false} NoSeparatorInJoin(parts: seq<string>, sep: char, c: char)
    requires |parts| >= 1 && sep != c
    requires forall i :: 0 <= i < |parts| ==> c !in parts[i]
    ensures c !in JoinWith(parts, sep)
  {
    if |parts| > 1 {
      NoSeparatorInJoin(parts[1..], sep, c);
    }
  }

  lemma {:induction false} JoinWithFirst(parts: seq<string>, sep: char)
    requires |parts| >= 1 && parts[0] != []
    ensures JoinWith(parts, sep) != [] && JoinWith(parts, sep)[0] == parts[0][0]
  {
  }

  lemma {:induction false} JoinWithLast(parts: seq<string>, sep: char)
    requires |parts| >= 1 && parts[|parts| - 1] != []
    ensures JoinWith(parts, sep) != []
    ensures JoinWith(parts, sep)[|JoinWith(parts, sep)| - 1] == parts[|parts| - 1][|parts[|parts| - 1]| - 1]
  {
    if |parts| > 1 {
      JoinWithLast(parts[1..], sep);
    }
  }

  // ---------------------------------------------------------------------------
  // Conversion actions
  // ---------------------------------------------------------------------------

  /** `norm_to_mp3`, `norm_to_mp4`, `norm_to_doc`, `norm_to_pdf`, `norm_to_svg`:
      the derivative's path when the tool succeeds, `None` when it exits
      non-zero (the `CalledProcessError` is caught), and any other exception
      propagates. */
  function NormTo(t: Target, filepath: string, outputDir: Option<string>, e: Effect): (r: ActionResult)
    ensures r == Raised <==> e == Crashed
    ensures r == Returned(None) <==> e == NonZeroExit
    ensures e == Completed ==> r == Returned(Some(ConstructOutputPath(filepath, Suffix(t), outputDir)))
  {
    var path := ConstructOutputPath(filepath, Suffix(t), outputDir);
    match e
    case Completed => Returned(Some(path))
    case NonZeroExit => Returned(None)
    case Crashed => Raised
  }

  /** A successful conversion's result carries the target's extension, as the
      test suite checks with `os.path.splitext(path)[1]`. */
  lemma NormToExtension(t: Target, filepath: string, outputDir: Option<string>)
    requires !AllDots(Basename(filepath))
    ensures NormTo(t, filepath, outputDir, Completed).value.Some?
    ensures Ext(NormTo(t, filepath, outputDir, Completed).value.value) == Suffix(t)
  {
    var sfx := Suffix(t);
    assert sfx == "." + sfx[1..];
    OutputPathExtension(filepath, sfx[1..], outputDir);
  }

  /** What `no_norm` returned and where it copied the file, if anywhere. */
  datatype CopyThrough = CopyThrough(result: ActionResult, copiedTo: Option<string>)

  /** `no_norm`: without a truthy `output_dir`, hand back `filepath` and copy
      nothing; otherwise copy to the output path built with an empty suffix
      (which drops the extension) and return that path. */
  function NoNorm(filepath: string, outputDir: Option<string>, e: Effect): (r: CopyThrough)
    ensures !Truthy(outputDir) ==> r == CopyThrough(Returned(Some(filepath)), None)
    ensures Truthy(outputDir) ==> r.copiedTo.Some? && (r.result == Raised <==> e == Crashed)
    ensures Truthy(outputDir) && e != Crashed ==> r.result == Returned(r.copiedTo)
    ensures Truthy(outputDir) ==> Basename(r.copiedTo.value) == Stem(Basename(filepath))
    ensures Truthy(outputDir) && CanonicalDir(outputDir.value) && Stem(Basename(filepath)) != [] ==>
              Dirname(r.copiedTo.value) == outputDir.value
  {
    if Truthy(outputDir) then
      var destination := ConstructOutputPath(filepath, "", outputDir);
      assert ReplaceSuffix(filepath, "") == Stem(Basename(filepath));
      CopyThrough(if e == Crashed then Raised else Returned(Some(destination)), Some(destination))
    else
      CopyThrough(Returned(Some(filepath)), None)
  }

  // ---------------------------------------------------------------------------
  // Single-file dispatch
  // ---------------------------------------------------------------------------

  const DocxMime := "application/vnd.openxmlformats-officedocument.wordprocessingml.document"

  /** The `if`/`elif` chain of `norm_file`, over an already lowercased MIME type. */
  function NormRoute(mime: string): Route {
    if Contains(mime, "audio") then AudioToMp3
    else if Contains(mime, "video") then ConvertTo(Mp4)
    else if Contains(mime, "image/svg") then KeepAsIs
    else if Contains(mime, "postscript") then ConvertTo(Svg)
    else if Contains(mime, "text/xml") then ConvertTo(Doc)
    else if Contains(mime, DocxMime) then ConvertTo(Doc)
    else if mime == "text/plain" then KeepAsIs
    else Unsupported
  }

  /** The same chain written as a rule table. */
  const NormRules: seq<Rule> := [
    Rule(Substring("audio"), AudioToMp3),
    Rule(Substring("video"), ConvertTo(Mp4)),
    Rule(Substring("image/svg"), KeepAsIs),
    Rule(Substring("postscript"), ConvertTo(Svg)),
    Rule(Substring("text/xml"), ConvertTo(Doc)),
    Rule(Substring(DocxMime), ConvertTo(Doc)),
    Rule(Exactly("text/plain"), KeepAsIs)
  ]

  /** `norm_file` takes the first rule, in order, that the MIME type matches. */
  lemma NormRouteIsFirstMatch(mime: string)
    ensures NormRoute(mime) == FirstMatch(NormRules, mime)
  {
    var rs := NormRules;
    var k := if Contains(mime, "audio") then 0
      else if Contains(mime, "video") then 1
      else if Contains(mime, "image/svg") then 2
      else if Contains(mime, "postscript") then 3
      else if Contains(mime, "text/xml") then 4
      else if Contains(mime, DocxMime) then 5
      else if mime == "text/plain" then 6
      else 7;
    if k < 7 {
      assert FirstMatching(rs, mime, k);
      FirstMatchIsFirst(rs, mime, k);
    } else {
      FirstMatchNone(rs, mime);
    }
  }

  /** `metadata.get('MIME_TYPE', '')` */
  function MimeOf(metadata: map<string, string>): string {
    if "MIME_TYPE" in metadata then metadata["MIME_TYPE"] else ""
  }

  /** `norm_file`: route on the lowercased MIME type. Audio goes through pydub,
      which raises when decoding fails, to the input's path with `.mp3` in place
      of its last extension; conversions run without an output directory; an
      unsupported type returns `None`. Whatever it returns lies in the input's
      directory; it raises exactly when pydub fails or a conversion tool
      crashes, and returns `None` exactly for an unsupported type or a
      conversion tool that exited non-zero. */
  function NormFile(filepath: string, metadata: map<string, string>, e: Effect): (r: ActionResult)
    ensures r.Returned? && r.value.Some? ==> Dirname(r.value.value) == Dirname(filepath)
    ensures r == Raised <==>
              (NormRoute(Lower(MimeOf(metadata))) == AudioToMp3 && e != Completed) ||
              (NormRoute(Lower(MimeOf(metadata))).ConvertTo? && e == Crashed)
    ensures r == Returned(None) <==>
              NormRoute(Lower(MimeOf(metadata))) == Unsupported ||
              (NormRoute(Lower(MimeOf(metadata))).ConvertTo? && e == NonZeroExit)
    ensures NormRoute(Lower(MimeOf(metadata))) == KeepAsIs ==> r == Returned(Some(filepath))
    ensures NormRoute(Lower(MimeOf(metadata))) == AudioToMp3 && e == Completed ==>
              r == Returned(Some(Stem(filepath) + ".mp3"))
    ensures NormRoute(Lower(MimeOf(metadata))).ConvertTo? && e == Completed ==>
              r == Returned(Some(ConstructOutputPath(filepath, Suffix(NormRoute(Lower(MimeOf(metadata))).target), None)))
  {
    match NormRoute(Lower(MimeOf(metadata)))
    case AudioToMp3 =>
      if e == Completed then
        var mp3 := Stem(filepath) + ".mp3";
        BesideInput(filepath, ".mp3");
        Returned(Some(mp3))
      else Raised
    case ConvertTo(t) =>
      var r := NormTo(t, filepath, None, e);
      if r.Returned? && r.value.Some? then
        assert ReplaceSuffix(filepath, Suffix(t)) != [];
        r
      else r
    case KeepAsIs => Returned(Some(filepath))
    case Unsupported => Returned(None)
  }

  /** A derivative that `norm_file` produces carries the extension of the
      format its route converts to, as the test suite checks for each
      conversion. */
  lemma NormFileExtension(filepath: string, metadata: map<string, string>)
    requires !AllDots(Basename(filepath))
    ensures var r := NormFile(filepath, metadata, Completed);
      NormRoute(Lower(MimeOf(metadata))) == AudioToMp3 ==> r.Returned? && r.value.Some? && Ext(r.value.value) == ".mp3"
    ensures var r := NormFile(filepath, metadata, Completed);
      var route := NormRoute(Lower(MimeOf(metadata)));
      route.ConvertTo? ==> r.Returned? && r.value.Some? && Ext(r.value.value) == Suffix(route.target)
  {
    var route := NormRoute(Lower(MimeOf(metadata)));
    if route == AudioToMp3 {
      StemKeepsNonDot(Basename(filepath));
      StemOfSuffixed(filepath, ".mp3");
    } else if route.ConvertTo? {
      NormToExtension(route.target, filepath, None);
    }
  }

  /** Which of `norm_file`'s needles occur in the compound XML type. */
  lemma CompoundXmlNeedles()
    ensures !Contains("application/xml, text/xml", "audio")
    ensures !Contains("application/xml, text/xml", "video")
    ensures !Contains("application/xml, text/xml", "image/svg")
    ensures !Contains("application/xml, text/xml", "postscript")
    ensures Contains("application/xml, text/xml", "text/xml")
  {
    CompoundXmlLetters();
    var m := "application/xml, text/xml";
    NotContainsByChar(m, "audio", 'u');
    NotContainsByChar(m, "video", 'v');
    NotContainsByChar(m, "image/svg", 'g');
    NotContainsByChar(m, "postscript", 'r');
    CompoundXmlTail();
  }

  lemma CompoundXmlLetters()
    ensures var m := "application/xml, text/xml"; 'u' !in m && 'v' !in m && 'g' !in m && 'r' !in m
  {
  }

  lemma CompoundXmlTail()
    ensures Contains("application/xml, text/xml", "text/xml")
  {
    assert OccursAt("application/xml, text/xml", "text/xml", 17);
  }

  /** The compound type DROID reports for an ODF text file still routes to DOC,
      because it contains `text/xml`. */
  lemma CompoundXmlRoutesToDoc()
    ensures NormRoute("application/xml, text/xml") == ConvertTo(Doc)
  {
    CompoundXmlNeedles();
  }

  /** None of `norm_file`'s needles occurs in `mime`. */
  predicate NoNeedle(mime: string) {
    && !Contains(mime, "audio") && !Contains(mime, "video") && !Contains(mime, "image/svg")
    && !Contains(mime, "postscript") && !Contains(mime, "text/xml") && !Contains(mime, DocxMime)
  }

  /** Text without the letters 'g', 'm', 'o' and 'v' holds none of the needles. */
  lemma NoNeedleByLetters(mime: string)
    requires 'g' !in mime && 'm' !in mime && 'o' !in mime && 'v' !in mime
    ensures NoNeedle(mime)
  {
    NotContainsByChar(mime, "audio", 'o');
    NotContainsByChar(mime, "video", 'v');
    NotContainsByChar(mime, "image/svg", 'g');
    NotContainsByChar(mime, "postscript", 'o');
    NotContainsByChar(mime, "text/xml", 'm');
    NotContainsByChar(mime, DocxMime, 'o');
  }

  /** A type that holds none of the needles is kept only when it is exactly
      `text/plain`: a parameter such as `; charset=utf-8` makes it unsupported. */
  lemma PlainTextOnlyExactly(mime: string)
    requires NoNeedle(mime)
    ensures NormRoute(mime) == if mime == "text/plain" then KeepAsIs else Unsupported
  {
  }

  /** Plain text is recognised after lowercasing. */
  lemma PlainTextAnyCase()
    ensures NormRoute(Lower("TEXT/PLAIN")) == KeepAsIs
  {
    LowerPlainText();
    PlainTextLetters();
    NoNeedleByLetters("text/plain");
  }

  lemma LowerPlainText()
    ensures Lower("TEXT/PLAIN") == "text/plain"
  {
  }

  lemma PlainTextLetters()
    ensures 'g' !in "text/plain" && 'm' !in "text/plain" && 'o' !in "text/plain" && 'v' !in "text/plain"
  {
  }

  /** Plain text carrying a parameter is not plain text to `norm_file`: that
      last test is an exact comparison, so the type is unsupported. */
  lemma PlainTextWithParameters()
    ensures NormRoute(Lower("text/plain; charset=UTF-8")) == Unsupported
  {
    var mime := "text/plain; charset=utf-8";
    LowerCharset();
    CharsetLetters();
    NoNeedleByLetters(mime);
    PlainTextOnlyExactly(mime);
  }

  lemma CharsetLetters()
    ensures var mime := "text/plain; charset=utf-8";
      'g' !in mime && 'm' !in mime && 'o' !in mime && 'v' !in mime
  {
    PlainTextLetters();
    ParameterLetters();
    assert "text/plain; charset=utf-8" == "text/plain" + "; charset=utf-8";
  }

  lemma ParameterLetters()
    ensures var p := "; charset=utf-8"; 'g' !in p && 'm' !in p && 'o' !in p && 'v' !in p
  {
  }

  lemma LowerCharset()
    ensures Lower("text/plain; charset=UTF-8") == "text/plain; charset=utf-8"
  {
  }

  /** A missing MIME type routes nowhere: `norm_file` returns `None` and never raises. */
  lemma NormFileWithoutMime(filepath: string, e: Effect)
    ensures NormFile(filepath, map[], e) == Returned(None)
  {
    assert Lower("") == "";
    NoNeedleByLetters("");
  }
}
