/** convert_all_chatgpt.py, the older single-file converter: a colon-line
    parser of DROID's report, the MIME line it picks out, the
    `splitext`-based derivative paths and the substring routing of
    `convert_file`. */
module ConvertAll {
  import opened Wrappers
  import opened Text
  import opened PosixPath
  import opened Tools
  import opened Normalize

  // ---------------------------------------------------------------------------
  // `key: value` lines
  // ---------------------------------------------------------------------------

  /** `line.split(':', 1)[0].strip()` */
  function KeyOf(line: string): string
    requires ':' in line
  {
    Strip(line[..IndexOf(line, ':')])
  }

  /** `line.split(':', 1)[1].strip()` */
  function ValueOf(line: string): string
    requires ':' in line
  {
    Strip(line[IndexOf(line, ':') + 1..])
  }

  /** A key without ':' and a value, neither with whitespace at its ends,
      written as `key: value` read back as that key and that value. The value
      may itself hold ':'. */
  lemma ColonLineRoundTrip(key: string, value: string)
    requires ':' !in key
    requires key == [] || (!IsSpace(key[0]) && !IsSpace(key[|key| - 1]))
    requires value == [] || (!IsSpace(value[0]) && !IsSpace(value[|value| - 1]))
    ensures ':' in key + ": " + value
    ensures KeyOf(key + ": " + value) == key
    ensures ValueOf(key + ": " + value) == value
  {
    var rest := " " + value;
    assert key + ": " + value == key + [':'] + rest;
    ColonLineParts(key, rest);
    StripUnchanged(key);
    assert rest == [' '] + value;
    StripAfterSpace(' ', value);
  }

  /** Around its first ':', `key + ":" + rest` splits back into `key` and `rest`. */
  lemma ColonLineParts(key: string, rest: string)
    requires ':' !in key
    ensures ':' in key + [':'] + rest
    ensures IndexOf(key + [':'] + rest, ':') == |key|
    ensures (key + [':'] + rest)[..|key|] == key
    ensures (key + [':'] + rest)[|key| + 1..] == rest
  {
    var line := key + [':'] + rest;
    assert line[..|key|] == key;
    IndexOfIs(line, ':', |key|);
  }

  /** The first ':' of a line is where it is known to be. */
  lemma IndexOfIs(s: string, c: char, k: nat)
    requires k < |s| && s[k] == c && c !in s[..k]
    ensures c in s && IndexOf(s, c) == k
  {
    if k > 0 {
      assert s[0] != c by { assert s[..k][0] == s[0]; }
      assert s[1..][..k - 1] == s[..k][1..];
      IndexOfIs(s[1..], c, k - 1);
    }
  }

  /** What one line of DROID's report contributes: its stripped key and
      value when it holds ':', nothing otherwise. */
  function ParseLine(line: string): Option<(string, string)> {
    if ':' in line then Some((KeyOf(line), ValueOf(line))) else None
  }

  /** Every line of the report, parsed. */
  function ParseLines(lines: seq<string>): (r: seq<Option<(string, string)>>)
    ensures |r| == |lines|
  {
    seq(|lines|, i requires 0 <= i < |lines| => ParseLine(lines[i]))
  }

  /** The dictionary filled from the first `n` parsed lines, in order: each
      entry sets its key to its value, overwriting an earlier one. */
  function Assign(entries: seq<Option<(string, string)>>, n: nat): map<string, string>
    requires n <= |entries|
  {
    if n == 0 then map[]
    else
      var m := Assign(entries, n - 1);
      match entries[n - 1]
      case None => m
      case Some((key, value)) => m[key := value]
  }

  /** The keys of the entries among the first `n`. */
  ghost function KeysOf(entries: seq<Option<(string, string)>>, n: nat): set<string>
    requires n <= |entries|
  {
    set i | 0 <= i < n && entries[i].Some? :: entries[i].value.0
  }

  /** Entry `i` is present and no later entry among the first `n` has its key. */
  predicate LastWithKey(entries: seq<Option<(string, string)>>, i: nat, n: nat)
    requires i < n <= |entries|
  {
    entries[i].Some? && forall j :: i < j < n && entries[j].Some? ==> entries[j].value.0 != entries[i].value.0
  }

  /** The keys are those of the lines holding ':'; lines without one add nothing. */
  lemma {:induction false} AssignKeys(entries: seq<Option<(string, string)>>, n: nat)
    requires n <= |entries|
    ensures Assign(entries, n).Keys == KeysOf(entries, n)
  {
    if n > 0 {
      AssignKeys(entries, n - 1);
      KeysOfStep(entries, n);
    }
  }

  lemma KeysOfStep(entries: seq<Option<(string, string)>>, n: nat)
    requires 0 < n <= |entries|
    ensures KeysOf(entries, n) == KeysOf(entries, n - 1) + (if entries[n - 1].Some? then {entries[n - 1].value.0} else {})
  {
    var extra := if entries[n - 1].Some? then {entries[n - 1].value.0} else {};
    forall k | k in KeysOf(entries, n) ensures k in KeysOf(entries, n - 1) + extra {
      var i :| 0 <= i < n && entries[i].Some? && k == entries[i].value.0;
      if i < n - 1 {
        assert k in KeysOf(entries, n - 1);
      }
    }
    forall k | k in KeysOf(entries, n - 1) ensures k in KeysOf(entries, n) {
      var i :| 0 <= i < n - 1 && entries[i].Some? && k == entries[i].value.0;
      assert 0 <= i < n;
    }
  }

  /** A repeated key keeps the value of its last line. */
  lemma {:induction false} AssignLastWins(entries: seq<Option<(string, string)>>, i: nat, n: nat)
    requires i < n <= |entries| && LastWithKey(entries, i, n)
    ensures entries[i].value.0 in Assign(entries, n)
    ensures Assign(entries, n)[entries[i].value.0] == entries[i].value.1
  {
    if i < n - 1 {
      assert LastWithKey(entries, i, n - 1);
      AssignLastWins(entries, i, n - 1);
    }
  }

  // ---------------------------------------------------------------------------
  // The MIME line
  // ---------------------------------------------------------------------------

  const SelectedKey := "Selected folder or file"

  /** `output.split('\n')[-2].replace(metadata['Selected folder or file'], '').replace(',', '')`:
      the indexing is evaluated first, so a short output raises `IndexError`
      even when the key is missing too. */
  function ExtractMime(output: string, metadata: map<string, string>): (r: Result<string, IdentifyError>)
    ensures r == Failure(IndexError) <==> |Split(output, '\n')| < 2
    ensures r == Failure(KeyError) <==> |Split(output, '\n')| >= 2 && SelectedKey !in metadata
    ensures r.Success? ==> ',' !in r.value
  {
    var lines := Split(output, '\n');
    if |lines| < 2 then Failure(IndexError)
    else if SelectedKey !in metadata then Failure(KeyError)
    else
      var line := lines[|lines| - 2];
      RemoveCharGone(RemoveAll(line, metadata[SelectedKey]), ',');
      Success(RemoveAll(RemoveAll(line, metadata[SelectedKey]), ","))
  }

  /** A line `selection,mime` gives back `mime` when the selection has no
      comma and does not occur in the MIME text, and the MIME text has no comma. */
  lemma MimeLineRoundTrip(selection: string, mime: string)
    requires selection != [] && ',' !in selection && ',' !in mime
    requires !Contains(mime, selection)
    ensures RemoveAll(RemoveAll(selection + "," + mime, selection), ",") == mime
  {
    var line := selection + "," + mime;
    assert line[..|selection|] == selection;
    assert line[|selection|..] == "," + mime;
    var rest := "," + mime;
    if |rest| >= |selection| {
      assert rest[..|selection|] != selection by { assert rest[0] == ',' && selection[0] != ','; }
    }
    assert rest[1..] == mime;
    RemoveAllAbsent(mime, selection);
    assert RemoveAll(line, selection) == [','] + mime;
    assert ([','] + mime)[1..] == mime;
    NotContainsByChar(mime, ",", ',');
    RemoveAllAbsent(mime, ",");
  }

  /** What `identify_file` returns: the colon-line dictionary, whose
      `MIME Type` entry is then set to `mimeType`. A MIME type of `None` comes
      from a filename the guesser does not know. */
  datatype Identity = Identity(fields: map<string, string>, mimeType: Option<string>)

  /** `identify_file` once DROID has printed `output`; `guess` stands for
      `mimetypes.guess_type(filepath)[0]`, used when DROID says `Unknown`. */
  function IdentifyOutcome(output: string, guess: Option<string>): Result<Identity, IdentifyError> {
    var lines := Split(output, '\n');
    IdentityFrom(output, Assign(ParseLines(lines), |lines|), guess)
  }

  /** The tail of `identify_file`, once the colon lines have filled `metadata`. */
  function IdentityFrom(output: string, metadata: map<string, string>, guess: Option<string>): Result<Identity, IdentifyError> {
    match ExtractMime(output, metadata)
    case Failure(err) => Failure(err)
    case Success(mime) => Success(Identity(metadata, if mime == "Unknown" then guess else Some(mime)))
  }

  /** `identify_file`: the loop over the output's lines, then the MIME line. */
  method IdentifyFile(output: string, guess: Option<string>) returns (r: Result<Identity, IdentifyError>)
    ensures r == IdentifyOutcome(output, guess)
  {
    var lines := Split(output, '\n');
    var metadata := FillMetadata(ParseLines(lines));
    r := IdentityFrom(output, metadata, guess);
  }

  /** The loop of `identify_file` over the parsed lines: each entry stores its
      value under its key, later entries overwriting earlier ones. */
  method FillMetadata(entries: seq<Option<(string, string)>>) returns (metadata: map<string, string>)
    ensures metadata == Assign(entries, |entries|)
  {
    metadata := map[];
    var i := 0;
    while i < |entries|
      invariant 0 <= i <= |entries|
      invariant metadata == Assign(entries, i)
    {
      if entries[i].Some? {
        metadata := metadata[entries[i].value.0 := entries[i].value.1];
      }
      i := i + 1;
    }
  }

  /** A DROID report in the shape `identify_file` reads: the line
      `Selected folder or file: <path>`, the result line `<path>,<MIME type>`
      that is second to last, and the empty piece after the final newline. */
  function DroidReport(selection: string, mime: string): string {
    JoinWith([SelectedKey + ": " + selection, selection + "," + mime, ""], '\n')
  }

  /** `identify_file` reads such a report back: the dictionary holds just the
      selected path, and the MIME type is the one the report names, or the
      filename guess when DROID says `Unknown`. */
  lemma ReportRoundTrip(selection: string, mime: string, guess: Option<string>)
    requires selection != [] && !IsSpace(selection[0]) && !IsSpace(selection[|selection| - 1])
    requires ':' !in selection && ',' !in selection && '\n' !in selection
    requires ':' !in mime && ',' !in mime && '\n' !in mime
    requires !Contains(mime, selection)
    ensures IdentifyOutcome(DroidReport(selection, mime), guess)
         == Success(Identity(map[SelectedKey := selection], if mime == "Unknown" then guess else Some(mime)))
  {
    ReportLines(selection, mime);
    ReportEntries(selection, mime);
    AssignOneEntry(SelectedKey, selection);
    MimeLineRoundTrip(selection, mime);
  }

  /** The report's lines are its three pieces. */
  lemma ReportLines(selection: string, mime: string)
    requires '\n' !in selection && '\n' !in mime
    ensures Split(DroidReport(selection, mime), '\n') == [SelectedKey + ": " + selection, selection + "," + mime, ""]
  {
    var lines := [SelectedKey + ": " + selection, selection + "," + mime, ""];
    assert '\n' !in lines[0] && '\n' !in lines[1];
    SplitJoinWith(lines, '\n');
  }

  /** Only the selection line holds ':', and it parses to the selected path. */
  lemma ReportEntries(selection: string, mime: string)
    requires selection != [] && !IsSpace(selection[0]) && !IsSpace(selection[|selection| - 1])
    requires ':' !in selection && ':' !in mime
    ensures ParseLines([SelectedKey + ": " + selection, selection + "," + mime, ""])
         == [Some((SelectedKey, selection)), None, None]
  {
    var line0 := SelectedKey + ": " + selection;
    var line1 := selection + "," + mime;
    ParseThreeLines(line0, line1, "");
    SelectionLine(selection);
    assert ':' !in line1;
  }

  /** The selection line parses to the selected path under its key. */
  lemma SelectionLine(selection: string)
    requires selection != [] && !IsSpace(selection[0]) && !IsSpace(selection[|selection| - 1])
    ensures ParseLine(SelectedKey + ": " + selection) == Some((SelectedKey, selection))
  {
    SelectedKeyClean();
    ColonLineRoundTrip(SelectedKey, selection);
  }

  lemma SelectedKeyClean()
    ensures ':' !in SelectedKey && !IsSpace(SelectedKey[0]) && !IsSpace(SelectedKey[|SelectedKey| - 1])
  {
  }

  lemma ParseThreeLines(a: string, b: string, c: string)
    ensures ParseLines([a, b, c]) == [ParseLine(a), ParseLine(b), ParseLine(c)]
  {
  }

  /** One entry among lines without ':' gives a one-key dictionary. */
  lemma AssignOneEntry(key: string, value: string)
    ensures Assign([Some((key, value)), None, None], 3) == map[key := value]
  {
    var entries := [Some((key, value)), None, None];
    assert Assign(entries, 1) == map[key := value];
    assert Assign(entries, 2) == map[key := value];
  }

  /** When DROID reports `Unknown`, the MIME type is the filename guess,
      which may itself be `None`. */
  lemma UnknownUsesGuess(selection: string, guess: Option<string>)
    requires selection != [] && !IsSpace(selection[0]) && !IsSpace(selection[|selection| - 1])
    requires ':' !in selection && ',' !in selection && '\n' !in selection
    requires !Contains("Unknown", selection)
    ensures IdentifyOutcome(DroidReport(selection, "Unknown"), guess) == Success(Identity(map[SelectedKey := selection], guess))
  {
    ReportRoundTrip(selection, "Unknown", guess);
  }

  // ---------------------------------------------------------------------------
  // Conversions and dispatch
  // ---------------------------------------------------------------------------

  /** The targets with a `convert_to_*` function. */
  predicate HasConverter(t: Target) {
    t == Mp4 || t == Doc || t == Svg
  }

  /** `convert_to_mp4`, `convert_to_doc`, `convert_to_svg`: the input's path
      with its last extension replaced, when the tool succeeds; `None` when it
      exits non-zero; other exceptions propagate. */
  function ConvertToTarget(t: Target, filepath: string, e: Effect): (r: ActionResult)
    requires HasConverter(t)
    ensures r == Raised <==> e == Crashed
    ensures r == Returned(None) <==> e == NonZeroExit
    ensures e == Completed ==> r == Returned(Some(Stem(filepath) + Suffix(t)))
  {
    match e
    case Completed => Returned(Some(Stem(filepath) + Suffix(t)))
    case NonZeroExit => Returned(None)
    case Crashed => Raised
  }

  /** The derivative lies beside its input and carries the target's
      extension in place of the old one. */
  lemma DerivativeBesideInput(filepath: string, suffix: string)
    requires |suffix| >= 2 && suffix[0] == '.' && '.' !in suffix[1..] && '/' !in suffix
    requires !AllDots(Basename(filepath))
    ensures Dirname(Stem(filepath) + suffix) == Dirname(filepath)
    ensures Ext(Stem(filepath) + suffix) == suffix
    ensures Stem(Stem(filepath) + suffix) == Stem(filepath)
  {
    BesideInput(filepath, suffix);
    StemKeepsNonDot(Basename(filepath));
    StemOfSuffixed(filepath, suffix);
  }

  /** The if/elif chain of `convert_file`, over an already lowercased MIME type.
      Unlike `norm_file` it has no `postscript`, `text/xml` or `text/plain` case. */
  function ConvertRoute(mime: string): (r: Route)
    ensures r.ConvertTo? ==> r.target == Mp4 || r.target == Doc
  {
    if Contains(mime, "audio") then AudioToMp3
    else if Contains(mime, "video") then ConvertTo(Mp4)
    else if Contains(mime, "image/svg") then KeepAsIs
    else if Contains(mime, DocxMime) then ConvertTo(Doc)
    else Unsupported
  }

  const ConvertRules: seq<Rule> := [
    Rule(Substring("audio"), AudioToMp3),
    Rule(Substring("video"), ConvertTo(Mp4)),
    Rule(Substring("image/svg"), KeepAsIs),
    Rule(Substring(DocxMime), ConvertTo(Doc))
  ]

  /** `convert_file` takes the first rule, in order, that the MIME type matches. */
  lemma ConvertRouteIsFirstMatch(mime: string)
    ensures ConvertRoute(mime) == FirstMatch(ConvertRules, mime)
  {
    var rs := ConvertRules;
    var k := if Contains(mime, "audio") then 0
      else if Contains(mime, "video") then 1
      else if Contains(mime, "image/svg") then 2
      else if Contains(mime, DocxMime) then 3
      else 4;
    if k < 4 {
      assert FirstMatching(rs, mime, k);
      FirstMatchIsFirst(rs, mime, k);
    } else {
      FirstMatchNone(rs, mime);
    }
  }

  /** Wherever `convert_file` routes, `norm_file` routes the same way, except
      that its `postscript` and `text/xml` cases come before the DOCX case. */
  lemma NormFileExtendsConvertFile(mime: string)
    requires ConvertRoute(mime) != Unsupported
    requires ConvertRoute(mime) == ConvertTo(Doc) ==> !Contains(mime, "postscript") && !Contains(mime, "text/xml")
    ensures NormRoute(mime) == ConvertRoute(mime)
  {
  }

  /** The route `convert_file` takes on an identification, or `None` when it
      raises before routing: identification failed, or the MIME type is
      `None` and `None.lower()` raises. */
  function ConvertFileRoute(identity: Result<Identity, IdentifyError>): Option<Route> {
    if identity.Failure? || identity.value.mimeType.None? then None
    else Some(ConvertRoute(Lower(identity.value.mimeType.value)))
  }

  /** `convert_file`: identify the file, then route on the lowercased
      `MIME Type`. Audio goes through pydub, which raises on any failure, to
      the input's path with `.mp3` in place of its extension; a conversion
      returns its derivative beside the input; an SVG comes back as it is.
      It raises exactly when it cannot route, pydub fails or a converter
      crashes, and returns `None` exactly for an unsupported type or a
      converter that exited non-zero. Every returned path lies in the
      input's directory. */
  function ConvertFile(filepath: string, identity: Result<Identity, IdentifyError>, e: Effect): (r: ActionResult)
    ensures r.Returned? && r.value.Some? ==> Dirname(r.value.value) == Dirname(filepath)
    ensures ConvertFileRoute(identity) == None ==> r == Raised
    ensures r == Raised <==>
              ConvertFileRoute(identity) == None ||
              (ConvertFileRoute(identity) == Some(AudioToMp3) && e != Completed) ||
              (ConvertFileRoute(identity).Some? && ConvertFileRoute(identity).value.ConvertTo? && e == Crashed)
    ensures r == Returned(None) <==>
              ConvertFileRoute(identity) == Some(Unsupported) ||
              (ConvertFileRoute(identity).Some? && ConvertFileRoute(identity).value.ConvertTo? && e == NonZeroExit)
    ensures ConvertFileRoute(identity) == Some(KeepAsIs) ==> r == Returned(Some(filepath))
    ensures ConvertFileRoute(identity) == Some(AudioToMp3) && e == Completed ==>
              r == Returned(Some(Stem(filepath) + ".mp3"))
    ensures ConvertFileRoute(identity).Some? && ConvertFileRoute(identity).value.ConvertTo? && e == Completed ==>
              r == Returned(Some(Stem(filepath) + Suffix(ConvertFileRoute(identity).value.target)))
  {
    match ConvertFileRoute(identity)
    case None => Raised
    case Some(route) =>
      match route
      case AudioToMp3 =>
        if e == Completed then
          BesideInput(filepath, ".mp3");
          Returned(Some(Stem(filepath) + ".mp3"))
        else Raised
      case ConvertTo(t) =>
        BesideInput(filepath, Suffix(t));
        ConvertToTarget(t, filepath, e)
      case KeepAsIs => Returned(Some(filepath))
      case Unsupported => Returned(None)
  }

  /** A derivative that `convert_file` produces carries the extension of the
      format its route converts to, as the test suite checks for each
      conversion. */
  lemma ConvertFileExtension(filepath: string, identity: Result<Identity, IdentifyError>)
    requires !AllDots(Basename(filepath))
    ensures var r := ConvertFile(filepath, identity, Completed);
      ConvertFileRoute(identity) == Some(AudioToMp3) ==> r.Returned? && r.value.Some? && Ext(r.value.value) == ".mp3"
    ensures var r := ConvertFile(filepath, identity, Completed);
      var route := ConvertFileRoute(identity);
      route.Some? && route.value.ConvertTo? ==>
        r.Returned? && r.value.Some? && Ext(r.value.value) == Suffix(route.value.target)
  {
    var route := ConvertFileRoute(identity);
    StemKeepsNonDot(Basename(filepath));
    if route == Some(AudioToMp3) {
      StemOfSuffixed(filepath, ".mp3");
    } else if route.Some? && route.value.ConvertTo? {
      StemOfSuffixed(filepath, Suffix(route.value.target));
    }
  }

  // ---------------------------------------------------------------------------
  // Against normalize.py
  // ---------------------------------------------------------------------------

  /** With a single separator before the name (or none at all), the old
      `splitext(filepath)[0] + suffix` is the new output path without an
      output directory. */
  lemma OldPathAgreesWithConstruct(filepath: string, suffix: string)
    requires '/' !in suffix
    requires var head := filepath[..|filepath| - |Basename(filepath)|];
      head == [] || AllSlashes(head) || (|head| >= 2 && head[|head| - 2] != '/')
    ensures Stem(filepath) + suffix == ConstructOutputPath(filepath, suffix, None)
  {
    StemPathIsJoin(filepath, suffix);
    ConstructOutputPathUnfold(filepath, suffix);
  }

  /** A doubled separator is kept by the old path and collapsed by the new one. */
  lemma DoubledSeparatorDiffers()
    ensures Stem("a//x.wav") + ".mp3" == "a//x.mp3"
    ensures ConstructOutputPath("a//x.wav", ".mp3", None) == "a/x.mp3"
  {
    DoubledSeparatorOldPath();
    DoubledSeparatorNewPath();
  }

  lemma DoubledSeparatorOldPath()
    ensures Stem("a//x.wav") + ".mp3" == "a//x.mp3"
  {
    DoubledSeparatorNames();
    DoubledSeparatorJoins();
  }

  lemma DoubledSeparatorNewPath()
    ensures ConstructOutputPath("a//x.wav", ".mp3", None) == "a/x.mp3"
  {
    ConstructOutputPathUnfold("a//x.wav", ".mp3");
    DoubledSeparatorNames();
    DoubledSeparatorDirname();
    DoubledSeparatorJoins();
  }

  lemma DoubledSeparatorNames()
    ensures Basename("a//x.wav") == "x.wav"
    ensures Stem("a//x.wav") == "a//x"
    ensures Stem("x.wav") == "x"
  {
    DoubledSeparatorPath();
    NameAfterDir("a//", "x" + "." + "wav");
    SplitExtOfName("x", "wav");
  }

  lemma DoubledSeparatorPath()
    ensures "a//x.wav" == "a//" + ("x" + "." + "wav")
    ensures !AllDots("x") && '/' !in "x" && '/' !in "wav" && '.' !in "wav"
  {
    assert "x"[0] != '.';
  }

  lemma DoubledSeparatorDirname()
    ensures Dirname("a//x.wav") == "a"
  {
    LastIndexOfIs("a//x.wav", '/', 2);
    assert "a//x.wav"[..3] == "a//";
    assert !AllSlashes("a//") by { assert "a//"[0] != '/'; }
    assert TrimTrailingSlashes("a//") == "a" by {
      assert "a//"[..2] == "a/";
      assert "a/"[..1] == "a";
    }
  }

  lemma DoubledSeparatorJoins()
    ensures "a//x" + ".mp3" == "a//x.mp3"
    ensures Join("a", "x" + ".mp3") == "a/x.mp3"
  {
  }
}
