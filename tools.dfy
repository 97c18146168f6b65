/** Option and Result, the stand-ins for Python's `None` and raised errors. */
module Wrappers {
  datatype Option<T> = None | Some(value: T)

  datatype Result<T, E> = Success(value: T) | Failure(error: E)
}

/** What the normalization scripts see of the external programs they run
    (ffmpeg, LibreOffice, Inkscape, pydub, file copies), and the MIME-type
    routing rules shared by both scripts. */
module Tools {
  import opened Wrappers
  import opened Text

  /** What one external step did. `NonZeroExit`: the program ran and exited
      with a non-zero status, which `subprocess.check_call` reports as
      `CalledProcessError`. `Crashed`: any other exception (the program could
      not be started, the copy failed, a decoder refused the input). */
  datatype Effect = Completed | NonZeroExit | Crashed

  /** What a Python conversion function did: it returned a value (a path, or
      `None`), or an exception escaped it. */
  datatype ActionResult = Returned(value: Option<string>) | Raised

  /** The preservation formats the scripts produce. */
  datatype Target = Mp3 | Mp4 | Doc | Pdf | Svg

  /** The file suffix each conversion writes. */
  function Suffix(t: Target): (s: string)
    ensures |s| >= 2 && s[0] == '.' && '.' !in s[1..] && '/' !in s
  {
    match t
    case Mp3 => ".mp3"
    case Mp4 => ".mp4"
    case Doc => ".doc"
    case Pdf => ".pdf"
    case Svg => ".svg"
  }

  /** The choice made by the substring-based single-file dispatch. */
  datatype Route = AudioToMp3 | ConvertTo(target: Target) | KeepAsIs | Unsupported

  /** One test of an `if`/`elif` chain over a lowercased MIME type. */
  datatype Matcher = Substring(needle: string) | Exactly(text: string)

  predicate Matches(m: Matcher, mime: string) {
    match m
    case Substring(needle) => Contains(mime, needle)
    case Exactly(text) => mime == text
  }

  datatype Rule = Rule(matcher: Matcher, route: Route)

  /** Rule `i` matches and no earlier rule does. */
  predicate FirstMatching(rules: seq<Rule>, mime: string, i: int)
    requires 0 <= i < |rules|
  {
    Matches(rules[i].matcher, mime) && forall j :: 0 <= j < i ==> !Matches(rules[j].matcher, mime)
  }

  /** The route of the first rule that matches, `Unsupported` when none does. */
  function FirstMatch(rules: seq<Rule>, mime: string): Route {
    if |rules| == 0 then Unsupported
    else if Matches(rules[0].matcher, mime) then rules[0].route
    else FirstMatch(rules[1..], mime)
  }

  /** `FirstMatch` is the route of the rule that matches first, and
      `Unsupported` exactly when no rule matches. */
  lemma {:induction false} FirstMatchIsFirst(rules: seq<Rule>, mime: string, i: int)
    requires 0 <= i < |rules| && FirstMatching(rules, mime, i)
    ensures FirstMatch(rules, mime) == rules[i].route
  {
    if i > 0 {
      assert !Matches(rules[0].matcher, mime);
      FirstMatchingTail(rules, mime, i);
      FirstMatchIsFirst(rules[1..], mime, i - 1);
    }
  }

  /** With no rule matching, the route is `Unsupported`. */
  lemma {:induction false} FirstMatchNone(rules: seq<Rule>, mime: string)
    requires forall i :: 0 <= i < |rules| ==> !Matches(rules[i].matcher, mime)
    ensures FirstMatch(rules, mime) == Unsupported
  {
    if |rules| > 0 {
      assert !Matches(rules[0].matcher, mime);
      forall i | 0 <= i < |rules| - 1 ensures !Matches(rules[1..][i].matcher, mime) {
        assert rules[1..][i] == rules[i + 1];
      }
      FirstMatchNone(rules[1..], mime);
    }
  }

  /** Past a first rule that does not match, rule `i` is the first to match
      exactly when rule `i - 1` is so among the remaining rules. */
  lemma FirstMatchingTail(rules: seq<Rule>, mime: string, i: int)
    requires 1 <= i < |rules| && !Matches(rules[0].matcher, mime)
    ensures FirstMatching(rules, mime, i) <==> FirstMatching(rules[1..], mime, i - 1)
  {
    assert forall j :: 0 <= j < i - 1 ==> rules[1..][j] == rules[j + 1];
    if FirstMatching(rules[1..], mime, i - 1) {
      forall j | 0 <= j < i ensures !Matches(rules[j].matcher, mime) {
        if j > 0 {
          assert rules[1..][j - 1] == rules[j];
        }
      }
    }
  }
}
