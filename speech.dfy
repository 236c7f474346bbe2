// The discrete logic of SpeechAnalyzer: the empty-speech guard, the word,
// filler and pause counts handed to the scoring heuristics, and the outcome
// of the external analysis (three fallbacks, then a line-by-line parse).
//
// The floating-point heuristics are a parameter (`heuristic`), the external
// process is its observable result (`AnalyzerRun`), and float.TryParse is a
// parameter (`parse`).

module Speech {
  import opened Optional
  import opened Strings

  const Fillers: seq<string> := ["um", "uh", "like", "you know", "so", "actually"]
  const Ellipsis: string := "..."
  const EmDash: string := "\U{2014}"
  const PauseMarks: seq<string> := [Ellipsis, EmDash]
  const Newline: string := "\n"

  const NoSpeechMessage: string := "No speech detected. Please try again."
  const ScriptMissingMessage: string := "AI Analysis Error: Script not found."
  const ErrorPrefix: string := "AI Analysis Error: "
  const NoResponseMessage: string := "AI Analysis Error: No response from AI."

  // ---------------------------------------------------------------- counting

  /** ToLower on one character, for the ASCII letters. */
  function LowerChar(c: char): char {
    if 'A' <= c <= 'Z' then (c as int + 32) as char else c
  }

  function ToLower(s: string): (r: string)
    ensures |r| == |s|
  {
    seq(|s|, i requires 0 <= i < |s| => LowerChar(s[i]))
  }

  /** speech.Split(' ').Length: one more than the number of spaces, so never
      zero, even for a speech with no space at all. */
  function WordCount(speech: string): (n: nat)
    ensures n == multiset(speech)[' '] + 1
  {
    CharSeparatorCount(speech, ' ');
    |Split(speech, [" "])|
  }

  /** A space joins the words on either side of it. */
  lemma WordCountJoin(a: string, b: string)
    ensures WordCount(a + " " + b) == WordCount(a) + WordCount(b)
  {
    assert multiset(a + " " + b) == multiset(a) + multiset(" ") + multiset(b);
  }

  /** A speech without a space is one word. */
  lemma WordCountNoSpace(w: string)
    requires ' ' !in w
    ensures WordCount(w) == 1
  {
  }

  /** speech.ToLower().Split(filler).Length - 1: the number of non-overlapping
      occurrences of filler, scanning left to right. */
  function FillerCount(speech: string, filler: string): (n: nat)
    ensures n == |Separators(ToLower(speech), [filler])|
    ensures n * |filler| <= |speech|
  {
    SingleSeparatorBound(ToLower(speech), filler);
    |Split(ToLower(speech), [filler])| - 1
  }

  /** A filler counts zero exactly when it does not occur in the lower-cased
      speech. */
  lemma FillerCountZero(speech: string, filler: string)
    ensures FillerCount(speech, filler) == 0 <==> !Occurs(filler, ToLower(speech))
  {
    NoCutIffAbsent(ToLower(speech), [filler]);
    assert [filler][0] == filler;
  }

  /** The sum of the counts of the given fillers. */
  function FillerTotal(speech: string, fillers: seq<string>): nat
    decreases |fillers|
  {
    if fillers == [] then 0
    else FillerTotal(speech, fillers[..|fillers| - 1]) + FillerCount(speech, fillers[|fillers| - 1])
  }

  /** CountFillerWords: adds up the count of each of the six fillers. */
  method CountFillerWords(speech: string) returns (count: nat)
    ensures count == FillerTotal(speech, Fillers)
  {
    count := 0;
    for i := 0 to |Fillers|
      invariant count == FillerTotal(speech, Fillers[..i])
    {
      var filler := Fillers[i];
      count := count + (|Split(ToLower(speech), [filler])| - 1);
      assert Fillers[..i + 1][..i] == Fillers[..i];
    }
    assert Fillers[..|Fillers|] == Fillers;
  }

  /** The filler total is zero exactly when no filler occurs in the
      lower-cased speech. */
  lemma {:induction false} FillerTotalZero(speech: string, fillers: seq<string>)
    ensures FillerTotal(speech, fillers) == 0
            <==> forall j :: 0 <= j < |fillers| ==> !Occurs(fillers[j], ToLower(speech))
    decreases |fillers|
  {
    if fillers != [] {
      var init := fillers[..|fillers| - 1];
      FillerTotalZero(speech, init);
      FillerCountZero(speech, fillers[|fillers| - 1]);
      assert forall j :: 0 <= j < |init| ==> init[j] == fillers[j];
    }
  }

  /** Adding one more filler adds its count. */
  lemma FillerTotalStep(speech: string, fillers: seq<string>, k: nat)
    requires k < |fillers|
    ensures FillerTotal(speech, fillers[..k + 1]) == FillerTotal(speech, fillers[..k]) + FillerCount(speech, fillers[k])
  {
    assert fillers[..k + 1][..k] == fillers[..k];
  }

  /** Over a list of six fillers, such as Fillers, the total is the sum of
      the six separate counts. */
  lemma FillerTotalOfSix(speech: string, fillers: seq<string>)
    requires |fillers| == 6
    ensures FillerTotal(speech, fillers)
            == FillerCount(speech, fillers[0]) + FillerCount(speech, fillers[1]) + FillerCount(speech, fillers[2])
               + FillerCount(speech, fillers[3]) + FillerCount(speech, fillers[4]) + FillerCount(speech, fillers[5])
  {
    assert fillers[..0] == [];
    FillerTotalStep(speech, fillers, 0);
    FillerTotalStep(speech, fillers, 1);
    FillerTotalStep(speech, fillers, 2);
    FillerTotalStep(speech, fillers, 3);
    FillerTotalStep(speech, fillers, 4);
    FillerTotalStep(speech, fillers, 5);
    assert fillers[..6] == fillers;
  }

  /** CountPauses: speech.Split({"...", "—"}).Length - 1. */
  function CountPauses(speech: string): (n: nat)
    ensures n == |Separators(speech, PauseMarks)|
    ensures n <= |speech|
    ensures n == 0 <==> !Occurs(Ellipsis, speech) && !Occurs(EmDash, speech)
  {
    SeparatorsBound(speech, PauseMarks);
    NoCutIffAbsent(speech, PauseMarks);
    assert PauseMarks[0] == Ellipsis && PauseMarks[1] == EmDash;
    |Split(speech, PauseMarks)| - 1
  }

  /** Without a dash, the pauses are the non-overlapping ellipses. */
  lemma {:induction false} PausesWithoutDash(speech: string)
    requires EmDash[0] !in speech
    ensures Separators(speech, PauseMarks) == Separators(speech, [Ellipsis])
    decreases |speech|
  {
    if speech != [] {
      assert !StartsWith(speech, EmDash);
      if StartsWith(speech, Ellipsis) {
        var tail := speech[|Ellipsis|..];
        assert forall i :: 0 <= i < |tail| ==> tail[i] == speech[i + 3];
        PausesWithoutDash(tail);
      } else {
        var tail := speech[1..];
        assert forall i :: 0 <= i < |tail| ==> tail[i] == speech[i + 1];
        PausesWithoutDash(tail);
      }
    }
  }

  // ------------------------------------------------------- external analysis

  /** What the external analysis produced: whether the script file exists, and
      what the process wrote to standard output and standard error. */
  datatype AnalyzerRun = AnalyzerRun(scriptExists: bool, stdout: string, stderr: string)

  datatype Analysis =
    | ScriptMissing
    | ScriptFailed(stderr: string)
    | NoResponse
    | Answered(aiScore: real, feedback: string)

  /** What the two text fields end up showing: the feedback, and the score
      that the score text renders as "Score: " + score.ToString("F1") + "/10". */
  datatype Report = Report(feedback: string, score: real)

  /** A line counts as a score when float.TryParse accepts it once trimmed. */
  predicate IsScoreLine(line: string, parse: string -> Option<real>) {
    Parsed(line, parse).Some?
  }

  /** output.Split('\n') */
  function Lines(output: string): seq<string> {
    Split(output, [Newline])
  }

  /** float.TryParse(line.Trim()) */
  function Parsed(line: string, parse: string -> Option<real>): Option<real> {
    parse(Trim(line))
  }

  /** The value of the last line that parses as a number, if any. */
  function LastScore(lines: seq<string>, parse: string -> Option<real>): Option<real>
    decreases |lines|
  {
    if lines == [] then None
    else if IsScoreLine(lines[|lines| - 1], parse) then Parsed(lines[|lines| - 1], parse)
    else LastScore(lines[..|lines| - 1], parse)
  }

  /** LastScore finds a score exactly when some line parses, and then it is
      the value of a line after which no line parses. */
  lemma LastScoreIsLast(lines: seq<string>, parse: string -> Option<real>)
    ensures LastScore(lines, parse).None? <==> forall i :: 0 <= i < |lines| ==> !IsScoreLine(lines[i], parse)
    ensures LastScore(lines, parse).Some? ==>
              exists i :: 0 <= i < |lines| && Parsed(lines[i], parse) == LastScore(lines, parse)
                          && forall j :: i < j < |lines| ==> !IsScoreLine(lines[j], parse)
  {
    LastScoreNone(lines, parse);
    if LastScore(lines, parse).Some? {
      var i := LastScoreLine(lines, parse);
    }
  }

  lemma {:induction false} LastScoreNone(lines: seq<string>, parse: string -> Option<real>)
    ensures LastScore(lines, parse).None? <==> forall i :: 0 <= i < |lines| ==> !IsScoreLine(lines[i], parse)
    decreases |lines|
  {
    if lines != [] {
      var init := lines[..|lines| - 1];
      LastScoreNone(init, parse);
      assert forall i :: 0 <= i < |init| ==> init[i] == lines[i];
    }
  }

  /** The line LastScore takes its value from. */
  lemma {:induction false} LastScoreLine(lines: seq<string>, parse: string -> Option<real>) returns (i: nat)
    requires LastScore(lines, parse).Some?
    ensures i < |lines| && Parsed(lines[i], parse) == LastScore(lines, parse)
    ensures forall j :: i < j < |lines| ==> !IsScoreLine(lines[j], parse)
    decreases |lines|
  {
    var n := |lines|;
    if IsScoreLine(lines[n - 1], parse) {
      i := n - 1;
    } else {
      var init := lines[..n - 1];
      assert LastScore(lines, parse) == LastScore(init, parse);
      i := LastScoreLine(init, parse);
      assert lines[i] == init[i];
      forall j | i < j < n ensures !IsScoreLine(lines[j], parse) {
        if j < n - 1 {
          assert lines[j] == init[j];
        }
      }
    }
  }

  /** The lines that do not parse as a number, in order. */
  function TextLines(lines: seq<string>, parse: string -> Option<real>): seq<string>
    decreases |lines|
  {
    if lines == [] then []
    else if IsScoreLine(lines[|lines| - 1], parse) then TextLines(lines[..|lines| - 1], parse)
    else TextLines(lines[..|lines| - 1], parse) + [lines[|lines| - 1]]
  }

  /** TextLines keeps exactly the lines that do not parse: no number line is
      among them and no text line is missing. */
  lemma {:induction false} TextLinesExactly(lines: seq<string>, parse: string -> Option<real>)
    ensures forall l :: l in TextLines(lines, parse) ==> l in lines && !IsScoreLine(l, parse)
    ensures forall i :: 0 <= i < |lines| && !IsScoreLine(lines[i], parse) ==> lines[i] in TextLines(lines, parse)
    decreases |lines|
  {
    if lines != [] {
      var n := |lines|;
      var init := lines[..n - 1];
      TextLinesExactly(init, parse);
      assert forall i :: 0 <= i < n - 1 ==> init[i] == lines[i];
    }
  }

  /** TextLines keeps the order of the lines: it distributes over +. */
  lemma {:induction false} TextLinesAppend(a: seq<string>, b: seq<string>, parse: string -> Option<real>)
    ensures TextLines(a + b, parse) == TextLines(a, parse) + TextLines(b, parse)
    decreases |b|
  {
    if b != [] {
      var b' := b[..|b| - 1];
      assert (a + b)[..|a + b| - 1] == a + b';
      assert (a + b)[|a + b| - 1] == b[|b| - 1];
      TextLinesAppend(a, b', parse);
    } else {
      assert a + b == a;
    }
  }

  /** Each line followed by "\n", concatenated. */
  function Terminated(ls: seq<string>): string
    decreases |ls|
  {
    if ls == [] then [] else Terminated(ls[..|ls| - 1]) + ls[|ls| - 1] + Newline
  }

  /** The parse loop of GetAIAnalysis: every line that parses as a number
      overwrites the AI score, every other line is appended to the feedback
      with a newline. */
  method ParseOutput(output: string, baseScore: real, parse: string -> Option<real>)
    returns (aiScore: real, feedback: string)
    ensures aiScore == LastScore(Lines(output), parse).GetOr(baseScore)
    ensures feedback == Terminated(TextLines(Lines(output), parse))
  {
    var lines := Split(output, [Newline]);
    aiScore := baseScore;
    feedback := "";
    for i := 0 to |lines|
      invariant aiScore == LastScore(lines[..i], parse).GetOr(baseScore)
      invariant feedback == Terminated(TextLines(lines[..i], parse))
    {
      var line := lines[i];
      assert lines[..i + 1][..i] == lines[..i];
      match parse(Trim(line)) {
        case Some(extractedScore) =>
          aiScore := extractedScore;
        case None =>
          feedback := feedback + line + Newline;
      }
    }
    assert lines[..|lines|] == lines;
  }

  /** Mathf.Clamp(x, lo, hi), on reals. */
  function Clamp(x: real, lo: real, hi: real): (r: real)
    ensures lo <= hi ==> lo <= r <= hi
    ensures lo <= x <= hi ==> r == x
  {
    if x < lo then lo else if x > hi then hi else x
  }

  /** The final score of an answered analysis: the mean of the base and AI
      scores, clamped to [0, 10]. */
  function MergedScore(baseScore: real, aiScore: real): (r: real)
    ensures 0.0 <= r <= 10.0
    ensures 0.0 <= baseScore <= 10.0 && aiScore == baseScore ==> r == baseScore
  {
    Clamp((baseScore + aiScore) / 2.0, 0.0, 10.0)
  }

  /** The outcome of GetAIAnalysis: the script must exist, standard error
      must be blank and standard output must not be; only then is the output
      parsed. */
  function Analyze(run: AnalyzerRun, baseScore: real, parse: string -> Option<real>): Analysis {
    if !run.scriptExists then ScriptMissing
    else if !IsNullOrWhiteSpace(run.stderr) then ScriptFailed(run.stderr)
    else if IsNullOrWhiteSpace(run.stdout) then NoResponse
    else
      var lines := Lines(run.stdout);
      Answered(LastScore(lines, parse).GetOr(baseScore), Trim(Terminated(TextLines(lines, parse))))
  }

  function ReportOf(a: Analysis, baseScore: real): Report {
    match a
    case ScriptMissing => Report(ScriptMissingMessage, baseScore)
    case ScriptFailed(err) => Report(ErrorPrefix + err, baseScore)
    case NoResponse => Report(NoResponseMessage, baseScore)
    case Answered(aiScore, feedback) => Report(feedback, MergedScore(baseScore, aiScore))
  }

  /** The fallbacks, in order of precedence: each keeps the base score,
      shows its own message, and does not depend on the parser. */
  lemma FallbackPrecedence(run: AnalyzerRun, baseScore: real, parse: string -> Option<real>,
                           otherParse: string -> Option<real>)
    ensures !run.scriptExists
            ==> ReportOf(Analyze(run, baseScore, parse), baseScore) == Report(ScriptMissingMessage, baseScore)
    ensures run.scriptExists && !IsNullOrWhiteSpace(run.stderr)
            ==> ReportOf(Analyze(run, baseScore, parse), baseScore) == Report(ErrorPrefix + run.stderr, baseScore)
    ensures run.scriptExists && IsNullOrWhiteSpace(run.stderr) && IsNullOrWhiteSpace(run.stdout)
            ==> ReportOf(Analyze(run, baseScore, parse), baseScore) == Report(NoResponseMessage, baseScore)
    ensures Analyze(run, baseScore, parse).Answered?
            <==> run.scriptExists && IsNullOrWhiteSpace(run.stderr) && !IsNullOrWhiteSpace(run.stdout)
    ensures !Analyze(run, baseScore, parse).Answered?
            ==> Analyze(run, baseScore, parse) == Analyze(run, baseScore, otherParse)
  {
  }

  /** An answered analysis takes the last line that parses as its AI score,
      or the base score when no line does. */
  lemma AnsweredScore(run: AnalyzerRun, baseScore: real, parse: string -> Option<real>)
    requires Analyze(run, baseScore, parse).Answered?
    ensures var lines := Lines(run.stdout); var ai := Analyze(run, baseScore, parse).aiScore;
      ((forall i :: 0 <= i < |lines| ==> !IsScoreLine(lines[i], parse)) ==> ai == baseScore)
      && ((exists i :: 0 <= i < |lines| && IsScoreLine(lines[i], parse))
          ==> exists i :: 0 <= i < |lines| && Parsed(lines[i], parse) == Some(ai)
                          && forall j :: i < j < |lines| ==> !IsScoreLine(lines[j], parse))
  {
    LastScoreIsLast(Lines(run.stdout), parse);
  }

  /** With no line parsing and a base score in range, the final score is the
      base score. */
  lemma NoScoreKeepsBase(run: AnalyzerRun, baseScore: real, parse: string -> Option<real>)
    requires Analyze(run, baseScore, parse).Answered?
    requires forall i :: 0 <= i < |Lines(run.stdout)| ==> !IsScoreLine(Lines(run.stdout)[i], parse)
    requires 0.0 <= baseScore <= 10.0
    ensures ReportOf(Analyze(run, baseScore, parse), baseScore).score == baseScore
  {
    LastScoreIsLast(Lines(run.stdout), parse);
  }

  // -------------------------------------------------------------- evaluation

  /** What the scoring heuristics are given. */
  datatype SpeechStats = SpeechStats(length: nat, words: nat, fillers: nat, pauses: nat, duration: real)

  function Stats(speech: string, duration: real): SpeechStats {
    SpeechStats(|speech|, WordCount(speech), FillerTotal(speech, Fillers), CountPauses(speech), duration)
  }

  /** EvaluateSpeech followed by GetAIAnalysis, as seen on the text fields. */
  function Evaluate(speech: string, duration: real, heuristic: SpeechStats -> real,
                    run: AnalyzerRun, parse: string -> Option<real>): Report
  {
    if IsNullOrWhiteSpace(speech) then Report(NoSpeechMessage, 0.0)
    else
      var baseScore := heuristic(Stats(speech, duration));
      ReportOf(Analyze(run, baseScore, parse), baseScore)
  }

  /** Blank speech ends the evaluation at once: the result is the fixed
      message with score 0.0, whatever the duration, heuristics, analyzer or
      parser. */
  lemma NoSpeechShortCircuit(speech: string, duration: real, heuristic: SpeechStats -> real,
                             run: AnalyzerRun, parse: string -> Option<real>,
                             duration': real, heuristic': SpeechStats -> real,
                             run': AnalyzerRun, parse': string -> Option<real>)
    requires IsNullOrWhiteSpace(speech)
    ensures Evaluate(speech, duration, heuristic, run, parse) == Report(NoSpeechMessage, 0.0)
    ensures Evaluate(speech, duration, heuristic, run, parse)
            == Evaluate(speech, duration', heuristic', run', parse')
  {
  }

  class SpeechAnalyzer {
    /** feedbackText.text */
    var feedbackText: string
    /** The number that scoreText.text shows. */
    var shownScore: real

    constructor ()
      ensures feedbackText == "" && shownScore == 0.0
    {
      feedbackText := "";
      shownScore := 0.0;
    }

    method EvaluateSpeech(speech: string, duration: real, heuristic: SpeechStats -> real,
                          run: AnalyzerRun, parse: string -> Option<real>)
      modifies this
      ensures Report(feedbackText, shownScore) == Evaluate(speech, duration, heuristic, run, parse)
    {
      if IsNullOrWhiteSpace(speech) {
        feedbackText := NoSpeechMessage;
        shownScore := 0.0;
        return;
      }
      var wordCount := WordCount(speech);
      var fillerWords := CountFillerWords(speech);
      var pauses := CountPauses(speech);
      var finalScore := heuristic(SpeechStats(|speech|, wordCount, fillerWords, pauses, duration));
      GetAIAnalysis(finalScore, run, parse);
    }

    method GetAIAnalysis(baseScore: real, run: AnalyzerRun, parse: string -> Option<real>)
      modifies this
      ensures Report(feedbackText, shownScore) == ReportOf(Analyze(run, baseScore, parse), baseScore)
    {
      if !run.scriptExists {
        feedbackText := ScriptMissingMessage;
        shownScore := baseScore;
        return;
      }
      if !IsNullOrWhiteSpace(run.stderr) {
        feedbackText := ErrorPrefix + run.stderr;
        shownScore := baseScore;
        return;
      }
      if IsNullOrWhiteSpace(run.stdout) {
        feedbackText := NoResponseMessage;
        shownScore := baseScore;
        return;
      }
      var aiScore, feedback := ParseOutput(run.stdout, baseScore, parse);
      shownScore := MergedScore(baseScore, aiScore);
      feedbackText := Trim(feedback);
    }
  }
}
