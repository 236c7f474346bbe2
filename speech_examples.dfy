// Worked examples on concrete inputs, each derived from the general
// definitions: they pin down the non-overlapping counts, the word count of
// Split(' '), and one complete analysis.

module SpeechExamples {
  import opened Optional
  import opened Strings
  import opened Speech

  /** Each "um" in "um um um" is cut once. */
  lemma UmUmUm()
    ensures FillerCount("um um um", "um") == 3
  {
    var s := "um um um";
    assert ToLower(s) == s by {
      forall i | 0 <= i < |s| ensures ToLower(s)[i] == s[i] {}
    }
    var p := ["um"];
    assert "um"[2..] == "";
    assert FirstMatch("um", p) == Some(0);
    assert |Separators("um", p)| == 1;
    assert " um"[1..] == "um";
    assert " um"[0] != "um"[0];
    assert FirstMatch(" um", p) == None;
    assert |Separators(" um", p)| == 1;
    assert "um um"[2..] == " um";
    assert FirstMatch("um um", p) == Some(0);
    assert |Separators("um um", p)| == 2;
    assert " um um"[1..] == "um um";
    assert " um um"[0] != "um"[0];
    assert FirstMatch(" um um", p) == None;
    assert |Separators(" um um", p)| == 2;
    assert s[2..] == " um um";
    assert FirstMatch(s, p) == Some(0);
    assert |Separators(s, p)| == 3;
  }

  lemma UmUmUmLower()
    ensures ToLower("um um um") == "um um um"
  {
    var s := "um um um";
    forall i | 0 <= i < |s| ensures ToLower(s)[i] == s[i] {}
  }

  lemma OtherFillersAbsent()
    ensures forall k :: 1 <= k < |Fillers| ==> !Occurs(Fillers[k], "um um um")
  {
    var s := "um um um";
    AbsentCharNotOccurs("uh", s, 1);
    AbsentCharNotOccurs("like", s, 0);
    AbsentCharNotOccurs("you know", s, 0);
    AbsentCharNotOccurs("so", s, 0);
    AbsentCharNotOccurs("actually", s, 0);
  }

  /** Only the first filler counts in a speech that holds none of the others. */
  lemma OnlyFirstFiller(s: string)
    requires forall k :: 1 <= k < |Fillers| ==> !Occurs(Fillers[k], ToLower(s))
    ensures FillerTotal(s, Fillers) == FillerCount(s, Fillers[0])
  {
    FillerTotalOfSix(s, Fillers);
    FillerCountZero(s, Fillers[1]);
    FillerCountZero(s, Fillers[2]);
    FillerCountZero(s, Fillers[3]);
    FillerCountZero(s, Fillers[4]);
    FillerCountZero(s, Fillers[5]);
  }

  lemma UmUmUmTotal()
    ensures FillerTotal("um um um", Fillers) == 3
  {
    UmUmUmLower();
    OtherFillersAbsent();
    OnlyFirstFiller("um um um");
    UmUmUm();
  }

  /** Substring matching: the "so" inside "also" counts as a filler. */
  lemma SoInsideAlso()
    ensures FillerCount("also", "so") == 1
  {
    var s := "also";
    assert ToLower(s) == s by {
      forall i | 0 <= i < |s| ensures ToLower(s)[i] == s[i] {}
    }
    var p := ["so"];
    assert s[0] != "so"[0];
    assert FirstMatch(s, p) == None;
    assert s[1..] == "lso" && "lso"[0] != "so"[0];
    assert FirstMatch("lso", p) == None;
    assert "lso"[1..] == "so";
    assert FirstMatch("so", p) == Some(0);
    assert "so"[2..] == "";
  }

  /** Two ellipses, two pauses. */
  lemma TwoEllipses()
    ensures CountPauses("a...b...") == 2
  {
    var s := "a...b...";
    assert s[0] == 'a' && s[0] != Ellipsis[0] && s[0] != EmDash[0];
    assert FirstMatch(s, PauseMarks) == None;
    var t := s[1..];
    assert t == "...b...";
    assert StartsWith(t, Ellipsis) && FirstMatch(t, PauseMarks) == Some(0);
    var u := t[3..];
    assert u == "b...";
    assert u[0] != Ellipsis[0] && u[0] != EmDash[0];
    assert FirstMatch(u, PauseMarks) == None;
    var v := u[1..];
    assert v == "...";
    assert StartsWith(v, Ellipsis) && FirstMatch(v, PauseMarks) == Some(0);
    assert v[3..] == "";
  }

  /** Four dots hold one ellipsis: the scan resumes after the first three. */
  lemma FourDots()
    ensures CountPauses("....") == 1
  {
    var p := PauseMarks;
    assert StartsWith("....", Ellipsis);
    assert FirstMatch("....", p) == Some(0);
    assert "...."[3..] == ".";
    assert "."[0] != EmDash[0];
    assert !StartsWith(".", Ellipsis) && !StartsWith(".", EmDash);
    assert FirstMatch(".", p) == None;
    assert "."[1..] == "";
  }

  /** An em dash is a pause of its own. */
  lemma DashPause()
    ensures CountPauses("a\U{2014}b") == 1
  {
    var s := "a\U{2014}b";
    var p := PauseMarks;
    assert s[0] == 'a' && Ellipsis[0] == '.';
    assert s[0] != Ellipsis[0] && s[0] != EmDash[0];
    assert FirstMatch(s, p) == None;
    var t := s[1..];
    assert t == "\U{2014}b";
    assert StartsWith(t, EmDash);
    assert !StartsWith(t, Ellipsis);
    assert FirstMatch(t, p) == Some(1);
    var u := t[1..];
    assert u == "b";
    assert !StartsWith(u, Ellipsis) && !StartsWith(u, EmDash);
    assert FirstMatch(u, p) == None;
    assert u[1..] == "";
  }

  /** Three space-free words joined by single spaces count as three. */
  lemma ThreeWords(a: string, b: string, c: string)
    requires ' ' !in a && ' ' !in b && ' ' !in c
    ensures WordCount(a + " " + b + " " + c) == 3
  {
    WordCountNoSpace(a);
    WordCountNoSpace(b);
    WordCountNoSpace(c);
    WordCountJoin(a, b);
    WordCountJoin(a + " " + b, c);
  }

  /** Two spaces in a row make an empty word between them. */
  lemma DoubleSpace(a: string, b: string)
    requires ' ' !in a && ' ' !in b
    ensures WordCount(a + "  " + b) == 3
  {
    assert a + "  " + b == a + " " + [] + " " + b;
    ThreeWords(a, [], b);
  }

  /** Empty and blank speech gets the fixed message. */
  lemma BlankSpeech(duration: real, heuristic: SpeechStats -> real,
                    run: AnalyzerRun, parse: string -> Option<real>)
    ensures Evaluate("", duration, heuristic, run, parse) == Report(NoSpeechMessage, 0.0)
    ensures Evaluate(" \t\n", duration, heuristic, run, parse) == Report(NoSpeechMessage, 0.0)
  {
    var s := " \t\n";
    assert IsWhiteSpace(s[0]) && IsWhiteSpace(s[1]) && IsWhiteSpace(s[2]);
    assert IsNullOrWhiteSpace(s);
  }

  /** "a\nb\n" splits into a, b and an empty last line. */
  lemma TwoLines(a: string, b: string)
    requires '\n' !in a && '\n' !in b
    ensures Lines(a + "\n" + b + "\n") == [a, b, ""]
  {
    assert a + "\n" + b + "\n" == a + ['\n'] + (b + ['\n'] + "");
    SplitAtFirst(a, '\n', b + ['\n'] + "");
    SplitAtFirst(b, '\n', "");
    SplitWithout("", '\n');
  }

  /** The score of the lines a, b, "": a's value, when only a parses. */
  lemma ThreeLineScore(a: string, b: string, x: real, parse: string -> Option<real>)
    requires Parsed(a, parse) == Some(x) && Parsed(b, parse) == None && parse("") == None
    ensures LastScore([a, b, ""], parse) == Some(x)
  {
    var lines := [a, b, ""];
    assert Trim("") == "";
    assert !IsScoreLine(lines[2], parse) && !IsScoreLine(b, parse) && IsScoreLine(a, parse);
    assert lines[..2] == [a, b] && [a, b][..1] == [a];
    assert LastScore(lines, parse) == LastScore([a, b], parse) == LastScore([a], parse);
  }

  /** The feedback of the lines a, b, "": b and the empty line, each ended. */
  lemma ThreeLineText(a: string, b: string, parse: string -> Option<real>)
    requires IsScoreLine(a, parse) && Parsed(b, parse) == None && parse("") == None
    ensures Terminated(TextLines([a, b, ""], parse)) == b + "\n\n"
  {
    var lines := [a, b, ""];
    assert Trim("") == "";
    assert !IsScoreLine(lines[2], parse) && !IsScoreLine(b, parse);
    assert lines[..2] == [a, b] && [a, b][..1] == [a];
    assert TextLines([a], parse) == [];
    assert TextLines([a, b], parse) == [b];
    assert TextLines(lines, parse) == [b, ""];
    TerminatedTwo(b);
  }

  lemma TerminatedTwo(b: string)
    ensures Terminated([b, ""]) == b + "\n\n"
  {
    assert [b, ""][..1] == [b];
    assert Terminated([b]) == [] + b + Newline == b + "\n";
    assert Terminated([b, ""]) == Terminated([b]) + "" + Newline == b + "\n\n";
  }

  /** An analyzer that answers a score line and then one line of text: the
      score line gives the AI score, and the text, trimmed, is the
      feedback. */
  lemma TwoLineAnswer(a: string, b: string, x: real, baseScore: real, parse: string -> Option<real>)
    requires '\n' !in a && '\n' !in b
    requires Parsed(a, parse) == Some(x) && Parsed(b, parse) == None && parse("") == None
    requires !IsNullOrWhiteSpace(b)
    ensures Analyze(AnalyzerRun(true, a + "\n" + b + "\n", ""), baseScore, parse)
            == Answered(x, Trim(b))
  {
    var out := a + "\n" + b + "\n";
    TwoLines(a, b);
    assert !IsNullOrWhiteSpace(out) by {
      var i :| 0 <= i < |b| && !IsWhiteSpace(b[i]);
      assert out[|a| + 1 + i] == b[i];
    }
    ThreeLineScore(a, b, x, parse);
    ThreeLineText(a, b, parse);
    TrimDropsTrailing(b, "\n\n");
  }

  /** "7.5\nGreat job\n" with a base score of 6.5: AI score 7.5, feedback
      "Great job", final score 7.0, the mean of the two. */
  lemma AnsweredExample(parse: string -> Option<real>)
    requires parse("7.5") == Some(7.5) && parse("Great job") == None && parse("") == None
    ensures Analyze(AnalyzerRun(true, "7.5" + "\n" + "Great job" + "\n", ""), 6.5, parse)
            == Answered(7.5, "Great job")
    ensures ReportOf(Answered(7.5, "Great job"), 6.5) == Report("Great job", 7.0)
  {
    var a, b := "7.5", "Great job";
    assert [] + a + [] == a;
    TrimExact([], a, []);
    assert [] + b + [] == b;
    TrimExact([], b, []);
    assert b[0] == 'G';
    TwoLineAnswer(a, b, 7.5, 6.5, parse);
  }
}
