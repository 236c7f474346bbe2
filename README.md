# Speech practice scripts: scoring pipeline and slideshow

This project models two Unity scripts of a presentation and speech-practice
app, and proves properties of the model.

- `SpeechAnalyzer` scores a dictated speech transcript.
  - A blank transcript gets a fixed "no speech" message and score 0.
  - Otherwise it counts the words (`Split(' ')`), the filler words (six
    fixed terms, each counted with `ToLower().Split(filler)`) and the pauses
    (`Split({"...", "—"})`), and combines them into a base score.
  - It then runs an external analysis script. Three fallbacks keep the base
    score and show an error message: the script is missing, the script wrote
    to standard error, or the script wrote nothing.
  - Otherwise every output line that parses as a number becomes the AI
    score, and every other line is appended to the feedback. The final score
    is the mean of the base and AI scores, clamped to [0, 10].
- `SlideShow` keeps a current index over a fixed array of slides.
  - `NextSlide` and `PreviousSlide` move the index forward and backward with
    wrap-around, and do nothing when there are no slides.
  - `Start` resets the index to the first slide, but only when a display
    and slides are assigned.
  - `UpdateSlide` puts the current slide on the display.

Files:

- `strings.dfy`: the .NET string operations the scripts rely on. These are
  `char.IsWhiteSpace`, `string.IsNullOrWhiteSpace`, `Trim` and `String.Split`
  with string separators (ordinal, left to right, non-overlapping, separators
  tried in array order). Each comes with its partner lemmas.
- `speech.dfy`: the counts, the analysis outcome, and the `SpeechAnalyzer`
  class whose two text fields the methods update.
- `speech_examples.dfy`: worked examples on concrete transcripts and
  analyzer outputs, derived from the general definitions.
- `slides.dfy`: the index arithmetic (C#'s truncating `%`) and the
  `SlideShow` class with its invariant.

Three things in the code are abstracted:

- The floating-point heuristic that turns the counts into a base score is a
  parameter `heuristic: SpeechStats -> real`.
- `float.TryParse` is a parameter `parse: string -> Option<real>`. It is
  applied to the trimmed line, as the code does.
- The external process is represented by what can be observed of it: an
  `AnalyzerRun` holding whether the script exists, standard output and
  standard error.

Three consequences of how the code counts, each of which the model keeps:

- Words: `speech.Split(' ').Length` is the number of space characters plus
  one (`Speech.WordCount`). Each extra space in a run adds another, empty
  word, and tabs and newlines separate nothing.
- Fillers: `Split` cuts at non-overlapping occurrences, scanning left to
  right, and this model counts the same way. A match inside a word counts,
  so `"also"` holds one `"so"` (`SpeechExamples.SoInsideAlso`).
- Pauses: pause marks are cut the same way, so `"...."` holds one pause,
  not two (`SpeechExamples.FourDots`).

## Model

| member | source | states |
|---|---|---|
| Strings.IsWhiteSpace | Assets/SpeechAnalyzer.cs:144 | the characters that char.IsWhiteSpace accepts, and so Trim drops: U+0009 to U+000D, U+0020, U+0085, U+00A0, U+1680, U+2000 to U+200A, U+2028, U+2029, U+202F, U+205F and U+3000 (a definition; TrimSpec and TrimExact use it) |
| Strings.IsNullOrWhiteSpace | Assets/SpeechAnalyzer.cs:51 | string.IsNullOrWhiteSpace on a non-null string, as used on lines 51, 119 and 127: every character is white space, so the empty string qualifies (a definition; TrimSpec proves it holds exactly when Trim gives the empty string) |
| Strings.Trim | Assets/SpeechAnalyzer.cs:144 | string.Trim: leading, then trailing white space dropped (a definition; TrimSpec, TrimExact and TrimIdempotent characterise its result) |
| Strings.TrimParts | Assets/SpeechAnalyzer.cs:144 | gives the white space that Trim drops before and after what it keeps |
| Strings.TrimSpec | Assets/SpeechAnalyzer.cs:144 | Trim removes only white space, from both ends (the input is white prefix + result + white suffix); the result neither starts nor ends with white space; the result is empty exactly when the input is blank |
| Strings.TrimExact | Assets/SpeechAnalyzer.cs:157 | converse of TrimSpec: a core without white space at either end, framed by white space, is exactly what Trim returns |
| Strings.TrimIdempotent | Assets/SpeechAnalyzer.cs:157 | trimming twice is the same as trimming once |
| Strings.TrimDropsTrailing | Assets/SpeechAnalyzer.cs:150-157 | white space appended after a string (the "\n" added after each feedback line) disappears when the whole is trimmed |
| Strings.FirstMatch | Assets/SpeechAnalyzer.cs:89 | the separator chosen at a position is the first in array order that matches there; no index is returned exactly when none matches |
| Strings.Separators | Assets/SpeechAnalyzer.cs:89 | the separators that Split cuts at, in order, as used on lines 60, 82 and 89 (a definition; SplitRoundTrip, NoCutIffAbsent and the bound lemmas relate it to the input) |
| Strings.Split | Assets/SpeechAnalyzer.cs:60 | Split yields one more piece than the cuts it makes, and its first piece is a prefix of the input |
| Strings.SplitRoundTrip | Assets/SpeechAnalyzer.cs:138 | putting the cut separators back between the pieces gives back the original string |
| Strings.SplitPiecesFree | Assets/SpeechAnalyzer.cs:138 | no piece of a Split contains any of the separators |
| Strings.HeadPieceFree | Assets/SpeechAnalyzer.cs:89 | when no separator matches at the head, the head character followed by a separator-free prefix of the rest contains no separator |
| Strings.NoCutIffAbsent | Assets/SpeechAnalyzer.cs:82 | Split makes no cut exactly when no separator occurs anywhere in the string |
| Strings.SingleSeparatorBound | Assets/SpeechAnalyzer.cs:82 | with one separator p, cuts times the length of p is at most the length of the string (cuts do not overlap) |
| Strings.SeparatorsBound | Assets/SpeechAnalyzer.cs:89 | Split never makes more cuts than the string has characters |
| Strings.CharSeparatorCount | Assets/SpeechAnalyzer.cs:60 | splitting on one character cuts once for each occurrence of that character |
| Strings.SplitAtFirst | Assets/SpeechAnalyzer.cs:138 | splitting on a character gives the text before its first occurrence as the first piece, followed by the split of the rest |
| Strings.SplitWithout | Assets/SpeechAnalyzer.cs:138 | a string that does not contain the separator character splits into itself alone |
| Strings.AbsentCharNotOccurs | Assets/SpeechAnalyzer.cs:82 | a pattern containing a character that the string lacks does not occur in the string |
| Speech.FillerTotal | Assets/SpeechAnalyzer.cs:78-84 | the sum of the counts of the given fillers, in list order (a definition; CountFillerWords is proved equal to it, FillerTotalZero and FillerTotalOfSix characterise it) |
| Speech.ToLower | Assets/SpeechAnalyzer.cs:82 | lower-casing keeps the length of the string |
| Speech.WordCount | Assets/SpeechAnalyzer.cs:60 | the word count is the number of spaces plus one |
| Speech.WordCountJoin | Assets/SpeechAnalyzer.cs:60 | joining two texts with one space adds their word counts |
| Speech.WordCountNoSpace | Assets/SpeechAnalyzer.cs:60 | a speech without a space counts as one word |
| Speech.FillerCount | Assets/SpeechAnalyzer.cs:82 | a filler's count is the number of non-overlapping cuts in the lower-cased speech, and count times filler length fits in the speech |
| Speech.FillerCountZero | Assets/SpeechAnalyzer.cs:82 | a filler counts zero exactly when it does not occur in the lower-cased speech |
| Speech.CountFillerWords | Assets/SpeechAnalyzer.cs:76-85 | the loop's count is the sum of the six filler counts (FillerTotal over the fixed filler list) |
| Speech.FillerTotalZero | Assets/SpeechAnalyzer.cs:78-84 | the filler total is zero exactly when none of the fillers occurs in the lower-cased speech |
| Speech.FillerTotalStep | Assets/SpeechAnalyzer.cs:80-83 | each loop step adds that filler's count to the running total |
| Speech.FillerTotalOfSix | Assets/SpeechAnalyzer.cs:78-84 | over six fillers (um, uh, like, you know, so, actually) the total is the sum of the six separate counts |
| Speech.CountPauses | Assets/SpeechAnalyzer.cs:87-90 | pauses are the cuts at "..." or "—" (ellipsis tried first); there are at most as many as characters; the count is zero exactly when neither mark occurs |
| Speech.PausesWithoutDash | Assets/SpeechAnalyzer.cs:89 | in a speech without an em dash the pauses are exactly the non-overlapping ellipses |
| Speech.Lines | Assets/SpeechAnalyzer.cs:138 | output.Split('\n') (a definition; SplitAtFirst and SplitWithout compute it) |
| Speech.Parsed | Assets/SpeechAnalyzer.cs:144 | float.TryParse applied to the trimmed line, through the parameter parse (a definition) |
| Speech.LastScore | Assets/SpeechAnalyzer.cs:139-147 | the value of the last line that parses, if any (a definition; LastScoreIsLast characterises it and ParseOutput is proved equal to it) |
| Speech.TextLines | Assets/SpeechAnalyzer.cs:148-151 | the lines that do not parse, in order (a definition; TextLinesExactly and TextLinesAppend characterise it) |
| Speech.Terminated | Assets/SpeechAnalyzer.cs:150 | each feedback line followed by "\n", concatenated (a definition; ParseOutput is proved equal to it) |
| Speech.LastScoreIsLast | Assets/SpeechAnalyzer.cs:142-147 | the AI score comes from a parsing line after which no line parses; there is none exactly when no line parses |
| Speech.LastScoreNone | Assets/SpeechAnalyzer.cs:139-147 | no score is found exactly when no line parses |
| Speech.LastScoreLine | Assets/SpeechAnalyzer.cs:142-147 | a found score is the parsed value of a line after which no line parses |
| Speech.TextLinesExactly | Assets/SpeechAnalyzer.cs:148-151 | the feedback lines are exactly the output lines that do not parse as numbers, in both directions |
| Speech.TextLinesAppend | Assets/SpeechAnalyzer.cs:142-151 | feedback collection keeps the line order: it distributes over concatenation of the lines |
| Speech.ParseOutput | Assets/SpeechAnalyzer.cs:138-152 | the loop leaves the last parsed score (or the base score when none) and the non-numeric lines, each followed by "\n" |
| Speech.Clamp | Assets/SpeechAnalyzer.cs:155 | Mathf.Clamp lands in [lo, hi] and leaves a value already in range unchanged |
| Speech.MergedScore | Assets/SpeechAnalyzer.cs:155 | the final score lies in [0, 10]; equal base and AI scores in range give back the base score |
| Speech.Analyze | Assets/SpeechAnalyzer.cs:97-157 | the outcome of GetAIAnalysis: missing script, error output, empty output, or the answer built from the parsed lines (a definition; FallbackPrecedence and AnsweredScore characterise it) |
| Speech.ReportOf | Assets/SpeechAnalyzer.cs:100-158 | the feedback text and score each outcome displays (a definition; FallbackPrecedence and NoScoreKeepsBase state its values) |
| Speech.Stats | Assets/SpeechAnalyzer.cs:60-70 | the inputs of the scoring heuristics: length, word count, filler total, pause count and duration (a definition) |
| Speech.Evaluate | Assets/SpeechAnalyzer.cs:49-74 | EvaluateSpeech followed by GetAIAnalysis, as seen on the two text fields (a definition; NoSpeechShortCircuit characterises the blank case, EvaluateSpeech is proved equal to it) |
| Speech.FallbackPrecedence | Assets/SpeechAnalyzer.cs:97-133 | missing script beats error output, which beats empty output; each keeps the base score with its own message; there is an answer exactly when the script exists, stderr is blank and stdout is not; the fallbacks do not depend on the parser |
| Speech.AnsweredScore | Assets/SpeechAnalyzer.cs:139-147 | an answered analysis keeps the base score when no line parses, and otherwise takes a line's parsed value such that no later line parses |
| Speech.NoScoreKeepsBase | Assets/SpeechAnalyzer.cs:139-155 | with no numeric line and a base score in range, the final score is the base score |
| Speech.NoSpeechShortCircuit | Assets/SpeechAnalyzer.cs:51-56 | blank speech gives the "No speech detected" message with score 0, whatever the duration, heuristic, analyzer or parser |
| Speech.SpeechAnalyzer.EvaluateSpeech | Assets/SpeechAnalyzer.cs:49-74 | the displayed feedback and score are those of Evaluate: the blank guard, and otherwise the analysis of the heuristic's base score over the three counts |
| Speech.SpeechAnalyzer.GetAIAnalysis | Assets/SpeechAnalyzer.cs:92-159 | the displayed feedback and score are those of the outcome of Analyze: three fallbacks, then the trimmed feedback and the clamped mean score |
| Speech.SpeechAnalyzer.constructor | Assets/SpeechAnalyzer.cs:9-10 | creates the two text fields; their starting values (empty feedback, score 0.0) are the model's choice, since the scene supplies the real starting text |
| SpeechExamples.UmUmUm | Assets/SpeechAnalyzer.cs:82 | "um um um" holds three cuts at "um" |
| SpeechExamples.UmUmUmLower | Assets/SpeechAnalyzer.cs:82 | "um um um" is already lower case |
| SpeechExamples.OtherFillersAbsent | Assets/SpeechAnalyzer.cs:78 | none of the other five fillers occurs in "um um um" |
| SpeechExamples.OnlyFirstFiller | Assets/SpeechAnalyzer.cs:78-84 | when none of the other five fillers occurs, the total is the count of "um" |
| SpeechExamples.UmUmUmTotal | Assets/SpeechAnalyzer.cs:76-85 | "um um um" has three filler words in all |
| SpeechExamples.SoInsideAlso | Assets/SpeechAnalyzer.cs:82 | "also" counts one "so": matches inside a word count |
| SpeechExamples.TwoEllipses | Assets/SpeechAnalyzer.cs:87-90 | "a...b..." has two pauses |
| SpeechExamples.FourDots | Assets/SpeechAnalyzer.cs:87-90 | "...." has one pause, since ellipses do not overlap |
| SpeechExamples.DashPause | Assets/SpeechAnalyzer.cs:89 | an em dash alone counts as a pause |
| SpeechExamples.ThreeWords | Assets/SpeechAnalyzer.cs:60 | three space-free words joined by single spaces count as three words |
| SpeechExamples.DoubleSpace | Assets/SpeechAnalyzer.cs:60 | two words separated by two spaces count as three, because the empty piece between the spaces counts |
| SpeechExamples.BlankSpeech | Assets/SpeechAnalyzer.cs:51-56 | the empty string and a string of spaces, a tab and a newline both get the no-speech report |
| SpeechExamples.TwoLines | Assets/SpeechAnalyzer.cs:138 | output "a\nb\n" splits into the lines a, b and an empty last line |
| SpeechExamples.ThreeLineScore | Assets/SpeechAnalyzer.cs:139-147 | for the lines a, b, "" where only a parses, the AI score is a's value |
| SpeechExamples.ThreeLineText | Assets/SpeechAnalyzer.cs:148-151 | for the lines a, b, "" where only a parses, the feedback is b followed by two newlines |
| SpeechExamples.TwoLineAnswer | Assets/SpeechAnalyzer.cs:138-157 | output "a\nb\n" with a numeric a and a text b answers with a's value and the trimmed b |
| SpeechExamples.AnsweredExample | Assets/SpeechAnalyzer.cs:138-158 | "7.5\nGreat job\n" with base 6.5 answers 7.5 with feedback "Great job", and the final score is 7.0 |
| Slides.Remainder | Assets/SlideShow.cs:33-42 | C#'s % with a positive divisor: for a >= 0 it lies in [0, n) and agrees with the mathematical remainder; for a < 0 it lies in (-n, 0] and differs from a by a multiple of n |
| Slides.NextIndex | Assets/SlideShow.cs:33 | from an index in range, the next index is in range: one more, or 0 after the last |
| Slides.PreviousIndex | Assets/SlideShow.cs:42 | from an index in range, the previous index is in range: one less, or the last before 0 (no negative operand reaches %) |
| Slides.NextPreviousInverse | Assets/SlideShow.cs:33-42 | going back undoes going forward, and going forward undoes going back |
| Slides.AdvanceShifts | Assets/SlideShow.cs:33 | k forward steps from i give (i + k) mod n |
| Slides.RetreatShifts | Assets/SlideShow.cs:42 | k backward steps from i give (i - k) mod n |
| Slides.FullCycle | Assets/SlideShow.cs:33-42 | n forward steps, or n backward steps, return to the starting slide |
| Slides.SlideShow.constructor | Assets/SlideShow.cs:6-8 | the index starts at 0, nothing is shown yet, and the invariant holds |
| Slides.SlideShow.Start | Assets/SlideShow.cs:10-27 | without a display or without slides nothing changes; otherwise the index is 0 and the first slide is shown; the invariant is kept |
| Slides.SlideShow.NextSlide | Assets/SlideShow.cs:29-36 | no change without slides; otherwise the index becomes NextIndex of the old one and the display, if any, shows that slide; the invariant is kept |
| Slides.SlideShow.PreviousSlide | Assets/SlideShow.cs:38-45 | no change without slides; otherwise the index becomes PreviousIndex of the old one and the display, if any, shows that slide; the invariant is kept |
| Slides.SlideShow.UpdateSlide | Assets/SlideShow.cs:47-56 | the current slide is shown when there is a display and there are slides; otherwise the display is left as it was; the index never changes |
| Slides.NextThenPrevious | Assets/SlideShow.cs:29-45 | a NextSlide followed by a PreviousSlide leaves the show on the slide it started from |

## Left out

- The base-score heuristics (clarity, confidence, pace, fluency, lines 61 and 66-70 of Assets/SpeechAnalyzer.cs): this is single-precision float arithmetic, so it is the parameter `heuristic` applied to the counts, the length and the duration.
- `float.TryParse`: its number grammar and culture settings are not modelled; it is the parameter `parse`.
- `ToString("F1")` in the score text: the model keeps the displayed score as a real, not as a formatted string.
- `ToLower`: modelled for ASCII letters only; culture-specific case mappings such as the Turkish dotted I are not part of this model.
- The external process (the file check, `Process.Start`, reading both streams, the hard-coded paths): represented by its observable result `AnalyzerRun`. The process argument is built from the `spokenText` field rather than the `speech` parameter; both hold the same text when `EvaluateSpeech` is called from `OnSpeechComplete`.
- Dictation handling (`Start`, `StartRecording`, `StopRecording`, `OnSpeechResult`, `OnSpeechComplete`, `Time.time`, the "Listening..." text): engine callbacks and the clock, outside the scoring logic.
- `Debug.Log` output, the Image `color` and the `preserveAspect` setting: they do not affect the state modelled here.
- Assets/VoiceAnalyzer.cs and analyze_speech.py are not part of this model.
- Slides.PreviousIndex: C# int arithmetic is not modelled; `currentIndex - 1 + slides.Length` would overflow 32 bits only for arrays of more than 2^30 slides.
- Slides.SlideShow: the slide array is fixed when the object is built; reassigning it, or changing its elements in the Inspector while running, is not modelled. An unassigned array is the empty sequence. `Start`, `NextSlide` and `PreviousSlide` treat null and empty alike before touching it. `UpdateSlide` reads `slides.Length` with no null test, so with a display assigned it would throw on a null array; it never runs in that state only because its three callers test for null first.
- Speech.Clamp: single-precision floats are modelled as reals. `Mathf.Clamp` returns a NaN value unchanged, because both of its comparisons are false; reals have no NaN, so the bound [lo, hi] holds here for every input. Float rounding is lost as well.
- Speech.MergedScore: the [0, 10] bound holds only over reals. In the code, `float.TryParse` accepts "NaN", so a line reading "NaN" makes the AI score NaN; the mean is then NaN, the clamp passes it through, and the score text shows "Score: NaN/10". Float rounding of the mean is lost as well.
- Speech.SpeechAnalyzer.GetAIAnalysis: `AnalyzerRun` assumes that the process started and finished. If python.exe is missing at the hard-coded path, `Process.Start` throws. The exception leaves `GetAIAnalysis` and `EvaluateSpeech`, and neither text field is written, so the feedback keeps "Listening...". `ReadToEnd` and `WaitForExit` block with no time-out, so a script that never ends hangs the call. Neither case is modelled.
- Speech.Stats: a Dafny `char` is a Unicode scalar value, while C#'s `speech.Length` (line 66 of Assets/SpeechAnalyzer.cs) counts UTF-16 code units. A character outside the Basic Multilingual Plane, such as an emoji, counts 2 in the code and 1 in `SpeechStats.length`.
