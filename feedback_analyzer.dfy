/** Turning a user's objection into a correction record
    (feedback/feedback_analyzer.py): unwrapping the language model's reply,
    falling back to the raw inputs when analysis fails, and rendering the
    fixed-format correction text. The model call is an oracle (`reply`, None
    when it raises or yields no text) and so is `json.loads` (`parse`, None
    when it raises). */
module FeedbackAnalyzer {
  import opened Common

  const JsonFence: string := "```json"
  const Fence: string := "```"

  /** The analysis record `analyze_feedback` returns. `confidence` is None
      when the key is absent. */
  datatype Analysis = Analysis(
    originalQuestion: string,
    aiWrongAnswer: string,
    userCorrection: string,
    extractedFact: string,
    confidence: Option<real>)

  // ---- unwrapping the reply ----

  /** The text handed to `json.loads`: the stripped reply, cut out of a
      ```` ```json ```` block or else a ```` ``` ```` block when there is one. */
  function Unwrap(reply: string): string
  {
    Cut(Strip(reply))
  }

  /** The fence handling, on the already stripped reply. */
  function Cut(text: string): string
  {
    if Contains(text, JsonFence) then Strip(Split(Split(text, JsonFence)[1], Fence)[0])
    else if Contains(text, Fence) then Strip(Split(Split(text, Fence)[1], Fence)[0])
    else text
  }

  /** With ```` ```json ````, the parsed text is what follows its first
      occurrence, cut at the next ```` ```json ```` and then at the first
      ```` ``` ````, stripped (just "up to the next fence" when no second
      ```` ```json ```` follows). Otherwise, with a fence, it is the stripped
      text between the first and the second fence. With no fence it is the
      stripped reply. No fence survives the cutting. (`text` is the
      stripped reply: `Unwrap(reply) == Cut(Strip(reply))`.) */
  lemma UnwrapSpec(text: string)
    ensures Contains(text, JsonFence) ==>
              && Cut(text) == Strip(UpTo(UpTo(After(text, JsonFence), JsonFence), Fence))
              && (!Contains(After(text, JsonFence), JsonFence) ==>
                    Cut(text) == Strip(UpTo(After(text, JsonFence), Fence)))
              && !Contains(Cut(text), Fence)
    ensures !Contains(text, JsonFence) && Contains(text, Fence) ==>
              && Cut(text) == Strip(UpTo(After(text, Fence), Fence))
              && !Contains(Cut(text), Fence)
    ensures !Contains(text, Fence) ==> Cut(text) == text
  {
    JsonFenceHasFence(text);
    if Contains(text, JsonFence) {
      UnwrapJson(text);
    } else if Contains(text, Fence) {
      UnwrapPlain(text);
    } else {
    }
  }

  lemma UnwrapJson(text: string)
    requires Contains(text, JsonFence)
    ensures var r := Strip(Split(Split(text, JsonFence)[1], Fence)[0]);
            && r == Strip(UpTo(UpTo(After(text, JsonFence), JsonFence), Fence))
            && (!Contains(After(text, JsonFence), JsonFence) ==> r == Strip(UpTo(After(text, JsonFence), Fence)))
            && !Contains(r, Fence)
  {
    SplitPieces(text, JsonFence);
    var piece := Split(text, JsonFence)[1];
    SplitPieces(piece, Fence);
    UpToClean(piece, Fence);
    StripKeepsOut(UpTo(piece, Fence), Fence);
    if !Contains(After(text, JsonFence), JsonFence) {
      UpToOfClean(After(text, JsonFence), JsonFence);
    }
  }

  lemma UnwrapPlain(text: string)
    requires Contains(text, Fence)
    ensures var r := Strip(Split(Split(text, Fence)[1], Fence)[0]);
            && r == Strip(UpTo(After(text, Fence), Fence))
            && !Contains(r, Fence)
  {
    SplitPieces(text, Fence);
    var piece := Split(text, Fence)[1];
    SplitPieces(piece, Fence);
    UpToClean(After(text, Fence), Fence);
    UpToOfClean(piece, Fence);
    StripKeepsOut(piece, Fence);
  }

  /** A text with ```` ```json ```` has a ```` ``` ```` at the same place. */
  lemma JsonFenceHasFence(text: string)
    ensures Contains(text, JsonFence) ==> Contains(text, Fence)
  {
    if Contains(text, JsonFence) {
      var i: nat :| i <= |text| && OccursAt(text, JsonFence, i);
      FenceOpens(text, i);
    }
  }

  /** ```` ```json ```` begins with ```` ``` ````. */
  lemma FenceOpens(text: string, i: nat)
    ensures OccursAt(text, JsonFence, i) ==> OccursAt(text, Fence, i)
  {
    if OccursAt(text, JsonFence, i) {
      assert text[i..i + 3] == text[i..i + 7][..3];
    }
  }

  /** A reply that is exactly one fenced JSON block yields the block's
      body, provided the body holds no fence of its own, has no surrounding
      blanks and does not end in a back-tick. */
  lemma UnwrapBlock(body: string)
    requires !Contains(body, Fence)
    requires body != [] && !IsPySpace(body[0]) && !IsPySpace(body[|body| - 1]) && body[|body| - 1] != '`'
    ensures Unwrap(JsonFence + body + Fence) == body
  {
    var reply := JsonFence + body + Fence;
    assert reply[0] == '`' && reply[|reply| - 1] == '`';
    StripNothing(reply, IsPySpace);
    assert reply[..|JsonFence|] == JsonFence;
    assert OccursAt(reply, JsonFence, 0);
    FindAt(reply, JsonFence, 0);
    var after := reply[|JsonFence|..];
    assert after == body + Fence;
    FenceAtEnd(body, after);
    assert after[..|body|] == body;
    UnwrapJson(reply);
    StripNothing(body, IsPySpace);
  }

  /** In `body + "```"`, the first fence is the appended one and there is no `"```json"`. */
  lemma FenceAtEnd(body: string, after: string)
    requires after == body + Fence && !Contains(body, Fence)
    requires body != [] && body[|body| - 1] != '`'
    ensures Find(after, Fence) == Some(|body|)
    ensures !Contains(after, JsonFence)
  {
    assert OccursAt(after, Fence, |body|);
    forall j: nat | j < |body| ensures !OccursAt(after, Fence, j) {
      if j + 3 <= |body| {
        assert after[j..j + 3] == body[j..j + 3];
        assert !OccursAt(body, Fence, j);
      } else {
        assert after[j..j + 3][|body| - 1 - j] == body[|body| - 1];
      }
    }
    FindAt(after, Fence, |body|);
    forall i: nat | i <= |after| ensures !OccursAt(after, JsonFence, i) {
      FenceOpens(after, i);
    }
  }

  // ---- the fallback ----

  const FallbackConfidence: real := 0.5

  /** The record used when generation or parsing fails. */
  function Fallback(question: string, aiAnswer: string, feedback: string): (r: Analysis)
    ensures r.aiWrongAnswer <= aiAnswer && |r.aiWrongAnswer| <= 200
    ensures |aiAnswer| <= 200 ==> r.aiWrongAnswer == aiAnswer
    ensures r.extractedFact == r.userCorrection == feedback && r.originalQuestion == question
    ensures r.confidence == Some(FallbackConfidence)
  {
    Analysis(question, Prefix(aiAnswer, 200), feedback, feedback, Some(FallbackConfidence))
  }

  /** `analyze_feedback`: the parsed reply, or the fallback record when the
      model call or the parse fails. */
  function AnalyzeFeedback(question: string, aiAnswer: string, feedback: string,
                           reply: Option<string>, parse: string -> Option<Analysis>): (r: Analysis)
    ensures reply.None? ==> r == Fallback(question, aiAnswer, feedback)
    ensures reply.Some? && parse(Unwrap(reply.value)).None? ==> r == Fallback(question, aiAnswer, feedback)
    ensures reply.Some? && parse(Unwrap(reply.value)).Some? ==> r == parse(Unwrap(reply.value)).value
  {
    match reply
    case None => Fallback(question, aiAnswer, feedback)
    case Some(text) =>
      match parse(Unwrap(text))
      case None => Fallback(question, aiAnswer, feedback)
      case Some(a) => a
  }

  // ---- the correction text ----

  const Header: string := "[교정 데이터]"

  /** `analysis.get('confidence', 'N/A')` as text; `render` is Python's `str` of a float. */
  function ConfidenceText(c: Option<real>, render: real -> string): string
  {
    match c
    case None => "N/A"
    case Some(x) => render(x)
  }

  /** The lines of the correction text, in order, without their newlines. */
  function CorrectionLines(a: Analysis, render: real -> string): seq<string>
  {
    [ Header,
      "질문: " + a.originalQuestion,
      "정답: " + a.extractedFact,
      "참고: 이전 답변 \"" + a.aiWrongAnswer + "\"은(는) 부정확합니다.",
      "교정 내용: " + a.userCorrection,
      "신뢰도: " + ConfidenceText(a.confidence, render) ]
  }

  /** Lines joined with a newline after each. */
  function Unlines(lines: seq<string>): string
  {
    if lines == [] then "" else lines[0] + "\n" + Unlines(lines[1..])
  }

  /** `generate_correction_text`: the six lines, each ending in a newline. */
  function GenerateCorrectionText(a: Analysis, render: real -> string): string
  {
    Unlines(CorrectionLines(a, render))
  }

  /** Splitting newline-terminated lines at newlines gives the lines back,
      then the empty piece after the last newline. */
  lemma {:induction false} UnlinesSplit(lines: seq<string>)
    requires forall i :: 0 <= i < |lines| ==> '\n' !in lines[i]
    decreases |lines|
    ensures Split(Unlines(lines), "\n") == lines + [""]
  {
    if lines == [] {
      assert Find("", "\n").None?;
    } else {
      var tail := lines[1..];
      assert forall i :: 0 <= i < |tail| ==> tail[i] == lines[i + 1];
      UnlinesSplit(tail);
      SplitCons(lines[0], Unlines(tail), tail);
      assert lines == [lines[0]] + tail;
    }
  }

  lemma SplitCons(first: string, rest: string, tail: seq<string>)
    requires '\n' !in first && Split(rest, "\n") == tail + [""]
    ensures Split(first + "\n" + rest, "\n") == [first] + tail + [""]
  {
    SplitLine(first, rest);
  }

  /** The text starts with the header line, and when no field holds a
      newline its lines are, in this fixed order, the question, the answer,
      the note on the old answer, the correction and the confidence (`N/A`
      when missing), each newline-terminated. */
  lemma CorrectionTextLayout(a: Analysis, render: real -> string)
    ensures GenerateCorrectionText(a, render)[..|Header| + 1] == Header + "\n"
    ensures a.confidence.None? ==> CorrectionLines(a, render)[5] == "신뢰도: N/A"
    ensures var c := ConfidenceText(a.confidence, render);
            ('\n' !in a.originalQuestion && '\n' !in a.extractedFact && '\n' !in a.aiWrongAnswer
             && '\n' !in a.userCorrection && '\n' !in c) ==>
              Split(GenerateCorrectionText(a, render), "\n") == CorrectionLines(a, render) + [""]
  {
    var l := CorrectionLines(a, render);
    assert GenerateCorrectionText(a, render) == Header + "\n" + Unlines(l[1..]);
    var c := ConfidenceText(a.confidence, render);
    if '\n' !in a.originalQuestion && '\n' !in a.extractedFact && '\n' !in a.aiWrongAnswer
       && '\n' !in a.userCorrection && '\n' !in c {
      NoNewlineIn("질문: ", a.originalQuestion, "");
      NoNewlineIn("정답: ", a.extractedFact, "");
      NoNewlineIn("참고: 이전 답변 \"", a.aiWrongAnswer, "\"은(는) 부정확합니다.");
      NoNewlineIn("교정 내용: ", a.userCorrection, "");
      NoNewlineIn("신뢰도: ", c, "");
      assert forall i :: 0 <= i < |l| ==> '\n' !in l[i];
      UnlinesSplit(l);
    }
  }

  lemma NoNewlineIn(lead: string, field: string, tail: string)
    requires '\n' !in lead && '\n' !in field && '\n' !in tail
    ensures '\n' !in lead + field + tail
    ensures '\n' !in lead + field
  {
  }
}
