/** The message lists sent to the completion service by the five generating
    actions, and what each action reports. The service is a parameter
    `complete` that maps a message list to the text of its reply; the fixed
    instruction texts are left unspecified, as opaque constants. */
module Requests {
  import opened Messages

  /** The system instruction of a mistake analysis. */
  const MistakeInstruction: string
  /** The system instruction of a lecture-prep report. */
  const LectureInstruction: string
  /** The fixed pieces around the student and the problems of a progress prompt. */
  const ProgressIntro: string
  const ProgressMiddle: string
  const ProgressOutro: string
  /** The fixed pieces around topic, count and difficulty of a quiz prompt. */
  const QuizIntro: string
  const QuizCountLead: string
  const QuizDifficultyLead: string
  const QuizOutro: string
  /** The fixed pieces around the original paper of a parallel-exam prompt. */
  const ParallelIntro: string
  const ParallelOutro: string

  datatype Refusal = EmptyInput | TooFewMistakes

  /** A refused action makes no call; a report carries the one request sent
      and the text that came back. */
  datatype Reply = Refused(why: Refusal) | Report(request: seq<Msg>, text: string)

  /** `t` occurs in `s` starting at position `at`. */
  predicate OccursAt(t: string, s: string, at: nat)
  {
    at + |t| <= |s| && s[at..at + |t|] == t
  }

  lemma OccursInConcat(t: string, s: string, at: nat, pre: string, post: string)
    requires OccursAt(t, s, at)
    ensures OccursAt(t, pre + s + post, |pre| + at)
  {
    assert (pre + s + post)[|pre| + at..|pre| + at + |t|] == s[at..at + |t|];
  }

  /** The items separated by `sep`, as Python's `sep.join(items)`. */
  function Join(items: seq<string>, sep: string): string
  {
    if items == [] then ""
    else if |items| == 1 then items[0]
    else items[0] + sep + Join(items[1..], sep)
  }

  /** Each item appears in the joined text. */
  lemma {:induction false} JoinContains(items: seq<string>, sep: string, k: nat) returns (at: nat)
    requires k < |items|
    ensures OccursAt(items[k], Join(items, sep), at)
  {
    if |items| == 1 {
      at := 0;
      assert items[0][0..|items[0]|] == items[0];
    } else if k == 0 {
      at := 0;
      OccursInConcat(items[0], items[0], 0, "", sep + Join(items[1..], sep));
      assert "" + items[0] + (sep + Join(items[1..], sep)) == Join(items, sep);
    } else {
      var inner := JoinContains(items[1..], sep, k - 1);
      OccursInConcat(items[k], Join(items[1..], sep), inner, items[0] + sep, "");
      assert items[0] + sep + Join(items[1..], sep) + "" == Join(items, sep);
      at := |items[0] + sep| + inner;
    }
  }

  /** The decimal digits of `n`, as Python's `str(n)` for a non-negative int. */
  function Decimal(n: nat): (r: string)
    ensures |r| >= 1
    ensures forall i :: 0 <= i < |r| ==> '0' <= r[i] <= '9'
    ensures Value(r) == n
  {
    if n < 10 then [Digit(n)]
    else
      var r := Decimal(n / 10) + [Digit(n % 10)];
      assert r[..|r| - 1] == Decimal(n / 10);
      r
  }

  /** The character of decimal digit `d`. */
  function Digit(d: nat): (c: char)
    requires d < 10
    ensures '0' <= c <= '9' && c as int - '0' as int == d
  {
    ('0' as int + d) as char
  }

  /** The number a string of decimal digits denotes, most significant first. */
  function Value(s: string): nat
    requires forall i :: 0 <= i < |s| ==> '0' <= s[i] <= '9'
  {
    if s == [] then 0 else 10 * Value(s[..|s| - 1]) + (s[|s| - 1] as int - '0' as int)
  }

  // ---------------------------------------------------------------- mistakes

  /** The request of a mistake analysis: the instruction, the student's whole
      stored history in its stored order, then the new problem. */
  function MistakeRequest(history: seq<Msg>, problem: string): (r: seq<Msg>)
    ensures |r| == |history| + 2
    ensures r[0] == Msg(System, MistakeInstruction)
    ensures r[1..|history| + 1] == history
    ensures r[|history| + 1] == Msg(User, problem)
  {
    [Msg(System, MistakeInstruction)] + history + [Msg(User, problem)]
  }

  /** Builds the request the way the handler does: a list holding the
      instruction, extended by the history, then the problem appended. */
  method BuildMistakeRequest(history: seq<Msg>, problem: string) returns (messages: seq<Msg>)
    ensures messages == MistakeRequest(history, problem)
  {
    messages := [Msg(System, MistakeInstruction)];
    messages := messages + history;
    messages := messages + [Msg(User, problem)];
  }

  /** What is sent, followed by the reply, is exactly the history stored
      after the analysis is recorded: the conversation the service saw is the
      one the archive keeps. */
  lemma RequestThenReplyIsStored(history: seq<Msg>, problem: string, reply: string)
    ensures MistakeRequest(history, problem)[1..] + [Msg(Assistant, reply)]
            == history + Exchange(problem, reply)
  {
  }

  /** For a well-formed history with N - 1 recorded analyses, the request of
      the N-th carries 2 * (N - 1) prior records: every earlier problem and
      its reply, and then the new problem. */
  lemma {:induction false} RequestCarriesPriorAnalyses(history: seq<Msg>, problem: string)
    requires WellFormed(history)
    ensures |MistakeRequest(history, problem)| == 2 * |UserContents(history)| + 2
    ensures UserContents(MistakeRequest(history, problem)) == UserContents(history) + [problem]
  {
    UserCountIsHalf(history);
    var r := MistakeRequest(history, problem);
    assert r == [Msg(System, MistakeInstruction)] + (history + [Msg(User, problem)]);
    UserContentsOfConcat([Msg(System, MistakeInstruction)], history + [Msg(User, problem)]);
    UserContentsOfConcat(history, [Msg(User, problem)]);
    assert [Msg(System, MistakeInstruction)][1..] == [];
    assert [Msg(User, problem)][1..] == [];
  }

  // ---------------------------------------------------------------- progress

  function ProgressPrompt(student: string, mistakes: seq<string>): string
  {
    ProgressIntro + student + ProgressMiddle + Join(mistakes, "\n") + ProgressOutro
  }

  /** The progress report of `student`: refused while fewer than two problems
      are stored; otherwise one user message carrying the prompt built from
      the student's name and every stored problem. */
  function ProgressReport(student: string, history: seq<Msg>, complete: seq<Msg> -> string): (r: Reply)
    ensures r.Refused? <==> |UserContents(history)| < 2
    ensures r.Refused? ==> r.why == TooFewMistakes
    ensures r.Report? ==> r.request == [Msg(User, ProgressPrompt(student, UserContents(history)))]
                          && r.text == complete(r.request)
  {
    var mistakes := UserContents(history);
    if |mistakes| < 2 then Refused(TooFewMistakes)
    else
      var request := [Msg(User, ProgressPrompt(student, mistakes))];
      Report(request, complete(request))
  }

  /** The progress prompt names the student and quotes every stored problem. */
  lemma ProgressMentions(student: string, history: seq<Msg>, complete: seq<Msg> -> string, k: nat)
    returns (atName: nat, atProblem: nat)
    requires ProgressReport(student, history, complete).Report?
    requires k < |UserContents(history)|
    ensures OccursAt(student, ProgressReport(student, history, complete).request[0].content, atName)
    ensures OccursAt(UserContents(history)[k], ProgressReport(student, history, complete).request[0].content, atProblem)
  {
    var mistakes := UserContents(history);
    var joined := Join(mistakes, "\n");
    var p := ProgressPrompt(student, mistakes);
    assert ProgressReport(student, history, complete).request[0].content == p;
    atName := |ProgressIntro|;
    assert student[0..|student|] == student;
    OccursInConcat(student, student, 0, ProgressIntro, ProgressMiddle + joined + ProgressOutro);
    assert ProgressIntro + student + (ProgressMiddle + joined + ProgressOutro) == p;
    var inner := JoinContains(mistakes, "\n", k);
    OccursInConcat(mistakes[k], joined, inner, ProgressIntro + student + ProgressMiddle, ProgressOutro);
    atProblem := |ProgressIntro + student + ProgressMiddle| + inner;
  }

  /** For a well-formed history the report is available exactly once two
      analyses are stored, that is once the history has four records. */
  lemma ProgressNeedsTwoAnalyses(student: string, history: seq<Msg>, complete: seq<Msg> -> string)
    requires WellFormed(history)
    ensures ProgressReport(student, history, complete).Report? <==> |history| >= 4
  {
    UserCountIsHalf(history);
  }

  // ------------------------------------------------ flows without the archive

  /** Lecture prep: refused for an empty paper; otherwise the instruction as
      system message and the paper as the one user message. */
  function LecturePrep(examPaper: string, complete: seq<Msg> -> string): (r: Reply)
    ensures r.Refused? <==> examPaper == ""
    ensures r.Refused? ==> r.why == EmptyInput
    ensures r.Report? ==> r.request == [Msg(System, LectureInstruction), Msg(User, examPaper)]
                          && r.text == complete(r.request)
  {
    if examPaper == "" then Refused(EmptyInput)
    else
      var request := [Msg(System, LectureInstruction), Msg(User, examPaper)];
      Report(request, complete(request))
  }

  function QuizPrompt(topics: string, count: nat, difficulty: string): string
  {
    QuizIntro + topics + QuizCountLead + Decimal(count) + QuizDifficultyLead + difficulty + QuizOutro
  }

  /** Topic quiz: refused for empty topics; otherwise one user message whose
      prompt is built from the topics, the count and the difficulty. */
  function TopicQuiz(topics: string, count: nat, difficulty: string, complete: seq<Msg> -> string): (r: Reply)
    ensures r.Refused? <==> topics == ""
    ensures r.Refused? ==> r.why == EmptyInput
    ensures r.Report? ==> r.request == [Msg(User, QuizPrompt(topics, count, difficulty))]
                          && r.text == complete(r.request)
  {
    if topics == "" then Refused(EmptyInput)
    else
      var request := [Msg(User, QuizPrompt(topics, count, difficulty))];
      Report(request, complete(request))
  }

  /** The quiz prompt holds the topics, the count in decimal and the
      difficulty, in that order. */
  lemma QuizMentions(topics: string, count: nat, difficulty: string)
    returns (atTopics: nat, atCount: nat, atDifficulty: nat)
    ensures OccursAt(topics, QuizPrompt(topics, count, difficulty), atTopics)
    ensures OccursAt(Decimal(count), QuizPrompt(topics, count, difficulty), atCount)
    ensures OccursAt(difficulty, QuizPrompt(topics, count, difficulty), atDifficulty)
    ensures atTopics + |topics| <= atCount && atCount + |Decimal(count)| <= atDifficulty
  {
    var d := Decimal(count);
    var p := QuizPrompt(topics, count, difficulty);
    var beforeCount := QuizIntro + topics + QuizCountLead;
    var beforeDifficulty := beforeCount + d + QuizDifficultyLead;
    atTopics := |QuizIntro|;
    atCount := |beforeCount|;
    atDifficulty := |beforeDifficulty|;
    assert p == QuizIntro + topics + (QuizCountLead + d + QuizDifficultyLead + difficulty + QuizOutro);
    assert p[atTopics..atTopics + |topics|] == topics;
    assert p == beforeCount + d + (QuizDifficultyLead + difficulty + QuizOutro);
    assert p[atCount..atCount + |d|] == d;
    assert p == beforeDifficulty + difficulty + QuizOutro;
    assert p[atDifficulty..atDifficulty + |difficulty|] == difficulty;
  }

  function ParallelPrompt(original: string): string
  {
    ParallelIntro + original + ParallelOutro
  }

  /** Parallel exam: refused for an empty original; otherwise one user
      message whose prompt quotes the original paper. */
  function ParallelExam(original: string, complete: seq<Msg> -> string): (r: Reply)
    ensures r.Refused? <==> original == ""
    ensures r.Refused? ==> r.why == EmptyInput
    ensures r.Report? ==> |r.request| == 1 && r.request[0].role == User
                          && OccursAt(original, r.request[0].content, |ParallelIntro|)
                          && r.text == complete(r.request)
  {
    if original == "" then Refused(EmptyInput)
    else
      var request := [Msg(User, ParallelPrompt(original))];
      assert ParallelPrompt(original)[|ParallelIntro|..|ParallelIntro| + |original|] == original;
      Report(request, complete(request))
  }
}
