# Student archive of the middle-school maths teaching assistant

The assistant keeps a **student archive**. It maps each student's name to
that student's history of analysed mistakes. A history is a list of
`{role, content}` records: the problem the teacher typed (role `user`),
then the reply of the remote language model (role `assistant`). Around the
archive sit five generating actions. Each sends one message list to a chat
completion service and shows the text that comes back:

- **mistake analysis** sends the whole history of the selected student,
  then appends the new exchange to that history;
- **progress analysis** quotes every stored problem of the student and
  refuses when fewer than two are stored;
- **lecture prep**, **topic quiz** and **parallel exam** never touch the
  archive.

The mistake analysis, lecture prep, topic quiz and parallel exam refuse
empty text input. The progress analysis takes no text input; it refuses
only when fewer than two problems are stored.

The Dafny project models this core:

- `messages.dfy` (`Messages`): records, the alternation invariant
  `WellFormed`, and `UserContents`, the list of stored problems that feeds
  the progress report.
- `store.dfy` (`Store`): the archive as a map value. It has the two changes
  the application makes (`AddStudent`, `RecordAnalysis`), a `Step` function
  over events, and `Replay` from the empty archive. The invariant and
  growth lemmas are stated over `Replay`.
- `requests.dfy` (`Requests`): the request of each action, and what each
  action reports (`Reply`: refused, or the one request sent plus its reply
  text).
- `session.dfy` (`Session`): the in-memory archive as an object. Its
  `students` map is updated in place by the button handlers. Each handler is
  proved equal to the corresponding `Store.Step`. A handler returns the
  snapshot it writes to the archive file, and only when it writes one.

The completion service is the function parameter `complete: seq<Msg> ->
string`. The fixed instruction and prompt texts are uninitialised constants,
so every property holds whatever their wording.

In the code (`app.py:32-37`), an empty name that is not already a key is
dropped silently: it fails the first test and the `elif`.
An empty name that a loaded file already holds as a key takes the duplicate
warning. `Store.CreationOutcome` states exactly this.

## Model

| member | source | states |
|---|---|---|
| Messages.UserContentsSelects | app.py:84 | the progress input is exactly the contents of the user-role records, in their original order: a strictly increasing list of positions covers every user record and nothing else |
| Messages.UserContentsOfConcat | app.py:84 | selecting user records distributes over concatenation of histories |
| Messages.WellFormedExtend | app.py:78 | appending a user/assistant pair keeps a history alternating with even length |
| Messages.UserCountIsHalf | app.py:78-85 | in an alternating history the number of user records is half the history length |
| Messages.RecordAddsOneProblem | app.py:78-84 | after recording an analysis the progress input is the old one plus the new problem at its end |
| Store.CreationOutcome | app.py:32-37 | a new non-empty name is created; a name already present (even the empty one) takes the duplicate warning; an empty new name is ignored with no message |
| Store.AddStudent | app.py:32-33 | creating maps a new non-empty name to an empty history, adds exactly that key and changes no other entry; otherwise the archive is unchanged |
| Store.RecordAnalysis | app.py:78 | the student's history grows by exactly two records, `{user, problem}` then `{assistant, reply}`; earlier records keep order and content; keys and every other history are unchanged |
| Store.StepPreserves | app.py:31-80 | every create or analysis keeps all histories alternating, never removes a student and only extends histories |
| Store.ReplayWellFormed | app.py:21-80 | every archive reachable from the empty archive has only alternating, even-length histories starting with a user record |
| Store.ReplayGrows | app.py:21-80 | later events never remove a student nor change a stored record (each history is a prefix of its later self) |
| Store.ReplayUserCount | app.py:78-85 | in a reachable archive each history has even length and half of its records are user records |
| Requests.MistakeRequest | app.py:71-73 | the analysis request has `|history| + 2` messages: the system instruction, then the history in stored order, then `{user, problem}` |
| Requests.BuildMistakeRequest | app.py:71-73 | building the list step by step (instruction, extend by history, append problem) yields that request |
| Requests.RequestThenReplyIsStored | app.py:71-78 | the request without its system message, followed by the reply, is exactly the history stored after recording |
| Requests.RequestCarriesPriorAnalyses | app.py:71-73 | for an alternating history, the N-th request carries 2(N-1) prior records, and its user records are all earlier problems followed by the new one |
| Requests.JoinContains | app.py:90 | every problem appears in the newline-joined problem list |
| Requests.Decimal | app.py:131 | the quiz count is rendered as a non-empty string of decimal digits whose value is the count |
| Requests.ProgressReport | app.py:84-94 | the progress request is refused exactly when fewer than two user records exist; otherwise it is one user message carrying the prompt built from the student's name and those records, and the report is the service's reply to it |
| Requests.ProgressMentions | app.py:90-92 | the progress prompt names the student and quotes every stored problem |
| Requests.ProgressNeedsTwoAnalyses | app.py:84-86 | for an alternating history the progress report is available exactly when the history holds at least four records |
| Requests.LecturePrep | app.py:100-109 | lecture prep refuses an empty paper; otherwise the request is exactly `[system instruction, {user, paper}]` |
| Requests.TopicQuiz | app.py:125-134 | the topic quiz refuses empty topics; otherwise it sends one user message carrying the prompt built from topics, count and difficulty, and reports the reply |
| Requests.QuizMentions | app.py:131 | the quiz prompt holds the topics, the decimal count and the difficulty, in that order and without overlapping |
| Requests.ParallelExam | app.py:138-147 | the parallel exam refuses an empty original; otherwise it sends one user message that quotes the original paper |
| Session.ArchiveSession.Load | app.py:11-22 | the session starts with the map the file holds, or with the empty map (the start of every `Replay`) when no file exists |
| Session.ArchiveSession.CreateStudent | app.py:31-37 | the in-place create takes the outcome and new map of `Store.Step`, keeps the invariant, and writes the file only when a student was created |
| Session.ArchiveSession.AnalyseMistake | app.py:65-80 | an empty problem is refused with no call, no change and no write; otherwise it sends `MistakeRequest` of the stored history, appends problem and reply in place as `Store.Step` does, keeps the invariant and writes the new map |
| Session.ArchiveSession.AnalyseProgress | app.py:83-94 | the progress handler only reads the archive and returns `ProgressReport` of the selected student's history |

## Left out

- The user interface: tabs, sidebar, widgets, spinners and the rerun
  behaviour of session state. The selected student is a parameter that the
  handlers require to be a key of the archive. The source guarantees this
  because the selection box lists the archive's own keys (`app.py:40-48`).
- The completion client, its construction, credentials and the remote
  call. The service is the total function `complete`. A failing call raises
  before the append in the source, so the archive is unchanged; the model has
  no failure path for it.
- File I/O in `load_data` and `save_data`: opening the file and the JSON
  encoding. What loading finds (a missing file or the decoded map) is the
  constructor's argument. Saving is the `Persist` snapshot a handler
  returns. The JSON round trip and
  a corrupt file, which the source does not handle, are not modelled.
- The exact prompt and instruction wording. These texts are opaque
  constants, and the model proves only that the supplied values appear in
  the prompts.
- The slider and select ranges of the quiz count and difficulty. These are
  widget bounds: the count is any natural number and the difficulty any
  string.
- Records that a hand-edited archive file could hold beyond the model.
  These are roles other than user/assistant/system, and records missing a
  key, which the source would fail on at the comprehension. Roles are a
  three-valued type.
- The image-analysis flow and its timestamped records are not part of this
  model. They belong to a second version of the application that is not in
  `app.py`.
- Several browser sessions at once. Each session loads its own copy of the
  file once (`app.py:21-22`), and every save rewrites the whole file
  (`app.py:17-19`). With two sessions open, the last save wins and can drop
  a student that the other session created. `Store.ReplayGrows` holds for
  one in-memory archive, not for the file shared between sessions.
