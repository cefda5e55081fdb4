/** The archive as the running application holds it: one object whose map
    of student histories the button handlers change in place. A handler that
    changes the map also writes it out; the written snapshot is returned so
    that the model says when the file is rewritten and with what. */
module Session {
  import opened Messages
  import opened Store
  import opened Requests

  /** What a handler wrote to the archive file: nothing, or the whole map. */
  datatype Persist = Unsaved | Saved(snapshot: Store.Archive)

  /** The archive file at start-up: absent, or holding a decoded map. */
  datatype StoredFile = Missing | Present(contents: Store.Archive)

  class ArchiveSession {
    var students: Store.Archive

    /** Loading at start-up: the stored map, or the empty map when there is
        no file. */
    constructor Load(file: StoredFile)
      ensures file == Missing ==> students == map[] && students == Replay([])
      ensures file.Present? ==> students == file.contents
    {
      if file.Present? {
        students := file.contents;
      } else {
        students := map[];
      }
    }

    /** The "create archive" button. */
    method CreateStudent(name: string) returns (outcome: Creation, persisted: Persist)
      modifies this
      ensures outcome == CreationOutcome(old(students), name)
      ensures students == Step(old(students), Event.CreateStudent(name))
      ensures outcome == Created ==> name in students && students[name] == []
      ensures outcome != Created ==> students == old(students)
      ensures persisted == if outcome == Created then Saved(students) else Unsaved
      ensures AllWellFormed(old(students)) ==> AllWellFormed(students)
    {
      if name != "" && name !in students {
        students := students[name := []];
        persisted := Saved(students);
        outcome := Created;
      } else if name in students {
        outcome, persisted := AlreadyExists, Unsaved;
      } else {
        outcome, persisted := Ignored, Unsaved;
      }
      StepPreserves(old(students), Event.CreateStudent(name));
    }

    /** The "analyse and archive" button for the selected student, who is
        always one of the archive's keys. An empty problem is refused before
        any call; otherwise the request goes out, and the problem and the
        reply are appended to the student's history and written out. */
    method AnalyseMistake(current: string, problem: string, complete: seq<Msg> -> string)
      returns (reply: Reply, persisted: Persist)
      requires current in students
      modifies this
      ensures problem == "" ==> reply == Refused(EmptyInput) && students == old(students) && persisted == Unsaved
      ensures problem != "" ==>
        reply == Report(MistakeRequest(old(students)[current], problem),
                        complete(MistakeRequest(old(students)[current], problem)))
      ensures problem != "" ==>
        students == RecordAnalysis(old(students), current, problem, reply.text) && persisted == Saved(students)
      ensures reply.Report? ==> students == Step(old(students), Analyse(current, problem, reply.text))
      ensures AllWellFormed(old(students)) ==> AllWellFormed(students)
    {
      if problem == "" {
        reply, persisted := Refused(EmptyInput), Unsaved;
      } else {
        var history := students[current];
        var messages := BuildMistakeRequest(history, problem);
        var text := complete(messages);
        reply := Report(messages, text);
        students := students[current := students[current] + [Msg(User, problem), Msg(Assistant, text)]];
        persisted := Saved(students);
        StepPreserves(old(students), Analyse(current, problem, text));
      }
    }

    /** The "progress analysis" button: it only reads the archive. */
    method AnalyseProgress(current: string, complete: seq<Msg> -> string) returns (reply: Reply)
      requires current in students
      ensures reply == ProgressReport(current, students[current], complete)
    {
      var mistakes := UserContents(students[current]);
      if |mistakes| < 2 {
        reply := Refused(TooFewMistakes);
      } else {
        var request := [Msg(User, ProgressPrompt(current, mistakes))];
        reply := Report(request, complete(request));
      }
    }
  }
}
