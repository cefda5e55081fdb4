/** The student archive as a value: a map from student name to that
    student's history. Every change the application makes to it is one of
    two steps, and this module states each step as a function of the archive
    before it. */
module Store {
  import opened Messages

  type Archive = map<string, seq<Msg>>

  /** What pressing the "create archive" button reports. An empty name that
      is not a key is dropped without a message. */
  datatype Creation = Created | AlreadyExists | Ignored

  /** The outcome of creating `name`: a new non-empty name is created, a name
      that is already a key (even the empty one, which only a loaded file can
      hold) draws the warning, and an empty new name is dropped silently. */
  function CreationOutcome(a: Archive, name: string): (c: Creation)
    ensures c == Created <==> name != "" && name !in a
    ensures c == AlreadyExists <==> name in a
    ensures c == Ignored <==> name == "" && name !in a
  {
    if name != "" && name !in a then Created
    else if name in a then AlreadyExists
    else Ignored
  }

  /** The archive after creating `name`: an empty history under a new
      non-empty name, and nothing else changes. */
  function AddStudent(a: Archive, name: string): (b: Archive)
    ensures CreationOutcome(a, name) == Created ==> name in b && b[name] == []
    ensures CreationOutcome(a, name) == Created ==> b.Keys == a.Keys + {name}
    ensures CreationOutcome(a, name) != Created ==> b == a
    ensures forall s :: s in a ==> s in b && b[s] == a[s]
  {
    if CreationOutcome(a, name) == Created then a[name := []] else a
  }

  /** The archive after recording one analysis for `student`: that student's
      history gains the problem and then the reply at its end; no other
      student and no earlier record changes. */
  function RecordAnalysis(a: Archive, student: string, problem: string, reply: string): (b: Archive)
    requires student in a
    ensures b.Keys == a.Keys
    ensures |b[student]| == |a[student]| + 2
    ensures b[student][..|a[student]|] == a[student]
    ensures b[student][|a[student]|] == Msg(User, problem)
    ensures b[student][|a[student]| + 1] == Msg(Assistant, reply)
    ensures forall s :: s in a && s != student ==> b[s] == a[s]
  {
    a[student := a[student] + Exchange(problem, reply)]
  }

  /** Every history of the archive alternates user and assistant records. */
  ghost predicate AllWellFormed(a: Archive)
  {
    forall s :: s in a ==> WellFormed(a[s])
  }

  /** `b` is `a` grown: no key removed, and every history of `a` is a prefix
      of the same student's history in `b`. */
  ghost predicate Grows(a: Archive, b: Archive)
  {
    forall s :: s in a ==> s in b && a[s] <= b[s]
  }

  /** One change the application can make to the archive. The reply of an
      analysis is whatever the completion service returned. */
  datatype Event =
    | CreateStudent(name: string)
    | Analyse(student: string, problem: string, reply: string)

  /** The archive after one event. An analysis with an empty problem, or for
      a name that is not a student, is refused and changes nothing. */
  function Step(a: Archive, e: Event): Archive
  {
    match e
    case CreateStudent(name) => AddStudent(a, name)
    case Analyse(student, problem, reply) =>
      if problem != "" && student in a then RecordAnalysis(a, student, problem, reply) else a
  }

  /** The archive after `events`, starting from the empty archive that a
      missing archive file loads as. */
  function Replay(events: seq<Event>): Archive
  {
    if events == [] then map[] else Step(Replay(events[..|events| - 1]), events[|events| - 1])
  }

  /** Every step keeps every history alternating and only grows the archive. */
  lemma StepPreserves(a: Archive, e: Event)
    ensures AllWellFormed(a) ==> AllWellFormed(Step(a, e))
    ensures Grows(a, Step(a, e))
  {
    match e
    case CreateStudent(name) =>
    case Analyse(student, problem, reply) =>
      if problem != "" && student in a && AllWellFormed(a) {
        WellFormedExtend(a[student], problem, reply);
      }
  }

  /** Every archive reachable from the empty one holds only alternating
      histories of even length. */
  lemma {:induction false} ReplayWellFormed(events: seq<Event>)
    ensures AllWellFormed(Replay(events))
  {
    if events != [] {
      ReplayWellFormed(events[..|events| - 1]);
      StepPreserves(Replay(events[..|events| - 1]), events[|events| - 1]);
    }
  }

  /** Later events never remove a student nor alter a stored record. */
  lemma {:induction false} ReplayGrows(events: seq<Event>, later: seq<Event>)
    ensures Grows(Replay(events), Replay(events + later))
  {
    if later == [] {
      assert events + later == events;
    } else {
      var all := events + later;
      assert all[..|all| - 1] == events + later[..|later| - 1];
      ReplayGrows(events, later[..|later| - 1]);
      StepPreserves(Replay(all[..|all| - 1]), all[|all| - 1]);
    }
  }

  /** In a reachable archive each student has one user record per recorded
      analysis: the progress input holds half the history. */
  lemma ReplayUserCount(events: seq<Event>, student: string)
    requires student in Replay(events)
    ensures |Replay(events)[student]| % 2 == 0
    ensures |UserContents(Replay(events)[student])| == |Replay(events)[student]| / 2
  {
    ReplayWellFormed(events);
    UserCountIsHalf(Replay(events)[student]);
  }
}
