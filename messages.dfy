/** Chat records as the student archive stores them and as requests to the
    completion service carry them: a role and a text. */
module Messages {

  /** The three roles a record can carry. The archive itself only ever
      receives `User` and `Assistant`; `System` appears only in requests. */
  datatype Role = System | User | Assistant

  datatype Msg = Msg(role: Role, content: string)

  /** One recorded mistake analysis: the problem as the teacher typed it,
      then the reply of the completion service. */
  function Exchange(problem: string, reply: string): seq<Msg>
  {
    [Msg(User, problem), Msg(Assistant, reply)]
  }

  /** A history built only by recording analyses: even length, alternating
      user, assistant, user, ... starting with a user record. */
  predicate WellFormed(h: seq<Msg>)
  {
    |h| % 2 == 0 &&
    forall i :: 0 <= i < |h| ==> h[i].role == (if i % 2 == 0 then User else Assistant)
  }

  /** The contents of the user-role records of `h`, in their order in `h`
      (the list comprehension that feeds the progress report). */
  function UserContents(h: seq<Msg>): (r: seq<string>)
    ensures |r| <= |h|
    ensures h != [] && h[0].role == User ==> r != [] && r[0] == h[0].content
  {
    if h == [] then []
    else (if h[0].role == User then [h[0].content] else []) + UserContents(h[1..])
  }

  /** Every record of `h` that is not a user record is dropped, so only the
      user records are counted. */
  lemma {:induction false} UserContentsOfConcat(h: seq<Msg>, t: seq<Msg>)
    ensures UserContents(h + t) == UserContents(h) + UserContents(t)
  {
    if h == [] {
      assert h + t == t;
    } else {
      assert (h + t)[0] == h[0];
      assert (h + t)[1..] == h[1..] + t;
      UserContentsOfConcat(h[1..], t);
    }
  }

  /** `pos` is a strictly increasing list of positions of `h` that holds
      every user record of `h` and nothing else, and `r` lists their contents
      in that order. */
  ghost predicate Selects(h: seq<Msg>, pos: seq<nat>, r: seq<string>)
  {
    Picks(h, pos, r) && Increasing(pos) && Covers(h, pos)
  }

  /** Every listed position holds a user record whose content is the
      matching entry of `r`. */
  ghost predicate Picks(h: seq<Msg>, pos: seq<nat>, r: seq<string>)
  {
    |pos| == |r| &&
    forall k :: 0 <= k < |pos| ==> pos[k] < |h| && h[pos[k]].role == User && r[k] == h[pos[k]].content
  }

  ghost predicate Increasing(pos: seq<nat>)
  {
    forall k, l :: 0 <= k < l < |pos| ==> pos[k] < pos[l]
  }

  /** Every user record of `h` is at a listed position. */
  ghost predicate Covers(h: seq<Msg>, pos: seq<nat>)
  {
    forall i :: 0 <= i < |h| && h[i].role == User ==> i in pos
  }

  /** UserContents keeps exactly the user records of `h`, in their order. */
  lemma {:induction false} UserContentsSelects(h: seq<Msg>) returns (pos: seq<nat>)
    ensures Selects(h, pos, UserContents(h))
  {
    if h == [] {
      pos := [];
    } else {
      var rest := UserContentsSelects(h[1..]);
      pos := ConsPositions(h, rest);
      PicksCons(h, rest);
      IncreasingCons(h, rest);
      CoversCons(h, rest);
    }
  }

  /** The positions of the user records of `h`, given those of `h[1..]`:
      each moved one to the right, after position 0 if `h[0]` is a user
      record. */
  function ConsPositions(h: seq<Msg>, rest: seq<nat>): (p: seq<nat>)
    requires h != []
    ensures |p| == |rest| + Lead(h)
    ensures h[0].role == User ==> p[0] == 0
    ensures forall j :: 0 <= j < |rest| ==> p[j + Lead(h)] == rest[j] + 1
  {
    (if h[0].role == User then [0] else []) + seq(|rest|, k requires 0 <= k < |rest| => rest[k] + 1)
  }

  /** 1 when the first record of `h` is a user record, else 0. */
  function Lead(h: seq<Msg>): nat
    requires h != []
  {
    if h[0].role == User then 1 else 0
  }

  lemma PicksCons(h: seq<Msg>, rest: seq<nat>)
    requires h != [] && Picks(h[1..], rest, UserContents(h[1..]))
    ensures Picks(h, ConsPositions(h, rest), UserContents(h))
  {
    var p, r := ConsPositions(h, rest), UserContents(h);
    forall k | 0 <= k < |p| ensures p[k] < |h| && h[p[k]].role == User && r[k] == h[p[k]].content {
      PickAt(h, rest, k);
    }
  }

  lemma PickAt(h: seq<Msg>, rest: seq<nat>, k: nat)
    requires h != [] && Picks(h[1..], rest, UserContents(h[1..]))
    requires k < |ConsPositions(h, rest)|
    ensures ConsPositions(h, rest)[k] < |h|
    ensures h[ConsPositions(h, rest)[k]].role == User
    ensures UserContents(h)[k] == h[ConsPositions(h, rest)[k]].content
  {
    var d := Lead(h);
    if k >= d {
      var t, rt, j := h[1..], UserContents(h[1..]), k - d;
      UserContentsTail(h, k);
      assert rest[j] < |t| && t[rest[j]].role == User && rt[j] == t[rest[j]].content;
      assert h[rest[j] + 1] == t[rest[j]];
    }
  }

  /** Past the leading user record, if any, UserContents(h) continues as
      UserContents(h[1..]). */
  lemma UserContentsTail(h: seq<Msg>, k: nat)
    requires h != [] && Lead(h) <= k < |UserContents(h)|
    ensures k - Lead(h) < |UserContents(h[1..])|
    ensures UserContents(h)[k] == UserContents(h[1..])[k - Lead(h)]
  {
    var head := if h[0].role == User then [h[0].content] else [];
    assert UserContents(h) == head + UserContents(h[1..]);
  }

  lemma IncreasingCons(h: seq<Msg>, rest: seq<nat>)
    requires h != [] && Increasing(rest)
    ensures Increasing(ConsPositions(h, rest))
  {
    var p, d := ConsPositions(h, rest), Lead(h);
    forall k, l | 0 <= k < l < |p| ensures p[k] < p[l] {
      assert p[l] == rest[l - d] + 1;
      if k >= d { assert p[k] == rest[k - d] + 1; }
    }
  }

  lemma CoversCons(h: seq<Msg>, rest: seq<nat>)
    requires h != [] && Covers(h[1..], rest)
    ensures Covers(h, ConsPositions(h, rest))
  {
    var p, d := ConsPositions(h, rest), Lead(h);
    forall i | 0 <= i < |h| && h[i].role == User ensures i in p {
      if i > 0 {
        assert h[1..][i - 1] == h[i];
        var k :| 0 <= k < |rest| && rest[k] == i - 1;
        assert p[k + d] == i;
      }
    }
  }

  /** Recording one analysis keeps a history well formed. */
  lemma WellFormedExtend(h: seq<Msg>, problem: string, reply: string)
    requires WellFormed(h)
    ensures WellFormed(h + Exchange(problem, reply))
  {
  }

  /** In a well-formed history half of the records are user records: one per
      recorded analysis. */
  lemma {:induction false} UserCountIsHalf(h: seq<Msg>)
    requires WellFormed(h)
    ensures |UserContents(h)| == |h| / 2
  {
    if h != [] {
      var t := h[2..];
      assert WellFormed(t) by {
        forall i | 0 <= i < |t| ensures t[i].role == (if i % 2 == 0 then User else Assistant) {
          assert t[i] == h[i + 2];
        }
      }
      assert h == [h[0], h[1]] + t;
      UserContentsOfConcat([h[0], h[1]], t);
      assert UserContents([h[0], h[1]]) == [h[0].content] by {
        assert [h[0], h[1]][1..] == [h[1]];
        assert [h[1]][1..] == [];
      }
      UserCountIsHalf(t);
    }
  }

  /** Recording an analysis adds exactly its problem to the end of the
      progress input; earlier problems keep their order. */
  lemma RecordAddsOneProblem(h: seq<Msg>, problem: string, reply: string)
    ensures UserContents(h + Exchange(problem, reply)) == UserContents(h) + [problem]
  {
    UserContentsOfConcat(h, Exchange(problem, reply));
    assert Exchange(problem, reply)[1..] == [Msg(Assistant, reply)];
    assert [Msg(Assistant, reply)][1..] == [];
  }
}
