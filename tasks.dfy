/**
 * Task detection from folder names and the three task-specific answer
 * builders (tasks_ui.py). The builders return the record they hand to the
 * submit callback; the Gradio widgets around them are not modelled.
 */
module Tasks {
  import opened Wrappers
  import opened Strings

  const GateValve: string := "rotate_gate_valve"
  const Lever: string := "rotate_lever_easy"
  const Generic: string := "generic"

  /** `KNOWN_TASKS`. */
  const KnownTasks: set<string> := {GateValve, Lever}

  lemma GenericIsNotKnown()
    ensures Generic !in KnownTasks
  {
    assert Generic[0] != GateValve[0] && Generic[0] != Lever[0];
  }

  // ---------------------------------------------------------------------
  // Tokenising: `re.split(r"[\\/]", s)`
  // ---------------------------------------------------------------------

  predicate IsSep(c: char) { c == '/' || c == '\\' }

  predicate NoSep(s: string) { forall i :: 0 <= i < |s| ==> !IsSep(s[i]) }

  /** The separator characters of `s`, in order. */
  function SepsOf(s: string): seq<char> {
    if s == [] then [] else (if IsSep(s[0]) then [s[0]] else []) + SepsOf(s[1..])
  }

  /** Puts the separators back between consecutive parts. */
  function Interleave(parts: seq<string>, seps: seq<char>): string
    requires |parts| == |seps| + 1
  {
    if seps == [] then parts[0]
    else parts[0] + [seps[0]] + Interleave(parts[1..], seps[1..])
  }

  /**
   * Splitting on every '/' and '\'. Like `re.split`, adjacent separators and
   * separators at either end give empty parts, so a string with k separators
   * has k + 1 parts.
   */
  function SplitSeps(s: string): (parts: seq<string>)
    ensures |parts| >= 1
    decreases |s|
  {
    if s == [] then [[]]
    else
      var rest := SplitSeps(s[1..]);
      if IsSep(s[0]) then [[]] + rest
      else [[s[0]] + rest[0]] + rest[1..]
  }

  /** No part holds a separator. */
  lemma {:induction false} SplitSepsNoSep(s: string)
    ensures forall k :: 0 <= k < |SplitSeps(s)| ==> NoSep(SplitSeps(s)[k])
    decreases |s|
  {
    if s != [] && !IsSep(s[0]) {
      var rest := SplitSeps(s[1..]);
      var parts := SplitSeps(s);
      SplitSepsNoSep(s[1..]);
      assert NoSep(parts[0]) by {
        assert forall j :: 0 < j < |parts[0]| ==> parts[0][j] == rest[0][j - 1];
      }
      forall k | 0 < k < |parts| ensures NoSep(parts[k]) {
        assert parts[k] == rest[k];
      }
    } else if s != [] {
      SplitSepsNoSep(s[1..]);
      var rest := SplitSeps(s[1..]);
      assert forall k :: 0 < k < |SplitSeps(s)| ==> SplitSeps(s)[k] == rest[k - 1];
    }
  }

  /** Putting the separators back between the parts gives the input. */
  lemma {:induction false} SplitSepsInterleave(s: string)
    ensures |SplitSeps(s)| == |SepsOf(s)| + 1
    ensures Interleave(SplitSeps(s), SepsOf(s)) == s
    decreases |s|
  {
    if s != [] {
      var c, rest, seps := s[0], SplitSeps(s[1..]), SepsOf(s[1..]);
      SplitSepsInterleave(s[1..]);
      assert s == [c] + s[1..];
      if IsSep(c) {
        calc {
          Interleave(SplitSeps(s), SepsOf(s));
          Interleave([[]] + rest, [c] + seps);
          { assert ([[]] + rest)[1..] == rest && ([c] + seps)[1..] == seps; }
          [] + [c] + Interleave(rest, seps);
        }
      } else if seps == [] {
        assert SepsOf(s) == [] + seps == seps;
        assert Interleave(SplitSeps(s), SepsOf(s)) == [c] + rest[0];
      } else {
        assert SepsOf(s) == [] + seps == seps;
        calc {
          Interleave(SplitSeps(s), SepsOf(s));
          Interleave([[c] + rest[0]] + rest[1..], seps);
          { assert ([[c] + rest[0]] + rest[1..])[1..] == rest[1..]; }
          [c] + rest[0] + [seps[0]] + Interleave(rest[1..], seps[1..]);
          [c] + (rest[0] + [seps[0]] + Interleave(rest[1..], seps[1..]));
        }
      }
    }
  }

  /** The parts hold no separator, and putting the separators back gives the input. */
  lemma SplitSepsSpec(s: string)
    ensures |SplitSeps(s)| == |SepsOf(s)| + 1
    ensures forall k :: 0 <= k < |SplitSeps(s)| ==> NoSep(SplitSeps(s)[k])
    ensures Interleave(SplitSeps(s), SepsOf(s)) == s
  {
    SplitSepsNoSep(s);
    SplitSepsInterleave(s);
  }

  /** `parts += re.split(r"[\\/]", str(d).lower())` over every directory, in order. */
  function PathTokens(dirs: seq<string>): seq<string> {
    if dirs == [] then []
    else PathTokens(dirs[..|dirs| - 1]) + SplitSeps(Lower(dirs[|dirs| - 1]))
  }

  /** Every token is lower-case and free of separators. */
  lemma {:induction false} PathTokensSpec(dirs: seq<string>)
    ensures forall k :: 0 <= k < |PathTokens(dirs)| ==> NoSep(PathTokens(dirs)[k])
    ensures forall k :: 0 <= k < |PathTokens(dirs)| ==> Lower(PathTokens(dirs)[k]) == PathTokens(dirs)[k]
  {
    if dirs != [] {
      var init, d := dirs[..|dirs| - 1], Lower(dirs[|dirs| - 1]);
      PathTokensSpec(init);
      SplitSepsSpec(d);
      SplitSepsLower(d);
      var a, b := PathTokens(init), SplitSeps(d);
      assert PathTokens(dirs) == a + b;
      forall k | 0 <= k < |a + b|
        ensures NoSep((a + b)[k]) && Lower((a + b)[k]) == (a + b)[k]
      {
        if k >= |a| {
          assert (a + b)[k] == b[k - |a|];
        }
      }
    }
  }

  /** Splitting an already lowered string gives lowered parts. */
  lemma {:induction false} SplitSepsLower(s: string)
    requires Lower(s) == s
    ensures forall k :: 0 <= k < |SplitSeps(s)| ==> Lower(SplitSeps(s)[k]) == SplitSeps(s)[k]
    decreases |s|
  {
    if s != [] {
      assert Lower(s[1..]) == Lower(s)[1..] == s[1..];
      SplitSepsLower(s[1..]);
      var rest := SplitSeps(s[1..]);
      if !IsSep(s[0]) {
        var parts := SplitSeps(s);
        forall k | 0 <= k < |parts| ensures Lower(parts[k]) == parts[k] {
          if k == 0 {
            assert LowerChar(s[0]) == Lower(s)[0] == s[0];
            assert Lower([s[0]] + rest[0])[0] == s[0];
            assert Lower([s[0]] + rest[0])[1..] == Lower(rest[0]);
          } else {
            assert parts[k] == rest[k];
          }
        }
      }
    }
  }

  // ---------------------------------------------------------------------
  // Detection
  // ---------------------------------------------------------------------

  /** Some token is exactly a known task. */
  predicate HasKnownToken(parts: seq<string>) {
    exists k :: 0 <= k < |parts| && parts[k] in KnownTasks
  }

  /** The position of the first token that is a known task. */
  function FirstKnownIndex(parts: seq<string>): (k: nat)
    requires HasKnownToken(parts)
    ensures k < |parts| && parts[k] in KnownTasks
    ensures forall j :: 0 <= j < k ==> parts[j] !in KnownTasks
  {
    if parts[0] in KnownTasks then 0
    else
      var w :| 0 <= w < |parts| && parts[w] in KnownTasks;
      assert parts[1..][w - 1] in KnownTasks;
      1 + FirstKnownIndex(parts[1..])
  }

  /** `any(t in p for p in parts)`. */
  predicate AnyContains(parts: seq<string>, t: string) {
    exists k :: 0 <= k < |parts| && Contains(parts[k], t)
  }

  /** Some token contains some known task. */
  predicate MentionsKnownTask(parts: seq<string>) {
    exists t :: t in KnownTasks && AnyContains(parts, t)
  }

  lemma ContainsSelf(s: string)
    ensures Contains(s, s)
  {
    assert s[..|s|] == s;
  }

  /**
   * `detect_task_from_dirs`: the first token equal to a known task wins;
   * failing that, some known task that occurs inside a token (the set's
   * iteration order is not fixed, so any such task may be chosen); failing
   * that, "generic".
   */
  method DetectTaskFromDirs(dirs: seq<string>) returns (task: string)
    ensures task in KnownTasks || task == Generic
    ensures HasKnownToken(PathTokens(dirs)) ==> task == PathTokens(dirs)[FirstKnownIndex(PathTokens(dirs))]
    ensures !HasKnownToken(PathTokens(dirs)) && task != Generic ==>
      task in KnownTasks && AnyContains(PathTokens(dirs), task)
    ensures task == Generic <==> !MentionsKnownTask(PathTokens(dirs))
  {
    GenericIsNotKnown();
    var parts: seq<string> := [];
    for i := 0 to |dirs|
      invariant parts == PathTokens(dirs[..i])
    {
      assert dirs[..i + 1][..i] == dirs[..i];
      parts := parts + SplitSeps(Lower(dirs[i]));
    }
    assert dirs[..|dirs|] == dirs;
    for i := 0 to |parts|
      invariant forall k :: 0 <= k < i ==> parts[k] !in KnownTasks
    {
      if parts[i] in KnownTasks {
        ContainsSelf(parts[i]);
        return parts[i];
      }
    }
    var remaining := KnownTasks;
    while remaining != {}
      invariant remaining <= KnownTasks
      invariant forall t :: t in KnownTasks && t !in remaining ==> !AnyContains(parts, t)
      decreases |remaining|
    {
      var t :| t in remaining;
      if AnyContains(parts, t) {
        return t;
      }
      remaining := remaining - {t};
    }
    return Generic;
  }

  // ---------------------------------------------------------------------
  // Answer builders: `_rv_handler`, `_rl_handler`, `_gen_handler`
  // ---------------------------------------------------------------------

  const Yes: string := "Yes"
  const No: string := "No"

  /** What a `gr.Number` hands over: nothing, an empty string, or a number. */
  datatype NumberInput = NoNumber | EmptyText | Number(x: real)

  /** The answer record of each task; `None` is JSON `null`. */
  datatype Answers =
    | GateValveAnswers(turnedAllTheWay: bool, timeS: Option<real>,
        bothGripSimultaneousBeforeTurn: bool,
        gripperSlipAnyPoint: Option<bool>, grippedAtAnyPoint: Option<bool>)
    | LeverAnswers(movedToTarget: bool, timeS: Option<real>,
        bothGripSimultaneousBeforeTurn: bool,
        gripperSlipAnyPoint: Option<bool>, grippedAtAnyPoint: Option<bool>)
    | GenericAnswers(success: bool, timeS: Option<real>)

  /** The task name and answers handed to the submit callback. */
  datatype Submission = Submission(task: string, answers: Answers)

  /** `float(time_s) if (cond and time_s not in (None, "")) else None`. */
  function TimeIf(cond: bool, timeS: NumberInput): (r: Option<real>)
    ensures r.Some? <==> cond && timeS.Number?
    ensures r.Some? ==> r.value == timeS.x
  {
    if cond && timeS.Number? then Some(timeS.x) else None
  }

  /** `(answer == "Yes") if cond else None`. */
  function AnswerIf(cond: bool, answer: string): (r: Option<bool>)
    ensures r.Some? <==> cond
    ensures r.Some? ==> (r.value <==> answer == Yes)
  {
    if cond then Some(answer == Yes) else None
  }

  /**
   * `_rv_handler`: the gate-valve record. The time is kept only when the
   * valve was turned all the way and a number was entered; the slip answer
   * only when both grippers held at once, the gripped answer only when "No".
   */
  function RvHandler(allTheWay: string, timeS: NumberInput, bothSimul: string, slip: string, anyGrip: string): (s: Submission)
    ensures s.task == GateValve && s.answers.GateValveAnswers?
    ensures s.answers.turnedAllTheWay <==> allTheWay == Yes
    ensures s.answers.timeS.Some? <==> allTheWay == Yes && timeS.Number?
    ensures s.answers.timeS.Some? ==> s.answers.timeS.value == timeS.x
    ensures s.answers.bothGripSimultaneousBeforeTurn <==> bothSimul == Yes
    ensures s.answers.gripperSlipAnyPoint.Some? <==> bothSimul == Yes
    ensures s.answers.gripperSlipAnyPoint.Some? ==> (s.answers.gripperSlipAnyPoint.value <==> slip == Yes)
    ensures s.answers.grippedAtAnyPoint.Some? <==> bothSimul == No
    ensures s.answers.grippedAtAnyPoint.Some? ==> (s.answers.grippedAtAnyPoint.value <==> anyGrip == Yes)
  {
    Submission(GateValve, GateValveAnswers(
      allTheWay == Yes,
      TimeIf(allTheWay == Yes, timeS),
      bothSimul == Yes,
      AnswerIf(bothSimul == Yes, slip),
      AnswerIf(bothSimul == No, anyGrip)))
  }

  /** `_rl_handler`: the lever record, with the same rules as the gate valve's. */
  function RlHandler(allTheWay: string, timeS: NumberInput, bothSimul: string, slip: string, anyGrip: string): (s: Submission)
    ensures s.task == Lever && s.answers.LeverAnswers?
    ensures s.answers.movedToTarget <==> allTheWay == Yes
    ensures s.answers.timeS.Some? <==> allTheWay == Yes && timeS.Number?
    ensures s.answers.timeS.Some? ==> s.answers.timeS.value == timeS.x
    ensures s.answers.bothGripSimultaneousBeforeTurn <==> bothSimul == Yes
    ensures s.answers.gripperSlipAnyPoint.Some? <==> bothSimul == Yes
    ensures s.answers.gripperSlipAnyPoint.Some? ==> (s.answers.gripperSlipAnyPoint.value <==> slip == Yes)
    ensures s.answers.grippedAtAnyPoint.Some? <==> bothSimul == No
    ensures s.answers.grippedAtAnyPoint.Some? ==> (s.answers.grippedAtAnyPoint.value <==> anyGrip == Yes)
  {
    Submission(Lever, LeverAnswers(
      allTheWay == Yes,
      TimeIf(allTheWay == Yes, timeS),
      bothSimul == Yes,
      AnswerIf(bothSimul == Yes, slip),
      AnswerIf(bothSimul == No, anyGrip)))
  }

  /** `_gen_handler`: the generic record; the time is kept whenever a number was entered. */
  function GenHandler(success: string, timeS: NumberInput): (s: Submission)
    ensures s.task == Generic && s.answers.GenericAnswers?
    ensures s.answers.success <==> success == Yes
    ensures s.answers.timeS.Some? <==> timeS.Number?
    ensures s.answers.timeS.Some? ==> s.answers.timeS.value == timeS.x
  {
    Submission(Generic, GenericAnswers(success == Yes, TimeIf(true, timeS)))
  }

  /**
   * The shape every submitted answer record has: a time only when the task
   * was completed, and exactly one of the two grip follow-ups, chosen by the
   * both-grippers answer.
   */
  predicate WellFormed(a: Answers) {
    match a
    case GateValveAnswers(done, t, both, slip, gripped) =>
      (t.Some? ==> done) && (slip.Some? <==> both) && (gripped.Some? <==> !both)
    case LeverAnswers(done, t, both, slip, gripped) =>
      (t.Some? ==> done) && (slip.Some? <==> both) && (gripped.Some? <==> !both)
    case GenericAnswers(_, _) => true
  }

  predicate IsYesNo(answer: string) { answer == Yes || answer == No }

  /** With Yes/No radio inputs, exactly one grip follow-up is recorded and the record is well formed. */
  lemma GripHandlersWellFormed(allTheWay: string, timeS: NumberInput, bothSimul: string, slip: string, anyGrip: string)
    requires IsYesNo(bothSimul)
    ensures WellFormed(RvHandler(allTheWay, timeS, bothSimul, slip, anyGrip).answers)
    ensures WellFormed(RlHandler(allTheWay, timeS, bothSimul, slip, anyGrip).answers)
    ensures RvHandler(allTheWay, timeS, bothSimul, slip, anyGrip).answers.gripperSlipAnyPoint.Some?
      != RvHandler(allTheWay, timeS, bothSimul, slip, anyGrip).answers.grippedAtAnyPoint.Some?
    ensures RlHandler(allTheWay, timeS, bothSimul, slip, anyGrip).answers.gripperSlipAnyPoint.Some?
      != RlHandler(allTheWay, timeS, bothSimul, slip, anyGrip).answers.grippedAtAnyPoint.Some?
  {
    assert Yes != No by { assert Yes[0] != No[0]; }
  }

  function RadioOf(b: bool): string { if b then Yes else No }

  function NumberOf(t: Option<real>): NumberInput {
    match t
    case None => NoNumber
    case Some(x) => Number(x)
  }

  /**
   * Every well-formed record is what some Yes/No inputs produce: feeding the
   * builder the answers read back as radio values reproduces the record.
   */
  lemma HandlersReachEveryWellFormedRecord(a: Answers)
    requires WellFormed(a)
    ensures a.GateValveAnswers? ==>
      RvHandler(RadioOf(a.turnedAllTheWay), NumberOf(a.timeS), RadioOf(a.bothGripSimultaneousBeforeTurn),
        RadioOf(a.gripperSlipAnyPoint.GetOr(false)), RadioOf(a.grippedAtAnyPoint.GetOr(false)))
      == Submission(GateValve, a)
    ensures a.LeverAnswers? ==>
      RlHandler(RadioOf(a.movedToTarget), NumberOf(a.timeS), RadioOf(a.bothGripSimultaneousBeforeTurn),
        RadioOf(a.gripperSlipAnyPoint.GetOr(false)), RadioOf(a.grippedAtAnyPoint.GetOr(false)))
      == Submission(Lever, a)
    ensures a.GenericAnswers? ==>
      GenHandler(RadioOf(a.success), NumberOf(a.timeS)) == Submission(Generic, a)
  {
    assert Yes != No by { assert Yes[0] != No[0]; }
  }
}
