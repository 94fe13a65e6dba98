/**
 * One judging session of `create_demo` (gradio-example.py): the state
 * dictionary (`pairs`, `pair_idx`, `choices`, `task`) and the event
 * handlers. The session's results file is a field: `None` until the first
 * save, then the last document written. Each handler that touches the file
 * loads it, edits one pair's entry and, unless it returns early, saves it.
 */
module Sessions {
  import opened Wrappers
  import opened Strings
  import opened Pairing
  import opened Tasks
  import opened Judgments

  const Video1Chosen: string := "video 1 chosen"
  const Video2Chosen: string := "video 2 chosen"
  const NothingToSave: string := "Nothing to save (comment was empty)."
  const SavedComment: string := "Saved comment"
  const SavedGeneral: string := "Saved general answers"
  const SavedTask: string := "Saved task answers"

  /** The text shown for a remembered choice: "" unless it is 1 or 2. */
  function ChoiceText(choice: int): (text: string)
    ensures choice == 1 ==> text == Video1Chosen
    ensures choice == 2 ==> text == Video2Chosen
    ensures text == [] <==> choice != 1 && choice != 2
  {
    if choice == 1 then Video1Chosen else if choice == 2 then Video2Chosen else ""
  }

  /** `max(0, min(n - 1, idx))`. */
  function Clamp(idx: int, n: nat): (r: nat)
    requires n > 0
    ensures r < n
    ensures 0 <= idx < n ==> r == idx
    ensures idx < 0 ==> r == 0
    ensures idx >= n ==> r == n - 1
  {
    if idx < 0 then 0 else if idx > n - 1 then n - 1 else idx
  }

  /** Stepping with `Clamp` never leaves the range and stops at either end. */
  lemma ClampSteps(i: nat, n: nat)
    requires i < n
    ensures Clamp(i + 1, n) == (if i == n - 1 then i else i + 1)
    ensures Clamp(i - 1, n) == (if i == 0 then 0 else i - 1)
  {
  }

  /** `(new_comment or "").strip()`. */
  function CommentText(comment: Option<string>): (text: string)
    ensures comment.None? ==> text == []
    ensures comment.Some? ==> text == Strip(comment.value)
  {
    Strip(comment.GetOr(""))
  }

  class Session {
    const pairs: seq<VideoPair>
    const task: string
    var pairIdx: int
    var choices: map<string, int>
    var file: Option<CountsDoc>

    /** The session invariant every handler keeps. */
    predicate Valid()
      reads this
    {
      && 0 <= pairIdx < |pairs|
      && VotesAgree(LoadCounts(file), choices)
      && AllValid(LoadCounts(file))
    }

    /** `current_pair(state)["id"]`: the id of the pair on show. */
    function CurrentId(): (id: string)
      reads this
      requires 0 <= pairIdx < |pairs|
      ensures exists k :: 0 <= k < |pairs| && pairs[k].id == id
      ensures id == pairs[pairIdx].id
    {
      pairs[pairIdx].id
    }

    /** The initial `session_state`: no file yet, first pair, no choices. */
    constructor (pairs: seq<VideoPair>, task: string)
      requires |pairs| > 0
      ensures this.pairs == pairs && this.task == task
      ensures pairIdx == 0 && choices == map[] && file == None
      ensures Valid()
    {
      this.pairs := pairs;
      this.task := task;
      pairIdx := 0;
      choices := map[];
      file := None;
    }

    /** `save_counts(counts, result_path)`: the file now holds the edited document. */
    method Save(counts: Counts)
      requires 0 <= pairIdx < |pairs|
      requires VotesAgree(counts.perPair, choices) && AllValid(counts.perPair)
      modifies this
      ensures Valid()
      ensures file == SaveCounts(counts.perPair)
      ensures pairIdx == old(pairIdx) && choices == old(choices)
    {
      file := SaveCounts(counts.perPair);
      LoadAfterSave(counts.perPair);
    }

    /**
     * `_pick(choice, state)`, called with 1 or 2 by `pick_video_1` and
     * `pick_video_2`. Choosing the remembered side again changes nothing and
     * saves nothing; otherwise the vote moves, the choice is remembered and
     * the file is saved.
     */
    method Pick(choice: int) returns (status: string)
      requires Valid()
      requires choice == 1 || choice == 2
      modifies this
      ensures Valid()
      ensures pairIdx == old(pairIdx)
      ensures status == ChoiceText(choice)
      ensures old(ChoiceOf(choices, CurrentId())) == choice ==>
        file == old(file) && choices == old(choices)
      ensures old(ChoiceOf(choices, CurrentId())) != choice ==>
        && choices == old(choices)[CurrentId() := choice]
        && file == SaveCounts(old(LoadCounts(file))[CurrentId() :=
             Voted(EntryOf(old(LoadCounts(file)), CurrentId()), old(ChoiceOf(choices, CurrentId())), choice)])
    {
      ghost var loaded := LoadCounts(file);
      var counts := new Counts.Load(file);
      var pairId := pairs[pairIdx].id;
      var prev := ChoiceOf(choices, pairId);
      var per := counts.GetPairCounts(pairId);
      status := ChoiceText(choice);
      if prev == choice {
        return;
      }
      if prev == 1 {
        per := per.(video1Count := per.video1Count - 1);
      } else if prev == 2 {
        per := per.(video2Count := per.video2Count - 1);
      }
      if choice == 1 {
        per := per.(video1Count := per.video1Count + 1);
      } else {
        per := per.(video2Count := per.video2Count + 1);
      }
      assert per == Voted(EntryOf(loaded, pairId), prev, choice);
      VotesAgreeAfterVote(loaded, choices, pairId, choice);
      AllValidAfterPut(loaded, pairId, per);
      counts.Put(pairId, per);
      assert counts.perPair == loaded[pairId := per];
      choices := choices[pairId := choice];
      Save(counts);
    }

    /** `pick_video_1`: `_pick` with choice 1. */
    method PickVideo1() returns (status: string)
      requires Valid()
      modifies this
      ensures Valid() && status == Video1Chosen
      ensures pairIdx == old(pairIdx)
      ensures ChoiceOf(choices, CurrentId()) == 1
      ensures old(ChoiceOf(choices, CurrentId())) == 1 ==>
        file == old(file) && choices == old(choices)
      ensures old(ChoiceOf(choices, CurrentId())) != 1 ==>
        && choices == old(choices)[CurrentId() := 1]
        && file == SaveCounts(old(LoadCounts(file))[CurrentId() :=
             Voted(EntryOf(old(LoadCounts(file)), CurrentId()), old(ChoiceOf(choices, CurrentId())), 1)])
    {
      status := Pick(1);
    }

    /** `pick_video_2`: `_pick` with choice 2. */
    method PickVideo2() returns (status: string)
      requires Valid()
      modifies this
      ensures Valid() && status == Video2Chosen
      ensures pairIdx == old(pairIdx)
      ensures ChoiceOf(choices, CurrentId()) == 2
      ensures old(ChoiceOf(choices, CurrentId())) == 2 ==>
        file == old(file) && choices == old(choices)
      ensures old(ChoiceOf(choices, CurrentId())) != 2 ==>
        && choices == old(choices)[CurrentId() := 2]
        && file == SaveCounts(old(LoadCounts(file))[CurrentId() :=
             Voted(EntryOf(old(LoadCounts(file)), CurrentId()), old(ChoiceOf(choices, CurrentId())), 2)])
    {
      status := Pick(2);
    }

    /**
     * `submit_comment`: a comment that is blank after stripping saves
     * nothing; otherwise the pair's comments become exactly that text.
     */
    method SubmitComment(comment: Option<string>) returns (status: string)
      requires Valid()
      modifies this
      ensures Valid()
      ensures pairIdx == old(pairIdx) && choices == old(choices)
      ensures CommentText(comment) == [] ==> status == NothingToSave && file == old(file)
      ensures CommentText(comment) != [] ==>
        && status == SavedComment
        && file == SaveCounts(old(LoadCounts(file))[CurrentId() :=
             EntryOf(old(LoadCounts(file)), CurrentId()).(comments := [CommentText(comment)])])
    {
      ghost var loaded := LoadCounts(file);
      var counts := new Counts.Load(file);
      var pairId := pairs[pairIdx].id;
      var per := counts.GetPairCounts(pairId);
      var text := CommentText(comment);
      if text == [] {
        return NothingToSave;
      }
      per := per.(comments := [text]);
      AllValidAfterPut(loaded, pairId, per);
      EditKeepsAgreement(loaded, choices, pairId, per);
      counts.Put(pairId, per);
      assert counts.perPair == loaded[pairId := per];
      Save(counts);
      return SavedComment;
    }

    /** `submit_general`: the pair's general answers become exactly this one entry. */
    method SubmitGeneral(smooth: int, coord: int, safety: int) returns (status: string)
      requires Valid()
      modifies this
      ensures Valid()
      ensures pairIdx == old(pairIdx) && choices == old(choices)
      ensures status == SavedGeneral
      ensures file == SaveCounts(old(LoadCounts(file))[CurrentId() :=
        EntryOf(old(LoadCounts(file)), CurrentId()).(generalQ := [GeneralAnswer(smooth, coord, safety)])])
    {
      ghost var loaded := LoadCounts(file);
      var counts := new Counts.Load(file);
      var pairId := pairs[pairIdx].id;
      var per := counts.GetPairCounts(pairId);
      per := per.(generalQ := [GeneralAnswer(smooth, coord, safety)]);
      AllValidAfterPut(loaded, pairId, per);
      EditKeepsAgreement(loaded, choices, pairId, per);
      counts.Put(pairId, per);
      assert counts.perPair == loaded[pairId := per];
      Save(counts);
      return SavedGeneral;
    }

    /**
     * `on_submit_task`: the pair's task answers get the entry for this task
     * name upserted (replacing the first same-name entry, else appended).
     */
    method OnSubmitTask(taskName: string, answers: Answers) returns (status: string)
      requires Valid()
      modifies this
      ensures Valid()
      ensures pairIdx == old(pairIdx) && choices == old(choices)
      ensures status == SavedTask
      ensures file == SaveCounts(old(LoadCounts(file))[CurrentId() :=
        EntryOf(old(LoadCounts(file)), CurrentId()).(taskQ :=
          Upserted(EntryOf(old(LoadCounts(file)), CurrentId()).taskQ, TaskEntry(taskName, answers)))])
    {
      ghost var loaded := LoadCounts(file);
      var counts := new Counts.Load(file);
      var pairId := pairs[pairIdx].id;
      var per := counts.GetPairCounts(pairId);
      var entry := TaskEntry(taskName, answers);
      var lst := UpsertTask(per.taskQ, entry);
      UpsertedSpec(per.taskQ, entry);
      per := per.(taskQ := lst);
      AllValidAfterPut(loaded, pairId, per);
      EditKeepsAgreement(loaded, choices, pairId, per);
      counts.Put(pairId, per);
      assert counts.perPair == loaded[pairId := per];
      Save(counts);
      return SavedTask;
    }

    /**
     * `goto_pair`: moves to the clamped index and shows that pair's videos and
     * remembered choice. The results file is not touched.
     */
    method GotoPair(idx: int) returns (v1: string, v2: string, choiceText: string)
      requires Valid()
      modifies this
      ensures Valid()
      ensures pairIdx == Clamp(idx, |pairs|)
      ensures choices == old(choices) && file == old(file)
      ensures v1 == pairs[pairIdx].v1 && v2 == pairs[pairIdx].v2
      ensures choiceText == ChoiceText(ChoiceOf(choices, CurrentId()))
    {
      var n := |pairs|;
      pairIdx := Clamp(idx, n);
      var pair := pairs[pairIdx];
      var prevChoice := ChoiceOf(choices, pair.id);
      choiceText := ChoiceText(prevChoice);
      v1, v2 := pair.v1, pair.v2;
    }

    /** `next_pair`: one pair forward, staying on the last pair at the end. */
    method NextPair() returns (v1: string, v2: string, choiceText: string)
      requires Valid()
      modifies this
      ensures Valid()
      ensures pairIdx == (if old(pairIdx) == |pairs| - 1 then old(pairIdx) else old(pairIdx) + 1)
      ensures choices == old(choices) && file == old(file)
      ensures v1 == pairs[pairIdx].v1 && v2 == pairs[pairIdx].v2
      ensures choiceText == ChoiceText(ChoiceOf(choices, CurrentId()))
    {
      ClampSteps(pairIdx, |pairs|);
      v1, v2, choiceText := GotoPair(pairIdx + 1);
    }

    /** `prev_pair`: one pair back, staying on the first pair at the start. */
    method PrevPair() returns (v1: string, v2: string, choiceText: string)
      requires Valid()
      modifies this
      ensures Valid()
      ensures pairIdx == (if old(pairIdx) == 0 then 0 else old(pairIdx) - 1)
      ensures choices == old(choices) && file == old(file)
      ensures v1 == pairs[pairIdx].v1 && v2 == pairs[pairIdx].v2
      ensures choiceText == ChoiceText(ChoiceOf(choices, CurrentId()))
    {
      ClampSteps(pairIdx, |pairs|);
      v1, v2, choiceText := GotoPair(pairIdx - 1);
    }
  }

  /**
   * `create_demo` without the interface: pairs the two listings (failing when
   * either has no video), detects the task from both folder paths, and starts
   * a session on the first pair.
   */
  method CreateDemo(dir1: string, listing1: seq<string>, dir2: string, listing2: seq<string>)
    returns (r: Result<Session, string>)
    ensures r.Failure? <==> Min(|SortedVideos(dir1, listing1)|, |SortedVideos(dir2, listing2)|) == 0
    ensures r.Failure? ==> r.error == NoVideosMessage
    ensures r.Success? ==> fresh(r.value) && r.value.Valid()
    ensures r.Success? ==> r.value.pairIdx == 0 && r.value.choices == map[] && r.value.file == None
    ensures r.Success? ==> |r.value.pairs| == Min(|SortedVideos(dir1, listing1)|, |SortedVideos(dir2, listing2)|)
    ensures r.Success? ==> forall i :: 0 <= i < |r.value.pairs| ==>
      r.value.pairs[i] == MakePair(i, SortedVideos(dir1, listing1)[i], SortedVideos(dir2, listing2)[i])
    ensures r.Success? ==> r.value.task in KnownTasks || r.value.task == Generic
    ensures r.Success? && HasKnownToken(PathTokens([dir1, dir2])) ==>
      r.value.task == PathTokens([dir1, dir2])[FirstKnownIndex(PathTokens([dir1, dir2]))]
    ensures r.Success? && !HasKnownToken(PathTokens([dir1, dir2])) && r.value.task != Generic ==>
      AnyContains(PathTokens([dir1, dir2]), r.value.task)
    ensures r.Success? ==> (r.value.task == Generic <==> !MentionsKnownTask(PathTokens([dir1, dir2])))
  {
    var pairs := FindPairsTwoDirs(dir1, listing1, dir2, listing2);
    if pairs.Failure? {
      return Failure(pairs.error);
    }
    var task := DetectTaskFromDirs([dir1, dir2]);
    var session := new Session(pairs.value, task);
    return Success(session);
  }
}
