/**
 * The per-pair judgment record kept in a session's results file
 * (gradio-example.py): the loaded document, lazy creation of a pair's
 * entry, vote counters, and the upsert of task answers.
 */
module Judgments {
  import opened Wrappers
  import opened Tasks

  /** One `general_q` entry: the three 1-10 slider values. */
  datatype GeneralAnswer = GeneralAnswer(smoothness: int, coordination: int, safetyCollisions: int)

  /** One `task_q` entry: `{"task": task_name, **answers}`. */
  datatype TaskEntry = TaskEntry(task: string, answers: Answers)

  /** The record kept for one pair id. */
  datatype PairJudgment = PairJudgment(
    video1Count: int, video2Count: int,
    comments: seq<string>, taskQ: seq<TaskEntry>, generalQ: seq<GeneralAnswer>)

  /** The entry `get_pair_counts` creates for a pair seen for the first time. */
  const EmptyJudgment := PairJudgment(0, 0, [], [], [])

  /** A results document as stored: its `per_pair` member may be missing. */
  datatype CountsDoc = CountsDoc(perPair: Option<map<string, PairJudgment>>)

  /**
   * `load_counts`: a missing file and a document without `per_pair` both give
   * an empty `per_pair` map; otherwise the stored map.
   */
  function LoadCounts(file: Option<CountsDoc>): (perPair: map<string, PairJudgment>)
    ensures (file.Some? && file.value.perPair.Some?) ==> perPair == file.value.perPair.value
    ensures (file.None? || file.value.perPair.None?) ==> perPair == map[]
  {
    match file
    case None => map[]
    case Some(doc) => doc.perPair.GetOr(map[])
  }

  /** `save_counts`: the document written back always holds `per_pair`. */
  function SaveCounts(perPair: map<string, PairJudgment>): Option<CountsDoc> {
    Some(CountsDoc(Some(perPair)))
  }

  /** What was saved is what the next load sees. */
  lemma LoadAfterSave(perPair: map<string, PairJudgment>)
    ensures LoadCounts(SaveCounts(perPair)) == perPair
  {
  }

  /** The entry `get_pair_counts` hands back: the stored one, or a fresh empty one. */
  function EntryOf(perPair: map<string, PairJudgment>, pairId: string): (per: PairJudgment)
    ensures pairId in perPair ==> per == perPair[pairId]
    ensures pairId !in perPair ==> per == EmptyJudgment
  {
    if pairId in perPair then perPair[pairId] else EmptyJudgment
  }

  /** The loaded `counts` document, changed in place by the handlers. */
  class Counts {
    var perPair: map<string, PairJudgment>

    /** `load_counts(file_path)` followed by `setdefault("per_pair", {})`. */
    constructor Load(file: Option<CountsDoc>)
      ensures perPair == LoadCounts(file)
    {
      perPair := LoadCounts(file);
    }

    /**
     * `get_pair_counts`: an existing entry is returned and nothing changes;
     * otherwise an empty entry is stored under the id and returned. No other
     * pair's entry changes.
     */
    method GetPairCounts(pairId: string) returns (per: PairJudgment)
      modifies this
      ensures per == EntryOf(old(perPair), pairId)
      ensures pairId in old(perPair) ==> perPair == old(perPair)
      ensures perPair == old(perPair)[pairId := per]
    {
      if pairId !in perPair {
        perPair := perPair[pairId := EmptyJudgment];
      }
      per := perPair[pairId];
    }

    /** Stores the edited entry of a pair (the handlers edit the entry `get_pair_counts` returned). */
    method Put(pairId: string, per: PairJudgment)
      modifies this
      ensures perPair == old(perPair)[pairId := per]
    {
      perPair := perPair[pairId := per];
    }
  }

  // ---------------------------------------------------------------------
  // Votes (`_pick`)
  // ---------------------------------------------------------------------

  /** 1 when `b` holds, else 0. */
  function Count(b: bool): int { if b then 1 else 0 }

  /**
   * The counters after moving a vote from `prev` (0 for none) to `choice`:
   * the previous side, if any, loses one and the new side gains one. Any
   * choice other than 1 counts for video 2, as in the source.
   */
  function Voted(per: PairJudgment, prev: int, choice: int): (r: PairJudgment)
    ensures r.comments == per.comments && r.taskQ == per.taskQ && r.generalQ == per.generalQ
    ensures r.video1Count == per.video1Count - Count(prev == 1) + Count(choice == 1)
    ensures r.video2Count == per.video2Count - Count(prev == 2) + Count(choice != 1)
    ensures r.video1Count + r.video2Count
      == per.video1Count + per.video2Count + 1 - Count(prev == 1 || prev == 2)
  {
    var undone :=
      if prev == 1 then per.(video1Count := per.video1Count - 1)
      else if prev == 2 then per.(video2Count := per.video2Count - 1)
      else per;
    if choice == 1 then undone.(video1Count := undone.video1Count + 1)
    else undone.(video2Count := undone.video2Count + 1)
  }

  /** The remembered choice for a pair, 0 when none: `state["choices"].get(pair_id, 0)`. */
  function ChoiceOf(choices: map<string, int>, pairId: string): (c: int)
    ensures pairId !in choices ==> c == 0
    ensures pairId in choices ==> c == choices[pairId]
  {
    if pairId in choices then choices[pairId] else 0
  }

  /**
   * The counters of every stored pair agree with the session's remembered
   * choices: each pair with a choice holds one vote, for that side, and every
   * other stored pair holds none. Every pair with a choice is stored.
   */
  predicate VotesAgree(perPair: map<string, PairJudgment>, choices: map<string, int>) {
    && (forall id :: id in choices ==> id in perPair && (choices[id] == 1 || choices[id] == 2))
    && (forall id :: id in perPair ==>
          perPair[id].video1Count == Count(ChoiceOf(choices, id) == 1)
          && perPair[id].video2Count == Count(ChoiceOf(choices, id) == 2))
  }

  /** Moving a pair's vote to a new side keeps the counters in agreement with the choices. */
  lemma VotesAgreeAfterVote(perPair: map<string, PairJudgment>, choices: map<string, int>, pairId: string, choice: int)
    requires VotesAgree(perPair, choices)
    requires choice == 1 || choice == 2
    requires ChoiceOf(choices, pairId) != choice
    ensures VotesAgree(
      perPair[pairId := Voted(EntryOf(perPair, pairId), ChoiceOf(choices, pairId), choice)],
      choices[pairId := choice])
  {
    var prev := ChoiceOf(choices, pairId);
    var per := EntryOf(perPair, pairId);
    assert per.video1Count == Count(prev == 1) && per.video2Count == Count(prev == 2);
  }

  /** Editing anything but the counters of a pair keeps the agreement. */
  lemma VotesAgreeAfterEdit(perPair: map<string, PairJudgment>, choices: map<string, int>, pairId: string, per: PairJudgment)
    requires VotesAgree(perPair, choices)
    requires per.video1Count == EntryOf(perPair, pairId).video1Count
    requires per.video2Count == EntryOf(perPair, pairId).video2Count
    ensures VotesAgree(perPair[pairId := per], choices)
  {
    if pairId !in perPair {
      assert pairId !in choices;
    }
  }

  /** Whatever the order of clicks, a pair never holds more than one vote, and holds one once chosen. */
  lemma VotesAtMostOne(perPair: map<string, PairJudgment>, choices: map<string, int>, pairId: string)
    requires VotesAgree(perPair, choices)
    requires pairId in perPair
    ensures 0 <= perPair[pairId].video1Count <= 1 && 0 <= perPair[pairId].video2Count <= 1
    ensures perPair[pairId].video1Count + perPair[pairId].video2Count == Count(pairId in choices)
  {
    if pairId in choices {
      assert choices[pairId] == 1 || choices[pairId] == 2;
    }
  }

  /**
   * Storing a pair's entry edited in anything but its counters keeps the
   * counters in agreement with the choices and every entry well formed.
   */
  lemma EditKeepsAgreement(perPair: map<string, PairJudgment>, choices: map<string, int>, pairId: string, per: PairJudgment)
    requires VotesAgree(perPair, choices) && AllValid(perPair)
    requires per.video1Count == EntryOf(perPair, pairId).video1Count
    requires per.video2Count == EntryOf(perPair, pairId).video2Count
    requires JudgmentValid(per)
    ensures VotesAgree(perPair[pairId := per], choices) && AllValid(perPair[pairId := per])
  {
    VotesAgreeAfterEdit(perPair, choices, pairId, per);
    AllValidAfterPut(perPair, pairId, per);
  }

  // ---------------------------------------------------------------------
  // Task answers (`on_submit_task`)
  // ---------------------------------------------------------------------

  /** Reference definition of the upsert: replace the first entry with the same task, else append. */
  function Upserted(entries: seq<TaskEntry>, entry: TaskEntry): seq<TaskEntry> {
    if entries == [] then [entry]
    else if entries[0].task == entry.task then [entry] + entries[1..]
    else [entries[0]] + Upserted(entries[1..], entry)
  }

  predicate HasTask(entries: seq<TaskEntry>, task: string) {
    exists k :: 0 <= k < |entries| && entries[k].task == task
  }

  /** No two entries share a task name. */
  predicate TaskNamesUnique(entries: seq<TaskEntry>) {
    forall i, j :: 0 <= i < j < |entries| ==> entries[i].task != entries[j].task
  }

  /** With the first same-task entry at `k`, the upsert replaces it in place. */
  lemma {:induction false} UpsertedReplacesFirst(entries: seq<TaskEntry>, entry: TaskEntry, k: nat)
    requires k < |entries| && entries[k].task == entry.task
    requires forall j :: 0 <= j < k ==> entries[j].task != entry.task
    ensures Upserted(entries, entry) == entries[k := entry]
  {
    if k > 0 {
      UpsertedReplacesFirst(entries[1..], entry, k - 1);
      assert [entries[0]] + entries[1..][k - 1 := entry] == entries[k := entry];
    }
  }

  /** Without a same-task entry, the upsert appends. */
  lemma {:induction false} UpsertedAppends(entries: seq<TaskEntry>, entry: TaskEntry)
    requires !HasTask(entries, entry.task)
    ensures Upserted(entries, entry) == entries + [entry]
  {
    if entries != [] {
      assert !HasTask(entries[1..], entry.task) by {
        forall k | 0 <= k < |entries[1..]| ensures entries[1..][k].task != entry.task {
          assert entries[1..][k] == entries[k + 1];
        }
      }
      UpsertedAppends(entries[1..], entry);
      assert [entries[0]] + (entries[1..] + [entry]) == entries + [entry];
    }
  }

  /**
   * The upsert keeps every other task's entries where they were, holds the new
   * entry, and never creates a second entry for a task name.
   */
  lemma UpsertedSpec(entries: seq<TaskEntry>, entry: TaskEntry)
    ensures HasTask(entries, entry.task) ==> |Upserted(entries, entry)| == |entries|
    ensures !HasTask(entries, entry.task) ==> |Upserted(entries, entry)| == |entries| + 1
    ensures entry in Upserted(entries, entry)
    ensures forall k :: 0 <= k < |entries| && entries[k].task != entry.task ==>
      Upserted(entries, entry)[k] == entries[k]
    ensures TaskNamesUnique(entries) ==> TaskNamesUnique(Upserted(entries, entry))
  {
    if HasTask(entries, entry.task) {
      var k := FirstTaskIndex(entries, entry.task);
      UpsertedReplacesFirst(entries, entry, k);
      assert Upserted(entries, entry)[k] == entry;
    } else {
      UpsertedAppends(entries, entry);
      var r := entries + [entry];
      assert r[|entries|] == entry;
      if TaskNamesUnique(entries) {
        forall i, j | 0 <= i < j < |r| ensures r[i].task != r[j].task {
          if j == |entries| {
            assert r[i] == entries[i];
          }
        }
      }
    }
  }

  /** The position of the first entry for `task`. */
  function FirstTaskIndex(entries: seq<TaskEntry>, task: string): (k: nat)
    requires HasTask(entries, task)
    ensures k < |entries| && entries[k].task == task
    ensures forall j :: 0 <= j < k ==> entries[j].task != task
  {
    if entries[0].task == task then 0
    else
      var w :| 0 <= w < |entries| && entries[w].task == task;
      assert entries[1..][w - 1].task == task;
      1 + FirstTaskIndex(entries[1..], task)
  }

  /** The `for ... else` loop of `on_submit_task` over a pair's `task_q`. */
  method UpsertTask(entries: seq<TaskEntry>, entry: TaskEntry) returns (r: seq<TaskEntry>)
    ensures r == Upserted(entries, entry)
  {
    var i := 0;
    while i < |entries|
      invariant 0 <= i <= |entries|
      invariant forall j :: 0 <= j < i ==> entries[j].task != entry.task
    {
      if entries[i].task == entry.task {
        UpsertedReplacesFirst(entries, entry, i);
        return entries[i := entry];
      }
      i := i + 1;
    }
    UpsertedAppends(entries, entry);
    return entries + [entry];
  }

  // ---------------------------------------------------------------------
  // Shape of a stored record
  // ---------------------------------------------------------------------

  /**
   * What the handlers keep true of every entry they write: at most one
   * comment and one general answer (each submit replaces the list), and one
   * entry per task name.
   */
  predicate JudgmentValid(per: PairJudgment) {
    |per.comments| <= 1 && |per.generalQ| <= 1 && TaskNamesUnique(per.taskQ)
  }

  predicate AllValid(perPair: map<string, PairJudgment>) {
    forall id :: id in perPair ==> JudgmentValid(perPair[id])
  }

  /** Every entry `get_pair_counts` hands back is valid, and storing a valid entry keeps the record valid. */
  lemma AllValidAfterPut(perPair: map<string, PairJudgment>, pairId: string, per: PairJudgment)
    requires AllValid(perPair)
    ensures JudgmentValid(EntryOf(perPair, pairId))
    ensures JudgmentValid(per) ==> AllValid(perPair[pairId := per])
  {
  }
}
