# Video-pair judging: pairing, judgment records and task detection

This project models the bookkeeping behind a small Gradio tool for judging pairs of videos.

**Pairing.** Two folders of videos are listed, filtered by extension and sorted by a natural-sort key. They are paired by rank, and each pair gets a stable id `"{i:03d}:{basename1}|{basename2}"`.

**Session and results file.** A judging session walks through the pairs. The judge picks the better video, writes a comment, rates the pair on three sliders and answers task-specific questions. Every answer is stored in the session's results file, under the pair's id, as a per-pair judgment record.

**Task detection.** The task is detected from the folder paths. Three answer builders turn the raw radio and number inputs of the task panels into the record that is stored.

Modules, following the two source files:

- `Strings`: the character and string operations the code relies on:
  - ASCII `lower()` and `isdigit()`;
  - `str.strip()` with Python's whitespace set;
  - `startswith`, `endswith` and `in`;
  - `{i:03d}` formatting.
- `NaturalSort`: `natural_key`, Python's list and str ordering, and `sorted(..., key=natural_key)` as an insertion sort proved stable.
- `Pairing`: `find_pairs_two_dirs`, which takes the directory listings as inputs. It also covers POSIX `os.path.join` and `os.path.basename`.
- `Judgments`:
  - the per-pair record and the loaded document (`load_counts`, `save_counts`);
  - the class `Counts`, whose `perPair` map is changed in place by `get_pair_counts`;
  - vote counters and the task-answer upsert.
- `Tasks`: `KNOWN_TASKS`, `detect_task_from_dirs`, and the answer builders `_rv_handler`, `_rl_handler` and `_gen_handler`.
- `Sessions`:
  - the class `Session`, holding the state dictionary of `create_demo` (`pairs`, `pair_idx`, `choices`, `task`) and the session's results file;
  - its event handlers;
  - `create_demo` itself, without the interface.

The results file is a field of the session. It is `None` until the first save, because the file name is fresh for every session. After that it is the last document written. A handler that touches the file does these steps:

1. Loads the file into a `Counts` object.
2. Takes the pair's entry with `get_pair_counts`.
3. Edits the entry.
4. Saves, unless it returned early.

The session invariant `Session.Valid` states two things:

- **Counters match choices.** Every stored pair's counters agree with the remembered choices: one vote for the chosen side, none otherwise.
- **Entries stay well formed.** Every stored entry has at most one comment, at most one general answer, and one entry per task name.

All handlers keep both.

## Model

| member | source | states |
|---|---|---|
| NaturalSort.SplitDigitRunsIsDigitRunSplit | gradio-example/gradio-example.py:11 | `re.split(r"(\d+)", s)` as modelled cuts a name into runs: text (no digits) at even positions, non-empty digit runs at odd positions, no empty text run inside. The runs join back to the name. |
| NaturalSort.SplitDigitRunsUnique | gradio-example/gradio-example.py:11 | Any cut into alternating text and maximal digit runs that joins back to the name is exactly the modelled split. So the split is determined by those properties, not by how it is computed. |
| NaturalSort.SplitDigitRunsConcat | gradio-example/gradio-example.py:11 | Joining the runs gives the name back. |
| NaturalSort.SplitDigitRunsText | gradio-example/gradio-example.py:11 | Runs at even positions hold no digit. |
| NaturalSort.SplitDigitRunsDigits | gradio-example/gradio-example.py:11 | Runs at odd positions are non-empty and all digits. |
| NaturalSort.SplitDigitRunsMaximal | gradio-example/gradio-example.py:11 | Only the first and the last run may be empty, so every digit run is maximal. |
| NaturalSort.SplitDigitRunsCons | gradio-example/gradio-example.py:11 | A digit-free word, then a digit run, then text that does not start with a digit, splits as `[word, number]` followed by the split of the rest. |
| NaturalSort.NaturalKeyAlternates | gradio-example/gradio-example.py:10-11 | A key has odd length. Element i is an integer exactly when i is odd, and text otherwise. |
| NaturalSort.NaturalKeyCons | gradio-example/gradio-example.py:10-11 | The key of word + number + rest is `[lower(word), int(number)]` followed by the key of the rest. |
| NaturalSort.SplitDigitRunsBeforeDigit | gradio-example/gradio-example.py:11 | Before a name that starts with a digit, a prefix that does not end in a digit keeps its own runs; the two splits join at the empty leading text run. |
| NaturalSort.KeyLessCommonPrefix | gradio-example/gradio-example.py:10-11 | Python's list comparison skips a common prefix: two keys with the same prefix compare as their remainders do. |
| NaturalSort.NaturalKeyAfterText | gradio-example/gradio-example.py:10-11 | The key of prefix + number + rest, where the number is a whole digit run, is the prefix's key, then `int(number)`, then the key of the rest. |
| NaturalSort.NumbersCompareAsIntegers | gradio-example/gradio-example.py:10-11 | Two names that differ only in one whole digit run, after any common prefix not ending in a digit and before any common remainder not starting with one, are ordered exactly as the two numbers' integer values ("clip2" before "clip10", "s1e9" before "s1e10"). |
| NaturalSort.NaturalKeyIgnoresCase | gradio-example/gradio-example.py:10-11 | A name and its lowercase form have the same key. |
| NaturalSort.NaturalLessIgnoresCase | gradio-example/gradio-example.py:10-11 | Comparing two names by key gives the same answer as comparing their lowercase forms. |
| NaturalSort.NaturalLessStrictOrder | gradio-example/gradio-example.py:10-11 | Comparing keys, as Python compares lists of str and int, is irreflexive and transitive. |
| NaturalSort.KeyLessTotal | gradio-example/gradio-example.py:10-11 | Two keys are equal or ordered one way, so ties in the sort are exactly equal keys. |
| NaturalSort.TextLessTotal | gradio-example/gradio-example.py:10-11 | Python's str comparison is total. |
| NaturalSort.InsertBySorted | gradio-example/gradio-example.py:38-41 | Inserting into a sorted list, after every element that is not greater, keeps it sorted under any strict order. |
| NaturalSort.SortBySorted | gradio-example/gradio-example.py:38-41 | The insertion sort orders its input by the given strict order (it is a permutation of the same length by its own contract). |
| NaturalSort.SortByStable | gradio-example/gradio-example.py:38-41 | The sort is stable for any order that compares only keys: the elements sharing a key come out in the order they went in. |
| NaturalSort.SortNaturalStable | gradio-example/gradio-example.py:38-41 | `sorted(..., key=natural_key)` is stable: names with the same natural key (such as "a1.mp4" and "A01.mp4") keep their listing order. |
| NaturalSort.SortNaturalSpec | gradio-example/gradio-example.py:38-41 | `sorted(xs, key=natural_key)` is a permutation of xs ordered by natural key. |
| Strings.StripSpec | gradio-example/gradio-example.py:99 | `strip()` gives "" exactly when every character is whitespace. Otherwise it gives the slice between a dropped all-whitespace prefix and a dropped all-whitespace suffix, and that slice starts and ends with a non-whitespace character. |
| Strings.StripIdempotent | gradio-example/gradio-example.py:99 | Stripping twice is stripping once. |
| Strings.LowerSpec | gradio-example/gradio-example.py:11 | `lower()` keeps the length, maps each ASCII capital to its small letter and leaves every other character (digits included) unchanged; nothing upper-case remains, and lowering twice is lowering once. |
| Strings.ContainsSpec | gradio-example/tasks_ui.py:19 | `t in s` holds exactly when t occurs in s at some position. |
| Strings.DigitsValue | gradio-example/gradio-example.py:11 | `int(t)` of a digit string of length k is below 10^k. |
| Strings.Decimal | gradio-example/gradio-example.py:48 | The decimal numeral of n is non-empty, all digits, and starts with '0' only for n = 0. |
| Strings.DecimalValue | gradio-example/gradio-example.py:48 | The decimal numeral of n reads back as n. |
| Strings.DecimalLength | gradio-example/gradio-example.py:48 | A number below 10^k, for k at least one, has at most k digits. |
| Strings.ZerosPrefixValue | gradio-example/gradio-example.py:48 | Leading zeros do not change the value of a numeral. |
| Strings.ZeroPad3 | gradio-example/gradio-example.py:48 | `{i:03d}` is all digits, at least three long, and reads back as i. It is exactly three long for i below 1000, and a longer one has no leading zero. |
| Strings.ZeroPad3Injective | gradio-example/gradio-example.py:48 | Different indices give different padded numbers. |
| Pairing.JoinPath | gradio-example/gradio-example.py:38-41 | `os.path.join(dir, f)` is f when f is absolute. Otherwise it starts with dir and ends with f, with exactly one '/' added between them unless dir is empty or already ends in '/'. |
| Pairing.BasenameIsLastComponent | gradio-example/gradio-example.py:47 | `os.path.basename` is the longest suffix without '/'. |
| Pairing.BasenameOfJoin | gradio-example/gradio-example.py:38-41 | The basename of `os.path.join(dir, f)` is the listed name f. |
| Pairing.VideoNamesSpec | gradio-example/gradio-example.py:38-41 | The extension filter keeps exactly the listed names whose lowercase form ends in a video extension. |
| Pairing.SortedVideosSpec | gradio-example/gradio-example.py:38-41 | The sorted list is a permutation of the joined paths of the filtered listing, sorted by natural key. Each element is the joined path of a listed video, and each listed video's joined path is in it. It is empty exactly when no listed name is a video. |
| Pairing.PairIdsDistinct | gradio-example/gradio-example.py:48 | Ids of different indices differ, whatever the file names. |
| Pairing.MadePairIdsDistinct | gradio-example/gradio-example.py:45-50 | Pairs built at their own positions have pairwise distinct ids. |
| Pairing.PairUp | gradio-example/gradio-example.py:45-50 | The loop builds n pairs. Pair i joins the i-th path of each list, with the id made from the two basenames. Ids are distinct. |
| Pairing.FindPairsTwoDirs | gradio-example/gradio-example.py:37-51 | Fails, with the source's message, exactly when either filtered list is empty. Otherwise it pairs the two sorted lists by rank, truncates to the shorter one, and gives distinct ids. |
| Judgments.LoadCounts | gradio-example/gradio-example.py:13-20 | A missing file or a document without `per_pair` gives an empty map. Otherwise it gives the stored map. |
| Judgments.Counts.Load | gradio-example/gradio-example.py:13-20 | Loading a document gives the per-pair map `LoadCounts` describes. |
| Judgments.LoadAfterSave | gradio-example/gradio-example.py:22-26 | What was saved is what the next load sees. |
| Judgments.Counts.GetPairCounts | gradio-example/gradio-example.py:28-35 | An existing entry is returned and nothing changes. Otherwise an empty entry (zero counters, empty lists) is stored and returned. No other pair's entry changes. |
| Judgments.Counts.Put | gradio-example/gradio-example.py:78-86 | The edited entry is stored under the pair's id and no other entry changes (the handlers edit the dictionary `get_pair_counts` handed back, lines 78-86, 103, 115 and 152). |
| Judgments.Voted | gradio-example/gradio-example.py:78-86 | Moving a vote: video 1's counter loses one if the previous choice was 1 and gains one if the new choice is 1; video 2's counter loses one if the previous choice was 2 and gains one for any other new choice. Comments and answers are kept, and the vote total grows by one, less one if there was a previous vote. |
| Judgments.ChoiceOf | gradio-example/gradio-example.py:72 | `state["choices"].get(pair_id, 0)`: the remembered choice, or 0 when the pair has none. |
| Judgments.VotesAgreeAfterVote | gradio-example/gradio-example.py:68-90 | A changed choice keeps every stored pair's counters equal to its remembered choice (one vote for that side, none for the other). |
| Judgments.VotesAgreeAfterEdit | gradio-example/gradio-example.py:95-155 | Editing anything but a pair's counters keeps the counters in agreement with the choices. |
| Judgments.VotesAtMostOne | gradio-example/gradio-example.py:68-90 | Within one session a stored pair has counters in {0, 1}. Their sum is 1 exactly when the pair has a choice. |
| Judgments.EditKeepsAgreement | gradio-example/gradio-example.py:95-155 | Storing a well-formed entry that changes nothing but comments or answers keeps votes in agreement and all entries well formed. |
| Judgments.UpsertedSpec | gradio-example/gradio-example.py:145-153 | Replacing an existing task keeps the length, and appending a new task adds one. The new entry is present, other tasks' entries keep their positions, and names stay unique. |
| Judgments.UpsertedReplacesFirst | gradio-example/gradio-example.py:146-149 | With the first same-task entry at k, the upsert replaces position k in place. |
| Judgments.UpsertedAppends | gradio-example/gradio-example.py:150-151 | Without a same-task entry, the upsert appends. |
| Judgments.UpsertTask | gradio-example/gradio-example.py:145-153 | The `for ... else` loop computes the reference upsert. |
| Judgments.AllValidAfterPut | gradio-example/gradio-example.py:28-35 | Every entry handed back is well formed, and storing a well-formed entry keeps the map well formed. |
| Sessions.ChoiceText | gradio-example/gradio-example.py:125-127 | The choice text is "video 1 chosen" or "video 2 chosen" for a choice of 1 or 2, and "" exactly otherwise. |
| Sessions.Clamp | gradio-example/gradio-example.py:121 | `max(0, min(n - 1, idx))` lies in [0, n - 1] and is idx when idx is in range. |
| Sessions.ClampSteps | gradio-example/gradio-example.py:137-138 | Stepping forward from the last index, or back from the first, stays put. Otherwise it moves by one. |
| Sessions.CommentText | gradio-example/gradio-example.py:99 | No comment gives "". A comment gives its stripped text. |
| Sessions.Session.constructor | gradio-example/gradio-example.py:158-164 | The initial state: first pair, no choices, no file yet. |
| Sessions.Session.CurrentId | gradio-example/gradio-example.py:65-66 | The id of the pair at the current index, which is the id of one of the session's pairs. |
| Sessions.Session.Save | gradio-example/gradio-example.py:22-26 | The file holds the edited document and the invariant holds again. |
| Sessions.Session.Pick | gradio-example/gradio-example.py:68-90 | Picking the remembered side changes and saves nothing. Otherwise the vote moves (old side minus one, new side plus one), the choice is remembered and the file is saved. The invariant is kept. |
| Sessions.Session.PickVideo1 | gradio-example/gradio-example.py:92 | `_pick(1, ...)`: the contract of Pick with choice 1. Afterwards the remembered choice is 1. |
| Sessions.Session.PickVideo2 | gradio-example/gradio-example.py:93 | `_pick(2, ...)`: the contract of Pick with choice 2. Afterwards the remembered choice is 2. |
| Sessions.Session.SubmitComment | gradio-example/gradio-example.py:95-105 | A comment that is blank after stripping saves nothing. Otherwise the pair's comments become exactly `[text]` and the file is saved. |
| Sessions.Session.SubmitGeneral | gradio-example/gradio-example.py:107-117 | The pair's general answers become exactly the one new entry. |
| Sessions.Session.OnSubmitTask | gradio-example/gradio-example.py:140-155 | The pair's task answers become the upsert of the new entry. Nothing else changes. |
| Sessions.Session.GotoPair | gradio-example/gradio-example.py:119-135 | The index becomes the clamped index. The pair's videos and its remembered choice text are shown, and the file is untouched. |
| Sessions.Session.NextPair | gradio-example/gradio-example.py:137 | Moves one pair forward and stays on the last pair at the end. Shows the new pair's videos and its remembered choice text, and leaves choices and file alone. |
| Sessions.Session.PrevPair | gradio-example/gradio-example.py:138 | Moves one pair back and stays on the first pair at the start. Shows the new pair's videos and its remembered choice text, and leaves choices and file alone. |
| Sessions.CreateDemo | gradio-example/gradio-example.py:55-57 | Fails, with the pairing error, exactly when pairing fails. Otherwise it starts a valid session on the first pair, with no choices and no file, over exactly the pairs `find_pairs_two_dirs` builds. Its task is what `detect_task_from_dirs(dir1, dir2)` promises: the first exact token match, else a known task inside some token, and "generic" exactly when no token contains one. |
| Tasks.GenericIsNotKnown | gradio-example/tasks_ui.py:6 | "generic" is not in `KNOWN_TASKS`. |
| Tasks.SplitSepsSpec | gradio-example/tasks_ui.py:12 | Splitting on '/' and '\' gives one more part than there are separators. No part holds a separator, and putting the separators back gives the input. |
| Tasks.PathTokensSpec | gradio-example/tasks_ui.py:10-12 | Every token of the lowercased paths is lowercase and free of separators. |
| Tasks.DetectTaskFromDirs | gradio-example/tasks_ui.py:8-21 | The result is always known or "generic". The first exact token match wins; the set's order is not fixed, so otherwise any known task found inside a token may be chosen. The result is "generic" exactly when no token contains a known task. |
| Tasks.TimeIf | gradio-example/tasks_ui.py:87-90 | A time is recorded exactly when the condition holds and a number was given. |
| Tasks.AnswerIf | gradio-example/tasks_ui.py:92-93 | A follow-up is recorded exactly when its condition holds, and it is true exactly for "Yes". |
| Tasks.RvHandler | gradio-example/tasks_ui.py:84-95 | Tagged "rotate_gate_valve". The time is non-null exactly when "Yes" and a time was given, and then it is that time. Slip is non-null iff both-grippers is "Yes", gripped-at-any-point iff it is "No", and each non-null follow-up is true exactly for "Yes". |
| Tasks.RlHandler | gradio-example/tasks_ui.py:145-156 | Tagged "rotate_lever_easy", with the same rules as the gate-valve builder. |
| Tasks.GenHandler | gradio-example/tasks_ui.py:170-175 | Tagged "generic". The time is null exactly when none was given, whatever the success answer, and otherwise it is the given time. |
| Tasks.GripHandlersWellFormed | gradio-example/tasks_ui.py:92-93 | With a Yes/No both-grippers answer, exactly one grip follow-up is non-null and the record is well formed. |
| Tasks.HandlersReachEveryWellFormedRecord | gradio-example/tasks_ui.py:84-175 | Every well-formed record is what the builders produce from some Yes/No inputs. |

## Left out

- Gradio UI is not modelled. That covers building the interface, event wiring, visibility toggles (`_toggle_time`, `_toggle_grip`), sliders, labels, the pair title with "↔" and the header Markdown. None of it is logic.
- Filesystem and JSON are not modelled:
  - `os.listdir` is not modelled: listings are inputs.
  - The results file is a value held by the session. `os.path.exists`, `json.load`, `json.dump` and `os.makedirs` are not modelled.
- `uuid.uuid4()` is not modelled. The session file name only selects a fresh file, so a session starts with no file.
- `float(time_s)` and `int(smooth)` are not modelled, because they are numeric parsing and conversion. A time is a `NumberInput` (nothing, an empty string, or a real), and slider values are integers.
- `re.split` is not modelled as a regex engine. Both splits are string functions, characterised by the lemmas above.
- Unicode letters are out of scope:
  - `lower()` and `isdigit()` are ASCII-only. Python also lowercases non-ASCII letters and treats other Unicode digits as digits.
  - `re.split(r"(\d+)")` is likewise modelled on ASCII digits.
- Sessions.Session.Pick requires choice 1 or 2, the only values its callers pass (lines 92-93). `Judgments.Voted` models the source's "anything but 1 counts for video 2" branch.
- Judgments.UpsertTask assumes a stored entry always has `task_q`. Every entry this code writes has it, so the `per.get("task_q", [])` default (line 145) is not modelled.
- Stored entries are assumed to hold all five keys. A hand-edited results file with missing keys would raise in the source; the model does not represent that.
- Tasks.DetectTaskFromDirs takes the folder paths as strings, so `str(d)` on non-string arguments is not modelled.
