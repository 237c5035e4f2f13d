/**
  `run_experiment` and `main` (main.py): for each experiment directory, reset
  its `results` directory, validate the loaded input, and for the scenarios
  zero_shot, one_shot and few_shot in turn assemble a chat turn list per
  message, classify it, and save the message-to-labels map as
  `<scenario>_results.json`.
*/
module Experiment {
  import opened Wrappers
  import opened Text
  import opened Classifier

  datatype Scenario = ZeroShot | OneShot | FewShot

  /** `scenarios = ["zero_shot", "one_shot", "few_shot"]` */
  const Scenarios: seq<Scenario> := [ZeroShot, OneShot, FewShot]

  function ScenarioName(s: Scenario): string
  {
    match s
    case ZeroShot => "zero_shot"
    case OneShot => "one_shot"
    case FewShot => "few_shot"
  }

  /** `f"{scenario}_results.json"` */
  function ResultsFile(s: Scenario): string
  {
    ScenarioName(s) + "_results.json"
  }

  /** The scenarios write to three different files. */
  lemma ResultsFilesDistinct(a: Scenario, b: Scenario)
    ensures ResultsFile(a) == ResultsFile(b) <==> a == b
  {
    if a != b {
      assert ResultsFile(a)[0] != ResultsFile(b)[0];
    }
  }

  /** The names of the three result files. */
  const AllResultsFiles: set<string> := {ResultsFile(ZeroShot), ResultsFile(OneShot), ResultsFile(FewShot)}

  /** One entry of shot_examples.json's "examples" list. */
  datatype Example = Example(message: string, categories: string)

  /** The two keys read from messages.json. A missing key is `None`; so is
      each key when the file is missing or malformed, since load_json then
      yields an empty dictionary. */
  datatype MessagesFile = MessagesFile(messages: Option<seq<string>>, categories: Option<seq<string>>)

  /** `data.get(key, [])`: the stored list, or the empty one. */
  function OrEmpty<T>(v: Option<seq<T>>): seq<T>
  {
    if v.Some? then v.value else []
  }

  /** shot_examples.json's "examples" list; `None` when the file is missing or
      malformed (load_json yields `{}`) or has no "examples" key. */
  type ShotFile = Option<seq<Example>>

  /** A scenario's results: each message mapped to its predicted labels. */
  type Results = map<string, seq<string>>

  /** The inference endpoint: the reply to the `k`-th call of the run (calls
      are numbered from 0), so that asking twice may give two answers. */
  type Endpoint = (nat, Request) -> Reply

  /** The uncaught exceptions of run_experiment. */
  datatype Failure = KeyError(key: string)

  /** How run_experiment ends. */
  datatype Outcome = NoSuchDirectory | MissingInput | Completed | Crashed(failure: Failure)

  // ---------------------------------------------------------------------
  // Chat-turn assembly
  // ---------------------------------------------------------------------

  /** The system prompt: the template rendered with the categories joined by
      ", ". `str.format` is not modelled: `format` stands for it. */
  function SystemPrompt(format: (string, string) -> string, template: string, categories: seq<string>): string
  {
    format(template, Join(categories, ", "))
  }

  /** How many worked examples a scenario injects out of `available`. */
  function ShotCount(s: Scenario, available: nat): (k: nat)
    ensures k <= available
    ensures s == ZeroShot ==> k == 0
    ensures s == OneShot ==> k == if available == 0 then 0 else 1
    ensures s == FewShot ==> k == available
  {
    match s
    case ZeroShot => 0
    case OneShot => if available == 0 then 0 else 1
    case FewShot => available
  }

  /** The user/assistant pair of each example, in stored order. */
  function ExampleTurns(exs: seq<Example>): (turns: seq<Turn>)
    ensures |turns| == 2 * |exs|
  {
    if exs == [] then []
    else
      var k := |exs| - 1;
      ExampleTurns(exs[..k]) + [Turn(User, exs[k].message), Turn(Assistant, exs[k].categories)]
  }

  /** Example `i` becomes turns `2i` (its message, from the user) and `2i + 1`
      (its categories, from the assistant). */
  lemma {:induction false} ExampleTurnsAt(exs: seq<Example>, i: nat)
    requires i < |exs|
    ensures ExampleTurns(exs)[2 * i] == Turn(User, exs[i].message)
    ensures ExampleTurns(exs)[2 * i + 1] == Turn(Assistant, exs[i].categories)
  {
    var k := |exs| - 1;
    if i < k {
      ExampleTurnsAt(exs[..k], i);
    }
  }

  /** The turn list sent for one message: the system turn, the scenario's
      worked examples, and the message as the final user turn. */
  function ChatTurns(s: Scenario, systemPrompt: string, exs: seq<Example>, msg: string): (turns: seq<Turn>)
    ensures |turns| == 2 * ShotCount(s, |exs|) + 2
    ensures turns[0] == Turn(System, systemPrompt)
    ensures turns[|turns| - 1] == Turn(User, msg)
  {
    var shots := ExampleTurns(exs[..ShotCount(s, |exs|)]);
    [Turn(System, systemPrompt)] + shots + [Turn(User, msg)]
  }

  /** Between the system turn and the message, every injected example
      appears as a user turn followed by an assistant turn, in stored order. */
  lemma ChatTurnsAt(s: Scenario, systemPrompt: string, exs: seq<Example>, msg: string, i: nat)
    requires i < ShotCount(s, |exs|)
    ensures ChatTurns(s, systemPrompt, exs, msg)[1 + 2 * i] == Turn(User, exs[i].message)
    ensures ChatTurns(s, systemPrompt, exs, msg)[2 + 2 * i] == Turn(Assistant, exs[i].categories)
  {
    var shown := exs[..ShotCount(s, |exs|)];
    ExampleTurnsAt(shown, i);
  }

  /** Builds `message_list` for one message as run_experiment does: the
      system turn, then for zero_shot the message alone; otherwise every
      example pair in turn, stopping after the first for one_shot, then the
      message. Indexing the missing "examples" key raises. */
  method BuildTurns(s: Scenario, systemPrompt: string, shot: ShotFile, msg: string)
    returns (r: Result<seq<Turn>, Failure>)
    ensures s != ZeroShot && shot.None? ==> r == Err(KeyError("examples"))
    ensures s == ZeroShot || shot.Some? ==> r == Ok(ChatTurns(s, systemPrompt, OrEmpty(shot), msg))
  {
    var turns := [Turn(System, systemPrompt)];
    if s == ZeroShot {
      turns := turns + [Turn(User, msg)];
      ZeroShotTurns(systemPrompt, OrEmpty(shot), msg);
      assert turns == [Turn(System, systemPrompt), Turn(User, msg)];
      return Ok(turns);
    }
    if shot.None? {
      return Err(KeyError("examples"));
    }
    var exs := shot.value;
    var i := 0;
    while i < |exs|
      invariant 0 <= i <= |exs|
      invariant s == OneShot ==> i == 0
      invariant turns == [Turn(System, systemPrompt)] + ExampleTurns(exs[..i])
    {
      var ex := exs[i];
      turns := turns + [Turn(User, ex.message)];
      turns := turns + [Turn(Assistant, ex.categories)];
      assert exs[..i + 1][..i] == exs[..i];
      i := i + 1;
      if s == OneShot {
        break;
      }
    }
    assert i == ShotCount(s, |exs|);
    turns := turns + [Turn(User, msg)];
    assert turns == ChatTurns(s, systemPrompt, exs, msg);
    r := Ok(turns);
  }

  /** zero_shot: the system turn and the message, whatever the examples. */
  lemma ZeroShotTurns(systemPrompt: string, exs: seq<Example>, msg: string)
    ensures ChatTurns(ZeroShot, systemPrompt, exs, msg) == [Turn(System, systemPrompt), Turn(User, msg)]
  {
    assert exs[..0] == [];
  }

  /** one_shot: only the first example is injected; with none it is like
      zero_shot. */
  lemma OneShotTurns(systemPrompt: string, exs: seq<Example>, msg: string)
    ensures |exs| == 0 ==>
      ChatTurns(OneShot, systemPrompt, exs, msg) == [Turn(System, systemPrompt), Turn(User, msg)]
    ensures |exs| >= 1 ==>
      ChatTurns(OneShot, systemPrompt, exs, msg)
      == [Turn(System, systemPrompt), Turn(User, exs[0].message),
          Turn(Assistant, exs[0].categories), Turn(User, msg)]
  {
    if |exs| >= 1 {
      var shots := ExampleTurns(exs[..1]);
      assert exs[..1][..0] == [];
      assert shots == [Turn(User, exs[0].message), Turn(Assistant, exs[0].categories)];
    } else {
      assert exs[..0] == [];
    }
  }

  /** few_shot: 2N + 2 turns, with every example pair in stored order. */
  lemma FewShotTurns(systemPrompt: string, exs: seq<Example>, msg: string)
    ensures ChatTurns(FewShot, systemPrompt, exs, msg)
      == [Turn(System, systemPrompt)] + ExampleTurns(exs) + [Turn(User, msg)]
    ensures |ChatTurns(FewShot, systemPrompt, exs, msg)| == 2 * |exs| + 2
  {
    assert exs[..|exs|] == exs;
  }

  // ---------------------------------------------------------------------
  // One scenario: classify every message
  // ---------------------------------------------------------------------

  /** classify_message as the experiment uses it: the labels for a turn list
      sent as the `k`-th endpoint call of the run. */
  type Classify = (nat, seq<Turn>) -> seq<string>

  /** The classifier over a given endpoint. */
  function Classification(endpoint: Endpoint): Classify
  {
    (k: nat, turns: seq<Turn>) => ClassifyMessage(req => endpoint(k, req), turns)
  }

  /** Each call of the experiment's classifier is one classify_message call
      against the endpoint's answer to that call, and is never empty. */
  lemma ClassifierCall(endpoint: Endpoint)
    ensures forall k: nat, turns: seq<Turn> ::
      Classification(endpoint)(k, turns) == ClassifyMessage(req => endpoint(k, req), turns)
      && |Classification(endpoint)(k, turns)| >= 1
  {
  }

  /** `results` after the first `n` messages of `ms` have been classified in
      order, message `j` by call number `base + j`: each message is written
      over any earlier entry for the same text. */
  function ResultsUpTo(s: Scenario, systemPrompt: string, exs: seq<Example>, ms: seq<string>,
                       classify: Classify, base: nat, n: nat): Results
    requires n <= |ms|
  {
    if n == 0 then map[]
    else
      ResultsUpTo(s, systemPrompt, exs, ms, classify, base, n - 1)[
        ms[n - 1] := classify(base + n - 1, ChatTurns(s, systemPrompt, exs, ms[n - 1]))]
  }

  /** `results` once the scenario has classified every message. */
  function ScenarioResults(s: Scenario, systemPrompt: string, exs: seq<Example>, ms: seq<string>,
                           classify: Classify, base: nat): Results
  {
    ResultsUpTo(s, systemPrompt, exs, ms, classify, base, |ms|)
  }

  /** The results have one key per distinct message seen so far. */
  lemma {:induction false} ResultsKeys(s: Scenario, systemPrompt: string, exs: seq<Example>,
                                       ms: seq<string>, classify: Classify, base: nat, n: nat)
    requires n <= |ms|
    ensures ResultsUpTo(s, systemPrompt, exs, ms, classify, base, n).Keys == set j | 0 <= j < n :: ms[j]
  {
    if n > 0 {
      ResultsKeys(s, systemPrompt, exs, ms, classify, base, n - 1);
      assert (set j | 0 <= j < n :: ms[j]) == (set j | 0 <= j < n - 1 :: ms[j]) + {ms[n - 1]};
    }
  }

  /** A finished scenario has exactly one entry per distinct message. */
  lemma ScenarioKeys(s: Scenario, systemPrompt: string, exs: seq<Example>,
                     ms: seq<string>, classify: Classify, base: nat)
    ensures ScenarioResults(s, systemPrompt, exs, ms, classify, base).Keys == set m | m in ms
  {
    ResultsKeys(s, systemPrompt, exs, ms, classify, base, |ms|);
    assert forall m | m in ms :: m in set j | 0 <= j < |ms| :: ms[j] by {
      forall m | m in ms ensures m in set j | 0 <= j < |ms| :: ms[j] {
        var j :| 0 <= j < |ms| && ms[j] == m;
      }
    }
  }

  /** A message's entry is the answer to its last occurrence so far. */
  lemma {:induction false} ResultsLastWins(s: Scenario, systemPrompt: string, exs: seq<Example>,
                                           ms: seq<string>, classify: Classify, base: nat, n: nat, i: nat)
    requires i < n <= |ms|
    requires forall j | i < j < n :: ms[j] != ms[i]
    ensures ms[i] in ResultsUpTo(s, systemPrompt, exs, ms, classify, base, n)
    ensures ResultsUpTo(s, systemPrompt, exs, ms, classify, base, n)[ms[i]]
      == classify(base + i, ChatTurns(s, systemPrompt, exs, ms[i]))
  {
    if i < n - 1 {
      ResultsLastWins(s, systemPrompt, exs, ms, classify, base, n - 1, i);
    }
  }

  /** Every entry holds at least one label. */
  lemma {:induction false} ResultsNonEmpty(s: Scenario, systemPrompt: string, exs: seq<Example>,
                                           ms: seq<string>, classify: Classify, base: nat, n: nat)
    requires n <= |ms|
    requires forall k: nat, turns: seq<Turn> :: |classify(k, turns)| >= 1
    ensures forall m | m in ResultsUpTo(s, systemPrompt, exs, ms, classify, base, n) ::
      |ResultsUpTo(s, systemPrompt, exs, ms, classify, base, n)[m]| >= 1
  {
    if n > 0 {
      ResultsNonEmpty(s, systemPrompt, exs, ms, classify, base, n - 1);
    }
  }

  /** One more message classified: its entry is the answer to its call. */
  lemma ResultsStep(s: Scenario, systemPrompt: string, exs: seq<Example>, ms: seq<string>,
                    classify: Classify, base: nat, i: nat)
    requires i < |ms|
    ensures ResultsUpTo(s, systemPrompt, exs, ms, classify, base, i + 1)
      == ResultsUpTo(s, systemPrompt, exs, ms, classify, base, i)[
           ms[i] := classify(base + i, ChatTurns(s, systemPrompt, exs, ms[i]))]
  {
  }

  /** In main's run, where messages are classified by classify_message over
      the endpoint, every saved label list holds at least one label. */
  lemma RunLabelsNonEmpty(s: Scenario, systemPrompt: string, exs: seq<Example>, ms: seq<string>,
                          endpoint: Endpoint, base: nat)
    ensures forall m | m in ScenarioResults(s, systemPrompt, exs, ms, Classification(endpoint), base) ::
      |ScenarioResults(s, systemPrompt, exs, ms, Classification(endpoint), base)[m]| >= 1
  {
    ClassifierCall(endpoint);
    ResultsNonEmpty(s, systemPrompt, exs, ms, Classification(endpoint), base, |ms|);
  }

  /** The scenario loop of run_experiment: build the turns for each message,
      classify them with the next endpoint call, store the labels. The
      KeyError of the one_shot/few_shot branch escapes at the first message. */
  method RunScenario(s: Scenario, systemPrompt: string, shot: ShotFile, messages: seq<string>,
                     classify: Classify, calls: nat)
    returns (r: Result<Results, Failure>, callsAfter: nat)
    ensures s != ZeroShot && shot.None? && |messages| > 0 ==>
      r == Err(KeyError("examples")) && callsAfter == calls
    ensures s == ZeroShot || shot.Some? || |messages| == 0 ==>
      r == Ok(ScenarioResults(s, systemPrompt, OrEmpty(shot), messages, classify, calls))
      && callsAfter == calls + |messages|
  {
    var results: Results := map[];
    callsAfter := calls;
    var i := 0;
    while i < |messages|
      invariant 0 <= i <= |messages|
      invariant callsAfter == calls + i
      invariant results == ResultsUpTo(s, systemPrompt, OrEmpty(shot), messages, classify, calls, i)
      invariant s != ZeroShot && shot.None? ==> i == 0
    {
      var msg := messages[i];
      var turns := BuildTurns(s, systemPrompt, shot, msg);
      if turns.Err? {
        return Err(turns.error), calls;
      }
      var labels := classify(callsAfter, turns.value);
      ResultsStep(s, systemPrompt, OrEmpty(shot), messages, classify, calls, i);
      results := results[msg := labels];
      callsAfter := callsAfter + 1;
      i := i + 1;
    }
    r := Ok(results);
  }

  // ---------------------------------------------------------------------
  // The results directory and one experiment
  // ---------------------------------------------------------------------

  /** An experiment's `results` directory: whether it exists, and the JSON
      files in it by file name, whatever an earlier run or anyone else left
      there included. */
  class ResultsDir {
    var present: bool
    var files: map<string, Results>

    constructor (present: bool, files: map<string, Results>)
      ensures this.present == present && this.files == files
    {
      this.present := present;
      this.files := files;
    }

    /** `shutil.rmtree` if it exists, then `mkdir`. */
    method Reset()
      modifies this
      ensures present && files == map[]
    {
      present := true;
      files := map[];
    }

    /** save_json to `results/<scenario>_results.json`: write (or
        overwrite) that one file; with no directory, the write fails and is
        only logged. */
    method Save(s: Scenario, data: Results)
      modifies this
      ensures present == old(present)
      ensures files == if old(present) then old(files)[ResultsFile(s) := data] else old(files)
    {
      if present {
        files := files[ResultsFile(s) := data];
      }
    }
  }

  /** The number of endpoint calls made by `k` scenarios of `n` messages. */
  function Offset(k: nat, n: nat): nat
  {
    if k == 0 then 0 else Offset(k - 1, n) + n
  }

  /** The files of the first `k` scenarios, saved in order; scenario `j`
      classifies its messages with calls `base + Offset(j, |ms|)` onwards. */
  function SavedFiles(k: nat, systemPrompt: string, exs: seq<Example>, ms: seq<string>,
                      classify: Classify, base: nat): map<string, Results>
    requires k <= |Scenarios|
  {
    if k == 0 then map[]
    else
      var s := Scenarios[k - 1];
      SavedFiles(k - 1, systemPrompt, exs, ms, classify, base)[
        ResultsFile(s) := ScenarioResults(s, systemPrompt, exs, ms, classify, base + Offset(k - 1, |ms|))]
  }

  /** The input run_experiment accepts: some messages and some categories. */
  predicate ValidInput(input: MessagesFile)
  {
    |OrEmpty(input.messages)| > 0 && |OrEmpty(input.categories)| > 0
  }

  /** The `for scenario in scenarios` loop of run_experiment over a freshly
      emptied results directory: each scenario's results are saved under its
      file name before the next one starts. Without examples, one_shot
      raises at its first message, after zero_shot's file was saved. */
  method RunScenarios(dir: ResultsDir, systemPrompt: string, shot: ShotFile, messages: seq<string>,
                      classify: Classify, calls: nat)
    returns (failure: Option<Failure>, callsAfter: nat)
    requires dir.present && dir.files == map[] && |messages| > 0
    modifies dir
    ensures dir.present
    ensures shot.None? ==>
      failure == Some(KeyError("examples")) && callsAfter == calls + |messages|
      && dir.files == SavedFiles(1, systemPrompt, [], messages, classify, calls)
    ensures shot.Some? ==>
      failure == None && callsAfter == calls + Offset(3, |messages|)
      && dir.files == SavedFiles(3, systemPrompt, shot.value, messages, classify, calls)
  {
    callsAfter := calls;
    var i := 0;
    while i < |Scenarios|
      invariant 0 <= i <= |Scenarios|
      invariant dir.present
      invariant callsAfter == calls + Offset(i, |messages|)
      invariant dir.files == SavedFiles(i, systemPrompt, OrEmpty(shot), messages, classify, calls)
      invariant shot.None? ==> i <= 1
    {
      var s := Scenarios[i];
      var r, c := RunScenario(s, systemPrompt, shot, messages, classify, callsAfter);
      if r.Err? {
        assert i == 1;
        return Some(r.error), callsAfter;
      }
      SavedStep(i, systemPrompt, OrEmpty(shot), messages, classify, calls, dir.files, r.value);
      dir.Save(s, r.value);
      callsAfter := c;
      i := i + 1;
    }
    failure := None;
  }

  /** run_experiment for one directory. The results directory is emptied
      before the input is validated; a missing "examples" key aborts the run
      after zero_shot's file is saved. */
  method RunExperiment(dirExists: bool, dir: ResultsDir, input: MessagesFile, shot: ShotFile,
                       template: string, format: (string, string) -> string,
                       classify: Classify, calls: nat)
    returns (outcome: Outcome, callsAfter: nat)
    modifies dir
    ensures !dirExists ==>
      outcome == NoSuchDirectory && callsAfter == calls
      && dir.present == old(dir.present) && dir.files == old(dir.files)
    ensures dirExists ==> dir.present
    ensures dirExists && !ValidInput(input) ==>
      outcome == MissingInput && callsAfter == calls && dir.files == map[]
    ensures dirExists && ValidInput(input) && shot.None? ==>
      var ms := OrEmpty(input.messages);
      var sp := SystemPrompt(format, template, OrEmpty(input.categories));
      outcome == Crashed(KeyError("examples")) && callsAfter == calls + |ms|
      && dir.files.Keys == {ResultsFile(ZeroShot)}
      && dir.files[ResultsFile(ZeroShot)] == ScenarioResults(ZeroShot, sp, [], ms, classify, calls)
    ensures dirExists && ValidInput(input) && shot.Some? ==>
      var ms := OrEmpty(input.messages);
      var sp := SystemPrompt(format, template, OrEmpty(input.categories));
      var exs := shot.value;
      outcome == Completed && callsAfter == calls + 3 * |ms|
      && dir.files.Keys == AllResultsFiles
      && dir.files[ResultsFile(ZeroShot)] == ScenarioResults(ZeroShot, sp, exs, ms, classify, calls)
      && dir.files[ResultsFile(OneShot)] == ScenarioResults(OneShot, sp, exs, ms, classify, calls + |ms|)
      && dir.files[ResultsFile(FewShot)] == ScenarioResults(FewShot, sp, exs, ms, classify, calls + 2 * |ms|)
  {
    if !dirExists {
      return NoSuchDirectory, calls;
    }
    dir.Reset();
    var messages := OrEmpty(input.messages);
    var categories := OrEmpty(input.categories);
    if |messages| == 0 || |categories| == 0 {
      return MissingInput, calls;
    }
    var systemPrompt := SystemPrompt(format, template, categories);
    var failure;
    failure, callsAfter := RunScenarios(dir, systemPrompt, shot, messages, classify, calls);
    if failure.Some? {
      SavedOne(systemPrompt, [], messages, classify, calls);
      outcome := Crashed(failure.value);
    } else {
      SavedThree(systemPrompt, shot.value, messages, classify, calls);
      outcome := Completed;
    }
  }

  /** One more scenario saved: its file holds its results, classified from
      the call after the earlier scenarios' calls. */
  lemma SavedStep(k: nat, systemPrompt: string, exs: seq<Example>, ms: seq<string>,
                  classify: Classify, base: nat, files: map<string, Results>, data: Results)
    requires k < |Scenarios|
    requires files == SavedFiles(k, systemPrompt, exs, ms, classify, base)
    requires data == ScenarioResults(Scenarios[k], systemPrompt, exs, ms, classify, base + Offset(k, |ms|))
    ensures files[ResultsFile(Scenarios[k]) := data] == SavedFiles(k + 1, systemPrompt, exs, ms, classify, base)
    ensures Offset(k + 1, |ms|) == Offset(k, |ms|) + |ms|
  {
  }

  /** zero_shot's file alone. */
  lemma SavedOne(systemPrompt: string, exs: seq<Example>, ms: seq<string>, classify: Classify, base: nat)
    ensures SavedFiles(1, systemPrompt, exs, ms, classify, base).Keys == {ResultsFile(ZeroShot)}
    ensures SavedFiles(1, systemPrompt, exs, ms, classify, base)[ResultsFile(ZeroShot)]
      == ScenarioResults(ZeroShot, systemPrompt, exs, ms, classify, base)
  {
    assert Scenarios[0] == ZeroShot;
  }

  /** All three scenarios' files, spelled out. */
  lemma SavedThree(systemPrompt: string, exs: seq<Example>, ms: seq<string>, classify: Classify, base: nat)
    ensures SavedFiles(3, systemPrompt, exs, ms, classify, base).Keys == AllResultsFiles
    ensures SavedFiles(3, systemPrompt, exs, ms, classify, base)[ResultsFile(ZeroShot)]
      == ScenarioResults(ZeroShot, systemPrompt, exs, ms, classify, base)
    ensures SavedFiles(3, systemPrompt, exs, ms, classify, base)[ResultsFile(OneShot)]
      == ScenarioResults(OneShot, systemPrompt, exs, ms, classify, base + |ms|)
    ensures SavedFiles(3, systemPrompt, exs, ms, classify, base)[ResultsFile(FewShot)]
      == ScenarioResults(FewShot, systemPrompt, exs, ms, classify, base + 2 * |ms|)
    ensures Offset(3, |ms|) == 3 * |ms|
  {
    assert Scenarios[0] == ZeroShot && Scenarios[1] == OneShot && Scenarios[2] == FewShot;
    ResultsFilesDistinct(ZeroShot, OneShot);
    ResultsFilesDistinct(ZeroShot, FewShot);
    ResultsFilesDistinct(OneShot, FewShot);
    assert Offset(1, |ms|) == |ms|;
    assert Offset(2, |ms|) == 2 * |ms|;
    SavedOne(systemPrompt, exs, ms, classify, base);
  }

  // ---------------------------------------------------------------------
  // main: every directory under the experiments root
  // ---------------------------------------------------------------------

  /** One entry of the experiments root, with what its files hold. */
  datatype Entry = Entry(name: string, isDir: bool, results: ResultsDir,
                         input: MessagesFile, shot: ShotFile)

  /** An experiment whose run raises: valid input but no examples. */
  predicate Crashes(e: Entry)
  {
    e.isDir && ValidInput(e.input) && e.shot.None?
  }

  /** The names of the directory entries, in order. */
  function DirNames(entries: seq<Entry>): (names: seq<string>)
  {
    if entries == [] then []
    else
      var k := |entries| - 1;
      DirNames(entries[..k]) + (if entries[k].isDir then [entries[k].name] else [])
  }

  /** How many entries main gets through: all of them, or up to and
      including the first experiment that raises. */
  function Reached(entries: seq<Entry>): (n: nat)
    ensures n <= |entries|
    ensures forall j | 0 <= j < n - 1 :: !Crashes(entries[j])
    ensures n < |entries| ==> n > 0 && Crashes(entries[n - 1])
  {
    if entries == [] then 0
    else if Crashes(entries[0]) then 1
    else 1 + Reached(entries[1..])
  }

  /** The results directory of a directory entry once run_experiment is
      done with it: it exists; it is empty when the input is rejected; it
      holds zero_shot's file alone after the crash; and exactly the three
      result files after a complete run, nothing older left over. */
  predicate ExperimentDone(e: Entry)
    reads e.results
  {
    e.results.present
    && (!ValidInput(e.input) ==> e.results.files == map[])
    && (Crashes(e) ==> e.results.files.Keys == {ResultsFile(ZeroShot)})
    && (ValidInput(e.input) && e.shot.Some? ==> e.results.files.Keys == AllResultsFiles)
  }

  /** One entry of main's loop: a directory is run as an experiment, any
      other entry is skipped. */
  method RunEntry(e: Entry, template: string, format: (string, string) -> string,
                  classify: Classify, calls: nat)
    returns (crashed: bool, callsAfter: nat)
    modifies e.results
    ensures crashed <==> Crashes(e)
    ensures !e.isDir ==> unchanged(e.results) && callsAfter == calls
    ensures e.isDir ==> ExperimentDone(e)
    ensures Crashes(e) ==>
      e.results.files[ResultsFile(ZeroShot)]
      == ScenarioResults(ZeroShot, SystemPrompt(format, template, OrEmpty(e.input.categories)), [],
                         OrEmpty(e.input.messages), classify, calls)
    ensures e.isDir && ValidInput(e.input) && e.shot.Some? ==>
      var ms := OrEmpty(e.input.messages);
      var sp := SystemPrompt(format, template, OrEmpty(e.input.categories));
      e.results.files[ResultsFile(ZeroShot)] == ScenarioResults(ZeroShot, sp, e.shot.value, ms, classify, calls)
      && e.results.files[ResultsFile(OneShot)] == ScenarioResults(OneShot, sp, e.shot.value, ms, classify, calls + |ms|)
      && e.results.files[ResultsFile(FewShot)] == ScenarioResults(FewShot, sp, e.shot.value, ms, classify, calls + 2 * |ms|)
    ensures e.isDir && !ValidInput(e.input) ==> callsAfter == calls
    ensures Crashes(e) ==> callsAfter == calls + |OrEmpty(e.input.messages)|
    ensures e.isDir && ValidInput(e.input) && e.shot.Some? ==>
      callsAfter == calls + 3 * |OrEmpty(e.input.messages)|
  {
    crashed, callsAfter := false, calls;
    if e.isDir {
      var outcome;
      outcome, callsAfter := RunExperiment(true, e.results, e.input, e.shot, template, format,
                                           classify, calls);
      crashed := outcome.Crashed?;
    }
  }

  /** main: run every directory entry in the given (enumeration) order and
      skip the rest; an exception in one experiment ends the whole run. */
  method RunAll(entries: seq<Entry>, template: string, format: (string, string) -> string,
                endpoint: Endpoint)
    returns (ran: seq<string>, crashed: bool)
    requires forall i, j | 0 <= i < j < |entries| :: entries[i].results != entries[j].results
    modifies set i | 0 <= i < |entries| :: entries[i].results
    ensures crashed <==> exists j | 0 <= j < |entries| :: Crashes(entries[j])
    ensures ran == DirNames(entries[..Reached(entries)])
    ensures forall j | 0 <= j < |entries| && (j >= Reached(entries) || !entries[j].isDir) ::
      unchanged(entries[j].results)
    ensures forall j | 0 <= j < Reached(entries) && entries[j].isDir :: ExperimentDone(entries[j])
  {
    ran, crashed := [], false;
    var classify := Classification(endpoint);
    var calls := 0;
    var i := 0;
    while i < |entries| && !crashed
      invariant 0 <= i <= |entries|
      invariant ran == DirNames(entries[..i])
      invariant crashed <==> i > 0 && Crashes(entries[i - 1])
      invariant forall j | 0 <= j < i - 1 :: !Crashes(entries[j])
      invariant forall j | 0 <= j < |entries| && (j >= i || !entries[j].isDir) ::
        unchanged(entries[j].results)
      invariant forall j | 0 <= j < i && entries[j].isDir :: ExperimentDone(entries[j])
    {
      var e := entries[i];
      var c;
      crashed, c := RunEntry(e, template, format, classify, calls);
      if e.isDir {
        ran := ran + [e.name];
      }
      calls := c;
      assert entries[..i + 1][..i] == entries[..i];
      i := i + 1;
    }
    ReachedIs(entries, i);
  }

  /** Stopping after the first crash, or at the end, is stopping at Reached. */
  lemma ReachedIs(entries: seq<Entry>, n: nat)
    requires n <= |entries|
    requires forall j | 0 <= j < n - 1 :: !Crashes(entries[j])
    requires n == |entries| || (n > 0 && Crashes(entries[n - 1]))
    ensures n == Reached(entries)
  {
  }
}
