# Local LLM message classification — a Dafny model

The repository classifies short messages into categories. It asks a locally
hosted, OpenAI-compatible chat endpoint, in three prompting scenarios:
zero_shot, one_shot and few_shot. This project models the two parts that
hold its logic:

- **`MessageClassifier.classify_message`** (module `Classifier`). It makes one
  chat-completion request with the turn list, model `"local-model"` and
  temperature 0.1. It strips the reply. If the reply contains `</think>`, it
  keeps only the text after the last one. It strips again, splits on `,` and
  strips every segment. Any failure gives the one-element list
  `["Error: Classification failed"]`, and so does absent content.
- **`run_experiment` and `main`** (module `Experiment`). For each experiment
  directory:
  - clear and recreate its `results` directory;
  - read `messages` and `categories`, each defaulting to an empty list;
  - stop without classifying if either is empty;
  - otherwise, for each scenario in order:
    - assemble one turn list per message: the system prompt, then no worked
      example, the first one, or all of them, then the message as the last
      user turn;
    - classify each message, keeping the answer of a message's last
      occurrence;
    - save the map as `<scenario>_results.json`.
  - A missing `"examples"` key raises at one_shot's first message. That ends
    the experiment after zero_shot's file was written, and also ends `main`'s
    whole run.

Module `Text` models the Python string operations used:
- `str.strip`, with Python's `str.isspace` set of characters;
- `'sep' in s`;
- `str.split(sep)` with a non-empty separator;
- `', '.join`.

Module `Wrappers` holds `Option` and `Result`.

Modelling choices:
- **Endpoint.** The endpoint is a parameter (`Endpoint`). It maps the number
  of the call within the run, and the request, to a reply. The reply is a
  raised call (`CallFailed`) or a completion whose content may be `None`.
  Two calls with the same request may thus get different answers.
- **Classifier.** Inside run_experiment, the classifier is the parameter
  `classify: Classify`. `main` (`RunAll`) instantiates it with
  `Classification(endpoint)`, which is `ClassifyMessage` over the endpoint.
- **Files.** The JSON files are given as their decoded content:
  - `messages.json` is a `MessagesFile` with an optional value per key
    (load_json yields `{}` when the file is missing or malformed);
  - `shot_examples.json` is a `ShotFile`: the `"examples"` list, or `None`
    when there is none.
- **Results directory.** It is a class (`ResultsDir`) that holds whether it
  exists and its JSON files by file name, including any file an earlier run
  or anyone else left there. Saving a scenario writes `ResultsFile(s)`.
  A completed run leaves exactly the three result files only because
  `Reset` empties the directory first, and `ResultsFilesDistinct` shows
  that the three saved files do not overwrite one another.
- **System prompt.** Rendering it is `format(template, Join(categories, ", "))`,
  with `format` standing for `str.format`.

## Model

| member | source | states |
|---|---|---|
| Text.Strip | src/classifier.py:38 | `strip()` leaves neither leading nor trailing whitespace |
| Text.StripParts | src/classifier.py:38 | the argument is whitespace, then the stripped text, then whitespace |
| Text.StripUnique | src/classifier.py:48 | stripping text padded only by whitespace gives back exactly the unpadded text |
| Text.StripIdempotent | src/classifier.py:48 | stripping twice is stripping once (the second strip in line 48 of a reply without marker changes nothing) |
| Text.ContainsChar | src/classifier.py:48 | substring test for a one-character string agrees with membership of the character |
| Text.FindFirst | src/classifier.py:43 | the first occurrence found is an occurrence, no earlier one exists, and none is found exactly when the separator does not occur |
| Text.Split | src/classifier.py:43 | `split` always gives at least one piece |
| Text.JoinSplit | src/classifier.py:43 | joining the pieces with the separator gives back the string |
| Text.SplitPieces | src/classifier.py:43-48 | no piece contains the separator, and every piece is a substring of the string |
| Text.SplitCount | src/classifier.py:48 | splitting on a character gives one more piece than there are occurrences of it (empty pieces kept) |
| Text.LastPiece | src/classifier.py:43 | a string with the separator is some text, the separator, and the last piece, which has no separator |
| Text.LastPieceAfter | src/classifier.py:43 | for a separator that cannot overlap itself, the last piece of `x + sep + y` is `y` when `y` has no separator |
| Classifier.ChatRequest | src/classifier.py:33-37 | the request carries the turns verbatim, model "local-model" and temperature 0.1 |
| Classifier.CleanResponse | src/classifier.py:41-45 | the cleaned reply has no `</think>`; without a marker it is the reply unchanged |
| Classifier.CleanSuffix | src/classifier.py:41-43 | with a marker, the reply is some text, `</think>`, then the cleaned reply (the text after the last marker) |
| Classifier.StripAll | src/classifier.py:48 | one output per segment, each the stripped segment |
| Classifier.Labels | src/classifier.py:48 | the number of labels is the number of commas plus one, and every label is stripped |
| Classifier.ParseLabels | src/classifier.py:38-48 | a reply always yields at least one label, each stripped |
| Classifier.ClassifyMessage | src/classifier.py:32-51 | never empty; the sentinel when the call fails or the content is absent; otherwise the parsed labels of the reply |
| Classifier.StripInfix | src/classifier.py:38 | the stripped text is a substring of the original |
| Classifier.LabelsInfix | src/classifier.py:48 | every label is a substring of the answer |
| Classifier.LabelsFreeOfMarker | src/classifier.py:41-48 | no label contains `</think>` |
| Classifier.LabelCount | src/classifier.py:38-48 | labels = commas in the cleaned answer + 1; without a marker, commas of the whole stripped reply + 1 |
| Classifier.MarkerNoSelfOverlap | src/classifier.py:43 | `</think>` cannot overlap itself, so "after the last marker" is well defined |
| Classifier.StripMarked | src/classifier.py:38-43 | stripping a reply with a marker trims only before the thoughts and after the answer |
| Classifier.StripRStrip | src/classifier.py:48 | stripping the answer with its trailing whitespace already gone is stripping the answer |
| Classifier.ThoughtsDropped | src/classifier.py:40-48 | whatever precedes the last `</think>` does not affect the labels: they are those of the text after it alone |
| Classifier.SplitAtChar | src/classifier.py:48 | splitting at the first comma gives the text before it and the split of the rest |
| Classifier.SplitNoChar | src/classifier.py:48 | a text without comma is a single segment |
| Classifier.PaddedAnswer | src/classifier.py:38-48 | a reply that is whitespace, a stripped answer without `</think>`, then whitespace, is labelled by that answer |
| Classifier.TwoSegments | src/classifier.py:48 | two comma-free segments give their two stripped labels |
| Classifier.PaddedPair | tests/test_classifier.py:16-26 | any reply shaped like the unit test's (spaces around, spaces after the comma) around two non-empty stripped words without `,` or `</think>` gives exactly those two words |
| Classifier.UnitTestLabels | tests/test_classifier.py:16-26 | `"  category1,  category2 "` parses to `["category1", "category2"]` |
| Classifier.UnitTestReply | tests/test_classifier.py:13-26 | classify_message over an endpoint answering the mocked reply returns `["category1", "category2"]` |
| Classifier.EmptySegmentKept | src/classifier.py:48 | for non-empty stripped words `x`, `y` without `,` or `</think>`, `x,,y` gives the three labels `x`, empty and `y`: empty segments are not dropped |
| Classifier.ThreeSegments | src/classifier.py:48 | splitting `x,,y` gives the stripped `x`, empty and `y` |
| Classifier.BlankReply | src/classifier.py:38-48 | an all-whitespace reply yields the single empty label |
| Experiment.ResultsFilesDistinct | main.py:43-77 | the three scenarios write three different file names |
| Experiment.ShotCount | main.py:59-69 | a scenario never injects more examples than the file holds |
| Experiment.ExampleTurns | main.py:63-65 | two turns per example |
| Experiment.ExampleTurnsAt | main.py:63-65 | example i becomes a user turn with its message followed by an assistant turn with its categories, in stored order |
| Experiment.ChatTurns | main.py:55-70 | a turn list of 2·(injected examples) + 2 turns, starting with the system turn and ending with the message as user turn |
| Experiment.ChatTurnsAt | main.py:62-70 | between the system turn and the message, each injected example appears as a user/assistant pair in order |
| Experiment.BuildTurns | main.py:55-70 | the loop with its `break` builds exactly `ChatTurns`, or raises KeyError("examples") for one_shot/few_shot without examples |
| Experiment.ZeroShotTurns | main.py:59-60 | zero_shot sends the system turn and the message only, whatever the examples |
| Experiment.OneShotTurns | main.py:62-70 | one_shot sends 4 turns with the first example, or 2 when the list is empty |
| Experiment.FewShotTurns | main.py:62-70 | few_shot sends the system turn, every example pair, the message: 2N + 2 turns |
| Experiment.ResultsKeys | main.py:52-73 | after n messages the results have one key per distinct message among them |
| Experiment.ScenarioKeys | main.py:52-73 | a scenario's results are keyed by exactly the set of messages |
| Experiment.ResultsLastWins | main.py:73 | a duplicated message keeps the answer to its last occurrence |
| Experiment.ResultsNonEmpty | main.py:72-73 | with a never-empty classifier, every stored entry holds at least one label |
| Experiment.RunLabelsNonEmpty | main.py:72-73 | in main's run, where classify_message over the endpoint classifies, every saved label list holds at least one label |
| Experiment.RunScenario | main.py:52-73 | the message loop computes `ScenarioResults` with one call per message, or raises at the first message, before any call, for a shot scenario without examples |
| Experiment.ResultsDir.Reset | main.py:27-30 | the results directory exists and is empty |
| Experiment.ResultsDir.Save | main.py:76-78 | `<scenario>_results.json` is written (overwritten) when the directory exists, every other file is kept; otherwise nothing changes |
| Experiment.RunScenarios | main.py:45-79 | the scenario loop saves the three files in order, or only zero_shot's before the KeyError without examples |
| Experiment.SavedOne | main.py:45-78 | after the crash only zero_shot's file exists, holding its results |
| Experiment.SavedThree | main.py:45-78 | a full run leaves exactly the three files with the scenarios' results |
| Experiment.RunExperiment | main.py:16-79 | a missing directory changes nothing; otherwise the results dir exists and every earlier file is gone, even for invalid input, which makes no call; a valid run without examples crashes with only zero_shot's file; with examples it completes with exactly the three result files, holding the three scenarios' results, after 3·|messages| calls |
| Experiment.Reached | main.py:83-86 | main gets through every entry, or stops right after the first experiment that raises |
| Experiment.ReachedIs | main.py:83-86 | stopping at the first crash or at the end is `Reached` |
| Experiment.RunEntry | main.py:84-86 | a directory is run as an experiment: it raises exactly when the experiment crashes; its results directory is empty for rejected input, holds zero_shot's file alone after the crash and exactly the three result files after a full run, each holding its scenario's results from call `calls`, `calls + |messages|` and `calls + 2·|messages|` on; the calls made are none, |messages| and 3·|messages|; any other entry is left alone with no call |
| Experiment.RunAll | main.py:81-86 | the directories reached are run in order; the run raises exactly when some experiment crashes; each reached directory holds what run_experiment leaves (`ExperimentDone`); entries not reached and non-directories are untouched |

## Left out

- The HTTP client, its construction (`__init__`, base URL, API key) and the
  wire format. The endpoint is a parameter, and every exception it can raise
  is the single `CallFailed` reply.
- The printed progress and error messages (`print`).
- `src/file_handler.py`:
  - `load_json` is modelled only by what it yields: the decoded content, or
    no keys at all;
  - `read_file` for the prompt template is left out, so the template is a
    parameter read once per run, where the code reads the same file once per
    scenario;
  - a `save_json` failure other than a missing directory is left out.
- `str.format` is the parameter `format`. An exception raised by a template
  with other placeholders is not modelled.
- JSON content of unexpected types is not modelled. This covers a
  top-level list, non-string messages, list-valued or non-list `messages`,
  and example objects without `message` or `categories`. The one exception
  modelled is the missing `"examples"` key.
- A `results` path that exists but is a file (where `rmtree` fails).
- The order in which `iterdir` lists the experiments root: it is the given
  order of `entries`.
- `temp_bert_classification.py` is not part of this model.
- Experiment.RunAll: for each reached directory it states which files the
  results directory holds, not the label lists inside them. Those depend on
  the call numbers the earlier experiments used; `RunExperiment` states them
  for one experiment.
- The order of the keys in a saved JSON file is not modelled. A result map
  is a `map`, while `json.dump` (src/file_handler.py:35) writes the Python
  dict in insertion order, the order of each message's first occurrence.
- `EXAMPLES_DIR.iterdir()` (main.py:83) raising when the experiments root is
  missing is not modelled: `RunAll` takes the root's entries as given.
