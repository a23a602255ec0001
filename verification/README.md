# bresse, modelled in Dafny

bresse lets a large language model play chess. It turns a PGN game into a prompt. It cleans each completion the model returns into a SAN candidate. It checks every candidate against the board and keeps a tally of the legal ones. The most common legal candidate becomes the move, and it is appended to the game tree. This project models that core:

- **`Process`** covers `process.py`: the completion normaliser `postprocess_result` and the prompt trimmer `preprocess_game`. Python's `str.strip`, `str.split(" ")[0]` and `str.replace` are written out with Python's exact semantics, including the left-to-right, non-overlapping scan of `replace`.
- **`Counting`** covers `collections.Counter` as the tally uses it. It is a map of counts plus the insertion order, because `most_common(1)` breaks ties by that order.
- **`Output`** covers `output.py`:
  - the `Result` record;
  - `OutputGeneration.from_inference`, a method over a `Board` object with a loop and its invariants;
  - `most_common`;
  - `Output.from_outputs`.
- **`ResultCounter`** covers `result.py`, the older copy of the same tally. It delegates to `Output`.
- **`GameTree`** covers `_chess.py`:
  - the walk to the last node, `get_child_node`;
  - the in-place append, `game_play_san`, on a `Game` object that holds the node tree.
- **`ChessHelpers`** covers `chess_.py`, the second copy of the walk and append. It delegates to `GameTree`.
- **`Identifiers`** and **`ModelsBase`** cover `ModelId` and the identifier checks of `ModelOnline.__init__` and `ModelCloud.__init__`.
- **`ChessLib`** and **`Wrappers`** are supporting modules:
  - `ChessLib` stands for python-chess. Moves are values. SAN parsing in a position, and whether an exported PGN reads back, are oracles passed in as a `Rules` value. A `Board` is its move stack.
  - `Wrappers` holds `Option`, `Result` and `Outcome`.

Three consequences of how the normaliser is written:

- **Castling.** `replace` scans left to right without overlap, so `0-0-0` becomes `O-O-0`, not `O-O-O` (`Process.ExampleLongCastlingKeepsZero`).
- **Case.** Only the exact spellings `0-0` and `o-o` are rewritten; `O-o`, `0-o` and the like are left as they are.
- **No re-trim.** Nothing strips the text again after `split(" ")`, so a tab before the first space survives:
  - `"e4\t x"` becomes `"e4\t"`, which normalises again to `"e4"` (`Process.NotIdempotentWithTab`);
  - a second pass changes nothing exactly when the first result does not end in whitespace (`Process.Idempotent` for one direction, `Process.NotIdempotentWithTrailingSpace` for the other).

## Model

| member | source | states |
|---|---|---|
| Process.FirstField | src/bresse/process.py:52 | `split(" ")[0]` is the longest prefix without a space character; when it is shorter than the input, a space follows it |
| Process.StripBounds | src/bresse/process.py:49 | `strip()` leaves text that neither starts nor ends with whitespace; it is empty exactly when the input is all whitespace |
| Process.NormalisedToken | src/bresse/process.py:48-52 | the normalised candidate has no space character, is no longer than the raw text, does not start with whitespace, and is empty for blank input |
| Process.ReplacementsOnlyChange | src/bresse/process.py:54-59 | the three replacements keep the token's length and change characters only into `-` or `O` |
| Process.NormalisedNoEnDash | src/bresse/process.py:54-55 | no en-dash is left in the normalised candidate |
| Process.ReplaceLeavesNone | src/bresse/process.py:57-59 | `str.replace` of a pattern `a?a` by a replacement that cannot start or end a new occurrence leaves no occurrence behind |
| Process.NormalisedNoZeroCastling | src/bresse/process.py:57-59 | neither `0-0` nor `o-o` occurs anywhere in the normalised candidate |
| Process.ExampleLeadingSpace | src/bresse/process.py:48-52 | `' O-O Bc'` normalises to `'O-O'` |
| Process.ExampleZeroCastling | src/bresse/process.py:57-58 | `'0-0'` normalises to `'O-O'` |
| Process.ExampleLowerCaseCastling | src/bresse/process.py:59 | `'o-o'` normalises to `'O-O'` |
| Process.ExampleLongCastlingKeepsZero | src/bresse/process.py:58 | `'0-0-0'` normalises to `'O-O-0'`, because the replacements do not overlap |
| Process.ExampleTabKept | src/bresse/process.py:49-52 | a tab before the first space stays: `"e4\t x"` normalises to `"e4\t"` |
| Process.NormalisedPlainToken | src/bresse/process.py:54-59 | a token with no en-dash, no `0` and no `o` comes through the three replacements unchanged |
| Process.Idempotent | src/bresse/process.py:38-61 | normalising a normalised candidate changes nothing when it does not end in whitespace |
| Process.NotIdempotentWithTab | src/bresse/process.py:38-61 | normalising `"e4\t x"` twice gives a different result from normalising it once |
| Process.NotIdempotentWithTrailingSpace | src/bresse/process.py:38-61 | when the normalised candidate ends in whitespace, normalising it again changes it, since the second `strip()` shortens it |
| Process.DropLast | src/bresse/process.py:22-23 | `s[:-k]` drops the last k characters, and is empty for k == 0 and for k longer than s |
| Process.DecimalRoundTrip | src/bresse/process.py:28-33 | the move number written into the prompt reads back as that number |
| Process.PreprocessGame | src/bresse/process.py:16-35 | odd move count: the game text minus its last `len(Result)` characters, stripped; even count: that text left-stripped, then `n//2+1` and a dot; no whitespace at either end |
| Process.PromptEndsWithMoveNumber | src/bresse/process.py:27-33 | with White to move, the prompt ends in the digits of `n//2+1` and a dot, and those digits read back as `n//2+1` |
| Counting.Add | src/bresse/output.py:126 | `counter.update([k])` adds one to k's count only, and puts a new key at the end of the order |
| Counting.AddTotal | src/bresse/output.py:126 | one update adds exactly one to the sum of the counts |
| Counting.MostCommon | src/bresse/output.py:78-84 | `most_common(1)` is empty exactly for an empty counter; otherwise it holds the key of maximal count that comes first in insertion order |
| Counting.FirstPluralityUnique | src/bresse/output.py:78-84 | only one key meets that description, so the tie-break decides the answer |
| Output.FromInference | src/bresse/output.py:104-140 | one Result per input, in input order, each the probe of that input in the starting position; the board's move stack ends as it began; the counter is the tally of the accepted Results |
| Output.ProbeCandidates | src/bresse/output.py:111-135 | the loop: after the first n candidates the list holds their probes in order, the counter is the tally of that list, and the move stack is the starting one |
| Output.ProbeOne | src/bresse/output.py:112-135 | one candidate: the Result records the raw text, its normalised text and the `push_san` error, if any; a successful push is undone by `pop` |
| Output.ProbeAll | src/bresse/output.py:111-135 | one probe per candidate, in order, all in the same position |
| Output.ProbeShape | src/bresse/output.py:107-126 | a Result carries the raw input; its normalised text is `preprocess_func(san)`, or `postprocess_result(san)` when none is given; `exception` is unset exactly when `push_san` accepts that text |
| Output.TallyCounts | src/bresse/output.py:121-126 | every key's count is the number of accepted candidates that normalised to it; rejected candidates are never counted |
| Output.TallyKeys | src/bresse/output.py:121-126 | the counter's keys are exactly the normalised texts of the accepted candidates |
| Output.TallyTotal | src/bresse/output.py:111-135 | the counts add up to the number of exception-free Results, which is at most the number of inputs |
| Output.TallyOrder | src/bresse/output.py:111-135 | the counter orders its keys by their first acceptance |
| Output.VotesExist | src/bresse/output.py:115-126 | a text is voted for exactly when some accepted Result normalised to it |
| Output.NoVotes | src/bresse/output.py:115-126 | there are no votes exactly when every Result carries an exception |
| Output.TallyEmpty | src/bresse/output.py:111-135 | the counter is empty exactly when the board rejected every candidate |
| Output.OutputGeneration.MostCommon | src/bresse/output.py:75-84 | ValueError, listing the raw candidates, exactly when the counter is empty; otherwise the first key of maximal count |
| Output.WinnerFails | src/bresse/output.py:78-82 | `most_common` on the tally raises exactly when no candidate was legal |
| Output.WinnerMostVoted | src/bresse/output.py:78-84 | the winner is a legal candidate and no text got more votes |
| Output.WinnerEarliestAmongTies | src/bresse/output.py:78-84 | of the texts with as many votes as the winner, the winner was voted for first |
| Output.EmptyCounterFails | tests/units/test_output.py:38-46 | an OutputGeneration with an empty counter raises on `most_common` |
| Output.TieGoesToFirst | src/bresse/output.py:78-84 | with two different legal candidates, the first one wins |
| Output.MajorityWins | src/bresse/output.py:78-84 | two votes beat one, even when the single vote came first |
| Output.RejectedDoesNotVote | src/bresse/output.py:115-126 | a rejected candidate does not count toward the winner, even when it came first |
| Output.FromOutputs | src/bresse/output.py:169-183 | the Output's generation part and inference part are exactly the two records it was built from |
| ResultCounter.CounterResult.MostCommon | src/bresse/result.py:33-42 | ValueError exactly when the counter is empty; otherwise the first key of maximal count |
| ResultCounter.FromInference | src/bresse/result.py:44-98 | the same loop: one Result per input, in order; the board is unchanged; the counter is the tally of the accepted Results |
| GameTree.LastPath | src/bresse/_chess.py:29-31 | a path that takes the last variation at every step, ending at a node without variations |
| GameTree.LastPathUnique | src/bresse/_chess.py:29-33 | there is only one such path |
| GameTree.GetChildNode | src/bresse/_chess.py:27-33 | the node returned has no variations; it is the argument when that has none; it is the node at the end of the last-variation path |
| GameTree.AppendAtAddsChild | src/bresse/_chess.py:54-55 | `add_variation` gives the node exactly one more variation, a leaf holding the move, after the others |
| GameTree.AppendAtKeepsOthers | src/bresse/_chess.py:54-55 | every node that is not the target or one of its ancestors is unchanged |
| GameTree.AppendAtKeepsAncestors | src/bresse/_chess.py:54-55 | the ancestors of the target keep their move and their number of variations |
| GameTree.AppendAtSize | src/bresse/_chess.py:54-55 | the tree has exactly one node more |
| GameTree.PlayedLastNode | src/bresse/_chess.py:51-55 | after a play, `get_child_node` returns the new leaf holding the parsed move, one step below the old last node |
| GameTree.PlayedChain | src/bresse/_chess.py:48-55 | on a single-variation chain, where `str(game)` exports nothing but the mainline, the mainline is the last-variation path; a play keeps the chain and extends the mainline by the move |
| GameTree.SecondVariationOffMainline | src/bresse/_chess.py:48-55 | once the root has two variations, the played move lands off the mainline that the board is rebuilt from |
| GameTree.GetChildNodeExample | tests/units/test_chess.py:22-32 | on the chain game, e4, e5 the walk returns the e5 node; with an earlier sibling beside e4 it still descends through the last variation to e5 |
| GameTree.TwoPlays | tests/units/test_chess.py:35-48 | two plays on a new game give the chain game, first move, second move, and that mainline |
| GameTree.GamePlaySan | src/bresse/_chess.py:36-55 | an unreadable PGN or a SAN that does not parse in the mainline position fails and leaves the tree unchanged; otherwise the parsed move is appended at the last node |
| ChessHelpers.GetChildNode | src/bresse/chess_.py:32-38 | no variations in the node returned; the argument when it has none; each step takes the last variation |
| ChessHelpers.GamePlaySan | src/bresse/chess_.py:41-60 | success exactly when the PGN reads back and the SAN parses; a failure leaves the tree unchanged; a success appends the parsed move at the deepest last-variation node |
| ModelsBase.GetIdentifierStr | src/bresse/models/base.py:128-139 | the first listed ModelId with that id; ValueError exactly when no entry has it |
| ModelsBase.GetIdentifierModelId | src/bresse/models/base.py:141-147 | the ModelId itself exactly when an equal one (same class and fields) is listed; otherwise ValueError |
| ModelsBase.ModelOnlineInit | src/bresse/models/base.py:89-97 | an empty API key raises ValueError, whatever the identifier; a string becomes a ModelId with both costs 0; any other value is stored as given |
| ModelsBase.ModelCloudInit | src/bresse/models/base.py:111-126 | checks in this order: empty model list, then the wrong type (TypeError), then an unknown id or ModelId, then the API key; success exactly when the id resolves and the key is non-empty; the stored id is a listed ModelId |
| ModelsBase.StrResolvesToFirst | src/bresse/models/base.py:128-131 | a string id resolves to the first listed model with that id |
| ModelsBase.ClassTagMatters | src/bresse/models/base.py:143 | a ModelId with the same fields as a listed subclass instance is not available, because dataclass equality compares the class |
| ModelsBase.FreeModelIdNotAvailable | src/bresse/models/base.py:93-95 | the free ModelId that `ModelOnline` builds from a string is refused by a `ModelCloud` whose listed models are all priced, with the "not available" ValueError, even when one of them has that id |

## Left out

- **python-chess:**
  - SAN parsing, legality, `push_san`/`pop`, `pgn_to_board` and `chess.pgn.read_game` are oracles in `ChessLib.Rules`, not chess rules;
  - `str(game)` exports every variation of the tree; the model keeps only what the board is rebuilt from, the mainline, and whether the exported text reads back is asked of that mainline;
  - `preprocess_game` takes the exported text as given, together with the mainline length and the Result header.
- `push_san` is caught with `except Exception`. In the model it fails only with the move errors of `ChessLib.MoveError`.
- An exception raised by a custom `preprocess_func` propagates out of `from_inference`. Normalisers in the model are total functions.
- `Output.FromInference`: `list_san` may be any iterable in Python. The model takes a finite sequence.
- `Output.OutputGeneration.MostCommon`: the ValueError carries the raw candidates, not the formatted message text. The same holds for the other error messages (`ModelsBase.Reason` keeps the offending id, not the list of available models).
- `OutputInference.cost`, `number_requests_per_dollar` and `avg_outputs_tokens` are floating-point arithmetic. `OutputInference` is modelled as a plain record.
- `GameTree.GamePlaySan`: whether the exported PGN reads back is judged on the mainline only. `read_game` also reports an illegal move inside a side variation, so on a tree with side variations (one loaded through `generate_pgn(base_pgn=...)`, or one where a play landed off the mainline) Python can fail where the model succeeds.
- `ChessHelpers.GamePlaySan`: the same restriction, since it delegates to `GameTree.GamePlaySan`.
- `GameTree.GamePlaySan`: the game tree is a value held in the `Game` object and replaced on each play. Node identity, parent links and aliasing of inner python-chess nodes are not modelled.
- `ModelCloud.list_models` is a class attribute in Python. Here it is a parameter.
- `Model.play` and `Model.inference` are composition over the modelled parts plus a `print`. The LLM clients (`models/openai.py`, `models/huggingface.py`, `models/__openai.py`) make network calls. None of these are modelled.
- `find_model`/`_find_model_id` (runtime reflection), `generate_opening` (file I/O and randomness), `generate_pgn` (library headers), `game_to_board`, `pgn_to_board` in `process.py`, and `input.py` are not part of this model.
- `Process.IsSpace` is the fixed set of characters Python's `str.isspace()` accepts. There is no Unicode database lookup.
