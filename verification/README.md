# MPL interpreter: a Dafny model

MPL is a small language for "monads": cells of a grid that each carry a
symbolic state, a memory and rules. Field rules fire on what a cell sees of
the grid. Tick rules fire once per step. A trailing `rule-modifier` script
may install new rules while the program runs. This project models the core
of the Python interpreter:

- **`parse_mpl_code`** turns source text into a monad definition: name,
  initial state, memory literal, field and tick rules, and the meta-script.
- **`Monad`** is the rule engine. It covers `evaluate_rules` with its logs,
  `evaluate_field`/`evaluate_tick`, `apply_meta_rules`, the run-time rule
  installer `add_rule`, and `adequacy_score`.
- **`Field` and `Simulation`** hold the grid of monads over sparse field
  values. They cover neighbourhoods, one step in row-major order, and the
  rendering of states.
- **`extract_monad_body`** is the stand-alone copy of the parser's front end
  in `test_parse.py`.

Modules, one concept each:

| module | file | what it holds |
|---|---|---|
| `Wrappers` | wrappers.dfy | `Option` and `Result` |
| `Text` | text.dfy | the `str` operations the interpreter uses (`find`, `strip`, `split`, `replace`, `int`) |
| `Patterns` | patterns.dfy | each regular expression as an explicit matcher at a position; `re.search` and `re.finditer` built on them |
| `Values` | values.dfy | states, values, memories, contexts, rules, log entries, the parsed definition |
| `Parser` | parser.dfy | `parse_mpl_code` |
| `TestParse` | testparse.dfy | `extract_monad_body`, as a method with the source's counting loop |
| `MonadRuntime` | monad.dfy | `Monad` |
| `FieldStore` | field.dfy | `Field` |
| `Simulation` | simulation.dfy | `Simulation` |

Conditions, actions and meta-scripts are Python code that the interpreter
hands to `eval` and `exec`. In the model they are the three functions of an
`Engine` that the caller supplies. Everything the interpreter decides itself
is modelled exactly:

- which rules run, in which order, and under which condition text (the
  `condition or trigger or "True"` fallback);
- what an exception keeps and what it drops;
- what goes into `last_triggered` and the trace;
- how the context shadows the `state` setter and the memory proxy.

`step` is modelled with the Python aliasing that matters. A cell's context
dictionary is the field's own stored dictionary, so the `neighbors` entry
written into it stays in the field. A cell visited later in the same sweep
sees the monads already updated earlier in it.

## Model

| member | source | states |
|---|---|---|
| FieldStore.GetContext | interpreter.py:14-15 | a coordinate that was set reads as its stored values; any other coordinate reads as an empty context |
| FieldStore.SetValue | interpreter.py:9-12 | the set of coordinates grows by exactly `(x, y)`; reading `(x, y)` back gives its earlier values with `name` bound to the new value; every other coordinate keeps its values |
| FieldStore.ReadOverWrite | interpreter.py:9-15 | read after write: the written name at the written coordinate shows the new value, its other names are unchanged, and every other coordinate reads as before |
| MonadRuntime.NewMonad | interpreter.py:28-37 | a new monad copies the definition's name, state, memory, rules and meta-rules; every log starts empty; it meets the bookkeeping invariant |
| MonadRuntime.EmptyGuardFires | interpreter.py:42 | a rule with an empty condition or trigger runs under the text `"True"` and fires whatever the context |
| MonadRuntime.ApplyRule | interpreter.py:42-105 | a rule that does not fire changes nothing. One that fires takes the action's state and memory unless the context shadows `state`/`memory`. If the action raised, its effects stay but nothing is logged. Otherwise `(type, condition)` is appended to `last_triggered`, and a trace entry from the old to the new state is added exactly when the state moved |
| MonadRuntime.OfKind | interpreter.py:40-41 | the rules of one type: each has that type and comes from the list, every rule of that type is kept, and there are no more than the list holds |
| MonadRuntime.OfKindAppend | interpreter.py:40-41 | filtering a concatenation filters each part and concatenates the results, so the kept rules stay in list order |
| MonadRuntime.OfKindSingle | interpreter.py:40-41 | a single rule is kept exactly when it has the requested type |
| MonadRuntime.RunRules | interpreter.py:39-105 | the rule loop never touches the name, rules or histories; both logs only grow; the trace grows by no more than `last_triggered`, which grows by at most the number of rules of the type |
| MonadRuntime.RunRulesProvenance | interpreter.py:39-103 | every new `last_triggered` entry has the evaluated type and is `(type, condition)` of a rule of that type whose condition holds |
| MonadRuntime.ApplyRuleTracedBy | interpreter.py:95-102 | the trace entry the first rule leaves, if any, records a real state change under that rule's condition and tick |
| MonadRuntime.RunRulesTraceProvenance | interpreter.py:95-102 | every new trace entry records a real state change made by a firing rule of the evaluated type, under its condition and the context's tick |
| MonadRuntime.RunRulesFiltered | interpreter.py:40-41 | the loop over all rules with the type test equals applying, in order, just the rules of that type |
| MonadRuntime.EvaluateRules | interpreter.py:39-105 | `evaluate_rules`: the bounds, provenance and trace facts above for the monad's own rules, and the bookkeeping invariant is kept |
| MonadRuntime.EvaluateRulesFiltered | interpreter.py:39-41 | `evaluate_rules` is the in-order application of the monad's rules of the requested type |
| MonadRuntime.ApplyRuleRecorded | interpreter.py:103 | when no action raises, a rule is recorded in `last_triggered` exactly when it fires |
| MonadRuntime.ApplyRuleTraced | interpreter.py:95-102 | when no action raises, one rule's trace entries link its old state to its new one |
| MonadRuntime.RunRulesFiredExactly | interpreter.py:39-103 | when no action raises, `last_triggered` gains exactly the `(type, condition)` of each firing rule of that type, in list order |
| MonadRuntime.RunRulesTraceChain | interpreter.py:95-102 | when no action raises, the new trace entries form an unbroken chain from the state before the run to the state after it |
| MonadRuntime.EvaluateField | interpreter.py:107-108 | field rules under the cell's context: logs only grow, and each new entry comes from a firing field rule |
| MonadRuntime.EvaluateTick | interpreter.py:110-112 | tick rules under a context holding only `t`: logs only grow, and each new entry comes from a firing tick rule and is stamped with that tick |
| MonadRuntime.ParseSnippet | interpreter.py:128-142 | a text mentioning `on field` yields a field rule exactly when the field snippet pattern matches; any other text yields a tick rule exactly when it mentions `on tick` and the tick pattern matches; the rule is built from the captured groups of that match |
| MonadRuntime.FieldSnippetRoundTrip | interpreter.py:128-134 | `on field(c) {a}` with a non-empty `c` without `)` and an `a` without `}`, after text without `on field`, is read as the field rule with condition `c.strip()` and action `a.strip()` |
| MonadRuntime.TickSnippetRoundTrip | interpreter.py:135-141 | `on tick(c) {a}` in a text without `on field`, after text without `on tick`, is read as the tick rule with trigger `c.strip()` (possibly empty) and action `a.strip()` |
| MonadRuntime.AddRule | interpreter.py:128-142 | an unreadable snippet changes nothing. A readable one appends its rule, the snippet to the history and a meta mutation record with tick -1. Name, state, memory, meta-rules and logs stay, and the bookkeeping invariant is kept |
| MonadRuntime.Install | interpreter.py:133-142 | appending a rule appends exactly one history entry and one mutation record naming its type, source `meta` and the snippet |
| MonadRuntime.AddAll | interpreter.py:117 | several `add_rule` calls from one script: rules, history and mutations only grow, by at most one rule per snippet |
| MonadRuntime.RunMeta | interpreter.py:114-119 | meta-scripts never touch the name, the meta-rules or the logs (their state changes are not traced); rules, history and mutations only grow; the invariant is kept |
| MonadRuntime.ApplyMetaRules | interpreter.py:114-119 | `apply_meta_rules` on the monad's own meta-rules, with the same guarantees |
| MonadRuntime.Adequacy | interpreter.py:144-152 | the score lies in [0, 1]. A goal state scores at least 0.4 and a non-goal state at most 0.6. The score is 1 exactly for a goal state with no trace and no rules. From 30 trace entries and 30 rules on, only the goal bonus remains |
| MonadRuntime.ScoreAntitone | interpreter.py:148-151 | more trace entries or more rules never raise the score |
| MonadRuntime.ScoreGoalMonotone | interpreter.py:146-147 | reaching a goal state never lowers the score |
| Parser.ScanClose | interpreter.py:185-199 | the brace-counting loop: without a name it never succeeds; with one it returns the index where the depth first returns to zero, and fails only when there is none |
| Parser.ClosedBodyBalanced | interpreter.py:196 | the body between the opening brace and its matching brace is brace-balanced |
| Parser.ClosesAtUnique | interpreter.py:186-197 | the matching brace is unique |
| Parser.BalancedCloses | interpreter.py:185-197 | an opening brace followed by a balanced text and `}` is closed by that `}` |
| Parser.MonadBlock | interpreter.py:173-199 | on success: `monad ` occurs first at `start`; the first `{` after it is at `braceStart`; the body ends at the matching brace and is balanced; the name is a non-empty run of word characters found by `monad (\w+)` before the brace |
| Parser.BlockAt | interpreter.py:185-199 | from a given `{`: the same facts, with the block starting at that brace |
| Parser.MonadBlockCases | interpreter.py:175-199 | it fails with no `monad `, with no `{` after it, or with no name or matching brace, and succeeds otherwise |
| Parser.ParseState | interpreter.py:201-202 | there is a state exactly when the `state:` pattern is found, and it is then the text the pattern captured: non-empty and without `'` |
| Parser.StateRoundTrip | interpreter.py:201-202 | a body holding `state:`, whitespace and `'v'` (v non-empty, without `'`), after text without `state:`, has initial state `v` |
| Parser.AbsentParts | interpreter.py:201-238 | a body without `state:` has no state; without `memory:` an empty memory; without `on field` or `on tick` no rules of that type; without `rule-modifier {` no meta-rule |
| Parser.MemoryEntry | interpreter.py:215-223 | a piece yields an entry exactly when it contains `:`; the key neither starts nor ends with a quote; the value is an integer or a text made of the piece's characters |
| Parser.MemoryEntryAt | interpreter.py:216-223 | for a piece whose first `:` is at `k`: the key is the text before it stripped of whitespace and then of quotes; the value is the text after it stripped of whitespace, an integer when `int` reads it and that text otherwise |
| Parser.MemoryEntryInt | interpreter.py:216-221 | the piece `key : n`, with any whitespace around key and number, reads back as `(key, n)` for every integer `n` |
| Parser.MemoryEntryText | interpreter.py:216-223 | the piece `key : text`, with a text that is not an integer, reads back as `(key, text)` |
| Parser.LastEntryWins | interpreter.py:214-223 | a key is in the memory exactly when some piece has it, and its value is the one of the last such piece |
| Parser.ParseMemory | interpreter.py:204-225 | no memory literal gives an empty memory; every value is an integer or a text, and no text holds `'` (quotes became `"`) |
| Parser.ParseMemoryPieces | interpreter.py:204-223 | after the quote replacement, brace strip and comma split of the captured literal, a key is in the memory exactly when some piece yields it, and its value is the one of the last such piece |
| Parser.MemoryRoundTrip | interpreter.py:204-223 | a body holding `memory:`, whitespace and `{key: n}`, after text without `memory:`, has exactly the memory `{key: n}` |
| Parser.RuleOfBlock | interpreter.py:228-233 | a rule read from a block match has the requested type, a guard without `)` and an action without `}` |
| Parser.RulesOfKind | interpreter.py:228-233 | one rule per `finditer` match, in match order, each the stripped groups of its match, all of the requested type |
| Parser.MetaRules | interpreter.py:235-238 | at most one meta-script, present exactly when the body ends with a `rule-modifier { ... }` block |
| Parser.MetaRulesByFind | interpreter.py:235-238 | the meta-rule is the stripped text from the first `rule-modifier {` to the `}` that ends the body (or precedes its final newline); there is none when either is missing or the brace comes first |
| Parser.MetaRulesRoundTrip | interpreter.py:235-238 | a body ending in `rule-modifier {script}`, possibly followed by one newline, after text without `rule-modifier {`, has the stripped script as its one meta-rule |
| Parser.FieldThenTick | interpreter.py:227-233 | all field rules come before all tick rules |
| Parser.ParseMplCode | interpreter.py:173-240 | it fails exactly when the front end does. On success it keeps the block's name, field rules precede tick rules, guards and actions hold no `)`/`}`, there is at most one meta-rule, and no memory text holds `'` |
| Parser.DefinitionRoundTrip | interpreter.py:173-240 | `monad N {B}` with a word `N` and a balanced `B`, after text without `monad `, parses to name `N` with the state, memory, field then tick rules and meta-rules read from `B` |
| Patterns.TrailingBrace | interpreter.py:236 | the `}` that `\}$` may match is the last character, or the one before a final newline |
| Patterns.RuleBlockAt | interpreter.py:228-233 | a rule block match starts at the position asked for; its guard has no `)` and is non-empty unless an empty guard is allowed; its action has no `}` |
| Patterns.RuleBlockAtExact | interpreter.py:228-232 | a rule block matches at `p` exactly when the keyword, `(`, a guard without `)` (non-empty unless allowed), `)`, the gap, `{`, an action without `}` and `}` occur there; the captures are the guard and action slices |
| Patterns.NameAt | interpreter.py:193 | `monad (\w+)` captures a non-empty run of word characters |
| Patterns.NameAtExact | interpreter.py:193 | `monad (\w+)` matches at `p` exactly when `monad ` occurs there followed by a non-empty run of word characters that the next character does not extend; the capture is that slice of the input |
| Patterns.StateAt | interpreter.py:201 | `state:\s*'([^']+)'` captures a non-empty text without `'` |
| Patterns.StateAtExact | interpreter.py:201 | the pattern matches at `p` exactly when `state:`, whitespace, a quote, a non-empty text without quotes and a quote occur there; the capture is the slice between the quotes |
| Patterns.MemoryAt | interpreter.py:204 | `memory:\s*(\{[^}]*\})` captures braces around a text without `}` |
| Patterns.MemoryAtExact | interpreter.py:204 | the pattern matches at `p` exactly when `memory:`, whitespace, `{`, a text without `}` and `}` occur there; the capture is the slice from `{` to `}` |
| Patterns.ModifierAt | interpreter.py:236 | a `rule-modifier` match ends at the end of the body, or just before a final newline |
| Patterns.ModifierAtExact | interpreter.py:236 | the pattern matches at `p` exactly when `rule-modifier {` occurs there and a `}` after it is the body's last character or stands just before a final newline; the capture is the slice between them |
| Patterns.Search | interpreter.py:193 | `re.search`: the leftmost match, with no match at any earlier position; none when nothing matches |
| Patterns.SearchAtKeyword | interpreter.py:201-236 | every pattern starts with its literal keyword, so `re.search` reports the match at the keyword's first occurrence whenever there is one there |
| Patterns.FoundAfter | interpreter.py:201-236 | a match whose keyword starts at the end of a keyword-free prefix is the one `re.search` reports |
| Patterns.KeywordAbsent | interpreter.py:201-236 | a text without a pattern's keyword has no `re.search` match and no `re.finditer` matches |
| Patterns.FindAll | interpreter.py:228-233 | `re.finditer`: the matches are genuine, ordered and non-overlapping, and every position where a match starts lies inside one of them |
| Patterns.FindAllIn | interpreter.py:228 | the same for a pattern over a whole text |
| Patterns.SnippetIsBlock | interpreter.py:130-137 | a snippet `add_rule` accepts is read with the same groups by the parser's looser block pattern |
| Text.ParseIntShowInt | interpreter.py:221 | `int(str(n)) == n` for every integer |
| Text.FindAfter | interpreter.py:175 | `find` of a keyword that cannot overlap itself reports its occurrence right after a prefix that lacks it |
| Text.Strip | interpreter.py:218-219 | `strip()`: no edge character belongs to the stripped class; everything cut off does; the rest is a slice of the input |
| Text.SplitOn | interpreter.py:214 | `split(',')`: the pieces hold no separator, and joining them with it gives back the input |
| TestParse.MatchBrace | test_parse.py:16-30 | the counting loop returns the matching brace when the name is present, and returns nothing only when no brace matches |
| TestParse.ExtractMonadBody | test_parse.py:4-30 | it succeeds exactly when the interpreter's front end does, with the same name and body; it fails without `monad ` |
| Simulation.NewSimulation | interpreter.py:243-249 | a valid grid of the given size, all cells empty, no field values, tick 0 |
| Simulation.PyIndex | interpreter.py:252 | Python list indexing: an index in `[-n, n)` selects the same element as its remainder mod `n`; any other index raises |
| Simulation.PlaceMonad | interpreter.py:251-252 | succeeds exactly when both indices are valid Python indices; it then sets that one cell and changes nothing else |
| Simulation.SetFieldValue | interpreter.py:254-255 | the grid and tick are unchanged; the field gains the coordinate with `name` bound to the value; other coordinates keep theirs |
| Simulation.OffsetsAreTheRing | interpreter.py:259-262 | the offsets visited are exactly the eight around a cell, each once |
| Simulation.NeighborsFromSpec | interpreter.py:258-267 | an offset is a key exactly when it was visited and its cell is inside the grid and occupied; its value is that monad's state |
| Simulation.NeighborsFromCount | interpreter.py:258-267 | at most one entry per offset visited |
| Simulation.NeighborsInSpec | interpreter.py:257-268 | `get_neighbors` maps exactly the surrounding occupied in-grid positions to their states, at most eight |
| Simulation.CornerNeighbors | interpreter.py:257-268 | a corner cell has at most three neighbours |
| Simulation.NeighborAt | interpreter.py:263-267 | a surrounding in-grid position is a key exactly when its cell is occupied, with that monad's state |
| Simulation.Advance | interpreter.py:274-279 | one occupied cell's update, field then tick then meta: name and meta-rules stay, logs and rules only grow, and every new log entry comes from one of the monad's rules |
| Simulation.VisitCellEffect | interpreter.py:272-279 | one visit sets the visited cell to its computed next monad and no other cell. An occupied cell's stored context gains `neighbors`. Other coordinates are unchanged |
| Simulation.Sweep | interpreter.py:271-279 | the loops keep the grid's shape and the tick, and never add or remove a field coordinate |
| Simulation.Step | interpreter.py:270-280 | `step` keeps the shape and the field coordinates, and advances the tick by one |
| Simulation.SweepKeeps | interpreter.py:271-272 | the sweep from `(x, y)` leaves every cell before `(x, y)` in row-major order alone |
| Simulation.SweepCell | interpreter.py:271-279 | every cell from `(x, y)` on ends with the monad its visit computes. The visit reads earlier cells after their updates and later cells before theirs |
| Simulation.SweepFieldAt | interpreter.py:274-276 | every stored coordinate ends with its values plus a `neighbors` entry if its cell was visited occupied, and unchanged otherwise |
| Simulation.StepCells | interpreter.py:270-280 | each cell after `step` is its monad's update under the neighbourhood of the half-updated grid it was visited in; empty cells stay empty |
| Simulation.StepField | interpreter.py:274-276 | after `step` every stored coordinate of an occupied cell holds its earlier values plus the `neighbors` map its monad read; other stored coordinates are unchanged |
| Simulation.StepMonads | interpreter.py:270-280 | occupied cells stay occupied and empty cells stay empty; each monad keeps its name and meta-rules, and its new log entries come from its own rules |
| Simulation.StepEmpty | interpreter.py:270-280 | a step over a grid with no monads changes nothing but the tick |
| Simulation.RenderStates | interpreter.py:282-283 | a `height` by `width` table whose cell is the monad's state, or `None` for an empty cell |
| Simulation.RenderNew | interpreter.py:243-249 | a new simulation renders as all `None` |
| Simulation.RenderAfterPlace | interpreter.py:251-252 | after a successful placement the target renders as the placed monad's state and every other cell as before |
| Simulation.NeighborRendered | interpreter.py:257-268 | a neighbour map agrees with the rendering: a surrounding key holds the rendered state, and a missing key renders as `None` |

## Left out

- Python `eval` and `exec` of conditions, actions and meta-scripts (interpreter.py:44, 90-94, 117) are the caller-supplied `Engine` functions.
- The MPL-to-Python rewriting of action text and `MemoryProxy` (interpreter.py:46-88) happen inside the `exec` the `Engine` stands for. An action's effect is given as the state it set, the memory it left and whether it raised.
- `ast.literal_eval` of the memory literal (interpreter.py:210) is not modelled: the memory is always read by the manual fallback (interpreter.py:213-223). Where `literal_eval` succeeds the two differ. A quoted text value is the common case: `{'mode': 'idle'}` gives `'idle'` in Python, but the model keeps the quotes and gives `"idle"`. Booleans, `None`, floats, nested containers and texts holding commas also differ. Integer values agree.
- Text.ParseInt: accepts only an optional sign and ASCII digits. Python's `int` also accepts underscores between digits and non-ASCII decimal digits.
- `\w` is ASCII letters, digits and `_` only, not Python's Unicode word characters.
- MonadRuntime.Adequacy: the score is an exact integer in thousandths. `round(..., 3)` of the float sum is not modelled.
- `export_debug_snapshot`, `export_trace_log` (interpreter.py:154-170) and the console messages (interpreter.py:105, 119) are file and console I/O.
- The command-line entry point (interpreter.py:286-313), `visualizer.py` and the tests after `extract_monad_body` (test_parse.py:32-50) are drivers, not the interpreter's logic.
- `state_proxy` (interpreter.py:121-126) is folded into the `Engine`: the meta and action outcomes report the last value passed to the setter.
- Monads are values. The same Python monad object placed in two cells, or a context dictionary an action keeps and mutates later, is not modelled. The shared dictionary between a cell's context and the field is modelled.
- The insertion order of the neighbour dictionary is not modelled; it is a map from offsets to states.
- Values other than integers, texts and neighbour maps are opaque (`OtherV`).
- A state is `None` or a text. The `state` setter (interpreter.py:123-125) stores any Python value, so an action such as `state => memory.age` can leave an integer state, which then reaches the trace and `render_states`. The model has no such states: an action's outcome sets the state to a text or to `None`.
