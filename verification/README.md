# python-fsa definition readers, in Dafny

python-fsa is a set of command-line tools that build a finite automaton (a DFA or an
NFA) and hand it to an external automaton library, which then tests input strings
against it. This project models how the tools read an automaton **definition**. There
are four ways in:

- **Flat transition records** on the command line (`state,symbol,next_state...`). There
  are two variants:
  - the *strict* builder shared by `main2-0.py`, `main3-0.py` and `main_improved.py`
    strips every field, stops at the first bad record, rejects a repeated DFA pair, and
    concatenates the target tuples of a repeated NFA pair;
  - the *loose* builder of `main.py` splits verbatim, and a later record for a pair
    replaces the earlier one.
- **The interactive creator** `fsm_creator.py`. It re-asks each prompt until the answer
  is valid. It skips a bad transition record instead of stopping. A DFA record
  overwrites, an NFA record extends, and `done` ends the entry.
- **A Graphviz DOT file**, read by `parse_dot_file` of `main3-0.py` with a line-by-line
  text scan.
- **A JSON definition file**, written and read by `serialize_automaton` /
  `deserialize_automaton` (`main2-0.py`, `main3-0.py`), plus the JSON key flattening
  of `fsm_creator.py`.

It also models what the interactive test loops of `main.py` and `main3-0.py` do with one
typed line.

Modules, one per concern:

| file | module | what it holds |
|---|---|---|
| `wrappers.dfy` | `Wrappers` | `Option` and `Result` |
| `pystr.dfy` | `PyStr` | the Python `str` operations used: `strip`, `startswith`, `in`, `find`, `split`, `join`, `replace`, `lower`, `sorted(set(...))` |
| `dicts.dfy` | `Dicts` | Python's insertion-ordered `dict` |
| `validators.dfy` | `Validators` | the membership checks of `fsm_creator.py` and the "first final state outside the states" loop |
| `automata.dfy` | `Automata` | the automaton record handed to `DFA(...)`/`NFA(...)`, the build errors (each one `print` + `sys.exit(1)`), field splitting, and the well-formedness of a build |
| `strict_builder.dfy` | `StrictBuilder` | the fail-fast builder |
| `loose_builder.dfy` | `LooseBuilder` | the builder of `main.py` |
| `creator.dfy` | `Creator` | the prompts and the transition entry loop of `fsm_creator.py` |
| `dot_parser.dfy` | `DotParser` | `parse_dot_file` |
| `codec.dfy` | `Codec` | serialising, deserialising and key flattening |
| `input_lines.dfy` | `InputLines` | one line of the interactive test loop |

Each loop of the source (its `for` and `while` loops alike) is a `method` with a loop,
proved equal to a recursive function on the same inputs; the lemmas about those
functions state what the source promises. The one-line decisions of the test loops have
no loop of their own and are functions (`InputLines`).

Four behaviours of the code are easy to misread; the model follows the code:

- **NFA accumulation.** The strict builders concatenate the target tuples of a repeated
  NFA pair, keeping order and repetitions (`+=` on a tuple, main2-0.py:178-179); they do
  not take a set union. `main.py` replaces the earlier tuple instead (main.py:58).
  `StrictBuilder.NfaBuildSpec` and `LooseBuilder.NfaLastWins` state this.
- **Missing initial state.** A DOT file without a `null ->` line leaves `initial_state`
  as `None`, and `parse_dot_file` returns normally, with no error (main3-0.py:96).
  `DotParser.InitialNone` states this.
- **DFA inconsistency check.** The check tests the raw length of a target list
  (main3-0.py:156), not the number of distinct targets, and the NFA kind is set as soon
  as any list has two entries, repeats included (main3-0.py:145). So the `ValueError`
  can never be raised (`DotParser.ParseNeverFails`), and a DOT file with the same edge
  twice is read as an NFA (`DotParser.FinishKind`).
- **Key splitting.** `deserialize_automaton` splits a JSON key at every comma and
  unpacks two names (main3-0.py:36), so a key with two commas is rejected rather than
  split at its first comma (`Codec.ParseKeySplit`, `Codec.MalformedKeysRejected`).

## Model

| member | source | states |
|---|---|---|
| Validators.ValidateListInput | fsm_creator.py:19-20 | the answer is accepted iff it is non-empty |
| Validators.ValidateStateInStates | fsm_creator.py:22-23 | accepted iff the state occurs among the declared states |
| Validators.ValidateSymbolInAlphabet | fsm_creator.py:25-26 | accepted iff the symbol occurs in the declared alphabet |
| Validators.FirstOutside | main2-0.py:131-134 | None iff every final state is declared; otherwise an undeclared final state, and every one before it is declared |
| Validators.FindOutside | main2-0.py:131-134 | the loop over the final states reports exactly `FirstOutside` |
| PyStr.Strip | main2-0.py:122 | the result is a slice of the input with only whitespace cut off either side, and has no whitespace at either end |
| PyStr.StripEmpty | fsm_creator.py:19-20 | a stripped answer is empty iff the answer is all whitespace |
| PyStr.Find | main3-0.py:117 | the first index where the pattern occurs, or None when it never occurs |
| PyStr.Split | main3-0.py:107 | at least one piece; two or more iff the separator occurs |
| PyStr.JoinSplit | main.py:17 | joining the pieces of a split with the separator gives the text back |
| PyStr.SplitPiecesAvoid | main3-0.py:119 | no piece of a split contains the separator |
| PyStr.SplitJoin | main3-0.py:36 | splitting the join of comma-free parts on that character gives the parts back |
| PyStr.Replace | main3-0.py:110 | the result holds only characters of the input or of the replacement |
| PyStr.ReplaceIsJoinSplit | main3-0.py:110 | `s.replace(pat, repl)` is `repl.join(s.split(pat))`: every left-to-right, non-overlapping occurrence is replaced and everything between is kept |
| PyStr.ReplaceAbsent | main3-0.py:149 | replacing a pattern that does not occur changes nothing |
| PyStr.Lower | main.py:108 | same length, each character lower-cased |
| PyStr.SortedUniqueCorrect | main3-0.py:160 | `sorted(set(xs))` is strictly increasing and holds exactly the elements of `xs` |
| PyStr.StrictlySortedUnique | main3-0.py:160 | two strictly sorted lists with the same elements are equal, so the NFA tuple is canonical |
| Dicts.Empty | main2-0.py:137 | the empty table is well formed, with no keys |
| Dicts.Put | main2-0.py:157 | `d[k] = v` sets `k` and keeps every other entry; a new key is appended to the order, an existing key keeps its place |
| Dicts.MapValues | main3-0.py:23 | same keys in the same order, each value transformed |
| Automata.CheckHeader | main2-0.py:127-134 | Ok iff the initial state and every final state are declared; an undeclared initial state is reported first, otherwise the first undeclared final state |
| Automata.Fields | main2-0.py:122-125 | one stripped field per comma-separated piece, none holding a comma |
| Automata.RawFields | main.py:17-20 | the verbatim pieces: none holds a comma, and joined with commas they give the text back |
| Automata.StripEach | main2-0.py:140 | one stripped string per piece, in order |
| Automata.Tagged | main2-0.py:184-200 | the same keys; a DFA value becomes one state name, an NFA value a tuple |
| Automata.DfaAutomaton | main2-0.py:184-191 | a DFA table within an accepted header makes a well-formed automaton whose values are single names |
| Automata.NfaAutomaton | main2-0.py:194-200 | an NFA table within an accepted header makes a well-formed automaton whose values are tuples |
| StrictBuilder.ReadHeader | main2-0.py:122-134 | Ok iff the stripped initial state and every final field are among the state fields; the header is then the stripped fields |
| StrictBuilder.DfaRecord | main2-0.py:140-153 | a record passes iff it has exactly three fields, with a declared source state, a declared symbol and a declared next state |
| StrictBuilder.NfaRecord | main2-0.py:160-176 | a record passes iff it has at least three fields, with a declared source, a declared symbol and all targets declared; the value is the tuple of targets |
| StrictBuilder.BuildDfa | main2-0.py:137-157 | the DFA loop returns the fold of its records from the empty table |
| StrictBuilder.BuildNfa | main2-0.py:158-181 | the NFA loop returns the fold of its records from the empty table |
| StrictBuilder.ReadArgs | main2-0.py:121-134 | the argument processing returns `ReadHeader` of the argument text |
| StrictBuilder.Create | main2-0.py:121-201 | `main()` up to the constructor returns `Build` |
| StrictBuilder.DfaFromAppend | main2-0.py:139-143 | the first failing record ends the build; the records after it are never read |
| StrictBuilder.DfaFromFold | main2-0.py:139-157 | the DFA loop fails when any record fails its checks, and otherwise is the insertion loop over the checked records |
| StrictBuilder.DfaFoldOk | main2-0.py:154-156 | the insertion loop succeeds iff no pair is already present or repeated |
| StrictBuilder.DfaFoldValid | main2-0.py:157 | insertion keeps the table well formed |
| StrictBuilder.DfaFoldKeys | main2-0.py:157 | the pairs are appended in record order |
| StrictBuilder.DfaFoldValues | main2-0.py:157 | old entries are kept, and each record's pair maps to its record's target |
| StrictBuilder.DfaBuildSpec | main2-0.py:137-157 | from an empty table: a bad record fails the build; otherwise the build succeeds iff no two records name the same pair, and the table lists the pairs in record order, each with its own target (the same code is at main3-0.py:258-277 and main_improved.py:65-84) |
| StrictBuilder.DfaParsedSpec | main2-0.py:140-153 | the checked form of record `i` is record `i` checked |
| StrictBuilder.DfaDuplicateRejected | main2-0.py:154-156 | two records naming the same pair make the DFA build fail |
| StrictBuilder.UnknownNextStateReported | main2-0.py:151-153 | `q0,0,q2` with `q2` undeclared is reported as an unknown next state naming the record and `q2`, whatever follows |
| StrictBuilder.NfaFromAppend | main2-0.py:159-176 | the NFA loop over `a + b` is the loop over `a` and then over `b`; a failure in `a` ends it |
| StrictBuilder.NfaFromFold | main2-0.py:159-181 | the NFA loop succeeds iff every record passes its checks, and is then the append loop over the checked records |
| StrictBuilder.NfaFoldValid | main2-0.py:178-181 | appending keeps the table well formed |
| StrictBuilder.NfaFoldKeys | main2-0.py:178-181 | the keys are the old ones plus the pairs the records name |
| StrictBuilder.NfaFoldGet | main2-0.py:178-181 | each pair maps to its old targets followed by the targets of all its records, concatenated in record order |
| StrictBuilder.NfaParsedSpec | main2-0.py:160-176 | the checked form of record `i` is record `i` checked |
| StrictBuilder.NfaBuildSpec | main2-0.py:158-181 | from an empty table: Ok iff every record passes; the table holds exactly the pairs named, each mapped to the concatenation of all its records' targets (the same code is at main3-0.py:278-301 and main_improved.py:85-108) |
| StrictBuilder.DfaFromWithin | main2-0.py:145-153 | the DFA loop keeps the table well formed and within the header |
| StrictBuilder.NfaFromWithin | main2-0.py:167-176 | the NFA loop keeps the table well formed and within the header |
| StrictBuilder.BuildSpec | main2-0.py:121-201 | a rejected header is the build's error; a successful build hands over the stripped header and a well-formed automaton of the requested kind, with comma-free keys, single names for a DFA and tuples for an NFA |
| LooseBuilder.ReadHeader | main.py:17-29 | Ok iff the verbatim initial state and every final field are among the state fields; the header is the verbatim fields |
| LooseBuilder.DfaRecord | main.py:34-41 | a record passes iff it has exactly three verbatim fields with declared states and symbol; a wrong field count is malformed, and any failed membership is one combined error |
| LooseBuilder.NfaRecord | main.py:45-57 | at least three verbatim fields, a declared source and symbol, and every target declared |
| LooseBuilder.DfaRecordVerbatim | main.py:34-38 | an accepted DFA record is exactly its three fields joined by commas |
| LooseBuilder.BuildDfa | main.py:32-42 | the DFA loop returns the fold of its records from the empty table |
| LooseBuilder.BuildNfa | main.py:43-58 | the NFA loop returns the fold of its records from the empty table |
| LooseBuilder.ReadArgs | main.py:17-29 | the argument processing returns `ReadHeader` of the argument text |
| LooseBuilder.Create | main.py:17-58 | `main()` up to the constructor returns `Build` |
| LooseBuilder.PutAllValid | main.py:42 | overwriting keeps the table well formed |
| LooseBuilder.PutAllKeys | main.py:42 | the keys are the old ones plus the pairs the records name |
| LooseBuilder.PutAllUntouched | main.py:42 | a pair no record names keeps its value |
| LooseBuilder.PutAllLast | main.py:42 | a pair maps to the value of the last record naming it |
| LooseBuilder.PutAllSpec | main.py:42 | from empty: a well-formed table holding exactly the named pairs, each with its last record's value |
| LooseBuilder.DfaFromPutAll | main.py:33-42 | the DFA loop fails iff some record fails, and is otherwise the overwriting loop |
| LooseBuilder.NfaFromPutAll | main.py:44-58 | the NFA loop fails iff some record fails, and is otherwise the overwriting loop |
| LooseBuilder.DfaLastWins | main.py:33-42 | the DFA build succeeds iff every record passes, repeated pairs included; each pair maps to the target of the last record naming it |
| LooseBuilder.NfaLastWins | main.py:44-58 | the NFA build succeeds iff every record passes; each pair maps to the tuple of the last record naming it, not a concatenation |
| LooseBuilder.DfaFromWithin | main.py:39-42 | the DFA loop keeps the table well formed and within the header |
| LooseBuilder.NfaFromWithin | main.py:51-58 | the NFA loop keeps the table well formed and within the header |
| LooseBuilder.BuildSpec | main.py:17-58 | a rejected header is the build's error; a successful build hands over the verbatim header and a well-formed automaton of the requested kind |
| Creator.FirstValid | fsm_creator.py:8-17 | the answer returned is a stripped answer that passes the check, read at or after the current line |
| Creator.FirstValidSpec | fsm_creator.py:9-15 | every answer before the returned one failed the check; with no answer returned, none passed |
| Creator.GetInput | fsm_creator.py:8-17 | the prompt loop returns `FirstValid` from the first answer |
| Creator.InitialPromptAccepts | fsm_creator.py:74 | the initial state accepted is always a declared state |
| Creator.ListPromptAccepts | fsm_creator.py:68 | the alphabet, state and final-state prompts (lines 68, 71, 76) only accept a non-empty stripped answer |
| Creator.SessionHeader | fsm_creator.py:77-81 | Ok iff every final state is declared; otherwise it names an undeclared final state |
| Creator.Start | fsm_creator.py:83 | the entry starts from an empty table of the chosen kind |
| Creator.EnterTransitions | fsm_creator.py:88-127 | the entry loop returns `Entry` from the empty table |
| Creator.SkipUnchanged | fsm_creator.py:95-121 | a record failing a check, or a DFA record with several targets, leaves the table as it was |
| Creator.DfaOverwrites | fsm_creator.py:118-122 | a DFA record with one target sets its pair to that target and keeps every other pair |
| Creator.NfaExtends | fsm_creator.py:123-127 | an NFA record appends its targets to its pair's and keeps every other pair |
| Creator.EntryIgnoresRest | fsm_creator.py:88-91 | entry ends at the first `done`; later lines are never read |
| Creator.CheckedWithin | fsm_creator.py:99-116 | a record that passes the checks names a declared source, symbol and targets |
| Creator.ApplyWithin | fsm_creator.py:118-127 | entering a checked record keeps the table within the header |
| Creator.EntryWithin | fsm_creator.py:88-127 | a finished entry keeps the kind and leaves a well-formed table within the header |
| Creator.SessionWellFormed | fsm_creator.py:66-136 | a completed session describes a well-formed automaton of the chosen kind with the stripped answers as its fields |
| Creator.DoneEnds | fsm_creator.py:90-91 | the line `done` ends the entry at once |
| Creator.NfaStepAgrees | fsm_creator.py:123-127 | a record the strict NFA loop accepts is entered by the creator the same way |
| Creator.DfaStepAgrees | fsm_creator.py:118-122 | a record the strict DFA loop accepts is entered the same way |
| Creator.DfaRecordAsNfa | fsm_creator.py:93-116 | a strict DFA record passes the creator's checks with its one target |
| Creator.NfaAgrees | fsm_creator.py:88-127 | on records the strict NFA builder accepts, the creator builds the same table |
| Creator.DfaAgrees | fsm_creator.py:88-127 | on records the strict DFA builder accepts, the creator builds the same table |
| Codec.FirstCommaSpec | main3-0.py:36 | the comma found is the first one, and none is found only when there is none |
| Codec.ParseKeySpec | main3-0.py:36 | a parsed key has comma-free names, and its text is the key |
| Codec.KeyTextSplits | main3-0.py:19 | a key with comma-free names splits back into those names |
| Codec.KeyTextInjective | main3-0.py:19 | distinct comma-free keys are written as distinct texts |
| Codec.ParseKeyText | main3-0.py:36 | the text of a comma-free key parses back into that key |
| Codec.ParseKeySplit | main3-0.py:36 | unpacking `key.split(',')` into two names succeeds iff the split has exactly two pieces, and gives them |
| Codec.Flatten | fsm_creator.py:149 | the flattened table is well formed |
| Codec.FlattenSpec | fsm_creator.py:149 | every key is written as its `from,symbol` text and every text comes from a key; with comma-free names the entries are the keys in order, with their values |
| Codec.FlattenCovers | fsm_creator.py:149 | every transition key's text is written |
| Codec.FlattenOrigin | fsm_creator.py:149 | every written text is some key's text |
| Codec.FlattenCollision | fsm_creator.py:149 | names with commas collide: `("a,b","c")` and `("a","b,c")` leave one entry, the later value |
| Codec.Encoded | main3-0.py:18-23 | the same keys in order; each value as written: a name for a DFA, a list for an NFA |
| Codec.Serialize | main3-0.py:8-24 | the serialising loop produces `Encode` |
| Codec.Deserialize | main3-0.py:26-45 | the deserialising loop produces `Decode` |
| Codec.DecodeFromValid | main3-0.py:35-40 | loading keeps the table well formed |
| Codec.DecodeFromOk | main3-0.py:35-36 | a load succeeds iff every key has exactly one comma |
| Codec.DecodeFromErr | main3-0.py:35-36 | a failed load names the first key, in file order, that does not split in two |
| Codec.MalformedKeysRejected | main3-0.py:36 | `q0` and `q0,a,b` cannot be loaded |
| Codec.ReadBackEntry | main3-0.py:36-40 | reading back a written entry gives its key and value again |
| Codec.ReadBack | main3-0.py:35-40 | reading back what was written completes the table |
| Codec.EncodeWritten | main3-0.py:18-23 | with comma-free names, what is written holds each key's text and value |
| Codec.RoundTrip | main3-0.py:8-45 | saving then loading gives the same automaton when no name in a key holds a comma (the same code is at main2-0.py:8-45) |
| Codec.SaveLoadRoundTrip | main2-0.py:121-201 | any automaton a strict build accepts survives a save and a load unchanged, as tests/test_main_cli.py:60-93 exercises |
| InputLines.TokeniseSpec | main3-0.py:350 | a line with a comma is its symbols joined by commas, at least two, none holding a comma; any other line is one symbol per character (the same code is at main.py:111) |
| InputLines.InvalidSymbols | main3-0.py:353 | exactly the typed symbols outside the alphabet |
| InputLines.AllInIffNoneInvalid | main.py:113 | main.py's `all(...)` test and main3-0.py's invalid-symbol filter reject the same lines |
| InputLines.PlainLine | main.py:107-120 | `exit` in any case quits; otherwise the line is tested iff all its symbols are in the alphabet, else rejected with its outside symbols |
| InputLines.SessionLine | main3-0.py:344-377 | as written: quit on `exit`, skip an empty stripped line, reject outside symbols, and only then recognise `step` |
| InputLines.SessionLineIntended | main3-0.py:344-377 | with `step` recognised before the alphabet check: step mode iff the line is `step` |
| InputLines.StepShadowed | main3-0.py:353-358 | as written, `step` over an alphabet without `s` is rejected as invalid input |
| InputLines.StepRecognised | main3-0.py:358 | with the intended order, `step` starts step mode whatever the alphabet |
| InputLines.SessionLineAgrees | main3-0.py:344-377 | the loop as written and the intended loop agree on every line other than `step` |
| InputLines.SessionAgreesWithPlain | main3-0.py:344-356 | on a stripped, non-empty line other than `step`, main3-0.py decides as main.py does |
| DotParser.CollectSpec | main3-0.py:108-113 | the collected final names are exactly those given by some part |
| DotParser.Symbols | main3-0.py:131 | an edge has at least one symbol |
| DotParser.EdgeOf | main3-0.py:119-131 | a line holding `->` gives an edge with at least one symbol |
| DotParser.EdgeLine | main3-0.py:117-131 | `p -> q [label = "a, b"]` is an edge from `p` to `q` on the symbols `a` and `b`, for names with no surrounding whitespace and none of `- " , ; [ =` |
| DotParser.NullLineIsInitial | main3-0.py:148-150 | a line is taken as the start line iff its stripped text starts with `null ->`; it names the line with every `null ->` and every `;` removed, stripped |
| DotParser.InitialLine | main3-0.py:148-150 | `null -> q;` is the start line naming `q`, for a name with no surrounding whitespace and none of `- " , ; [ =` |
| DotParser.NullIsNoShape | main3-0.py:106-117 | a `null ->` line is never a node-shape line |
| DotParser.ArrowLineInitial | main3-0.py:117-150 | among lines without a node shape, exactly the `null ->` lines set the initial state |
| DotParser.DoubleCircleLine | main3-0.py:106-113 | a doublecircle line makes final exactly the non-empty names of its parts that mention `doublecircle` |
| DotParser.SymbolsSpec | main3-0.py:123-131 | with no label the one symbol is empty; otherwise one stripped symbol per comma piece, none holding a comma |
| DotParser.AddSymbols | main3-0.py:135-137 | the symbol loop changes nothing but the alphabet |
| DotParser.AddEdges | main3-0.py:139-146 | the edge loop changes only the table and the kind, and keeps the table well formed |
| DotParser.Step | main3-0.py:104-150 | one line keeps the table well formed |
| DotParser.Steps | main3-0.py:104-150 | the scan keeps the table well formed |
| DotParser.Classified | main3-0.py:103-105 | each line of the file is classified on its own |
| DotParser.ScanLines | main3-0.py:103-150 | the scan over the file ends with a well-formed table |
| DotParser.FinaliseFrom | main3-0.py:153-160 | a successful conversion gives a well-formed table |
| DotParser.AddEdgeInv | main3-0.py:139-146 | one recorded edge keeps the scan invariant |
| DotParser.StepsInv | main3-0.py:104-150 | after any lines: the initial state, the finals, and every source and target are states; every key has a target; the kind is NFA iff some list has two entries; no empty symbol is in the alphabet |
| DotParser.AddSymbolsSpec | main3-0.py:135-137 | the alphabet gains exactly the non-empty symbols of the edge |
| DotParser.AddEdgeSpec | main3-0.py:140-142 | one edge appends its target to its key's list and leaves every other key alone |
| DotParser.AddEdgesEnd | main3-0.py:139-142 | after an edge line, each of its symbols' lists ends with its target |
| DotParser.AddEdgesGrow | main3-0.py:139-142 | an edge line only appends: every old list is a prefix of its new value |
| DotParser.AddEdgesElsewhere | main3-0.py:139-142 | an edge line leaves the lists of other pairs as they were |
| DotParser.StepInitial | main3-0.py:148-150 | a start line sets the initial state and adds it to the states, without a transition; no other line touches the initial state |
| DotParser.InitialNone | main3-0.py:96 | the initial state stays None iff the file has no `null ->` line, with no error |
| DotParser.InitialIsLast | main3-0.py:148-150 | the initial state is the one named by the last `null ->` line |
| DotParser.FinaliseFromOk | main3-0.py:154-158 | when every DFA list has one target the conversion succeeds |
| DotParser.FinaliseFromValues | main3-0.py:154-160 | each converted value is its list finalised |
| DotParser.FinaliseFromKeys | main3-0.py:154-160 | every key is converted, and no other |
| DotParser.FinishOk | main3-0.py:155-157 | after the scan, the DFA conversion never raises its `ValueError` |
| DotParser.FinaliseKeys | main3-0.py:153-160 | the converted table has exactly the keys of the lists |
| DotParser.FinishKeys | main3-0.py:153-160 | the converted table has exactly the keys the scan recorded |
| DotParser.FinishKind | main3-0.py:144-146 | the automaton is an NFA iff some pair got two or more targets, repeats included |
| DotParser.FinishValues | main3-0.py:154-160 | each converted value is the one target (DFA) or the sorted distinct targets (NFA) of its list |
| DotParser.FinalisedSpec | main3-0.py:158-160 | a DFA value is the list's single target; an NFA value lists its distinct targets in strictly increasing order |
| DotParser.MentionedWithin | main3-0.py:163-171 | the names the table mentions are among the states |
| DotParser.FinishStates | main3-0.py:162-171 | the fix-up loop adds no state, and every source and target is a state |
| DotParser.ParseNeverFails | main3-0.py:152-160 | whatever the file, `parse_dot_file` returns an automaton |
| DotParser.ParsedClosed | main3-0.py:81-188 | the result is closed: finals, initial, and every source and target are states; the empty symbol is not in the alphabet |
| DotParser.ScanFinalParts | main3-0.py:107-113 | the part loop of a doublecircle line adds the names `Collect` gives |
| DotParser.ScanSymbols | main3-0.py:135-137 | the alphabet loop computes `AddSymbols` |
| DotParser.ScanEdges | main3-0.py:139-146 | the transition loop computes `AddEdges` |
| DotParser.ScanEdgeLine | main3-0.py:133-146 | the edge branch adds both ends to the states and runs the two loops |
| DotParser.ScanOne | main3-0.py:105-150 | one iteration computes the step for the classified line |
| DotParser.ScanArrowLine | main3-0.py:117-150 | the edge and start-line branches compute their step |
| DotParser.ScanInitialText | main3-0.py:148-150 | the start-line branch sets the initial state |
| DotParser.ScanEdgeText | main3-0.py:119-146 | the edge branch computes the step of the edge |
| DotParser.ScanFile | main3-0.py:103-150 | the scan loop computes `ScanLines` |
| DotParser.ConvertTable | main3-0.py:153-160 | the conversion loop computes `FinaliseFrom` from the empty table |
| DotParser.FixUpStates | main3-0.py:163-171 | the fix-up loop returns the scanned states plus every name the table mentions |
| DotParser.ParseDotFile | main3-0.py:81-188 | `parse_dot_file` on the file text computes `Parse` |

## Left out

- The automaton engine (`DFA`, `NFA`, `accepts`, `transducer`, `push`, `is_accepting`) is an external library. The model stops at the record handed to its constructors (main2-0.py:184-201, main3-0.py:174-188). Whether a string is accepted is not modelled.
- The step-by-step session body (main3-0.py:359-372) drives that engine and is not modelled. Only the decision to enter it is (`InputLines.SessionLine`).
- Visualisation is not modelled: `visualize_automaton`, `create_dot_file` (fsm_creator.py:28-61), `dot_customizer.py`, and the unused `graphviz.Source` object (main3-0.py:87).
- File and process I/O are left out: reading and writing files, `json.load`/`json.dump`, `argparse` and launching `main3-0.py` (fsm_creator.py:139-171). The model takes the argument text, the file text and the JSON object as parameters.
- `print(...); sys.exit(1)` is modelled as an `Err` carrying the reason. The exceptions `parse_dot_file` turns into an exit (main3-0.py:189-195) are modelled as its `Result`; the file-not-found case is I/O.
- The creator's prompts take their answers from a sequence. End of input, where Python raises `EOFError`, is modelled as `None`. The type prompt (fsm_creator.py:66) is modelled as the chosen `Kind`.
- `PyStr.Lower`: does not model Unicode case mapping; only the ASCII letters are lowered. `exit`, `step` and `done` are ASCII, so the commands are decided as in Python.
- The `frozenset`s of the DOT reader are modelled as Dafny `set`s. The JSON lists written from a `frozenset` are kept as sequences in the `Json` record; their order, which Python leaves unspecified, is not modelled.
- `Codec.RoundTrip`: proved only when no state or symbol in a transition key holds a comma. `Codec.FlattenCollision` shows that the save loses entries otherwise.
- `DotParser.NullLineIsInitial`: the DOT lemmas are stated about the classification of one stripped line (`Classify`). Whole-file examples such as `dfa_example.gv` are not part of this model.
- Codec.Encode, Codec.SaveLoadRoundTrip: `serialize_automaton` reads the alphabet, states, initial state, final states and transitions back from the library's `DFA`/`NFA` object (main3-0.py:11-18); the model reads them from the record handed to the constructor. The round trip therefore assumes that the library hands back its constructor arguments as given, in the same order and with the NFA tuples kept.
- The loose builder's interactive loop (main.py:105-122) and main3-0.py's loop are modelled one line at a time (`InputLines`). The `EOFError`/`KeyboardInterrupt` exits are not modelled.

## Findings

| source | as written | input that shows it | evidently intended | confidence | as-written member | corrected member |
|---|---|---|---|---|---|---|
| main3-0.py:353-358 | the typed line is checked against the alphabet before the `step` command is recognised, so `step` is rejected as invalid input unless `s`, `t`, `e` and `p` are all symbols | the line `step` over the alphabet `0,1` | `step` starts the step-by-step session whatever the alphabet, as the prompt at main3-0.py:341 promises | high; not executed | InputLines.StepShadowed | InputLines.StepRecognised |
