/** The Graphviz reader of main3-0.py (`parse_dot_file`): a line-by-line scan of
    the DOT text that collects states, alphabet, the initial and final states and
    a multimap of transitions, then settles the automaton kind, turns the target
    lists into a DFA or NFA table and adds every state named there to the states. */
module DotParser {
  import opened Wrappers
  import opened PyStr
  import opened Dicts
  import opened Automata

  const DoubleCircle := "node [shape = doublecircle]"
  const CircleNode := "node [shape = circle]"
  const Arrow := "->"
  const NullArrow := "null ->"
  const LabelOpen := "label = \""

  /** What one line of the file contributes, decided on the stripped line. */
  datatype Line =
    | Finals(names: seq<string>)                             // a `node [shape = doublecircle]` line: the names it makes final
    | Circle                                                 // a `node [shape = circle]` line
    | Edge(from: string, to: string, symbols: seq<string>)   // `p -> q [label = "a, b"]`
    | Initial(name: string)                                  // `null -> q0;`
    | Other                                                  // anything else

  /** The text a `;`-separated part of a doublecircle line leaves once the
      attribute list is removed and the rest stripped. */
  function FinalName(part: string): string {
    Strip(Replace(part, DoubleCircle, ""))
  }

  /** The final state a part names: only a part that mentions `doublecircle`
      names one, and only when `FinalName` leaves something. */
  function FinalOf(part: string): Option<string> {
    if Contains(part, "doublecircle") && FinalName(part) != "" then Some(FinalName(part)) else None
  }

  /** The values `f` gives for `parts`, in order, skipping None. */
  function Collect(parts: seq<string>, f: string -> Option<string>): seq<string> {
    if parts == [] then []
    else
      var prev := Collect(parts[..|parts| - 1], f);
      match f(parts[|parts| - 1])
      case Some(n) => prev + [n]
      case None => prev
  }

  /** `Collect` keeps exactly the values `f` gives for some part. */
  lemma {:induction false} CollectSpec(parts: seq<string>, f: string -> Option<string>)
    ensures forall n :: n in Collect(parts, f) <==> exists p :: p in parts && f(p) == Some(n)
  {
    if parts != [] {
      var prefix := parts[..|parts| - 1];
      var last := parts[|parts| - 1];
      CollectSpec(prefix, f);
      forall n ensures n in Collect(parts, f) <==> exists p :: p in parts && f(p) == Some(n) {
        if n in Collect(parts, f) && f(last) != Some(n) {
          var p :| p in prefix && f(p) == Some(n);
          var i :| 0 <= i < |prefix| && prefix[i] == p;
          assert parts[i] == p;
        }
        if exists p :: p in parts && f(p) == Some(n) {
          var p :| p in parts && f(p) == Some(n);
          var i :| 0 <= i < |parts| && parts[i] == p;
          if i < |parts| - 1 {
            assert prefix[i] == p;
          }
        }
      }
    }
  }

  /** The state named by a `null ->` line. */
  function InitialName(line: string): string {
    Strip(Replace(Strip(Replace(line, NullArrow, "")), ";", ""))
  }

  /** The symbols of an edge label: its comma-separated pieces, stripped, or the
      one empty symbol when there is no label. */
  function Symbols(text: string): (r: seq<string>)
    ensures |r| >= 1
  {
    if text != "" then StripEach(Split(text, ",")) else [""]
  }

  /** The source, target and symbols of an edge line: the text before the first
      `->`, the text after it up to ` [`, and the label up to its closing quote. */
  function EdgeOf(line: string): (r: Line)
    requires Contains(line, Arrow)
    ensures r.Edge? && |r.symbols| >= 1
  {
    var parts := Split(line, Arrow);
    var from := Strip(parts[0]);
    var toPart := Strip(parts[1]);
    var labelMatch := Split(toPart, LabelOpen);
    if |labelMatch| > 1 then
      var text := Split(labelMatch[1], "\"")[0];
      Edge(from, Strip(Replace(Strip(labelMatch[0]), " [", "")), Symbols(text))
    else
      Edge(from, Strip(toPart), Symbols(""))
  }

  /** The branches of the scan, in the order the source tries them. */
  function Classify(raw: string): Line {
    var line := Strip(raw);
    if StartsWith(line, DoubleCircle) then Finals(Collect(Split(line, ";"), FinalOf))
    else if StartsWith(line, CircleNode) then Circle
    else ArrowLine(line)
  }

  /** The branches tried once a stripped line declares no node shape. */
  function ArrowLine(line: string): Line {
    if Contains(line, Arrow) && !StartsWith(line, NullArrow) then EdgeOf(line)
    else if StartsWith(line, NullArrow) then Initial(InitialName(line))
    else Other
  }

  /** A `null ->` line is taken for the initial state whatever follows it, and no
      other line is; it names the line with every `null ->` and every `;` removed,
      stripped. */
  lemma NullLineIsInitial(raw: string)
    ensures Classify(raw).Initial? <==> StartsWith(Strip(raw), NullArrow)
    ensures Classify(raw).Initial? ==> Classify(raw).name == InitialName(Strip(raw))
  {
    var line := Strip(raw);
    ArrowLineInitial(line);
    if StartsWith(line, NullArrow) {
      NullIsNoShape(line);
    }
  }

  /** A state or symbol name as a hand-written DOT file spells it: not empty, no
      whitespace at either end, and none of the characters the scan cuts at. */
  predicate PlainName(x: string) {
    && x != [] && !IsSpace(x[0]) && !IsSpace(x[|x| - 1])
    && '-' !in x && '"' !in x && ',' !in x && ';' !in x && '[' !in x && '=' !in x
  }

  /** `null -> q;` names `q`. */
  lemma InitialLine(q: string)
    requires PlainName(q)
    ensures Classify(NullArrow + " " + q + ";") == Initial(q)
  {
    var line := NullArrow + " " + q + ";";
    assert line[..|NullArrow|] == NullArrow;
    assert line[|line| - 1] == ';';
    StripTrimmed(line);
    NullLineIsInitial(line);
    InitialNameOf(q);
  }

  /** Removing `null ->` and `;` from `null -> q;` and stripping leaves `q`. */
  lemma InitialNameOf(q: string)
    requires PlainName(q)
    ensures InitialName(NullArrow + " " + q + ";") == q
  {
    var body := " " + q + ";";
    var named := q + ";";
    assert Replace(NullArrow + " " + q + ";", NullArrow, "") == body by {
      assert NullArrow + " " + q + ";" == NullArrow + body;
      DropNullArrow(body);
      assert NullArrow[5] == '-';
      AbsentChar(body, NullArrow, 5);
      ReplaceAbsent(body, NullArrow, "");
    }
    assert Strip(body) == named by {
      assert body == " " + named;
      assert named[0] == q[0] && named[|named| - 1] == ';';
      StripLeading(" ", named);
    }
    ReplaceSuffix(q, ";", 0, "");
    assert q + "" == q;
    StripTrimmed(q);
    InitialNameChain(NullArrow + " " + q + ";", body, named, q);
  }

  /** `InitialName` step by step. */
  lemma InitialNameChain(line: string, x: string, y: string, z: string)
    requires Replace(line, NullArrow, "") == x && Strip(x) == y
    requires Replace(y, ";", "") == z && Strip(z) == z
    ensures InitialName(line) == z
  {
  }

  /** Removing the leading `null ->` of a line. */
  lemma DropNullArrow(body: string)
    ensures Replace(NullArrow + body, NullArrow, "") == Replace(body, NullArrow, "")
  {
    var line := NullArrow + body;
    assert line[..|NullArrow|] == NullArrow;
    ReplaceStarts(line, NullArrow, "");
    assert line[|NullArrow|..] == body;
  }


  /** `p -> q [label = "a, b"]` is an edge from `p` to `q` on `a` and `b`. */
  lemma EdgeLine(p: string, q: string, a: string, b: string)
    requires PlainName(p) && PlainName(q) && PlainName(a) && PlainName(b)
    ensures var line := p + " -> " + q + " [label = \"" + a + ", " + b + "\"]";
      Contains(line, Arrow) && EdgeOf(line) == Edge(p, q, [a, b])
  {
    var tail := a + ", " + b + "\"]";
    var target := q + " [" + LabelOpen + tail;
    var line := p + " -> " + q + " [label = \"" + a + ", " + b + "\"]";
    assert '=' !in tail && tail[|tail| - 1] == ']';
    SourceName(p);
    ArrowSplit(p, q, a, b);
    TargetStrip(q, tail);
    TargetSplit(q, tail);
    EdgeOfParts(line, p + " ", " " + target, q + " [", tail);
    TargetName(q);
    LabelSymbols(a, b);
  }

  /** What precedes the arrow of `p -> q` gives the source `p` once stripped. */
  lemma SourceName(p: string)
    requires PlainName(p)
    ensures Strip(p + " ") == p
  {
    StripTrailing(p, " ");
  }

  /** `p -> q [label = "a, b"]` splits at its one arrow. */
  lemma ArrowSplit(p: string, q: string, a: string, b: string)
    requires PlainName(p) && PlainName(q) && PlainName(a) && PlainName(b)
    ensures Split(p + " -> " + q + " [label = \"" + a + ", " + b + "\"]", Arrow)
         == [p + " ", " " + (q + " [" + LabelOpen + (a + ", " + b + "\"]"))]
  {
    var target := q + " [" + LabelOpen + (a + ", " + b + "\"]");
    EdgeLayout(p, q, a, b);
    NoDash(p, target, q, a, b);
    SplitOnce(p + " ", Arrow, 0, " " + target);
  }

  /** `p -> q [label = "a, b"]` is `p`, a space, the arrow, a space and the target. */
  lemma EdgeLayout(p: string, q: string, a: string, b: string)
    ensures p + " -> " + q + " [label = \"" + a + ", " + b + "\"]"
         == (p + " ") + Arrow + (" " + (q + " [" + LabelOpen + (a + ", " + b + "\"]")))
  {
  }

  /** Neither side of the arrow of `p -> q [label = "a, b"]` holds a `-`. */
  lemma NoDash(p: string, target: string, q: string, a: string, b: string)
    requires PlainName(p) && PlainName(q) && PlainName(a) && PlainName(b)
    requires target == q + " [" + LabelOpen + (a + ", " + b + "\"]")
    ensures '-' !in p + " " && '-' !in " " + target
  {
  }

  /** `EdgeOf` step by step, for a line with one arrow and one label. */
  lemma EdgeOfParts(line: string, x: string, y: string, front: string, tail: string)
    requires Split(line, Arrow) == [x, y]
    requires Split(Strip(y), LabelOpen) == [front, tail]
    ensures Contains(line, Arrow)
    ensures EdgeOf(line) == Edge(Strip(x), Strip(Replace(Strip(front), " [", "")), Symbols(Split(tail, "\"")[0]))
  {
  }

  /** After the arrow of `p -> q [label = "…`, stripping removes the one space. */
  lemma TargetStrip(q: string, tail: string)
    requires PlainName(q) && tail != [] && !IsSpace(tail[|tail| - 1])
    ensures Strip(" " + (q + " [" + LabelOpen + tail)) == q + " [" + LabelOpen + tail
  {
    var target := q + " [" + LabelOpen + tail;
    assert target[0] == q[0] && target[|target| - 1] == tail[|tail| - 1];
    StripLeading(" ", target);
  }

  /** `q [label = "…` splits at its one `label = "`. */
  lemma TargetSplit(q: string, tail: string)
    requires PlainName(q) && '=' !in tail
    ensures Split(q + " [" + LabelOpen + tail, LabelOpen) == [q + " [", tail]
  {
    assert LabelOpen[6] == '=' && '=' !in LabelOpen[..6];
    SplitOnce(q + " [", LabelOpen, 6, tail);
  }

  /** What precedes `label = "` gives the target `q` once ` [` is removed. */
  lemma TargetName(q: string)
    requires PlainName(q)
    ensures Strip(Replace(Strip(q + " ["), " [", "")) == q
  {
    var s := q + " [";
    assert s[|s| - 1] == '[' && s[0] == q[0];
    StripTrimmed(s);
    ReplaceSuffix(q, " [", 1, "");
    assert q + "" == q;
    StripTrimmed(q);
  }

  /** The label of `p -> q [label = "a, b"]`: the symbols `a` and `b`. */
  lemma LabelSymbols(a: string, b: string)
    requires PlainName(a) && PlainName(b)
    ensures Split(a + ", " + b + "\"]", "\"")[0] == a + ", " + b
    ensures Symbols(a + ", " + b) == [a, b]
  {
    assert a + ", " + b + "\"]" == (a + ", " + b) + ['"'] + "]";
    SplitAfterFree(a + ", " + b, '"', "]");
    CommaPair(a, b);
    StripTrimmed(a);
    StripLeading(" ", b);
    SymbolsOfPair(a + ", " + b, a, " " + b);
  }

  /** A label that splits into two pieces has their stripped forms as its symbols. */
  lemma SymbolsOfPair(text: string, x: string, y: string)
    requires text != "" && Split(text, ",") == [x, y]
    ensures Symbols(text) == [Strip(x), Strip(y)]
  {
  }

  /** `"a, b".split(',')` is `["a", " b"]`. */
  lemma CommaPair(a: string, b: string)
    requires ',' !in a && ',' !in b
    ensures Split(a + ", " + b, ",") == [a, " " + b]
  {
    assert a + ", " + b == a + [','] + (" " + b);
    SplitAfterFree(a, ',', " " + b);
    ContainsChar(" " + b, ',');
  }

  /** A line that starts with `null ->` declares no node shape. */
  lemma NullIsNoShape(line: string)
    requires StartsWith(line, NullArrow)
    ensures !StartsWith(line, DoubleCircle) && !StartsWith(line, CircleNode)
  {
    assert line[1] == 'u';
    assert DoubleCircle[1] == 'o' && CircleNode[1] == 'o';
  }

  /** Which arrow branch a line takes. */
  lemma ArrowLineCases(line: string)
    ensures Contains(line, Arrow) && !StartsWith(line, NullArrow) ==> ArrowLine(line) == EdgeOf(line)
    ensures StartsWith(line, NullArrow) ==> ArrowLine(line) == Initial(InitialName(line))
    ensures !Contains(line, Arrow) && !StartsWith(line, NullArrow) ==> ArrowLine(line) == Other
  {
  }

  /** Among the arrow branches, exactly the `null ->` lines give the initial state. */
  lemma ArrowLineInitial(line: string)
    ensures ArrowLine(line).Initial? <==> StartsWith(line, NullArrow)
    ensures ArrowLine(line).Initial? ==> ArrowLine(line).name == InitialName(line)
  {
  }

  /** A doublecircle line makes final exactly the names of its `;`-separated parts
      that mention `doublecircle` and leave a non-empty name. */
  lemma DoubleCircleLine(raw: string)
    requires StartsWith(Strip(raw), DoubleCircle)
    ensures Classify(raw).Finals?
    ensures forall n :: n in Classify(raw).names <==>
      exists p :: p in Split(Strip(raw), ";") && Contains(p, "doublecircle") && n == FinalName(p) && n != ""
  {
    var parts := Split(Strip(raw), ";");
    CollectSpec(parts, FinalOf);
  }

  /** An edge label yields at least one symbol, one per comma-separated piece, and
      none of them holds a comma, so each (state, symbol) key survives the JSON
      key flattening; without a label the one symbol is the empty string. */
  lemma SymbolsSpec(text: string)
    ensures text == "" ==> Symbols(text) == [""]
    ensures text != "" ==> |Symbols(text)| == |Split(text, ",")|
    ensures forall s :: s in Symbols(text) ==> ',' !in s
  {
    if text != "" {
      SplitPiecesAvoidChar(text, ',');
      StripEachCommaFree(Split(text, ","));
    }
  }

  /** The variables of the scan: `states`, `alphabet`, `transitions` (a list of
      targets per key), `initial_state`, `final_states` and whether
      `automaton_type` has become `'nfa'`. */
  datatype ScanState = ScanState(
    states: set<string>,
    alphabet: set<string>,
    table: Dict<Key, seq<string>>,
    initial: Option<string>,
    final: set<string>,
    nfa: bool)

  const Start: ScanState := ScanState({}, {}, Empty(), None, {}, false)

  /** The loop that puts the non-empty symbols of an edge into the alphabet. */
  function AddSymbols(st: ScanState, symbols: seq<string>): (r: ScanState)
    ensures r.table == st.table && r.nfa == st.nfa && r.states == st.states
    ensures r.initial == st.initial && r.final == st.final
  {
    if symbols == [] then st
    else
      var prev := AddSymbols(st, symbols[..|symbols| - 1]);
      var symbol := symbols[|symbols| - 1];
      if symbol != "" then prev.(alphabet := prev.alphabet + {symbol}) else prev
  }

  /** One step of the transition loop: `to` appended to the list of
      `(from, symbol)`, and the kind becomes NFA once that list is longer than one. */
  function AddEdge(st: ScanState, from: string, to: string, symbol: string): ScanState {
    var key := Key(from, symbol);
    var current := Get(st.table, key, []) + [to];
    st.(table := Put(st.table, key, current), nfa := st.nfa || |current| > 1)
  }

  /** The loop that records an edge once per symbol. */
  function AddEdges(st: ScanState, from: string, to: string, symbols: seq<string>): (r: ScanState)
    ensures r.states == st.states && r.alphabet == st.alphabet
    ensures r.initial == st.initial && r.final == st.final
    ensures Valid(st.table) ==> Valid(r.table)
  {
    if symbols == [] then st
    else AddEdge(AddEdges(st, from, to, symbols[..|symbols| - 1]), from, to, symbols[|symbols| - 1])
  }

  /** The body of the scan loop for one classified line. */
  function Step(st: ScanState, line: Line): (r: ScanState)
    ensures Valid(st.table) ==> Valid(r.table)
  {
    match line
    case Finals(names) => st.(final := st.final + Elems(names), states := st.states + Elems(names))
    case Circle => st
    case Edge(from, to, symbols) =>
      AddEdges(AddSymbols(st.(states := st.states + {from} + {to}), symbols), from, to, symbols)
    case Initial(name) => st.(initial := Some(name), states := st.states + {name})
    case Other => st
  }

  /** The scan loop over classified lines. */
  function Steps(lines: seq<Line>): (r: ScanState)
    ensures Valid(r.table)
  {
    if lines == [] then Start
    else Step(Steps(lines[..|lines| - 1]), lines[|lines| - 1])
  }

  /** The scan over one more line is one more step. */
  lemma StepsSnoc(lines: seq<Line>, i: nat)
    requires i < |lines|
    ensures Steps(lines[..i + 1]) == Step(Steps(lines[..i]), lines[i])
  {
    assert lines[..i + 1][..i] == lines[..i];
  }

  /** Each line of the file classified. */
  function Classified(lines: seq<string>): (r: seq<Line>)
    ensures |r| == |lines| && forall i :: 0 <= i < |lines| ==> r[i] == Classify(lines[i])
  {
    seq(|lines|, i requires 0 <= i < |lines| => Classify(lines[i]))
  }

  /** The scan loop over the lines of the file. */
  function ScanLines(lines: seq<string>): (r: ScanState)
    ensures Valid(r.table)
  {
    Steps(Classified(lines))
  }

  /** The `ValueError` raised when a DFA key has several targets. */
  datatype DotError = InconsistentDeterminism(key: Key)

  /** The table value for one list of targets: its single element for a DFA, its
      distinct elements in sorted order for an NFA. */
  function Finalised(nfa: bool, targets: seq<string>): Target
    requires nfa || |targets| == 1
  {
    if nfa then Many(SortedUnique(targets)) else One(targets[0])
  }

  /** The conversion loop, from the `i`-th key of `t` on, with `acc` the converted
      part. */
  function FinaliseFrom(t: Dict<Key, seq<string>>, nfa: bool, i: nat, acc: Dict<Key, Target>): (r: Result<Dict<Key, Target>, DotError>)
    requires Listed(t) && i <= |t.keys|
    ensures Valid(acc) && r.Ok? ==> Valid(r.value)
    decreases |t.keys| - i
  {
    if i == |t.keys| then Ok(acc)
    else
      var key := t.keys[i];
      var targets := t.vals[key];
      if !nfa && |targets| != 1 then Err(InconsistentDeterminism(key))
      else FinaliseFrom(t, nfa, i + 1, Put(acc, key, Finalised(nfa, targets)))
  }

  /** The states a table value names. */
  function TargetStates(v: Target): set<string> {
    match v
    case One(s) => {s}
    case Many(ss) => Elems(ss)
  }

  /** The states named by the first `n` entries of a converted table. */
  function MentionedUpTo(p: Dict<Key, Target>, n: nat): set<string>
    requires Listed(p) && n <= |p.keys|
  {
    if n == 0 then {}
    else
      var key := p.keys[n - 1];
      MentionedUpTo(p, n - 1) + {key.state} + TargetStates(p.vals[key])
  }

  /** What `parse_dot_file` returns: the automaton fields and its kind. */
  datatype Parsed = Parsed(
    kind: Kind,
    alphabet: set<string>,
    states: set<string>,
    initial: Option<string>,
    final: set<string>,
    transitions: Dict<Key, Target>)

  /** Everything after the scan: the conversion of the lists and the fix-up of the
      states. */
  function Finish(st: ScanState): Result<Parsed, DotError>
    requires Valid(st.table)
  {
    var processed :- FinaliseFrom(st.table, st.nfa, 0, Empty());
    assert Valid(processed);
    var states := st.states + MentionedUpTo(processed, |processed.keys|);
    Ok(Parsed(if st.nfa then Nfa else Dfa, st.alphabet, states, st.initial, st.final, processed))
  }

  /** `parse_dot_file` on the lines of the file. */
  function ParseLines(lines: seq<string>): Result<Parsed, DotError> {
    Finish(ScanLines(lines))
  }

  /** `parse_dot_file` on the text of a file, split at newlines. */
  function Parse(source: string): Result<Parsed, DotError> {
    ParseLines(Split(source, "\n"))
  }

  // ---------------------------------------------------------------------------
  // The scan keeps its variables consistent.

  /** Every final state, the initial state, every source and target is a state. */
  ghost predicate Closed(st: ScanState) {
    && st.final <= st.states
    && (st.initial.Some? ==> st.initial.value in st.states)
    && forall k :: k in st.table.vals ==> k.state in st.states && Elems(st.table.vals[k]) <= st.states
  }

  /** Every recorded key has at least one target. */
  ghost predicate Recorded(st: ScanState) {
    Valid(st.table) && forall k :: k in st.table.vals ==> st.table.vals[k] != []
  }

  /** The kind is NFA exactly when some key has two or more targets. */
  ghost predicate NfaFlag(st: ScanState) {
    st.nfa <==> exists k :: k in st.table.vals && |st.table.vals[k]| >= 2
  }

  ghost predicate Inv(st: ScanState) {
    Closed(st) && Recorded(st) && NfaFlag(st) && "" !in st.alphabet
  }

  lemma AddEdgeInv(st: ScanState, from: string, to: string, symbol: string)
    requires Inv(st) && from in st.states && to in st.states
    ensures Inv(AddEdge(st, from, to, symbol))
  {
    var r := AddEdge(st, from, to, symbol);
    var key := Key(from, symbol);
    var current := Get(st.table, key, []) + [to];
    assert r.table.vals == st.table.vals[key := current];
    if !r.nfa {
      forall k | k in r.table.vals ensures |r.table.vals[k]| < 2 {
        if k != key { assert k in st.table.vals; }
      }
    }
  }

  lemma {:induction false} AddEdgesInv(st: ScanState, from: string, to: string, symbols: seq<string>)
    requires Inv(st) && from in st.states && to in st.states
    ensures Inv(AddEdges(st, from, to, symbols))
  {
    if symbols != [] {
      var prefix := symbols[..|symbols| - 1];
      AddEdgesInv(st, from, to, prefix);
      AddEdgeInv(AddEdges(st, from, to, prefix), from, to, symbols[|symbols| - 1]);
    }
  }

  lemma {:induction false} AddSymbolsInv(st: ScanState, symbols: seq<string>)
    requires Inv(st)
    ensures Inv(AddSymbols(st, symbols))
  {
    if symbols != [] {
      AddSymbolsInv(st, symbols[..|symbols| - 1]);
    }
  }

  lemma StepInv(st: ScanState, line: Line)
    requires Inv(st)
    ensures Inv(Step(st, line))
  {
    match line
    case Finals(names) =>
    case Circle =>
    case Edge(from, to, symbols) =>
      var named := st.(states := st.states + {from} + {to});
      AddSymbolsInv(named, symbols);
      AddEdgesInv(AddSymbols(named, symbols), from, to, symbols);
    case Initial(name) =>
    case Other =>
  }

  /** Whatever the lines, the scan ends with the initial state, every final state
      and every source and target among the states, a target for every recorded
      key, the kind set exactly when some key has several targets, and no empty
      symbol in the alphabet. */
  lemma {:induction false} StepsInv(lines: seq<Line>)
    ensures Inv(Steps(lines))
  {
    if lines != [] {
      StepsInv(lines[..|lines| - 1]);
      StepInv(Steps(lines[..|lines| - 1]), lines[|lines| - 1]);
    }
  }

  // ---------------------------------------------------------------------------
  // What each kind of line does.

  /** The empty symbol never enters the alphabet; every other symbol of an edge
      does. */
  lemma {:induction false} AddSymbolsSpec(st: ScanState, symbols: seq<string>)
    ensures AddSymbols(st, symbols).alphabet == st.alphabet + (set s | s in symbols && s != "")
  {
    if symbols != [] {
      var prefix := symbols[..|symbols| - 1];
      AddSymbolsSpec(st, prefix);
      assert symbols == prefix + [symbols[|symbols| - 1]];
    }
  }

  /** One recorded edge appends `to` to the list of its key and leaves every other
      key alone. */
  lemma AddEdgeSpec(st: ScanState, from: string, to: string, symbol: string)
    ensures var r := AddEdge(st, from, to, symbol).table;
      Key(from, symbol) in r.vals && r.vals[Key(from, symbol)] == Get(st.table, Key(from, symbol), []) + [to]
    ensures var r := AddEdge(st, from, to, symbol).table;
      forall k :: k != Key(from, symbol) ==> (k in r.vals <==> k in st.table.vals) && (k in r.vals ==> r.vals[k] == st.table.vals[k])
  {
  }

  /** After an edge line, the list of `(from, s)` ends with `to` for each symbol
      `s` of its label. */
  lemma {:induction false} AddEdgesEnd(st: ScanState, from: string, to: string, symbols: seq<string>)
    ensures var r := AddEdges(st, from, to, symbols).table;
      forall s :: s in symbols ==> Key(from, s) in r.vals && |r.vals[Key(from, s)]| > 0 && r.vals[Key(from, s)][|r.vals[Key(from, s)]| - 1] == to
  {
    if symbols != [] {
      var prefix := symbols[..|symbols| - 1];
      var last := symbols[|symbols| - 1];
      var mid := AddEdges(st, from, to, prefix);
      AddEdgesEnd(st, from, to, prefix);
      AddEdgeSpec(mid, from, to, last);
      var r := AddEdge(mid, from, to, last).table;
      assert AddEdges(st, from, to, symbols).table == r;
      forall s | s in symbols
        ensures Key(from, s) in r.vals && |r.vals[Key(from, s)]| > 0 && r.vals[Key(from, s)][|r.vals[Key(from, s)]| - 1] == to
      {
        if s != last {
          assert s in prefix;
          assert Key(from, s) != Key(from, last);
        }
      }
    }
  }

  /** An edge line only appends: every list recorded before is a prefix of its new
      value. */
  lemma {:induction false} AddEdgesGrow(st: ScanState, from: string, to: string, symbols: seq<string>)
    ensures var r := AddEdges(st, from, to, symbols).table;
      forall k :: k in st.table.vals ==> k in r.vals && st.table.vals[k] <= r.vals[k]
  {
    if symbols != [] {
      var prefix := symbols[..|symbols| - 1];
      AddEdgesGrow(st, from, to, prefix);
      AddEdgeSpec(AddEdges(st, from, to, prefix), from, to, symbols[|symbols| - 1]);
    }
  }

  /** An edge line leaves the key of every other pair as it was. */
  lemma {:induction false} AddEdgesElsewhere(st: ScanState, from: string, to: string, symbols: seq<string>)
    ensures var r := AddEdges(st, from, to, symbols).table;
      forall k :: k in r.vals && (k.state != from || k.symbol !in symbols) ==> k in st.table.vals && r.vals[k] == st.table.vals[k]
  {
    if symbols != [] {
      var prefix := symbols[..|symbols| - 1];
      AddEdgesElsewhere(st, from, to, prefix);
      AddEdgeSpec(AddEdges(st, from, to, prefix), from, to, symbols[|symbols| - 1]);
    }
  }

  /** A `null ->` line sets the initial state, adds it to the states and records
      no transition; no other line touches the initial state. */
  lemma StepInitial(st: ScanState, line: Line)
    ensures line.Initial? ==> Step(st, line).initial == Some(line.name) && Step(st, line).states == st.states + {line.name}
    ensures line.Initial? ==> Step(st, line).table == st.table && Step(st, line).nfa == st.nfa
    ensures !line.Initial? ==> Step(st, line).initial == st.initial
  {
  }

  /** No line of `lines` is a `null ->` line. */
  predicate NoInitial(lines: seq<Line>) {
    forall i :: 0 <= i < |lines| ==> !lines[i].Initial?
  }

  lemma InitialNoneStep(st: ScanState, prefix: seq<Line>, last: Line)
    requires st.initial.None? <==> NoInitial(prefix)
    ensures Step(st, last).initial.None? <==> NoInitial(prefix + [last])
  {
    var lines := prefix + [last];
    if !last.Initial? {
      StepInitial(st, last);
    } else {
      assert lines[|prefix|].Initial?;
    }
    if NoInitial(prefix) && !last.Initial? {
      forall i | 0 <= i < |lines| ensures !lines[i].Initial? {
        if i < |prefix| { assert lines[i] == prefix[i]; }
      }
    }
    if NoInitial(lines) {
      forall i | 0 <= i < |prefix| ensures !prefix[i].Initial? {
        assert lines[i] == prefix[i];
      }
    }
  }

  /** The initial state stays None exactly when the file has no `null ->` line:
      the scan does not fail on a missing initial state. */
  lemma {:induction false} InitialNone(lines: seq<Line>)
    ensures Steps(lines).initial.None? <==> NoInitial(lines)
  {
    if lines != [] {
      var prefix := lines[..|lines| - 1];
      InitialNone(prefix);
      InitialNoneStep(Steps(prefix), prefix, lines[|lines| - 1]);
      assert prefix + [lines[|lines| - 1]] == lines;
    }
  }

  lemma InitialLastStep(st: ScanState, prefix: seq<Line>, last: Line)
    requires forall i :: 0 <= i < |prefix| && prefix[i].Initial? && NoInitial(prefix[i + 1..]) ==> st.initial == Some(prefix[i].name)
    ensures var lines := prefix + [last];
      forall i :: 0 <= i < |lines| && lines[i].Initial? && NoInitial(lines[i + 1..]) ==> Step(st, last).initial == Some(lines[i].name)
  {
    var lines := prefix + [last];
    forall i | 0 <= i < |lines| && lines[i].Initial? && NoInitial(lines[i + 1..])
      ensures Step(st, last).initial == Some(lines[i].name)
    {
      if i < |prefix| {
        assert lines[i + 1..][|prefix| - i - 1] == last;
        assert lines[i] == prefix[i];
        StepInitial(st, last);
        var tail := prefix[i + 1..];
        forall j | 0 <= j < |tail| ensures !tail[j].Initial? {
          assert tail[j] == lines[i + 1..][j];
        }
      }
    }
  }

  /** When set, the initial state is the one named by the last `null ->` line. */
  lemma {:induction false} InitialIsLast(lines: seq<Line>)
    ensures forall i :: 0 <= i < |lines| && lines[i].Initial? && NoInitial(lines[i + 1..]) ==> Steps(lines).initial == Some(lines[i].name)
  {
    if lines != [] {
      var prefix := lines[..|lines| - 1];
      InitialIsLast(prefix);
      InitialLastStep(Steps(prefix), prefix, lines[|lines| - 1]);
      assert prefix + [lines[|lines| - 1]] == lines;
    }
  }

  // ---------------------------------------------------------------------------
  // The conversion never fails, and the fix-up loop adds nothing.

  /** Every list of a DFA table has exactly one target. */
  ghost predicate Determined(t: Dict<Key, seq<string>>, nfa: bool) {
    !nfa ==> forall k :: k in t.vals ==> |t.vals[k]| == 1
  }

  /** Under `Determined`, the conversion loop succeeds. */
  lemma {:induction false} FinaliseFromOk(t: Dict<Key, seq<string>>, nfa: bool, i: nat, acc: Dict<Key, Target>)
    requires Listed(t) && i <= |t.keys| && Determined(t, nfa)
    ensures FinaliseFrom(t, nfa, i, acc).Ok?
    decreases |t.keys| - i
  {
    if i < |t.keys| {
      var key := t.keys[i];
      FinaliseFromOk(t, nfa, i + 1, Put(acc, key, Finalised(nfa, t.vals[key])));
    }
  }

  /** Each converted value is `Finalised` from the list of its key. */
  lemma {:induction false} FinaliseFromValues(t: Dict<Key, seq<string>>, nfa: bool, i: nat, acc: Dict<Key, Target>)
    requires Listed(t) && i <= |t.keys| && Determined(t, nfa)
    requires forall k :: k in acc.vals ==> k in t.vals && acc.vals[k] == Finalised(nfa, t.vals[k])
    requires FinaliseFrom(t, nfa, i, acc).Ok?
    ensures var r := FinaliseFrom(t, nfa, i, acc).value;
      forall k :: k in r.vals ==> k in t.vals && r.vals[k] == Finalised(nfa, t.vals[k])
    decreases |t.keys| - i
  {
    if i < |t.keys| {
      var key := t.keys[i];
      FinaliseFromValues(t, nfa, i + 1, Put(acc, key, Finalised(nfa, t.vals[key])));
    }
  }

  /** Every key from the `i`-th on, and every key converted so far, is converted. */
  lemma {:induction false} FinaliseFromKeys(t: Dict<Key, seq<string>>, nfa: bool, i: nat, acc: Dict<Key, Target>)
    requires Listed(t) && i <= |t.keys|
    requires FinaliseFrom(t, nfa, i, acc).Ok?
    ensures acc.vals.Keys <= FinaliseFrom(t, nfa, i, acc).value.vals.Keys <= acc.vals.Keys + t.vals.Keys
    ensures forall j :: i <= j < |t.keys| ==> t.keys[j] in FinaliseFrom(t, nfa, i, acc).value.vals
    decreases |t.keys| - i
  {
    if i < |t.keys| {
      var key := t.keys[i];
      FinaliseFromKeys(t, nfa, i + 1, Put(acc, key, Finalised(nfa, t.vals[key])));
    }
  }

  /** The `ValueError` of the DFA conversion is never raised: after the scan the
      conversion succeeds. */
  lemma FinishOk(st: ScanState)
    requires Inv(st)
    ensures Finish(st).Ok?
  {
    FinaliseFromOk(st.table, st.nfa, 0, Empty());
  }

  /** A successful conversion from the start has exactly the keys of the lists. */
  lemma FinaliseKeys(t: Dict<Key, seq<string>>, nfa: bool)
    requires Valid(t) && Determined(t, nfa)
    ensures FinaliseFrom(t, nfa, 0, Empty()).Ok?
    ensures FinaliseFrom(t, nfa, 0, Empty()).value.vals.Keys == t.vals.Keys
  {
    FinaliseFromOk(t, nfa, 0, Empty());
    FinaliseFromKeys(t, nfa, 0, Empty());
    var p := FinaliseFrom(t, nfa, 0, Empty()).value;
    forall k | k in t.vals ensures k in p.vals {
      var j :| 0 <= j < |t.keys| && t.keys[j] == k;
    }
  }

  /** The converted table has exactly the keys of the scanned lists. */
  lemma FinishKeys(st: ScanState)
    requires Inv(st)
    ensures Finish(st).Ok? && Finish(st).value.transitions.vals.Keys == st.table.vals.Keys
  {
    FinaliseKeys(st.table, st.nfa);
  }

  /** The automaton is an NFA exactly when some key was given two or more targets,
      repeated ones included. */
  lemma FinishKind(st: ScanState)
    requires Inv(st)
    ensures Finish(st).Ok?
    ensures Finish(st).value.kind == Nfa <==> exists k :: k in st.table.vals && |st.table.vals[k]| >= 2
  {
    FinaliseFromOk(st.table, st.nfa, 0, Empty());
  }

  /** Each converted value is the single target (DFA) or the sorted distinct
      targets (NFA) of the list of its key. */
  lemma FinishValues(st: ScanState)
    requires Inv(st)
    ensures Finish(st).Ok?
    ensures var p := Finish(st).value.transitions;
      forall k :: k in p.vals ==> k in st.table.vals && p.vals[k] == Finalised(st.nfa, st.table.vals[k])
  {
    FinaliseFromOk(st.table, st.nfa, 0, Empty());
    FinaliseFromValues(st.table, st.nfa, 0, Empty());
  }

  /** A DFA value is the one target of its list; an NFA value lists the distinct
      targets of its list in strictly increasing order. */
  lemma FinalisedSpec(nfa: bool, targets: seq<string>)
    requires nfa || |targets| == 1
    ensures !nfa ==> Finalised(nfa, targets) == One(targets[0]) && targets == [targets[0]]
    ensures nfa ==> Finalised(nfa, targets).Many?
    ensures nfa ==> StrictlySorted(Finalised(nfa, targets).states)
    ensures nfa ==> Elems(Finalised(nfa, targets).states) == Elems(targets)
    ensures TargetStates(Finalised(nfa, targets)) == Elems(targets)
  {
    SortedUniqueCorrect(targets);
  }

  /** The states named by a converted table are among those the table names. */
  lemma {:induction false} MentionedWithin(p: Dict<Key, Target>, n: nat, states: set<string>)
    requires Listed(p) && n <= |p.keys|
    requires forall k :: k in p.vals ==> k.state in states && TargetStates(p.vals[k]) <= states
    ensures MentionedUpTo(p, n) <= states
  {
    if n > 0 {
      MentionedWithin(p, n - 1, states);
    }
  }

  /** The fix-up loop adds no state, and the result is closed: the initial and
      final states and every source and target of the table are states. */
  lemma FinishStates(st: ScanState)
    requires Inv(st)
    ensures Finish(st).Ok?
    ensures Finish(st).value.states == st.states
    ensures var p := Finish(st).value;
      forall k :: k in p.transitions.vals ==> k.state in p.states && TargetStates(p.transitions.vals[k]) <= p.states
  {
    FinaliseFromOk(st.table, st.nfa, 0, Empty());
    FinaliseFromValues(st.table, st.nfa, 0, Empty());
    var p := FinaliseFrom(st.table, st.nfa, 0, Empty()).value;
    forall k | k in p.vals ensures k.state in st.states && TargetStates(p.vals[k]) <= st.states {
      FinalisedSpec(st.nfa, st.table.vals[k]);
    }
    MentionedWithin(p, |p.keys|, st.states);
  }

  /** Whatever the file, `parse_dot_file` returns an automaton: its `ValueError`
      is unreachable. */
  lemma ParseNeverFails(lines: seq<string>)
    ensures ParseLines(lines).Ok?
  {
    StepsInv(Classified(lines));
    FinishOk(ScanLines(lines));
  }

  /** The fix-up loop adds no state, and the automaton returned is closed: its
      initial and final states, every source and target are states, and the empty
      symbol of an unlabelled edge is not in the alphabet. */
  lemma ParsedClosed(lines: seq<string>)
    ensures ParseLines(lines).Ok?
    ensures ParseLines(lines).value.states == ScanLines(lines).states
    ensures var p := ParseLines(lines).value;
      && p.final <= p.states
      && (p.initial.Some? ==> p.initial.value in p.states)
      && "" !in p.alphabet
      && forall k :: k in p.transitions.vals ==> k.state in p.states && TargetStates(p.transitions.vals[k]) <= p.states
  {
    StepsInv(Classified(lines));
    FinishStates(ScanLines(lines));
  }

  // ---------------------------------------------------------------------------
  // The loops as written.

  /** The loop over the `;`-separated parts of a doublecircle line. */
  method ScanFinalParts(st: ScanState, parts: seq<string>) returns (r: ScanState)
    ensures r == Step(st, Finals(Collect(parts, FinalOf)))
  {
    var final, states := st.final, st.states;
    ghost var names: seq<string> := [];
    for j := 0 to |parts|
      invariant names == Collect(parts[..j], FinalOf)
      invariant final == st.final + Elems(names) && states == st.states + Elems(names)
    {
      assert parts[..j + 1][..j] == parts[..j];
      var part := parts[j];
      if Contains(part, "doublecircle") {
        var name := Strip(Replace(part, DoubleCircle, ""));
        if name != "" {
          final := final + {name};
          states := states + {name};
          assert FinalOf(part) == Some(name);
          ElemsSnoc(names, name);
          names := names + [name];
        } else {
          assert FinalOf(part) == None;
        }
      } else {
        assert FinalOf(part) == None;
      }
    }
    assert parts[..|parts|] == parts;
    r := st.(final := final, states := states);
  }

  /** Appending a name adds it to the elements. */
  lemma ElemsSnoc(s: seq<string>, x: string)
    ensures Elems(s + [x]) == Elems(s) + {x}
  {
  }

  /** The loop that puts the non-empty symbols of an edge into the alphabet. */
  method ScanSymbols(st: ScanState, symbols: seq<string>) returns (r: ScanState)
    ensures r == AddSymbols(st, symbols)
  {
    r := st;
    for j := 0 to |symbols|
      invariant r == AddSymbols(st, symbols[..j])
    {
      assert symbols[..j + 1][..j] == symbols[..j];
      if symbols[j] != "" {
        r := r.(alphabet := r.alphabet + {symbols[j]});
      }
    }
    assert symbols[..|symbols|] == symbols;
  }

  /** The loop that appends `to` to the list of `(from, s)` for every symbol `s`. */
  method ScanEdges(st: ScanState, from: string, to: string, symbols: seq<string>) returns (r: ScanState)
    ensures r == AddEdges(st, from, to, symbols)
  {
    r := st;
    for j := 0 to |symbols|
      invariant r == AddEdges(st, from, to, symbols[..j])
    {
      assert symbols[..j + 1][..j] == symbols[..j];
      var key := Key(from, symbols[j]);
      var current := Get(r.table, key, []);
      current := current + [to];
      r := r.(table := Put(r.table, key, current));
      if |current| > 1 {
        r := r.(nfa := true);
      }
    }
    assert symbols[..|symbols|] == symbols;
  }

  /** The edge branch: both ends become states, then the symbol and transition
      loops run. */
  method ScanEdgeLine(st: ScanState, from: string, to: string, symbols: seq<string>) returns (r: ScanState)
    ensures r == Step(st, Edge(from, to, symbols))
  {
    r := st.(states := st.states + {from});
    r := r.(states := r.states + {to});
    r := ScanSymbols(r, symbols);
    r := ScanEdges(r, from, to, symbols);
  }

  /** The body of the scan loop for one line, on the variables of the scan. */
  method ScanOne(st: ScanState, raw: string) returns (r: ScanState)
    ensures r == Step(st, Classify(raw))
  {
    var line := Strip(raw);
    if StartsWith(line, DoubleCircle) {
      var parts := Split(line, ";");
      assert Classify(raw) == Finals(Collect(parts, FinalOf));
      r := ScanFinalParts(st, parts);
    } else if StartsWith(line, CircleNode) {
      assert Classify(raw) == Circle;
      r := st;
    } else {
      assert Classify(raw) == ArrowLine(line);
      r := ScanArrowLine(st, line);
    }
  }

  /** The edge and initial-arrow branches of the scan. */
  method ScanArrowLine(st: ScanState, line: string) returns (r: ScanState)
    ensures r == Step(st, ArrowLine(line))
  {
    ArrowLineCases(line);
    if Contains(line, Arrow) && !StartsWith(line, NullArrow) {
      r := ScanEdgeText(st, line);
    } else if StartsWith(line, NullArrow) {
      r := ScanInitialText(st, line);
    } else {
      r := st;
    }
  }

  /** A `null ->` line: the named state becomes the initial state. */
  method ScanInitialText(st: ScanState, line: string) returns (r: ScanState)
    ensures r == Step(st, Initial(InitialName(line)))
  {
    var name := InitialName(line);
    r := st.(initial := Some(name), states := st.states + {name});
  }

  /** An edge line: its source, target and symbols, then the scan updates. */
  method ScanEdgeText(st: ScanState, line: string) returns (r: ScanState)
    requires Contains(line, Arrow)
    ensures r == Step(st, EdgeOf(line))
  {
    var edge := EdgeOf(line);
    r := ScanEdgeLine(st, edge.from, edge.to, edge.symbols);
  }

  /** The scan loop of `parse_dot_file` over the lines of the file. */
  method ScanFile(lines: seq<string>) returns (r: ScanState)
    ensures r == ScanLines(lines)
  {
    r := Start;
    ghost var classified := Classified(lines);
    for i := 0 to |lines|
      invariant r == Steps(classified[..i])
    {
      StepsSnoc(classified, i);
      r := ScanOne(r, lines[i]);
    }
    assert classified[..|lines|] == classified;
  }

  /** The conversion loop: each list becomes its DFA or NFA value, in key order,
      stopping at the first DFA list that does not hold exactly one target. */
  method ConvertTable(transitions: Dict<Key, seq<string>>, nfa: bool) returns (r: Result<Dict<Key, Target>, DotError>)
    requires Listed(transitions)
    ensures r == FinaliseFrom(transitions, nfa, 0, Empty())
  {
    var processed: Dict<Key, Target> := Empty();
    for i := 0 to |transitions.keys|
      invariant FinaliseFrom(transitions, nfa, i, processed) == FinaliseFrom(transitions, nfa, 0, Empty())
    {
      var key := transitions.keys[i];
      var targets := transitions.vals[key];
      if !nfa {
        if |targets| != 1 {
          return Err(InconsistentDeterminism(key));
        }
        processed := Put(processed, key, One(targets[0]));
      } else {
        processed := Put(processed, key, Many(SortedUnique(targets)));
      }
    }
    r := Ok(processed);
  }

  /** The fix-up loop: every source and target of the converted table is added to
      the states. */
  method FixUpStates(scanned: set<string>, processed: Dict<Key, Target>) returns (states: set<string>)
    requires Listed(processed)
    ensures states == scanned + MentionedUpTo(processed, |processed.keys|)
  {
    states := scanned;
    for i := 0 to |processed.keys|
      invariant states == scanned + MentionedUpTo(processed, i)
    {
      var key := processed.keys[i];
      if key.state !in states {
        states := states + {key.state};
      }
      match processed.vals[key]
      case Many(next) =>
        for j := 0 to |next|
          invariant states == scanned + MentionedUpTo(processed, i) + {key.state} + Elems(next[..j])
        {
          assert next[..j + 1] == next[..j] + [next[j]];
          if next[j] !in states {
            states := states + {next[j]};
          }
        }
        assert next[..|next|] == next;
      case One(next) =>
        if next !in states {
          states := states + {next};
        }
    }
  }

  /** `parse_dot_file` on the text of a file: the scan, the conversion and the
      fix-up, returning the automaton and its kind, or the `ValueError`. */
  method ParseDotFile(source: string) returns (r: Result<Parsed, DotError>)
    ensures r == Parse(source)
  {
    var lines := Split(source, "\n");
    var scanned := ScanFile(lines);
    assert Parse(source) == Finish(scanned);
    var converted := ConvertTable(scanned.table, scanned.nfa);
    match converted
    case Err(e) =>
      r := Err(e);
    case Ok(processed) =>
      assert Valid(processed);
      var states := FixUpStates(scanned.states, processed);
      r := Ok(Parsed(if scanned.nfa then Nfa else Dfa, scanned.alphabet, states, scanned.initial, scanned.final, processed));
  }
}
