/** The interactive creator of fsm_creator.py: prompts are answered line by line,
    a bad transition record is skipped rather than ending the session, a DFA record
    overwrites an earlier one for the same pair, an NFA record extends it, and
    `done` in any letter case ends the entry. */
module Creator {
  import opened Wrappers
  import opened PyStr
  import opened Dicts
  import opened Validators
  import opened Automata
  import opened StrictBuilder

  // ---------------------------------------------------------------------------
  // Prompts

  /** `get_input(prompt, valid)` reading from `answers` starting at line `i`: the
      first stripped answer that passes `valid`, with the index of its line; None
      when the answers run out first (Python raises EOFError there). */
  function FirstValid(answers: seq<string>, valid: string -> bool, i: nat): (r: Option<(string, nat)>)
    ensures r.Some? ==> i <= r.value.1 < |answers| && r.value.0 == Strip(answers[r.value.1]) && valid(r.value.0)
    decreases |answers| - i
  {
    if i >= |answers| then None
    else if valid(Strip(answers[i])) then Some((Strip(answers[i]), i))
    else FirstValid(answers, valid, i + 1)
  }

  /** The answer `get_input` returns is the first valid one from line `i` on: every
      answer before it was re-asked, and with no answer returned none was valid. */
  lemma {:induction false} FirstValidSpec(answers: seq<string>, valid: string -> bool, i: nat)
    ensures var r := FirstValid(answers, valid, i);
      && (r.Some? ==> forall j | i <= j < r.value.1 :: !valid(Strip(answers[j])))
      && (r.None? ==> forall j | i <= j < |answers| :: !valid(Strip(answers[j])))
    decreases |answers| - i
  {
    if i < |answers| && !valid(Strip(answers[i])) {
      var r := FirstValid(answers, valid, i + 1);
      assert FirstValid(answers, valid, i) == r;
      FirstValidSpec(answers, valid, i + 1);
      var end := if r.Some? then r.value.1 else |answers|;
      forall j | i <= j < end
        ensures !valid(Strip(answers[j]))
      {
        if j == i {
        } else {
          assert i + 1 <= j < end;
        }
      }
    }
  }

  /** The `while True` loop of `get_input`. */
  method GetInput(answers: seq<string>, valid: string -> bool) returns (r: Option<(string, nat)>)
    ensures r == FirstValid(answers, valid, 0)
  {
    var i := 0;
    while i < |answers|
      invariant 0 <= i <= |answers|
      invariant FirstValid(answers, valid, 0) == FirstValid(answers, valid, i)
    {
      var answer := Strip(answers[i]);
      if valid(answer) {
        return Some((answer, i));
      }
      i := i + 1;
    }
    return None;
  }

  /** The initial-state prompt (line 74) re-asks until the answer is a declared
      state, so the initial state it returns is always one. */
  lemma InitialPromptAccepts(answers: seq<string>, states: seq<string>)
    ensures var r := FirstValid(answers, s => ValidateStateInStates(s, states), 0);
      && (r.Some? ==> r.value.0 in states && r.value.0 == Strip(answers[r.value.1]))
      && (r.None? ==> forall j | 0 <= j < |answers| :: Strip(answers[j]) !in states)
  {
    var valid := s => ValidateStateInStates(s, states);
    var r := FirstValid(answers, valid, 0);
    FirstValidSpec(answers, valid, 0);
    if r.Some? {
      assert valid(r.value.0);
    } else {
      forall j | 0 <= j < |answers| ensures Strip(answers[j]) !in states {
        assert !valid(Strip(answers[j]));
      }
    }
  }

  /** The list prompts (lines 68, 71, 76) re-ask until the stripped answer is not empty. */
  lemma ListPromptAccepts(answers: seq<string>)
    ensures var r := FirstValid(answers, ValidateListInput, 0);
      r.Some? ==> r.value.0 != "" && r.value.0 == Strip(answers[r.value.1])
  {
    FirstValidSpec(answers, ValidateListInput, 0);
  }

  /** The header of a session, from the comma-split and stripped answers
      (`Fields`) and the initial state the prompt accepted: a final state that is not
      a declared state ends the program (lines 78-81). */
  function SessionHeader(alphabet: seq<string>, states: seq<string>, initial: string, final: seq<string>): (r: Result<Header, BuildError>)
    ensures r.Ok? <==> forall f :: f in final ==> f in states
    ensures r.Ok? ==> r.value == Header(alphabet, states, initial, final)
    ensures r.Err? ==> r.error.FinalNotInStates? && r.error.final in final && r.error.final !in states
  {
    match FirstOutside(final, states)
    case Some(f) => Err(FinalNotInStates(f))
    case None => Ok(Header(alphabet, states, initial, final))
  }

  // ---------------------------------------------------------------------------
  // Transition entry

  /** The table a session starts from, of the chosen kind. */
  function Start(kind: Kind): (m: Moves)
    ensures KindOf(m) == kind
  {
    match kind
    case Dfa => DfaMoves(Empty())
    case Nfa => NfaMoves(Empty())
  }

  /** Entering a record once it has been checked: a record that failed is skipped;
      a DFA also skips a record with more than one target and otherwise sets the
      pair to the single target; an NFA appends the targets to the pair's tuple. */
  function Apply(m: Moves, checked: Result<(Key, seq<string>), BuildError>): Moves
    requires checked.Ok? ==> checked.value.1 != []
  {
    match checked
    case Err(_) => m
    case Ok(rec) =>
      match m
      case DfaMoves(d) => if |rec.1| > 1 then m else DfaMoves(Put(d, rec.0, rec.1[0]))
      case NfaMoves(d) => NfaMoves(NfaAppend(d, rec))
  }

  /** One entered record (lines 93-127), checked as an NFA record of the strict
      builder: at least three stripped fields, a declared source, a declared symbol,
      then each target in turn. */
  function CreatorStep(m: Moves, line: string, h: Header): Moves {
    Apply(m, NfaRecord(line, h))
  }

  /** The entry loop (lines 88-127) reading `lines`: it ends at the first line equal
      to `done` in any letter case; None when the lines run out first. */
  function Entry(m: Moves, lines: seq<string>, h: Header): Option<Moves>
    decreases |lines|
  {
    if lines == [] then None
    else
      var line := Strip(lines[0]);
      if Lower(line) == "done" then Some(m) else Entry(CreatorStep(m, line, h), lines[1..], h)
  }

  /** The entry loop of `main()`. */
  method EnterTransitions(kind: Kind, lines: seq<string>, h: Header) returns (r: Option<Moves>)
    ensures r == Entry(Start(kind), lines, h)
  {
    var transitions := Start(kind);
    var i := 0;
    while i < |lines|
      invariant 0 <= i <= |lines|
      invariant Entry(Start(kind), lines, h) == Entry(transitions, lines[i..], h)
    {
      assert lines[i..][0] == lines[i] && lines[i..][1..] == lines[i + 1..];
      var line := Strip(lines[i]);
      if Lower(line) == "done" {
        return Some(transitions);
      }
      var checked := NfaRecord(line, h);
      if checked.Ok? {
        var rec := checked.value;
        if transitions.DfaMoves? {
          if |rec.1| > 1 {
            i := i + 1;
            continue;
          }
          transitions := DfaMoves(Put(transitions.dfa, rec.0, rec.1[0]));
        } else {
          transitions := NfaMoves(NfaAppend(transitions.nfa, rec));
        }
      }
      i := i + 1;
    }
    return None;
  }

  // ---------------------------------------------------------------------------
  // Properties of the entry loop

  /** A line that is not `done` is entered, stripped, and the loop goes on. */
  lemma EntryUnfold(m: Moves, lines: seq<string>, h: Header)
    requires lines != [] && Lower(Strip(lines[0])) != "done"
    ensures Entry(m, lines, h) == Entry(CreatorStep(m, Strip(lines[0]), h), lines[1..], h)
  {
  }

  /** The first line of `records + tail` is that of `records`, and the rest follows. */
  lemma AppendTail(records: seq<string>, tail: seq<string>)
    requires records != []
    ensures (records + tail)[0] == records[0] && (records + tail)[1..] == records[1..] + tail
  {
  }

  /** A record that fails a check, or a DFA record with several targets, leaves the
      table as it was; any record keeps the kind. */
  lemma SkipUnchanged(m: Moves, checked: Result<(Key, seq<string>), BuildError>)
    requires checked.Ok? ==> checked.value.1 != []
    ensures KindOf(Apply(m, checked)) == KindOf(m)
    ensures checked.Err? ==> Apply(m, checked) == m
    ensures m.DfaMoves? && checked.Ok? && |checked.value.1| > 1 ==> Apply(m, checked) == m
  {
  }

  /** A DFA record with one target sets its pair to that target, whatever the pair
      held before, and leaves every other pair alone. */
  lemma DfaOverwrites(d: Dict<Key, string>, rec: (Key, seq<string>))
    requires |rec.1| == 1
    ensures Apply(DfaMoves(d), Ok(rec)).DfaMoves?
    ensures var r := Apply(DfaMoves(d), Ok(rec)).dfa;
      && rec.0 in r.vals && r.vals[rec.0] == rec.1[0]
      && forall k | k in d.vals && k != rec.0 :: k in r.vals && r.vals[k] == d.vals[k]
  {
  }

  /** An NFA record appends its targets to those its pair already had. */
  lemma NfaExtends(d: Dict<Key, seq<string>>, rec: (Key, seq<string>))
    requires rec.1 != []
    ensures Apply(NfaMoves(d), Ok(rec)).NfaMoves?
    ensures var r := Apply(NfaMoves(d), Ok(rec)).nfa;
      && Get(r, rec.0, []) == Get(d, rec.0, []) + rec.1
      && forall k | k in d.vals && k != rec.0 :: k in r.vals && r.vals[k] == d.vals[k]
  {
    if rec.0 !in d.vals {
      assert [] + rec.1 == rec.1;
    }
  }

  /** Entry ends at the first `done`: what follows it is never read. */
  lemma {:induction false} EntryIgnoresRest(m: Moves, a: seq<string>, b: seq<string>, h: Header)
    requires Entry(m, a, h).Some?
    ensures Entry(m, a + b, h) == Entry(m, a, h)
    decreases |a|
  {
    AppendTail(a, b);
    var line := Strip(a[0]);
    if Lower(line) != "done" {
      var next := CreatorStep(m, line, h);
      EntryUnfold(m, a, h);
      EntryUnfold(m, a + b, h);
      EntryIgnoresRest(next, a[1..], b, h);
    }
  }

  /** A checked record lies within the header: declared source, symbol and targets,
      no comma in the pair, at least one target. */
  ghost predicate RecordWithin(rec: (Key, seq<string>), h: Header) {
    && rec.0.state in h.states && rec.0.symbol in h.alphabet && ',' !in rec.0.state && ',' !in rec.0.symbol
    && rec.1 != [] && forall n | n in rec.1 :: n in h.states
  }

  /** Every record that passes the checks lies within the header. */
  lemma CheckedWithin(line: string, h: Header)
    requires NfaRecord(line, h).Ok?
    ensures RecordWithin(NfaRecord(line, h).value, h)
  {
  }

  /** The table is well formed and holds only entries within the header. */
  ghost predicate MovesWithin(m: Moves, h: Header) {
    match m
    case DfaMoves(d) => Valid(d) && DfaWithin(d, h)
    case NfaMoves(d) => Valid(d) && NfaWithin(d, h)
  }

  /** Entering a record within the header keeps the table within it. */
  lemma ApplyWithin(m: Moves, checked: Result<(Key, seq<string>), BuildError>, h: Header)
    requires MovesWithin(m, h)
    requires checked.Ok? ==> RecordWithin(checked.value, h)
    ensures MovesWithin(Apply(m, checked), h)
  {
    if checked.Ok? && m.NfaMoves? {
      var rec := checked.value;
      var next := NfaAppend(m.nfa, rec);
      forall k | k in next.vals
        ensures && k.state in h.states && k.symbol in h.alphabet && ',' !in k.state && ',' !in k.symbol
                && forall n | n in next.vals[k] :: n in h.states
      {
        if k == rec.0 && k in m.nfa.vals {
          assert next.vals[k] == m.nfa.vals[k] + rec.1;
        }
      }
    }
  }

  /** The table a finished entry hands over is well formed, of the chosen kind, and
      within the header: it holds only accepted records. */
  lemma {:induction false} EntryWithin(m: Moves, lines: seq<string>, h: Header)
    requires MovesWithin(m, h)
    requires Entry(m, lines, h).Some?
    ensures MovesWithin(Entry(m, lines, h).value, h)
    ensures KindOf(Entry(m, lines, h).value) == KindOf(m)
    decreases |lines|
  {
    var line := Strip(lines[0]);
    if Lower(line) != "done" {
      var checked := NfaRecord(line, h);
      if checked.Ok? {
        CheckedWithin(line, h);
      }
      ApplyWithin(m, checked, h);
      SkipUnchanged(m, checked);
      var next := CreatorStep(m, line, h);
      EntryUnfold(m, lines, h);
      EntryWithin(next, lines[1..], h);
    }
  }

  /** The automaton a session describes, as `automaton_data` holds it. */
  function Described(h: Header, m: Moves): Automaton {
    Automaton(KindOf(m), h.alphabet, h.states, Some(h.initial), h.final, Tagged(m))
  }

  /** A session from the accepted alphabet and state answers on: the initial-state
      prompt, the final-state check, then the entry loop. None when the input ends
      before the session completes. */
  function Session(kind: Kind, alphabetAnswer: string, statesAnswer: string, initialAnswers: seq<string>, finalAnswer: string, lines: seq<string>)
    : Option<Result<Automaton, BuildError>>
  {
    var states := Fields(statesAnswer);
    match FirstValid(initialAnswers, s => ValidateStateInStates(s, states), 0)
    case None => None
    case Some((initial, _)) =>
      match SessionHeader(Fields(alphabetAnswer), states, initial, Fields(finalAnswer))
      case Err(e) => Some(Err(e))
      case Ok(h) =>
        match Entry(Start(kind), lines, h)
        case None => None
        case Some(m) => Some(Ok(Described(h, m)))
  }

  /** A session that completes describes a well-formed automaton of the chosen kind
      over the stripped answers, with keys free of commas. */
  lemma SessionWellFormed(kind: Kind, alphabetAnswer: string, statesAnswer: string, initialAnswers: seq<string>, finalAnswer: string, lines: seq<string>)
    ensures var r := Session(kind, alphabetAnswer, statesAnswer, initialAnswers, finalAnswer, lines);
      r.Some? && r.value.Ok? ==>
        && WellFormed(r.value.value) && CommaFreeKeys(r.value.value.transitions) && r.value.value.kind == kind
        && r.value.value.alphabet == Fields(alphabetAnswer) && r.value.value.states == Fields(statesAnswer)
        && r.value.value.final == Fields(finalAnswer)
  {
    var states := Fields(statesAnswer);
    InitialPromptAccepts(initialAnswers, states);
    var first := FirstValid(initialAnswers, s => ValidateStateInStates(s, states), 0);
    if first.Some? {
      var hr := SessionHeader(Fields(alphabetAnswer), states, first.value.0, Fields(finalAnswer));
      if hr.Ok? {
        var h := hr.value;
        var start := Start(kind);
        assert MovesWithin(start, h);
        if Entry(start, lines, h).Some? {
          EntryWithin(start, lines, h);
          match Entry(start, lines, h).value
          case DfaMoves(d) => DfaAutomaton(h, d);
          case NfaMoves(d) => NfaAutomaton(h, d);
        }
      }
    }
  }

  // ---------------------------------------------------------------------------
  // Agreement with the strict builder

  /** Lines the entry loop reads as records: already stripped and not `done`. */
  ghost predicate PlainRecords(records: seq<string>) {
    forall i | 0 <= i < |records| :: Strip(records[i]) == records[i] && Lower(records[i]) != "done"
  }

  /** The line `done` is already stripped, ... */
  lemma DoneStripped()
    ensures Strip("done") == "done"
  {
    StripTrimmed("done");
  }

  /** ... and already lower-case, ... */
  lemma DoneLower()
    ensures Lower("done") == "done"
  {
    var l := Lower("done");
    assert l[0] == 'd' && l[1] == 'o' && l[2] == 'n' && l[3] == 'e';
  }

  /** ... so it ends the entry at once. */
  lemma DoneEnds(m: Moves, h: Header)
    ensures Entry(m, ["done"], h) == Some(m)
  {
    DoneStripped();
    DoneLower();
  }

  /** A plain record line is entered and the loop goes on with the next line. */
  lemma EntryStep(m: Moves, lines: seq<string>, h: Header)
    requires lines != [] && Strip(lines[0]) == lines[0] && Lower(lines[0]) != "done"
    ensures Entry(m, lines, h) == Entry(CreatorStep(m, lines[0], h), lines[1..], h)
  {
  }

  /** A record the strict NFA loop accepts is entered by the creator the same way. */
  lemma NfaStepAgrees(d: Dict<Key, seq<string>>, t: string, h: Header)
    requires NfaStep(d, t, h).Ok?
    ensures CreatorStep(NfaMoves(d), t, h) == NfaMoves(NfaStep(d, t, h).value)
  {
  }

  /** A record the strict DFA loop accepts has one target, so the creator sets the
      pair to it, as the strict loop does. */
  lemma DfaStepAgrees(d: Dict<Key, string>, t: string, h: Header)
    requires DfaStep(d, t, h).Ok?
    ensures CreatorStep(DfaMoves(d), t, h) == DfaMoves(DfaStep(d, t, h).value)
  {
    var rec := DfaRecord(t, h).value;
    DfaRecordAsNfa(t, h);
    assert DfaStep(d, t, h) == Ok(Put(d, rec.0, rec.1));
  }

  /** A DFA record the strict builder accepts passes the NFA checks with one target. */
  lemma DfaRecordAsNfa(t: string, h: Header)
    requires DfaRecord(t, h).Ok?
    ensures NfaRecord(t, h) == Ok((DfaRecord(t, h).value.0, [DfaRecord(t, h).value.1]))
  {
    var f := Fields(t);
    LastOfThree(f);
    assert NfaRecord(t, h).Ok?;
  }

  /** The targets of a three-field record are its last field alone. */
  lemma LastOfThree(f: seq<string>)
    requires |f| == 3
    ensures f[2..] == [f[2]]
  {
  }

  /** The lines after a plain record line are plain too. */
  lemma PlainTail(records: seq<string>)
    requires records != [] && PlainRecords(records)
    ensures Strip(records[0]) == records[0] && Lower(records[0]) != "done"
    ensures PlainRecords(records[1..])
  {
    forall i | 0 <= i < |records[1..]|
      ensures Strip(records[1..][i]) == records[1..][i] && Lower(records[1..][i]) != "done"
    {
      assert records[1..][i] == records[i + 1];
    }
  }

  /** An accepted DFA run accepted its first record and went on from there. */
  lemma DfaFromFirst(d: Dict<Key, string>, records: seq<string>, h: Header)
    requires records != [] && DfaFrom(d, records, h).Ok?
    ensures DfaStep(d, records[0], h).Ok?
    ensures DfaFrom(d, records, h) == DfaFrom(DfaStep(d, records[0], h).value, records[1..], h)
  {
  }

  /** An accepted NFA run accepted its first record and went on from there. */
  lemma NfaFromFirst(d: Dict<Key, seq<string>>, records: seq<string>, h: Header)
    requires records != [] && NfaFrom(d, records, h).Ok?
    ensures NfaStep(d, records[0], h).Ok?
    ensures NfaFrom(d, records, h) == NfaFrom(NfaStep(d, records[0], h).value, records[1..], h)
  {
  }

  /** On records the strict NFA builder accepts, the creator builds the same table. */
  lemma {:induction false} NfaAgrees(d: Dict<Key, seq<string>>, records: seq<string>, h: Header)
    requires PlainRecords(records)
    requires NfaFrom(d, records, h).Ok?
    ensures Entry(NfaMoves(d), records + ["done"], h) == Some(NfaMoves(NfaFrom(d, records, h).value))
    decreases |records|
  {
    var lines := records + ["done"];
    if records == [] {
      assert lines == ["done"];
      DoneEnds(NfaMoves(d), h);
    } else {
      AppendTail(records, ["done"]);
      PlainTail(records);
      EntryStep(NfaMoves(d), lines, h);
      NfaFromFirst(d, records, h);
      var next := NfaStep(d, records[0], h).value;
      NfaStepAgrees(d, records[0], h);
      NfaAgrees(next, records[1..], h);
    }
  }

  /** On records the strict DFA builder accepts (no bad record, no repeated pair), the
      creator builds the same table; it differs only on input the strict builder
      rejects. */
  lemma {:induction false} DfaAgrees(d: Dict<Key, string>, records: seq<string>, h: Header)
    requires PlainRecords(records)
    requires DfaFrom(d, records, h).Ok?
    ensures Entry(DfaMoves(d), records + ["done"], h) == Some(DfaMoves(DfaFrom(d, records, h).value))
    decreases |records|
  {
    var lines := records + ["done"];
    if records == [] {
      assert lines == ["done"];
      DoneEnds(DfaMoves(d), h);
    } else {
      AppendTail(records, ["done"]);
      PlainTail(records);
      EntryStep(DfaMoves(d), lines, h);
      DfaFromFirst(d, records, h);
      var next := DfaStep(d, records[0], h).value;
      DfaStepAgrees(d, records[0], h);
      DfaAgrees(next, records[1..], h);
    }
  }
}
