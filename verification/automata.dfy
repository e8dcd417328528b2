/** The automaton definition shared by every reader: the record the tools hand to
    the external `DFA`/`NFA` constructors, the transition tables the builders fill,
    the build errors that stand in for `sys.exit(1)`, and the field splitting of
    comma-separated command-line text. */
module Automata {
  import opened Wrappers
  import opened PyStr
  import opened Dicts
  import opened Validators

  datatype Kind = Dfa | Nfa

  /** A transition-table key: the Python tuple `(state, symbol)`. */
  datatype Key = Key(state: string, symbol: string)

  /** A transition-table value as Python holds it: one state name (DFA tables, a
      JSON string) or a tuple of state names (NFA tables, a JSON list). */
  datatype Target = One(state: string) | Many(states: seq<string>)

  /** A transition table tagged with its kind, as the builders fill it. */
  datatype Moves = DfaMoves(dfa: Dict<Key, string>) | NfaMoves(nfa: Dict<Key, seq<string>>)

  /** The fields passed to `DFA(...)` / `NFA(...)`; `initial` is None when a DOT
      file has no `null ->` line. */
  datatype Automaton = Automaton(
    kind: Kind,
    alphabet: seq<string>,
    states: seq<string>,
    initial: Option<string>,
    final: seq<string>,
    transitions: Dict<Key, Target>)

  /** The reasons a build stops; each is one `print(...); sys.exit(1)` of the source. */
  datatype BuildError =
    | InitialNotInStates(initial: string)
    | FinalNotInStates(final: string)
    | MalformedRecord(record: string)
    | UnknownState(record: string, state: string)
    | UnknownSymbol(record: string, symbol: string)
    | UnknownNextState(record: string, next: string)
    | DuplicateTransition(state: string, symbol: string)
    | InvalidTransition(record: string)

  /** The declared alphabet, states, initial state and final states of a build. */
  datatype Header = Header(alphabet: seq<string>, states: seq<string>, initial: string, final: seq<string>)

  /** The checks every builder makes before it reads a transition: the initial state,
      then each final state in turn, must be a declared state. */
  function CheckHeader(alphabet: seq<string>, states: seq<string>, initial: string, final: seq<string>): (r: Result<Header, BuildError>)
    ensures r.Ok? <==> initial in states && forall f :: f in final ==> f in states
    ensures r.Ok? ==> r.value == Header(alphabet, states, initial, final)
    ensures initial !in states ==> r == Err(InitialNotInStates(initial))
    ensures initial in states && r.Err? ==>
      && r.error.FinalNotInStates?
      && r.error.final !in states
      && exists i :: 0 <= i < |final| && final[i] == r.error.final && forall j :: 0 <= j < i ==> final[j] in states
  {
    if initial !in states then Err(InitialNotInStates(initial))
    else
      match FirstOutside(final, states)
      case Some(f) => Err(FinalNotInStates(f))
      case None => Ok(Header(alphabet, states, initial, final))
  }

  /** A transition value names only declared states. */
  predicate TargetWithin(t: Target, states: seq<string>) {
    match t
    case One(s) => s in states
    case Many(ss) => forall s :: s in ss ==> s in states
  }

  /** What every successful build guarantees of the record it hands to the library:
      the initial and final states are declared, and each transition starts at a
      declared state, reads a declared symbol and leads to declared states. */
  ghost predicate WellFormed(a: Automaton) {
    && Valid(a.transitions)
    && (a.initial.Some? ==> a.initial.value in a.states)
    && (forall f :: f in a.final ==> f in a.states)
    && (forall k :: k in a.transitions.vals ==>
          k.state in a.states && k.symbol in a.alphabet && TargetWithin(a.transitions.vals[k], a.states))
  }

  function KindOf(m: Moves): Kind {
    if m.DfaMoves? then Dfa else Nfa
  }

  /** The table with each value as Python stores it: a name for a DFA, a tuple for an NFA. */
  function Tagged(m: Moves): (r: Dict<Key, Target>)
    ensures m.DfaMoves? ==> r.keys == m.dfa.keys && forall k :: k in r.vals <==> k in m.dfa.vals
    ensures m.NfaMoves? ==> r.keys == m.nfa.keys && forall k :: k in r.vals <==> k in m.nfa.vals
    ensures m.DfaMoves? ==> forall k :: k in m.dfa.vals ==> r.vals[k] == One(m.dfa.vals[k])
    ensures m.NfaMoves? ==> forall k :: k in m.nfa.vals ==> r.vals[k] == Many(m.nfa.vals[k])
  {
    match m
    case DfaMoves(d) => MapValues(d, (s: string) => One(s))
    case NfaMoves(d) => MapValues(d, (ts: seq<string>) => Many(ts))
  }

  /** Neither the state nor the symbol of `k` holds a comma. */
  predicate CommaFree(k: Key) {
    ',' !in k.state && ',' !in k.symbol
  }

  /** Every state and symbol named in a key of `d` is free of commas. */
  ghost predicate CommaFreeKeys<V>(d: Dict<Key, V>) {
    forall k :: k in d.vals ==> CommaFree(k)
  }

  /** `tuple(s.strip() for s in pieces)` */
  function StripEach(pieces: seq<string>): (r: seq<string>)
    ensures |r| == |pieces|
    ensures forall i :: 0 <= i < |r| ==> r[i] == Strip(pieces[i])
  {
    if pieces == [] then [] else [Strip(pieces[0])] + StripEach(pieces[1..])
  }

  /** Stripping pieces that have no comma leaves them without one. */
  lemma StripEachCommaFree(pieces: seq<string>)
    requires forall p :: p in pieces ==> ',' !in p
    ensures forall f :: f in StripEach(pieces) ==> ',' !in f
  {
    var r := StripEach(pieces);
    forall f | f in r ensures ',' !in f {
      var i :| 0 <= i < |r| && r[i] == f;
      assert pieces[i] in pieces;
      if ',' in f {
        StripChars(pieces[i], ',');
      }
    }
  }

  /** `tuple(s.strip() for s in text.split(','))`: the comma-separated fields of
      `text`, each stripped of surrounding whitespace. */
  function Fields(text: string): (r: seq<string>)
    ensures |r| == |Split(text, ",")| >= 1
    ensures forall i :: 0 <= i < |r| ==> r[i] == Strip(Split(text, ",")[i])
    ensures forall f :: f in r ==> ',' !in f
  {
    SplitPiecesAvoidChar(text, ',');
    StripEachCommaFree(Split(text, ","));
    StripEach(Split(text, ","))
  }

  /** `tuple(text.split(','))`: the comma-separated fields of `text`, verbatim. */
  function RawFields(text: string): (r: seq<string>)
    ensures |r| >= 1
    ensures forall f :: f in r ==> ',' !in f
    ensures Join(r, ",") == text
  {
    SplitPiecesAvoidChar(text, ',');
    JoinSplit(text, ",");
    Split(text, ",")
  }

  // Records that all pass their checks

  /** Every record passes `check`. */
  ghost predicate AllOk<R>(check: string -> Result<R, BuildError>, records: seq<string>) {
    records == [] || (check(records[0]).Ok? && AllOk(check, records[1..]))
  }

  /** The checked form of records that all pass `check`. */
  ghost function AllChecked<R>(check: string -> Result<R, BuildError>, records: seq<string>): seq<R>
    requires AllOk(check, records)
  {
    if records == [] then [] else [check(records[0]).value] + AllChecked(check, records[1..])
  }

  /** The checked form of record `i` is record `i` checked. */
  lemma {:induction false} AllCheckedSpec<R>(check: string -> Result<R, BuildError>, records: seq<string>)
    requires AllOk(check, records)
    ensures |AllChecked(check, records)| == |records|
    ensures forall i | 0 <= i < |records| :: check(records[i]) == Ok(AllChecked(check, records)[i])
    decreases |records|
  {
    if records != [] {
      AllCheckedSpec(check, records[1..]);
      forall i | 0 <= i < |records| ensures check(records[i]) == Ok(AllChecked(check, records)[i]) {
        if i > 0 {
          assert records[i] == records[1..][i - 1];
        }
      }
    }
  }

  /** The pairs of checked records, in record order. */
  function PairsOf<V>(recs: seq<(Key, V)>): seq<Key> {
    if recs == [] then [] else [recs[0].0] + PairsOf(recs[1..])
  }

  /** Every entry of a table starts at a declared state, reads a declared symbol and
      leads to a declared state, and no key holds a comma. */
  ghost predicate DfaWithin(table: Dict<Key, string>, h: Header) {
    forall k | k in table.vals ::
      k.state in h.states && k.symbol in h.alphabet && table.vals[k] in h.states && ',' !in k.state && ',' !in k.symbol
  }

  /** The same for the target tuples of an NFA table. */
  ghost predicate NfaWithin(table: Dict<Key, seq<string>>, h: Header) {
    forall k | k in table.vals ::
      && k.state in h.states && k.symbol in h.alphabet && ',' !in k.state && ',' !in k.symbol
      && forall n | n in table.vals[k] :: n in h.states
  }

  /** A DFA table that is well formed and within an accepted header makes a
      well-formed automaton whose values are all single state names. */
  lemma DfaAutomaton(h: Header, table: Dict<Key, string>)
    requires h.initial in h.states && forall f | f in h.final :: f in h.states
    requires Valid(table) && DfaWithin(table, h)
    ensures var a := Automaton(Dfa, h.alphabet, h.states, Some(h.initial), h.final, Tagged(DfaMoves(table)));
      && WellFormed(a) && CommaFreeKeys(a.transitions)
      && forall k | k in a.transitions.vals :: a.transitions.vals[k].One?
  {
    var t := Tagged(DfaMoves(table));
    assert forall k | k in t.vals :: t.vals[k] == One(table.vals[k]);
  }

  /** The same for an NFA table, whose values are all tuples. */
  lemma NfaAutomaton(h: Header, table: Dict<Key, seq<string>>)
    requires h.initial in h.states && forall f | f in h.final :: f in h.states
    requires Valid(table) && NfaWithin(table, h)
    ensures var a := Automaton(Nfa, h.alphabet, h.states, Some(h.initial), h.final, Tagged(NfaMoves(table)));
      && WellFormed(a) && CommaFreeKeys(a.transitions)
      && forall k | k in a.transitions.vals :: a.transitions.vals[k].Many?
  {
    var t := Tagged(NfaMoves(table));
    assert forall k | k in t.vals :: t.vals[k] == Many(table.vals[k]);
  }

  /** Every record passes `check` exactly when each one does. */
  lemma {:induction false} AllOkIndexed<R>(check: string -> Result<R, BuildError>, records: seq<string>)
    ensures AllOk(check, records) <==> forall i | 0 <= i < |records| :: check(records[i]).Ok?
    decreases |records|
  {
    if records != [] {
      AllOkIndexed(check, records[1..]);
      if forall i | 0 <= i < |records| :: check(records[i]).Ok? {
        forall i | 0 <= i < |records[1..]| ensures check(records[1..][i]).Ok? {
          assert records[1..][i] == records[i + 1];
        }
      }
      if AllOk(check, records) {
        forall i | 0 <= i < |records| ensures check(records[i]).Ok? {
          if i > 0 { assert records[i] == records[1..][i - 1]; }
        }
      }
    }
  }

  /** The `i`-th pair is the pair of the `i`-th record. */
  lemma {:induction false} PairsOfIndex<V>(recs: seq<(Key, V)>)
    ensures |PairsOf(recs)| == |recs|
    ensures forall i | 0 <= i < |recs| :: PairsOf(recs)[i] == recs[i].0
    decreases |recs|
  {
    if recs != [] {
      PairsOfIndex(recs[1..]);
      forall i | 0 <= i < |recs| ensures PairsOf(recs)[i] == recs[i].0 {
        if i > 0 { assert recs[i] == recs[1..][i - 1]; }
      }
    }
  }
}
