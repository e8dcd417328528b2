/** The fail-fast builder of main2-0.py, main3-0.py and main_improved.py (the three
    copies are the same code): the header and every record are comma-split and
    stripped, the first bad record ends the build, a DFA rejects a repeated
    `(state, symbol)` pair, and an NFA concatenates the target tuples of a repeated
    pair. */
module StrictBuilder {
  import opened Wrappers
  import opened PyStr
  import opened Dicts
  import opened Validators
  import opened Automata

  /** The header from the `--alphabet`, `--states`, `--initial` and `--final` text. */
  function ReadHeader(alphabetArg: string, statesArg: string, initialArg: string, finalArg: string): (r: Result<Header, BuildError>)
    ensures r.Ok? <==> Strip(initialArg) in Fields(statesArg) && forall f :: f in Fields(finalArg) ==> f in Fields(statesArg)
    ensures r.Ok? ==> r.value == Header(Fields(alphabetArg), Fields(statesArg), Strip(initialArg), Fields(finalArg))
  {
    CheckHeader(Fields(alphabetArg), Fields(statesArg), Strip(initialArg), Fields(finalArg))
  }

  /** One DFA record `state,symbol,next_state`: exactly three stripped fields, then the
      source state, the symbol and the next state are checked, in that order. */
  function DfaRecord(t: string, h: Header): (r: Result<(Key, string), BuildError>)
    ensures r.Ok? <==> |Fields(t)| == 3 && Fields(t)[0] in h.states && Fields(t)[1] in h.alphabet && Fields(t)[2] in h.states
    ensures r.Ok? ==> r.value == (Key(Fields(t)[0], Fields(t)[1]), Fields(t)[2])
  {
    var f := Fields(t);
    if |f| != 3 then Err(MalformedRecord(t))
    else if f[0] !in h.states then Err(UnknownState(t, f[0]))
    else if f[1] !in h.alphabet then Err(UnknownSymbol(t, f[1]))
    else if f[2] !in h.states then Err(UnknownNextState(t, f[2]))
    else Ok((Key(f[0], f[1]), f[2]))
  }

  /** Entering a checked DFA record: a pair already in the table is an error. */
  function DfaInsert(table: Dict<Key, string>, rec: (Key, string)): Result<Dict<Key, string>, BuildError> {
    if rec.0 in table.vals then Err(DuplicateTransition(rec.0.state, rec.0.symbol))
    else Ok(Put(table, rec.0, rec.1))
  }

  /** One iteration of the DFA loop. */
  function DfaStep(table: Dict<Key, string>, t: string, h: Header): Result<Dict<Key, string>, BuildError> {
    var rec :- DfaRecord(t, h);
    DfaInsert(table, rec)
  }

  /** The DFA loop run over `records` from `table`. */
  function DfaFrom(table: Dict<Key, string>, records: seq<string>, h: Header): Result<Dict<Key, string>, BuildError>
    decreases |records|
  {
    if records == [] then Ok(table)
    else
      var next :- DfaStep(table, records[0], h);
      DfaFrom(next, records[1..], h)
  }

  /** The DFA branch of the transition loop. */
  method BuildDfa(records: seq<string>, h: Header) returns (r: Result<Dict<Key, string>, BuildError>)
    ensures r == DfaFrom(Empty(), records, h)
  {
    var transitions: Dict<Key, string> := Empty();
    for i := 0 to |records|
      invariant DfaFrom(Empty(), records, h) == DfaFrom(transitions, records[i..], h)
    {
      assert records[i..][1..] == records[i + 1..];
      var t := records[i];
      var parts := Fields(t);
      if |parts| != 3 {
        return Err(MalformedRecord(t));
      }
      var state, symbol, next := parts[0], parts[1], parts[2];
      if state !in h.states {
        return Err(UnknownState(t, state));
      }
      if symbol !in h.alphabet {
        return Err(UnknownSymbol(t, symbol));
      }
      if next !in h.states {
        return Err(UnknownNextState(t, next));
      }
      if Key(state, symbol) in transitions.vals {
        return Err(DuplicateTransition(state, symbol));
      }
      transitions := Put(transitions, Key(state, symbol), next);
    }
    return Ok(transitions);
  }

  /** One NFA record `state,symbol,next_state1,next_state2,...`: at least three
      stripped fields, then the source state, the symbol and each target in turn. */
  function NfaRecord(t: string, h: Header): (r: Result<(Key, seq<string>), BuildError>)
    ensures r.Ok? <==> |Fields(t)| >= 3 && Fields(t)[0] in h.states && Fields(t)[1] in h.alphabet && forall n :: n in Fields(t)[2..] ==> n in h.states
    ensures r.Ok? ==> r.value == (Key(Fields(t)[0], Fields(t)[1]), Fields(t)[2..])
  {
    var f := Fields(t);
    if |f| < 3 then Err(MalformedRecord(t))
    else if f[0] !in h.states then Err(UnknownState(t, f[0]))
    else if f[1] !in h.alphabet then Err(UnknownSymbol(t, f[1]))
    else
      match FirstOutside(f[2..], h.states)
      case Some(n) => Err(UnknownNextState(t, n))
      case None => Ok((Key(f[0], f[1]), f[2..]))
  }

  /** Entering a checked NFA record: a repeated pair has the new targets appended
      to its tuple, a new pair starts with them. */
  function NfaAppend(table: Dict<Key, seq<string>>, rec: (Key, seq<string>)): Dict<Key, seq<string>> {
    if rec.0 in table.vals then Put(table, rec.0, table.vals[rec.0] + rec.1)
    else Put(table, rec.0, rec.1)
  }

  /** One iteration of the NFA loop. */
  function NfaStep(table: Dict<Key, seq<string>>, t: string, h: Header): Result<Dict<Key, seq<string>>, BuildError> {
    var rec :- NfaRecord(t, h);
    Ok(NfaAppend(table, rec))
  }

  /** The NFA loop run over `records` from `table`. */
  function NfaFrom(table: Dict<Key, seq<string>>, records: seq<string>, h: Header): Result<Dict<Key, seq<string>>, BuildError>
    decreases |records|
  {
    if records == [] then Ok(table)
    else
      var next :- NfaStep(table, records[0], h);
      NfaFrom(next, records[1..], h)
  }

  /** The NFA branch of the transition loop. */
  method BuildNfa(records: seq<string>, h: Header) returns (r: Result<Dict<Key, seq<string>>, BuildError>)
    ensures r == NfaFrom(Empty(), records, h)
  {
    var transitions: Dict<Key, seq<string>> := Empty();
    for i := 0 to |records|
      invariant NfaFrom(Empty(), records, h) == NfaFrom(transitions, records[i..], h)
    {
      assert records[i..][1..] == records[i + 1..];
      var t := records[i];
      var parts := Fields(t);
      if |parts| < 3 {
        return Err(MalformedRecord(t));
      }
      var state, symbol, nexts := parts[0], parts[1], parts[2..];
      if state !in h.states {
        return Err(UnknownState(t, state));
      }
      if symbol !in h.alphabet {
        return Err(UnknownSymbol(t, symbol));
      }
      var outside := FindOutside(nexts, h.states);
      if outside.Some? {
        return Err(UnknownNextState(t, outside.value));
      }
      if Key(state, symbol) in transitions.vals {
        transitions := Put(transitions, Key(state, symbol), transitions.vals[Key(state, symbol)] + nexts);
      } else {
        transitions := Put(transitions, Key(state, symbol), nexts);
      }
    }
    return Ok(transitions);
  }

  /** The whole definition step of `main()`: the header checks, then the loop for
      the requested kind; the result is what is handed to `DFA(...)` / `NFA(...)`. */
  function Build(kind: Kind, alphabetArg: string, statesArg: string, initialArg: string, finalArg: string, records: seq<string>): Result<Automaton, BuildError> {
    var h :- ReadHeader(alphabetArg, statesArg, initialArg, finalArg);
    if kind == Dfa then
      var table :- DfaFrom(Empty(), records, h);
      Ok(Automaton(Dfa, h.alphabet, h.states, Some(h.initial), h.final, Tagged(DfaMoves(table))))
    else
      var table :- NfaFrom(Empty(), records, h);
      Ok(Automaton(Nfa, h.alphabet, h.states, Some(h.initial), h.final, Tagged(NfaMoves(table))))
  }

  /** The argument processing of `main()`: split and strip the header arguments,
      then check the initial state and each final state in turn. */
  method ReadArgs(alphabetArg: string, statesArg: string, initialArg: string, finalArg: string)
    returns (r: Result<Header, BuildError>)
    ensures r == ReadHeader(alphabetArg, statesArg, initialArg, finalArg)
  {
    var alphabet := Fields(alphabetArg);
    var states := Fields(statesArg);
    var initial := Strip(initialArg);
    var final := Fields(finalArg);
    if initial !in states {
      return Err(InitialNotInStates(initial));
    }
    var outside := FindOutside(final, states);
    if outside.Some? {
      return Err(FinalNotInStates(outside.value));
    }
    return Ok(Header(alphabet, states, initial, final));
  }

  /** `main()` from argument processing to the constructor call. */
  method Create(kind: Kind, alphabetArg: string, statesArg: string, initialArg: string, finalArg: string, records: seq<string>)
    returns (r: Result<Automaton, BuildError>)
    ensures r == Build(kind, alphabetArg, statesArg, initialArg, finalArg, records)
  {
    var h := ReadArgs(alphabetArg, statesArg, initialArg, finalArg);
    if h.Err? {
      return Err(h.error);
    }
    if kind == Dfa {
      var table := BuildDfa(records, h.value);
      if table.Err? {
        return Err(table.error);
      }
      return Ok(Automaton(Dfa, h.value.alphabet, h.value.states, Some(h.value.initial), h.value.final, Tagged(DfaMoves(table.value))));
    } else {
      var table := BuildNfa(records, h.value);
      if table.Err? {
        return Err(table.error);
      }
      return Ok(Automaton(Nfa, h.value.alphabet, h.value.states, Some(h.value.initial), h.value.final, Tagged(NfaMoves(table.value))));
    }
  }

  // ---------------------------------------------------------------------------
  // Properties of the DFA loop

  /** The loop over `a + b` is the loop over `a` followed by the loop over `b`: once
      a record fails, the records after it are never looked at. */
  lemma {:induction false} DfaFromAppend(table: Dict<Key, string>, a: seq<string>, b: seq<string>, h: Header)
    ensures DfaFrom(table, a, h).Err? ==> DfaFrom(table, a + b, h) == DfaFrom(table, a, h)
    ensures DfaFrom(table, a, h).Ok? ==> DfaFrom(table, a + b, h) == DfaFrom(DfaFrom(table, a, h).value, b, h)
    decreases |a|
  {
    if a == [] {
      assert a + b == b;
    } else {
      assert (a + b)[0] == a[0] && (a + b)[1..] == a[1..] + b;
      var s := DfaStep(table, a[0], h);
      if s.Ok? {
        DfaFromAppend(s.value, a[1..], b, h);
      }
    }
  }

  /** The DFA record check as a value. */
  function DfaCheck(h: Header): string -> Result<(Key, string), BuildError> {
    t => DfaRecord(t, h)
  }

  /** Every record passes the DFA record checks. */
  ghost predicate DfaRecordsOk(records: seq<string>, h: Header) {
    AllOk(DfaCheck(h), records)
  }

  /** The checked form of records that all pass. */
  ghost function DfaParsed(records: seq<string>, h: Header): seq<(Key, string)>
    requires DfaRecordsOk(records, h)
  {
    AllChecked(DfaCheck(h), records)
  }

  /** The DFA loop over checked records. */
  function DfaFold(table: Dict<Key, string>, recs: seq<(Key, string)>): Result<Dict<Key, string>, BuildError>
    decreases |recs|
  {
    if recs == [] then Ok(table)
    else
      var next :- DfaInsert(table, recs[0]);
      DfaFold(next, recs[1..])
  }

  /** No record names a pair already in the table or named by another record. */
  ghost predicate FreshPairs<V>(table: Dict<Key, V>, recs: seq<(Key, V)>) {
    && (forall i | 0 <= i < |recs| :: recs[i].0 !in table.vals)
    && (forall i, j | 0 <= i < j < |recs| :: recs[i].0 != recs[j].0)
  }

  /** The DFA loop fails exactly when some record fails its checks, and otherwise is
      the loop over the checked records. */
  lemma {:induction false} DfaFromFold(table: Dict<Key, string>, records: seq<string>, h: Header)
    ensures !DfaRecordsOk(records, h) ==> DfaFrom(table, records, h).Err?
    ensures DfaRecordsOk(records, h) ==> DfaFrom(table, records, h) == DfaFold(table, DfaParsed(records, h))
    decreases |records|
  {
    if records != [] {
      var first := DfaRecord(records[0], h);
      assert DfaCheck(h)(records[0]) == first;
      if first.Ok? {
        var s := DfaInsert(table, first.value);
        if s.Ok? {
          assert DfaFrom(table, records, h) == DfaFrom(s.value, records[1..], h);
          DfaFromFold(s.value, records[1..], h);
        } else {
          assert DfaFrom(table, records, h) == Err(s.error);
        }
        if DfaRecordsOk(records, h) {
          var recs := DfaParsed(records, h);
          assert recs[0] == first.value && recs[1..] == DfaParsed(records[1..], h);
        }
      } else {
        assert DfaFrom(table, records, h) == Err(first.error);
      }
    }
  }

  /** The DFA loop over checked records succeeds exactly when their pairs are fresh. */
  lemma {:induction false} DfaFoldOk(table: Dict<Key, string>, recs: seq<(Key, string)>)
    ensures DfaFold(table, recs).Ok? <==> FreshPairs(table, recs)
    decreases |recs|
  {
    if recs != [] {
      var rest := recs[1..];
      if recs[0].0 !in table.vals {
        var next := Put(table, recs[0].0, recs[0].1);
        DfaFoldOk(next, rest);
        if FreshPairs(table, recs) {
          forall i | 0 <= i < |rest| ensures rest[i].0 !in next.vals {
            assert rest[i] == recs[i + 1];
          }
          forall i, j | 0 <= i < j < |rest| ensures rest[i].0 != rest[j].0 {
            assert rest[i] == recs[i + 1] && rest[j] == recs[j + 1];
          }
        }
        if FreshPairs(next, rest) {
          forall i | 0 <= i < |recs| ensures recs[i].0 !in table.vals {
            if i > 0 { assert recs[i] == rest[i - 1]; }
          }
          forall i, j | 0 <= i < j < |recs| ensures recs[i].0 != recs[j].0 {
            assert recs[j] == rest[j - 1];
            if i > 0 { assert recs[i] == rest[i - 1]; }
          }
        }
      }
    }
  }

  /** ... then it keeps the table well formed, ... */
  lemma {:induction false} DfaFoldValid(table: Dict<Key, string>, recs: seq<(Key, string)>)
    requires Valid(table) && DfaFold(table, recs).Ok?
    ensures Valid(DfaFold(table, recs).value)
    decreases |recs|
  {
    if recs != [] {
      assert recs[0].0 !in table.vals;
      var next := Put(table, recs[0].0, recs[0].1);
      assert DfaFold(table, recs) == DfaFold(next, recs[1..]);
      DfaFoldValid(next, recs[1..]);
    }
  }

  /** ... appends the pairs in record order, ... */
  lemma {:induction false} DfaFoldKeys(table: Dict<Key, string>, recs: seq<(Key, string)>)
    requires DfaFold(table, recs).Ok?
    ensures DfaFold(table, recs).value.keys == table.keys + PairsOf(recs)
    decreases |recs|
  {
    if recs == [] {
      assert table.keys + [] == table.keys;
    } else {
      assert recs[0].0 !in table.vals;
      var next := Put(table, recs[0].0, recs[0].1);
      assert DfaFold(table, recs) == DfaFold(next, recs[1..]);
      DfaFoldKeys(next, recs[1..]);
      var a, b, c := table.keys, [recs[0].0], PairsOf(recs[1..]);
      assert PairsOf(recs) == b + c;
      assert (a + b) + c == a + (b + c);
    }
  }

  /** ... keeps the old entries and maps each record's pair to its target. */
  lemma {:induction false} DfaFoldValues(table: Dict<Key, string>, recs: seq<(Key, string)>)
    requires DfaFold(table, recs).Ok?
    ensures forall k | k in table.vals :: k in DfaFold(table, recs).value.vals && DfaFold(table, recs).value.vals[k] == table.vals[k]
    ensures forall i | 0 <= i < |recs| :: recs[i].0 in DfaFold(table, recs).value.vals && DfaFold(table, recs).value.vals[recs[i].0] == recs[i].1
    decreases |recs|
  {
    if recs != [] {
      var next := Put(table, recs[0].0, recs[0].1);
      DfaFoldValues(next, recs[1..]);
      forall i | 0 <= i < |recs| ensures recs[i].0 in DfaFold(table, recs).value.vals && DfaFold(table, recs).value.vals[recs[i].0] == recs[i].1 {
        if i > 0 { assert recs[i] == recs[1..][i - 1]; }
      }
    }
  }

  /** The DFA loop from an empty table (lines 137-157 of main2-0.py): it fails when
      a record fails its checks; otherwise it succeeds exactly when no two records
      name the same pair, and the table then lists the pairs in record order and
      maps each to its own record's target. */
  lemma DfaBuildSpec(records: seq<string>, h: Header)
    ensures !DfaRecordsOk(records, h) ==> DfaFrom(Empty(), records, h).Err?
    ensures DfaRecordsOk(records, h) ==>
      var recs := DfaParsed(records, h);
      && |recs| == |records|
      && (forall i | 0 <= i < |records| :: DfaRecord(records[i], h) == Ok(recs[i]))
      && (DfaFrom(Empty(), records, h).Ok? <==> forall i, j | 0 <= i < j < |recs| :: recs[i].0 != recs[j].0)
    ensures DfaRecordsOk(records, h) && DfaFrom(Empty(), records, h).Ok? ==>
      var recs, table := DfaParsed(records, h), DfaFrom(Empty(), records, h).value;
      && Valid(table)
      && table.keys == PairsOf(recs)
      && forall i | 0 <= i < |recs| :: recs[i].0 in table.vals && table.vals[recs[i].0] == recs[i].1
  {
    var e: Dict<Key, string> := Empty();
    DfaFromFold(e, records, h);
    if DfaRecordsOk(records, h) {
      var recs := DfaParsed(records, h);
      DfaParsedSpec(records, h);
      DfaFoldOk(e, recs);
      if DfaFold(e, recs).Ok? {
        DfaFoldValid(e, recs);
        DfaFoldKeys(e, recs);
        assert [] + PairsOf(recs) == PairsOf(recs);
        DfaFoldValues(e, recs);
      }
    }
  }

  /** The checked form of record `i` is record `i` checked. */
  lemma DfaParsedSpec(records: seq<string>, h: Header)
    requires DfaRecordsOk(records, h)
    ensures |DfaParsed(records, h)| == |records|
    ensures forall i | 0 <= i < |records| :: DfaRecord(records[i], h) == Ok(DfaParsed(records, h)[i])
  {
    AllCheckedSpec(DfaCheck(h), records);
    forall i | 0 <= i < |records| ensures DfaRecord(records[i], h) == Ok(DfaParsed(records, h)[i]) {
      assert DfaCheck(h)(records[i]) == DfaRecord(records[i], h);
    }
  }

  /** Two records naming the same pair make the DFA build fail. */
  lemma DfaDuplicateRejected(records: seq<string>, h: Header, i: nat, j: nat)
    requires i < j < |records|
    requires DfaRecord(records[i], h).Ok? && DfaRecord(records[j], h).Ok?
    requires DfaRecord(records[i], h).value.0 == DfaRecord(records[j], h).value.0
    ensures DfaFrom(Empty(), records, h).Err?
  {
    DfaBuildSpec(records, h);
    if DfaRecordsOk(records, h) {
      var recs := DfaParsed(records, h);
      assert recs[i].0 == recs[j].0;
    }
  }

  /** The record `s,a,n` with `s` a state and `a` a symbol but `n` not a state is
      reported as an unknown next state, whatever records follow it. */
  lemma UnknownNextStateReported(t: string, rest: seq<string>, h: Header)
    requires |Fields(t)| == 3 && Fields(t)[0] in h.states && Fields(t)[1] in h.alphabet && Fields(t)[2] !in h.states
    ensures DfaFrom(Empty(), [t] + rest, h) == Err(UnknownNextState(t, Fields(t)[2]))
  {
    var records := [t] + rest;
    assert records[0] == t;
    var e: Dict<Key, string> := Empty();
    assert DfaRecord(t, h) == Err(UnknownNextState(t, Fields(t)[2]));
    assert DfaStep(e, t, h) == Err(UnknownNextState(t, Fields(t)[2]));
  }

  // ---------------------------------------------------------------------------
  // Properties of the NFA loop

  /** The loop over `a + b` is the loop over `a` followed by the loop over `b`. */
  lemma {:induction false} NfaFromAppend(table: Dict<Key, seq<string>>, a: seq<string>, b: seq<string>, h: Header)
    ensures NfaFrom(table, a, h).Err? ==> NfaFrom(table, a + b, h) == NfaFrom(table, a, h)
    ensures NfaFrom(table, a, h).Ok? ==> NfaFrom(table, a + b, h) == NfaFrom(NfaFrom(table, a, h).value, b, h)
    decreases |a|
  {
    if a == [] {
      assert a + b == b;
    } else {
      assert (a + b)[0] == a[0] && (a + b)[1..] == a[1..] + b;
      var s := NfaStep(table, a[0], h);
      if s.Ok? {
        NfaFromAppend(s.value, a[1..], b, h);
      }
    }
  }

  /** The NFA record check as a value. */
  function NfaCheck(h: Header): string -> Result<(Key, seq<string>), BuildError> {
    t => NfaRecord(t, h)
  }

  /** Every record passes the NFA record checks. */
  ghost predicate NfaRecordsOk(records: seq<string>, h: Header) {
    AllOk(NfaCheck(h), records)
  }

  /** The checked form of records that all pass. */
  ghost function NfaParsed(records: seq<string>, h: Header): seq<(Key, seq<string>)>
    requires NfaRecordsOk(records, h)
  {
    AllChecked(NfaCheck(h), records)
  }

  /** The NFA loop over checked records. */
  function NfaFold(table: Dict<Key, seq<string>>, recs: seq<(Key, seq<string>)>): Dict<Key, seq<string>>
    decreases |recs|
  {
    if recs == [] then table else NfaFold(NfaAppend(table, recs[0]), recs[1..])
  }

  /** The targets of every checked record for pair `k`, concatenated in record order
      with repetitions kept. */
  function Collected(recs: seq<(Key, seq<string>)>, k: Key): seq<string> {
    if recs == [] then []
    else (if recs[0].0 == k then recs[0].1 else []) + Collected(recs[1..], k)
  }

  /** The NFA loop fails exactly when some record fails its checks, and otherwise is
      the loop over the checked records. */
  lemma {:induction false} NfaFromFold(table: Dict<Key, seq<string>>, records: seq<string>, h: Header)
    ensures NfaFrom(table, records, h).Ok? <==> NfaRecordsOk(records, h)
    ensures NfaRecordsOk(records, h) ==> NfaFrom(table, records, h) == Ok(NfaFold(table, NfaParsed(records, h)))
    decreases |records|
  {
    if records != [] {
      var first := NfaRecord(records[0], h);
      assert NfaCheck(h)(records[0]) == first;
      if first.Ok? {
        var next := NfaAppend(table, first.value);
        assert NfaFrom(table, records, h) == NfaFrom(next, records[1..], h);
        NfaFromFold(next, records[1..], h);
        if NfaRecordsOk(records, h) {
          var recs := NfaParsed(records, h);
          assert recs[0] == first.value && recs[1..] == NfaParsed(records[1..], h);
          assert NfaFold(table, recs) == NfaFold(next, recs[1..]);
        }
      } else {
        assert NfaFrom(table, records, h) == Err(first.error);
      }
    }
  }

  /** The NFA loop over checked records keeps the table well formed, ... */
  lemma {:induction false} NfaFoldValid(table: Dict<Key, seq<string>>, recs: seq<(Key, seq<string>)>)
    requires Valid(table)
    ensures Valid(NfaFold(table, recs))
    decreases |recs|
  {
    if recs != [] {
      NfaFoldValid(NfaAppend(table, recs[0]), recs[1..]);
    }
  }

  /** ... ends with the old pairs and those the records name, ... */
  lemma {:induction false} NfaFoldKeys(table: Dict<Key, seq<string>>, recs: seq<(Key, seq<string>)>)
    ensures forall k :: k in NfaFold(table, recs).vals <==> k in table.vals || k in PairsOf(recs)
    decreases |recs|
  {
    if recs != [] {
      NfaFoldKeys(NfaAppend(table, recs[0]), recs[1..]);
      assert PairsOf(recs) == [recs[0].0] + PairsOf(recs[1..]);
    }
  }

  /** ... and maps each pair to its old targets followed by the targets of all its
      records, concatenated in record order. */
  lemma {:induction false} NfaFoldGet(table: Dict<Key, seq<string>>, recs: seq<(Key, seq<string>)>, k: Key)
    ensures Get(NfaFold(table, recs), k, []) == Get(table, k, []) + Collected(recs, k)
    decreases |recs|
  {
    var a := Get(table, k, []);
    if recs == [] {
      assert a + [] == a;
    } else {
      var next := NfaAppend(table, recs[0]);
      NfaFoldGet(next, recs[1..], k);
      var b, c := (if recs[0].0 == k then recs[0].1 else []), Collected(recs[1..], k);
      assert Get(next, k, []) == a + b by {
        if recs[0].0 != k { assert a + [] == a; } else { assert [] + b == b; }
      }
      assert (a + b) + c == a + (b + c);
    }
  }

  /** The checked form of record `i` is record `i` checked. */
  lemma NfaParsedSpec(records: seq<string>, h: Header)
    requires NfaRecordsOk(records, h)
    ensures |NfaParsed(records, h)| == |records|
    ensures forall i | 0 <= i < |records| :: NfaRecord(records[i], h) == Ok(NfaParsed(records, h)[i])
  {
    AllCheckedSpec(NfaCheck(h), records);
    forall i | 0 <= i < |records| ensures NfaRecord(records[i], h) == Ok(NfaParsed(records, h)[i]) {
      assert NfaCheck(h)(records[i]) == NfaRecord(records[i], h);
    }
  }

  /** The NFA loop from an empty table (lines 158-181 of main2-0.py): it succeeds
      exactly when every record passes its checks, and then maps the pairs named by
      the records, and only those, each to the concatenation of the targets of all its
      records in record order. */
  lemma NfaBuildSpec(records: seq<string>, h: Header)
    ensures NfaFrom(Empty(), records, h).Ok? <==> NfaRecordsOk(records, h)
    ensures NfaRecordsOk(records, h) ==>
      var recs := NfaParsed(records, h);
      && |recs| == |records|
      && (forall i | 0 <= i < |records| :: NfaRecord(records[i], h) == Ok(recs[i]))
      && Valid(NfaFrom(Empty(), records, h).value)
      && (forall k :: k in NfaFrom(Empty(), records, h).value.vals <==> k in PairsOf(recs))
      && (forall k | k in PairsOf(recs) :: NfaFrom(Empty(), records, h).value.vals[k] == Collected(recs, k))
  {
    var e: Dict<Key, seq<string>> := Empty();
    NfaFromFold(e, records, h);
    if NfaRecordsOk(records, h) {
      var recs := NfaParsed(records, h);
      NfaParsedSpec(records, h);
      NfaFoldValid(e, recs);
      NfaFoldKeys(e, recs);
      forall k | k in PairsOf(recs) ensures NfaFold(e, recs).vals[k] == Collected(recs, k) {
        NfaFoldGet(e, recs, k);
      }
    }
  }

  // ---------------------------------------------------------------------------
  // Properties of a whole build

  /** The DFA loop keeps a table well formed and within the header. */
  lemma {:induction false} DfaFromWithin(table: Dict<Key, string>, records: seq<string>, h: Header)
    requires Valid(table) && DfaWithin(table, h) && DfaFrom(table, records, h).Ok?
    ensures Valid(DfaFrom(table, records, h).value) && DfaWithin(DfaFrom(table, records, h).value, h)
    decreases |records|
  {
    if records != [] {
      var rec := DfaRecord(records[0], h).value;
      var next := Put(table, rec.0, rec.1);
      assert DfaFrom(table, records, h) == DfaFrom(next, records[1..], h);
      DfaFromWithin(next, records[1..], h);
    }
  }

  /** The NFA loop keeps a table well formed and within the header. */
  lemma {:induction false} NfaFromWithin(table: Dict<Key, seq<string>>, records: seq<string>, h: Header)
    requires Valid(table) && NfaWithin(table, h) && NfaFrom(table, records, h).Ok?
    ensures Valid(NfaFrom(table, records, h).value) && NfaWithin(NfaFrom(table, records, h).value, h)
    decreases |records|
  {
    if records != [] {
      var rec := NfaRecord(records[0], h).value;
      var next := NfaAppend(table, rec);
      assert NfaFrom(table, records, h) == NfaFrom(next, records[1..], h);
      forall k | k in next.vals
        ensures && k.state in h.states && k.symbol in h.alphabet && ',' !in k.state && ',' !in k.symbol
                && forall n | n in next.vals[k] :: n in h.states
      {
        if k == rec.0 && k in table.vals {
          assert next.vals[k] == table.vals[k] + rec.1;
        }
      }
      NfaFromWithin(next, records[1..], h);
    }
  }

  /** A build fails with the header's error when the header is rejected; a build
      that succeeds hands over the stripped header, a well-formed automaton of the
      requested kind whose keys hold no comma, with each value one state name for a
      DFA and a tuple of names for an NFA. */
  lemma BuildSpec(kind: Kind, alphabetArg: string, statesArg: string, initialArg: string, finalArg: string, records: seq<string>)
    ensures ReadHeader(alphabetArg, statesArg, initialArg, finalArg).Err? ==>
      Build(kind, alphabetArg, statesArg, initialArg, finalArg, records) == Err(ReadHeader(alphabetArg, statesArg, initialArg, finalArg).error)
    ensures Build(kind, alphabetArg, statesArg, initialArg, finalArg, records).Ok? ==>
      var a := Build(kind, alphabetArg, statesArg, initialArg, finalArg, records).value;
      && a.kind == kind
      && a.alphabet == Fields(alphabetArg) && a.states == Fields(statesArg)
      && a.initial == Some(Strip(initialArg)) && a.final == Fields(finalArg)
      && WellFormed(a)
      && CommaFreeKeys(a.transitions)
      && forall k | k in a.transitions.vals :: a.transitions.vals[k].One? <==> kind == Dfa
  {
    var hr := ReadHeader(alphabetArg, statesArg, initialArg, finalArg);
    if hr.Ok? {
      var h := hr.value;
      if kind == Dfa {
        var e: Dict<Key, string> := Empty();
        var r := DfaFrom(e, records, h);
        if r.Ok? {
          DfaFromWithin(e, records, h);
          DfaAutomaton(h, r.value);
        }
      } else {
        var e: Dict<Key, seq<string>> := Empty();
        var r := NfaFrom(e, records, h);
        if r.Ok? {
          NfaFromWithin(e, records, h);
          NfaAutomaton(h, r.value);
        }
      }
    }
  }
}
