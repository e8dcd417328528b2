/** The builder of main.py: the header and every record are split on `,` and never
    stripped, a DFA record's memberships are checked together, and a later record
    for a `(state, symbol)` pair replaces the earlier entry for both kinds. */
module LooseBuilder {
  import opened Wrappers
  import opened PyStr
  import opened Dicts
  import opened Validators
  import opened Automata

  /** The header from the argument text, split verbatim; `--initial` is used as given. */
  function ReadHeader(alphabetArg: string, statesArg: string, initialArg: string, finalArg: string): (r: Result<Header, BuildError>)
    ensures r.Ok? <==> initialArg in RawFields(statesArg) && forall f :: f in RawFields(finalArg) ==> f in RawFields(statesArg)
    ensures r.Ok? ==> r.value == Header(RawFields(alphabetArg), RawFields(statesArg), initialArg, RawFields(finalArg))
  {
    CheckHeader(RawFields(alphabetArg), RawFields(statesArg), initialArg, RawFields(finalArg))
  }

  /** One DFA record: exactly three verbatim fields, then one combined check that the
      source and next state are declared states and the symbol a declared symbol. */
  function DfaRecord(t: string, h: Header): (r: Result<(Key, string), BuildError>)
    ensures r.Ok? <==> |RawFields(t)| == 3 && RawFields(t)[0] in h.states && RawFields(t)[2] in h.states && RawFields(t)[1] in h.alphabet
    ensures r.Ok? ==> r.value == (Key(RawFields(t)[0], RawFields(t)[1]), RawFields(t)[2])
    ensures |RawFields(t)| != 3 ==> r == Err(MalformedRecord(t))
    ensures |RawFields(t)| == 3 && r.Err? ==> r == Err(InvalidTransition(t))
  {
    var parts := RawFields(t);
    if |parts| != 3 then Err(MalformedRecord(t))
    else if parts[0] !in h.states || parts[2] !in h.states || parts[1] !in h.alphabet then Err(InvalidTransition(t))
    else Ok((Key(parts[0], parts[1]), parts[2]))
  }

  /** One NFA record: at least three verbatim fields, the source and symbol checked
      together, then each target in turn. */
  function NfaRecord(t: string, h: Header): (r: Result<(Key, seq<string>), BuildError>)
    ensures r.Ok? <==> |RawFields(t)| >= 3 && RawFields(t)[0] in h.states && RawFields(t)[1] in h.alphabet && forall n :: n in RawFields(t)[2..] ==> n in h.states
    ensures r.Ok? ==> r.value == (Key(RawFields(t)[0], RawFields(t)[1]), RawFields(t)[2..])
  {
    var parts := RawFields(t);
    if |parts| < 3 then Err(MalformedRecord(t))
    else if parts[0] !in h.states || parts[1] !in h.alphabet then Err(InvalidTransition(t))
    else
      match FirstOutside(parts[2..], h.states)
      case Some(n) => Err(UnknownNextState(t, n))
      case None => Ok((Key(parts[0], parts[1]), parts[2..]))
  }

  /** A DFA record that passes is the text of its three fields joined by commas. */
  lemma DfaRecordVerbatim(t: string, h: Header)
    requires DfaRecord(t, h).Ok?
    ensures var rec := DfaRecord(t, h).value; rec.0.state + "," + rec.0.symbol + "," + rec.1 == t
  {
    var p := RawFields(t);
    assert p[1..][0] == p[1] && p[1..][1..] == [p[2]];
    assert Join(p[1..], ",") == p[1] + "," + p[2];
    assert Join(p, ",") == p[0] + "," + (p[1] + "," + p[2]);
    assert p[0] + "," + (p[1] + "," + p[2]) == p[0] + "," + p[1] + "," + p[2];
  }

  /** One iteration of the DFA loop: `transitions[(state, symbol)] = next_state`. */
  function DfaStep(table: Dict<Key, string>, t: string, h: Header): Result<Dict<Key, string>, BuildError> {
    var rec :- DfaRecord(t, h);
    Ok(Put(table, rec.0, rec.1))
  }

  /** The DFA loop run over `records` from `table`. */
  function DfaFrom(table: Dict<Key, string>, records: seq<string>, h: Header): Result<Dict<Key, string>, BuildError>
    decreases |records|
  {
    if records == [] then Ok(table)
    else
      var next :- DfaStep(table, records[0], h);
      DfaFrom(next, records[1..], h)
  }

  /** The DFA branch of the transition loop. */
  method BuildDfa(records: seq<string>, h: Header) returns (r: Result<Dict<Key, string>, BuildError>)
    ensures r == DfaFrom(Empty(), records, h)
  {
    var transitions: Dict<Key, string> := Empty();
    for i := 0 to |records|
      invariant DfaFrom(Empty(), records, h) == DfaFrom(transitions, records[i..], h)
    {
      assert records[i..][1..] == records[i + 1..];
      var parts := RawFields(records[i]);
      if |parts| != 3 {
        return Err(MalformedRecord(records[i]));
      }
      if parts[0] !in h.states || parts[2] !in h.states || parts[1] !in h.alphabet {
        return Err(InvalidTransition(records[i]));
      }
      transitions := Put(transitions, Key(parts[0], parts[1]), parts[2]);
    }
    assert records[|records|..] == [];
    return Ok(transitions);
  }

  /** One iteration of the NFA loop: `transitions[(state, symbol)] = next_states`. */
  function NfaStep(table: Dict<Key, seq<string>>, t: string, h: Header): Result<Dict<Key, seq<string>>, BuildError> {
    var rec :- NfaRecord(t, h);
    Ok(Put(table, rec.0, rec.1))
  }

  /** The NFA loop run over `records` from `table`. */
  function NfaFrom(table: Dict<Key, seq<string>>, records: seq<string>, h: Header): Result<Dict<Key, seq<string>>, BuildError>
    decreases |records|
  {
    if records == [] then Ok(table)
    else
      var next :- NfaStep(table, records[0], h);
      NfaFrom(next, records[1..], h)
  }

  /** The NFA branch of the transition loop. */
  method BuildNfa(records: seq<string>, h: Header) returns (r: Result<Dict<Key, seq<string>>, BuildError>)
    ensures r == NfaFrom(Empty(), records, h)
  {
    var transitions: Dict<Key, seq<string>> := Empty();
    for i := 0 to |records|
      invariant NfaFrom(Empty(), records, h) == NfaFrom(transitions, records[i..], h)
    {
      assert records[i..][1..] == records[i + 1..];
      var parts := RawFields(records[i]);
      if |parts| < 3 {
        return Err(MalformedRecord(records[i]));
      }
      if parts[0] !in h.states || parts[1] !in h.alphabet {
        return Err(InvalidTransition(records[i]));
      }
      var outside := FindOutside(parts[2..], h.states);
      if outside.Some? {
        return Err(UnknownNextState(records[i], outside.value));
      }
      transitions := Put(transitions, Key(parts[0], parts[1]), parts[2..]);
    }
    assert records[|records|..] == [];
    return Ok(transitions);
  }

  /** `main()` up to the constructor call. */
  function Build(kind: Kind, alphabetArg: string, statesArg: string, initialArg: string, finalArg: string, records: seq<string>): Result<Automaton, BuildError> {
    var h :- ReadHeader(alphabetArg, statesArg, initialArg, finalArg);
    if kind == Dfa then
      var table :- DfaFrom(Empty(), records, h);
      Ok(Automaton(Dfa, h.alphabet, h.states, Some(h.initial), h.final, Tagged(DfaMoves(table))))
    else
      var table :- NfaFrom(Empty(), records, h);
      Ok(Automaton(Nfa, h.alphabet, h.states, Some(h.initial), h.final, Tagged(NfaMoves(table))))
  }

  /** The argument processing of `main()`: split the header arguments, then check
      the initial state and each final state in turn. */
  method ReadArgs(alphabetArg: string, statesArg: string, initialArg: string, finalArg: string)
    returns (r: Result<Header, BuildError>)
    ensures r == ReadHeader(alphabetArg, statesArg, initialArg, finalArg)
  {
    var alphabet := RawFields(alphabetArg);
    var states := RawFields(statesArg);
    var final := RawFields(finalArg);
    if initialArg !in states {
      return Err(InitialNotInStates(initialArg));
    }
    var outside := FindOutside(final, states);
    if outside.Some? {
      return Err(FinalNotInStates(outside.value));
    }
    return Ok(Header(alphabet, states, initialArg, final));
  }

  /** `main()` from argument processing to the constructor call. */
  method Create(kind: Kind, alphabetArg: string, statesArg: string, initialArg: string, finalArg: string, records: seq<string>)
    returns (r: Result<Automaton, BuildError>)
    ensures r == Build(kind, alphabetArg, statesArg, initialArg, finalArg, records)
  {
    var h := ReadArgs(alphabetArg, statesArg, initialArg, finalArg);
    if h.Err? {
      return Err(h.error);
    }
    if kind == Dfa {
      var table := BuildDfa(records, h.value);
      if table.Err? {
        return Err(table.error);
      }
      return Ok(Automaton(Dfa, h.value.alphabet, h.value.states, Some(h.value.initial), h.value.final, Tagged(DfaMoves(table.value))));
    } else {
      var table := BuildNfa(records, h.value);
      if table.Err? {
        return Err(table.error);
      }
      return Ok(Automaton(Nfa, h.value.alphabet, h.value.states, Some(h.value.initial), h.value.final, Tagged(NfaMoves(table.value))));
    }
  }

  // ---------------------------------------------------------------------------
  // Overwriting over checked records

  /** `d[k] = v` for each checked record in turn. */
  function PutAll<V>(table: Dict<Key, V>, recs: seq<(Key, V)>): Dict<Key, V>
    decreases |recs|
  {
    if recs == [] then table else PutAll(Put(table, recs[0].0, recs[0].1), recs[1..])
  }

  /** Overwriting keeps a table well formed, ... */
  lemma {:induction false} PutAllValid<V>(table: Dict<Key, V>, recs: seq<(Key, V)>)
    requires Valid(table)
    ensures Valid(PutAll(table, recs))
    decreases |recs|
  {
    if recs != [] {
      PutAllValid(Put(table, recs[0].0, recs[0].1), recs[1..]);
    }
  }

  /** ... ends with the old pairs and those the records name, ... */
  lemma {:induction false} PutAllKeys<V>(table: Dict<Key, V>, recs: seq<(Key, V)>)
    ensures forall k :: k in PutAll(table, recs).vals <==> k in table.vals || k in PairsOf(recs)
    decreases |recs|
  {
    if recs != [] {
      PutAllKeys(Put(table, recs[0].0, recs[0].1), recs[1..]);
      assert PairsOf(recs) == [recs[0].0] + PairsOf(recs[1..]);
    }
  }

  /** ... leaves a pair no record names as it was, ... */
  lemma {:induction false} PutAllUntouched<V>(table: Dict<Key, V>, recs: seq<(Key, V)>, k: Key)
    requires k in table.vals
    requires forall j | 0 <= j < |recs| :: recs[j].0 != k
    ensures k in PutAll(table, recs).vals && PutAll(table, recs).vals[k] == table.vals[k]
    decreases |recs|
  {
    if recs != [] {
      var next := Put(table, recs[0].0, recs[0].1);
      assert recs[0].0 != k;
      forall j | 0 <= j < |recs[1..]| ensures recs[1..][j].0 != k {
        assert recs[1..][j] == recs[j + 1];
      }
      PutAllUntouched(next, recs[1..], k);
    }
  }

  /** ... and maps each pair to the target of the last record that names it. */
  lemma {:induction false} PutAllLast<V>(table: Dict<Key, V>, recs: seq<(Key, V)>, i: nat)
    requires i < |recs|
    requires forall j | i < j < |recs| :: recs[j].0 != recs[i].0
    ensures recs[i].0 in PutAll(table, recs).vals && PutAll(table, recs).vals[recs[i].0] == recs[i].1
    decreases |recs|
  {
    var next := Put(table, recs[0].0, recs[0].1);
    var rest := recs[1..];
    if i == 0 {
      forall j | 0 <= j < |rest| ensures rest[j].0 != recs[0].0 {
        assert rest[j] == recs[j + 1];
      }
      PutAllUntouched(next, rest, recs[0].0);
    } else {
      assert rest[i - 1] == recs[i];
      forall j | i - 1 < j < |rest| ensures rest[j].0 != rest[i - 1].0 {
        assert rest[j] == recs[j + 1];
      }
      PutAllLast(next, rest, i - 1);
    }
  }

  /** Overwriting from an empty table: a well-formed table holding exactly the
      pairs the records name, each mapped to the target of the last record naming it. */
  lemma PutAllSpec<V>(recs: seq<(Key, V)>)
    ensures Valid(PutAll(Empty(), recs))
    ensures forall k :: k in PutAll(Empty(), recs).vals <==> k in PairsOf(recs)
    ensures forall i | 0 <= i < |recs| && (forall j | i < j < |recs| :: recs[j].0 != recs[i].0) ::
      recs[i].0 in PutAll(Empty(), recs).vals && PutAll(Empty(), recs).vals[recs[i].0] == recs[i].1
  {
    var e: Dict<Key, V> := Empty();
    PutAllValid(e, recs);
    PutAllKeys(e, recs);
    forall i | 0 <= i < |recs| && (forall j | i < j < |recs| :: recs[j].0 != recs[i].0)
      ensures recs[i].0 in PutAll(e, recs).vals && PutAll(e, recs).vals[recs[i].0] == recs[i].1
    {
      PutAllLast(e, recs, i);
    }
  }

  // ---------------------------------------------------------------------------
  // Properties of the two loops

  /** The DFA record check as a value. */
  function DfaCheck(h: Header): string -> Result<(Key, string), BuildError> {
    t => DfaRecord(t, h)
  }

  /** The NFA record check as a value. */
  function NfaCheck(h: Header): string -> Result<(Key, seq<string>), BuildError> {
    t => NfaRecord(t, h)
  }

  /** The DFA loop fails exactly when some record fails its checks, and otherwise is
      the overwriting loop over the checked records. */
  lemma {:induction false} DfaFromPutAll(table: Dict<Key, string>, records: seq<string>, h: Header)
    ensures DfaFrom(table, records, h).Ok? <==> AllOk(DfaCheck(h), records)
    ensures AllOk(DfaCheck(h), records) ==> DfaFrom(table, records, h) == Ok(PutAll(table, AllChecked(DfaCheck(h), records)))
    decreases |records|
  {
    if records != [] {
      var first := DfaRecord(records[0], h);
      assert DfaCheck(h)(records[0]) == first;
      if first.Ok? {
        var next := Put(table, first.value.0, first.value.1);
        assert DfaFrom(table, records, h) == DfaFrom(next, records[1..], h);
        DfaFromPutAll(next, records[1..], h);
        if AllOk(DfaCheck(h), records) {
          var recs := AllChecked(DfaCheck(h), records);
          assert recs[0] == first.value && recs[1..] == AllChecked(DfaCheck(h), records[1..]);
          assert PutAll(table, recs) == PutAll(next, recs[1..]);
        }
      } else {
        assert DfaFrom(table, records, h) == Err(first.error);
      }
    }
  }

  /** The same for the NFA loop. */
  lemma {:induction false} NfaFromPutAll(table: Dict<Key, seq<string>>, records: seq<string>, h: Header)
    ensures NfaFrom(table, records, h).Ok? <==> AllOk(NfaCheck(h), records)
    ensures AllOk(NfaCheck(h), records) ==> NfaFrom(table, records, h) == Ok(PutAll(table, AllChecked(NfaCheck(h), records)))
    decreases |records|
  {
    if records != [] {
      var first := NfaRecord(records[0], h);
      assert NfaCheck(h)(records[0]) == first;
      if first.Ok? {
        var next := Put(table, first.value.0, first.value.1);
        assert NfaFrom(table, records, h) == NfaFrom(next, records[1..], h);
        NfaFromPutAll(next, records[1..], h);
        if AllOk(NfaCheck(h), records) {
          var recs := AllChecked(NfaCheck(h), records);
          assert recs[0] == first.value && recs[1..] == AllChecked(NfaCheck(h), records[1..]);
          assert PutAll(table, recs) == PutAll(next, recs[1..]);
        }
      } else {
        assert NfaFrom(table, records, h) == Err(first.error);
      }
    }
  }

  /** Every record passes the DFA record checks. */
  ghost predicate DfaRecordsOk(records: seq<string>, h: Header) {
    AllOk(DfaCheck(h), records)
  }

  /** The checked form of records that all pass. */
  ghost function DfaParsed(records: seq<string>, h: Header): seq<(Key, string)>
    requires DfaRecordsOk(records, h)
  {
    AllChecked(DfaCheck(h), records)
  }

  /** The DFA loop from an empty table (lines 33-42 of main.py): it succeeds exactly
      when every record passes its checks, repeated pairs included; the table then
      holds exactly the pairs the records name, each mapped to the target of the last
      record naming it. */
  lemma DfaLastWins(records: seq<string>, h: Header)
    ensures DfaRecordsOk(records, h) <==> forall i | 0 <= i < |records| :: DfaRecord(records[i], h).Ok?
    ensures DfaFrom(Empty(), records, h).Ok? <==> DfaRecordsOk(records, h)
    ensures DfaRecordsOk(records, h) ==>
      var recs, table := DfaParsed(records, h), DfaFrom(Empty(), records, h).value;
      && |recs| == |records|
      && (forall i | 0 <= i < |records| :: DfaRecord(records[i], h) == Ok(recs[i]))
      && Valid(table)
      && (forall k :: k in table.vals <==> k in PairsOf(recs))
      && forall i | 0 <= i < |recs| && (forall j | i < j < |recs| :: recs[j].0 != recs[i].0) ::
           recs[i].0 in table.vals && table.vals[recs[i].0] == recs[i].1
  {
    var e: Dict<Key, string> := Empty();
    var check := DfaCheck(h);
    DfaFromPutAll(e, records, h);
    AllOkIndexed(check, records);
    forall i | 0 <= i < |records| ensures check(records[i]) == DfaRecord(records[i], h) { }
    if AllOk(check, records) {
      var recs := AllChecked(check, records);
      AllCheckedSpec(check, records);
      PutAllSpec(recs);
    }
  }

  /** Every record passes the NFA record checks. */
  ghost predicate NfaRecordsOk(records: seq<string>, h: Header) {
    AllOk(NfaCheck(h), records)
  }

  /** The checked form of records that all pass. */
  ghost function NfaParsed(records: seq<string>, h: Header): seq<(Key, seq<string>)>
    requires NfaRecordsOk(records, h)
  {
    AllChecked(NfaCheck(h), records)
  }

  /** The NFA loop from an empty table (lines 44-58 of main.py): the same, with each
      pair mapped to the target tuple of the last record naming it, not to the
      concatenation of all of them. */
  lemma NfaLastWins(records: seq<string>, h: Header)
    ensures NfaRecordsOk(records, h) <==> forall i | 0 <= i < |records| :: NfaRecord(records[i], h).Ok?
    ensures NfaFrom(Empty(), records, h).Ok? <==> NfaRecordsOk(records, h)
    ensures NfaRecordsOk(records, h) ==>
      var recs, table := NfaParsed(records, h), NfaFrom(Empty(), records, h).value;
      && |recs| == |records|
      && (forall i | 0 <= i < |records| :: NfaRecord(records[i], h) == Ok(recs[i]))
      && Valid(table)
      && (forall k :: k in table.vals <==> k in PairsOf(recs))
      && forall i | 0 <= i < |recs| && (forall j | i < j < |recs| :: recs[j].0 != recs[i].0) ::
           recs[i].0 in table.vals && table.vals[recs[i].0] == recs[i].1
  {
    var e: Dict<Key, seq<string>> := Empty();
    var check := NfaCheck(h);
    NfaFromPutAll(e, records, h);
    AllOkIndexed(check, records);
    forall i | 0 <= i < |records| ensures check(records[i]) == NfaRecord(records[i], h) { }
    if AllOk(check, records) {
      var recs := AllChecked(check, records);
      AllCheckedSpec(check, records);
      PutAllSpec(recs);
    }
  }

  // ---------------------------------------------------------------------------
  // Properties of a whole build

  /** The DFA loop keeps a table well formed and within the header. */
  lemma {:induction false} DfaFromWithin(table: Dict<Key, string>, records: seq<string>, h: Header)
    requires Valid(table) && DfaWithin(table, h) && DfaFrom(table, records, h).Ok?
    ensures Valid(DfaFrom(table, records, h).value) && DfaWithin(DfaFrom(table, records, h).value, h)
    decreases |records|
  {
    if records != [] {
      var rec := DfaRecord(records[0], h).value;
      var next := Put(table, rec.0, rec.1);
      assert DfaFrom(table, records, h) == DfaFrom(next, records[1..], h);
      DfaFromWithin(next, records[1..], h);
    }
  }

  /** The NFA loop keeps a table well formed and within the header. */
  lemma {:induction false} NfaFromWithin(table: Dict<Key, seq<string>>, records: seq<string>, h: Header)
    requires Valid(table) && NfaWithin(table, h) && NfaFrom(table, records, h).Ok?
    ensures Valid(NfaFrom(table, records, h).value) && NfaWithin(NfaFrom(table, records, h).value, h)
    decreases |records|
  {
    if records != [] {
      var rec := NfaRecord(records[0], h).value;
      var next := Put(table, rec.0, rec.1);
      assert NfaFrom(table, records, h) == NfaFrom(next, records[1..], h);
      NfaFromWithin(next, records[1..], h);
    }
  }

  /** A build fails with the header's error when the header is rejected; a build
      that succeeds hands over the header fields exactly as split, a well-formed
      automaton of the requested kind whose keys hold no comma, with each value one
      state name for a DFA and a tuple of names for an NFA. */
  lemma BuildSpec(kind: Kind, alphabetArg: string, statesArg: string, initialArg: string, finalArg: string, records: seq<string>)
    ensures ReadHeader(alphabetArg, statesArg, initialArg, finalArg).Err? ==>
      Build(kind, alphabetArg, statesArg, initialArg, finalArg, records) == Err(ReadHeader(alphabetArg, statesArg, initialArg, finalArg).error)
    ensures Build(kind, alphabetArg, statesArg, initialArg, finalArg, records).Ok? ==>
      var a := Build(kind, alphabetArg, statesArg, initialArg, finalArg, records).value;
      && a.kind == kind
      && a.alphabet == RawFields(alphabetArg) && a.states == RawFields(statesArg)
      && a.initial == Some(initialArg) && a.final == RawFields(finalArg)
      && WellFormed(a)
      && CommaFreeKeys(a.transitions)
      && forall k | k in a.transitions.vals :: a.transitions.vals[k].One? <==> kind == Dfa
  {
    var hr := ReadHeader(alphabetArg, statesArg, initialArg, finalArg);
    if hr.Ok? {
      var h := hr.value;
      if kind == Dfa {
        var e: Dict<Key, string> := Empty();
        var r := DfaFrom(e, records, h);
        if r.Ok? {
          DfaFromWithin(e, records, h);
          DfaAutomaton(h, r.value);
        }
      } else {
        var e: Dict<Key, seq<string>> := Empty();
        var r := NfaFrom(e, records, h);
        if r.Ok? {
          NfaFromWithin(e, records, h);
          NfaAutomaton(h, r.value);
        }
      }
    }
  }
}
