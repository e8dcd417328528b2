/** The definition codec of main2-0.py and main3-0.py (`serialize_automaton` /
    `deserialize_automaton`) and the key flattening of fsm_creator.py: a
    transition key `(state, symbol)` is written as the text `state,symbol`, and
    read back by splitting that text on its commas into exactly two names. */
module Codec {
  import opened Wrappers
  import opened PyStr
  import opened Dicts
  import opened Automata
  import StrictBuilder

  /** The JSON object written to and read from a definition file. */
  datatype Json = Json(
    tag: string,
    alphabet: seq<string>,
    states: seq<string>,
    initial: Option<string>,
    final: seq<string>,
    transitions: Dict<string, Target>)

  /** `state, symbol = key.split(',')` raises unless the key has exactly one comma. */
  datatype CodecError = MalformedKey(key: string)

  /** `f"{state},{symbol}"` */
  function KeyText(k: Key): string {
    k.state + "," + k.symbol
  }

  /** The index of the first comma of `s`. */
  function FirstComma(s: string): (r: Option<nat>)
    ensures r.Some? ==> r.value < |s| && s[r.value] == ','
  {
    if s == [] then None
    else if s[0] == ',' then Some(0)
    else
      match FirstComma(s[1..])
      case None => None
      case Some(i) => Some(i + 1)
  }

  /** No comma comes before the one found, and none is found only when there is none. */
  lemma {:induction false} FirstCommaSpec(s: string)
    ensures FirstComma(s).Some? ==> ',' !in s[..FirstComma(s).value]
    ensures FirstComma(s).None? ==> ',' !in s
  {
    if s != [] && s[0] != ',' {
      FirstCommaSpec(s[1..]);
      if FirstComma(s[1..]).Some? {
        var i := FirstComma(s[1..]).value;
        assert s[..i + 1] == [s[0]] + s[1..][..i];
      }
    }
  }

  /** `state, symbol = key.split(',')`: the names on either side of the only comma,
      or None when the key has no comma or more than one. */
  function ParseKey(key: string): Option<Key> {
    match FirstComma(key)
    case None => None
    case Some(i) => if ',' in key[i + 1..] then None else Some(Key(key[..i], key[i + 1..]))
  }

  /** A parsed key has no comma in its names, and its text is the key. */
  lemma ParseKeySpec(key: string)
    ensures ParseKey(key).Some? ==>
      KeyText(ParseKey(key).value) == key && ',' !in ParseKey(key).value.state && ',' !in ParseKey(key).value.symbol
  {
    FirstCommaSpec(key);
    if ParseKey(key).Some? {
      var i := FirstComma(key).value;
      assert key == key[..i] + "," + key[i + 1..];
    }
  }

  /** A key whose names have no comma splits back into those names. */
  lemma KeyTextSplits(k: Key)
    requires ',' !in k.state && ',' !in k.symbol
    ensures Split(KeyText(k), ",") == [k.state, k.symbol]
  {
    var parts := [k.state, k.symbol];
    assert Join(parts[1..], ",") == k.symbol;
    assert Join(parts, ",") == KeyText(k);
    SplitJoin(parts, ',');
  }

  /** Keys without commas in their names are written as distinct texts. */
  lemma KeyTextInjective(a: Key, b: Key)
    requires ',' !in a.state && ',' !in a.symbol && ',' !in b.state && ',' !in b.symbol
    requires KeyText(a) == KeyText(b)
    ensures a == b
  {
    KeyTextSplits(a);
    KeyTextSplits(b);
  }

  /** A comma-free prefix shifts the first comma by its length. */
  lemma {:induction false} FirstCommaAfter(a: string, rest: string)
    requires ',' !in a
    ensures FirstComma(a + rest) == if FirstComma(rest).Some? then Some(|a| + FirstComma(rest).value) else None
  {
    if a != [] {
      assert (a + rest)[0] == a[0] && (a + rest)[1..] == a[1..] + rest;
      FirstCommaAfter(a[1..], rest);
    } else {
      assert a + rest == rest;
    }
  }

  /** The text of a key without commas in its names parses back into that key. */
  lemma ParseKeyText(k: Key)
    requires ',' !in k.state && ',' !in k.symbol
    ensures ParseKey(KeyText(k)) == Some(k)
  {
    var s := KeyText(k);
    var n := |k.state|;
    FirstCommaAfter(k.state, "," + k.symbol);
    assert s == k.state + ("," + k.symbol);
    assert s[..n] == k.state && s[n + 1..] == k.symbol;
  }

  /** `ParseKey` is Python's unpacking of `key.split(',')` into two names: it
      succeeds exactly when the split has two pieces, and gives those pieces. */
  lemma ParseKeySplit(key: string)
    ensures ParseKey(key).Some? <==> |Split(key, ",")| == 2
    ensures ParseKey(key).Some? ==> Split(key, ",") == [ParseKey(key).value.state, ParseKey(key).value.symbol]
  {
    match FirstComma(key)
    case None =>
      FirstCommaSpec(key);
      ContainsChar(key, ',');
    case Some(i) =>
      if ',' in key[i + 1..] {
        SplitMoreThanTwo(key, i);
      } else {
        ParseKeySpec(key);
        KeyTextSplits(ParseKey(key).value);
      }
  }

  /** A second comma after the first leaves at least three pieces. */
  lemma SplitMoreThanTwo(key: string, i: nat)
    requires FirstComma(key) == Some(i) && ',' in key[i + 1..]
    ensures |Split(key, ",")| > 2
  {
    SplitAtFirstComma(key, i);
    ContainsChar(key[i + 1..], ',');
  }

  /** Splitting on commas cuts at the first comma first. */
  lemma SplitAtFirstComma(key: string, i: nat)
    requires FirstComma(key) == Some(i)
    ensures Split(key, ",") == [key[..i]] + Split(key[i + 1..], ",")
  {
    FirstCommaSpec(key);
    assert OccursAt(key, ",", i);
    forall j: nat | j < i ensures !OccursAt(key, ",", j) {
      assert key[..i][j] == key[j];
      assert key[j..j + 1] == [key[j]];
    }
    assert Find(key, ",") == Some(i);
  }

  /** `list(v)` / `tuple(v)` of a transition value: a tuple keeps its names, a
      single name becomes its characters. */
  function AsList(t: Target): seq<string> {
    match t
    case One(s) => Chars(s)
    case Many(ss) => ss
  }

  /** The value `serialize_automaton` writes: as it is for a DFA, a list for an NFA. */
  function EncodeValue(kind: Kind, t: Target): Target {
    if kind == Dfa then t else Many(AsList(t))
  }

  /** The value `deserialize_automaton` reads: as it is under the tag `dfa`, a tuple
      under any other tag. */
  function DecodeValue(tag: string, t: Target): Target {
    if tag == "dfa" then t else Many(AsList(t))
  }

  // ---------------------------------------------------------------------------
  // Flattening keys

  /** The first `n` entries of `t`, in insertion order, written under their key text. */
  function FlattenUpTo(t: Dict<Key, Target>, n: nat): Dict<string, Target>
    requires Listed(t) && n <= |t.keys|
  {
    if n == 0 then Empty()
    else
      var k := t.keys[n - 1];
      Put(FlattenUpTo(t, n - 1), KeyText(k), t.vals[k])
  }

  /** `{f"{k[0]},{k[1]}": v for k, v in t.items()}`: the JSON keys written by
      fsm_creator.py and by `serialize_automaton`, one per transition key, as
      `from,symbol`. */
  function Flatten(t: Dict<Key, Target>): (r: Dict<string, Target>)
    requires Valid(t)
    ensures Valid(r)
  {
    FlattenUpToValid(t, |t.keys|);
    FlattenUpTo(t, |t.keys|)
  }

  /** Flattening gives a well-formed dictionary: each text is listed once. */
  lemma {:induction false} FlattenUpToValid(t: Dict<Key, Target>, n: nat)
    requires Valid(t) && n <= |t.keys|
    ensures Valid(FlattenUpTo(t, n)) && |FlattenUpTo(t, n).keys| <= n
  {
    if n > 0 {
      FlattenUpToValid(t, n - 1);
    }
  }

  /** Flattening writes the text of every key of `t` ... */
  lemma {:induction false} FlattenUpToCovers(t: Dict<Key, Target>, n: nat)
    requires Valid(t) && n <= |t.keys|
    ensures forall i :: 0 <= i < n ==> KeyText(t.keys[i]) in FlattenUpTo(t, n).vals
  {
    if n > 0 {
      FlattenUpToCovers(t, n - 1);
      var prev := FlattenUpTo(t, n - 1);
      var r := FlattenUpTo(t, n);
      assert r.vals == prev.vals[KeyText(t.keys[n - 1]) := t.vals[t.keys[n - 1]]];
      forall i | 0 <= i < n ensures KeyText(t.keys[i]) in r.vals {
        if i < n - 1 {
          assert KeyText(t.keys[i]) in prev.vals;
        }
      }
    }
  }

  /** ... and only those texts. */
  lemma {:induction false} FlattenUpToOrigin(t: Dict<Key, Target>, n: nat)
    requires Valid(t) && n <= |t.keys|
    ensures forall s :: s in FlattenUpTo(t, n).vals ==> exists i :: 0 <= i < n && s == KeyText(t.keys[i])
  {
    if n > 0 {
      FlattenUpToOrigin(t, n - 1);
      var prev := FlattenUpTo(t, n - 1);
      var r := FlattenUpTo(t, n);
      assert r.vals == prev.vals[KeyText(t.keys[n - 1]) := t.vals[t.keys[n - 1]]];
      forall s | s in r.vals ensures exists i :: 0 <= i < n && s == KeyText(t.keys[i]) {
        if s in prev.vals {
          var i :| 0 <= i < n - 1 && s == KeyText(t.keys[i]);
          assert 0 <= i < n && s == KeyText(t.keys[i]);
        } else {
          assert s == KeyText(t.keys[n - 1]);
        }
      }
    }
  }

  /** With no comma in any name, the text of the next key has not been written yet. */
  lemma FreshText(t: Dict<Key, Target>, n: nat)
    requires Valid(t) && n < |t.keys| && CommaFreeKeys(t)
    ensures KeyText(t.keys[n]) !in FlattenUpTo(t, n).vals
  {
    FlattenUpToOrigin(t, n);
    var k := t.keys[n];
    assert k in t.vals;
    if KeyText(k) in FlattenUpTo(t, n).vals {
      var i :| 0 <= i < n && KeyText(k) == KeyText(t.keys[i]);
      assert t.keys[i] in t.vals;
      KeyTextInjective(k, t.keys[i]);
      assert false;
    }
  }

  /** With no comma in any name, each key adds a new text at the end. */
  lemma FlattenUpToStep(t: Dict<Key, Target>, n: nat)
    requires Valid(t) && 0 < n <= |t.keys| && CommaFreeKeys(t)
    ensures FlattenUpTo(t, n).keys == FlattenUpTo(t, n - 1).keys + [KeyText(t.keys[n - 1])]
    ensures FlattenUpTo(t, n).vals == FlattenUpTo(t, n - 1).vals[KeyText(t.keys[n - 1]) := t.vals[t.keys[n - 1]]]
  {
    FreshText(t, n - 1);
  }

  /** Hence flattening is one entry per key: the texts appear in the order of the
      keys, ... */
  lemma {:induction false} FlattenUpToOrder(t: Dict<Key, Target>, n: nat)
    requires Valid(t) && n <= |t.keys| && CommaFreeKeys(t)
    ensures |FlattenUpTo(t, n).keys| == n
    ensures forall i :: 0 <= i < n ==> FlattenUpTo(t, n).keys[i] == KeyText(t.keys[i])
  {
    if n > 0 {
      FlattenUpToOrder(t, n - 1);
      OrderStep(t, n);
    }
  }

  lemma OrderStep(t: Dict<Key, Target>, n: nat)
    requires Valid(t) && 0 < n <= |t.keys| && CommaFreeKeys(t)
    requires |FlattenUpTo(t, n - 1).keys| == n - 1
    requires forall i :: 0 <= i < n - 1 ==> FlattenUpTo(t, n - 1).keys[i] == KeyText(t.keys[i])
    ensures |FlattenUpTo(t, n).keys| == n
    ensures forall i :: 0 <= i < n ==> FlattenUpTo(t, n).keys[i] == KeyText(t.keys[i])
  {
    FlattenUpToStep(t, n);
  }

  /** ... each with its own value. */
  lemma {:induction false} FlattenUpToValues(t: Dict<Key, Target>, n: nat)
    requires Valid(t) && n <= |t.keys| && CommaFreeKeys(t)
    ensures forall i :: 0 <= i < n ==>
      KeyText(t.keys[i]) in FlattenUpTo(t, n).vals && FlattenUpTo(t, n).vals[KeyText(t.keys[i])] == t.vals[t.keys[i]]
  {
    if n > 0 {
      FlattenUpToValues(t, n - 1);
      ValuesStep(t, n);
    }
  }

  lemma ValuesStep(t: Dict<Key, Target>, n: nat)
    requires Valid(t) && 0 < n <= |t.keys| && CommaFreeKeys(t)
    requires forall i :: 0 <= i < n - 1 ==>
      KeyText(t.keys[i]) in FlattenUpTo(t, n - 1).vals && FlattenUpTo(t, n - 1).vals[KeyText(t.keys[i])] == t.vals[t.keys[i]]
    ensures forall i :: 0 <= i < n ==>
      KeyText(t.keys[i]) in FlattenUpTo(t, n).vals && FlattenUpTo(t, n).vals[KeyText(t.keys[i])] == t.vals[t.keys[i]]
  {
    FlattenUpToStep(t, n);
    FreshText(t, n - 1);
    FreshEntry(t, n, FlattenUpTo(t, n - 1).vals, FlattenUpTo(t, n).vals);
  }

  /** Adding the entry for key `n - 1` under a new text keeps the earlier entries. */
  lemma FreshEntry(t: Dict<Key, Target>, n: nat, before: map<string, Target>, after: map<string, Target>)
    requires Listed(t) && 0 < n <= |t.keys|
    requires KeyText(t.keys[n - 1]) !in before
    requires after == before[KeyText(t.keys[n - 1]) := t.vals[t.keys[n - 1]]]
    requires forall i :: 0 <= i < n - 1 ==> KeyText(t.keys[i]) in before && before[KeyText(t.keys[i])] == t.vals[t.keys[i]]
    ensures forall i :: 0 <= i < n ==> KeyText(t.keys[i]) in after && after[KeyText(t.keys[i])] == t.vals[t.keys[i]]
  {
    forall i | 0 <= i < n ensures KeyText(t.keys[i]) in after && after[KeyText(t.keys[i])] == t.vals[t.keys[i]] {
      if i < n - 1 {
        assert KeyText(t.keys[i]) in before;
      }
    }
  }

  /** Both halves together. */
  lemma FlattenUpToExact(t: Dict<Key, Target>, n: nat)
    requires Valid(t) && n <= |t.keys| && CommaFreeKeys(t)
    ensures |FlattenUpTo(t, n).keys| == n
    ensures forall i :: 0 <= i < n ==> FlattenUpTo(t, n).keys[i] == KeyText(t.keys[i])
    ensures forall i :: 0 <= i < n ==>
      KeyText(t.keys[i]) in FlattenUpTo(t, n).vals && FlattenUpTo(t, n).vals[KeyText(t.keys[i])] == t.vals[t.keys[i]]
  {
    FlattenUpToOrder(t, n);
    FlattenUpToValues(t, n);
  }

  /** Every flattened text is the text of a transition key and every transition key
      is written; with comma-free names the entries are exactly the keys, in order,
      with their values unchanged. */
  lemma FlattenSpec(t: Dict<Key, Target>)
    requires Valid(t)
    ensures Valid(Flatten(t)) && |Flatten(t).keys| <= |t.keys|
    ensures forall k :: k in t.vals ==> KeyText(k) in Flatten(t).vals
    ensures forall s :: s in Flatten(t).vals ==> exists k :: k in t.vals && s == KeyText(k)
    ensures CommaFreeKeys(t) ==>
      && |Flatten(t).keys| == |t.keys|
      && forall i :: 0 <= i < |t.keys| ==>
           Flatten(t).keys[i] == KeyText(t.keys[i]) && Flatten(t).vals[KeyText(t.keys[i])] == t.vals[t.keys[i]]
  {
    FlattenUpToValid(t, |t.keys|);
    FlattenCovers(t);
    FlattenOrigin(t);
    if CommaFreeKeys(t) {
      FlattenUpToExact(t, |t.keys|);
    }
  }

  lemma FlattenCovers(t: Dict<Key, Target>)
    requires Valid(t)
    ensures forall k :: k in t.vals ==> KeyText(k) in Flatten(t).vals
  {
    FlattenUpToCovers(t, |t.keys|);
    forall k | k in t.vals ensures KeyText(k) in Flatten(t).vals {
      var i :| 0 <= i < |t.keys| && t.keys[i] == k;
    }
  }

  lemma FlattenOrigin(t: Dict<Key, Target>)
    requires Valid(t)
    ensures forall s :: s in Flatten(t).vals ==> exists k :: k in t.vals && s == KeyText(k)
  {
    FlattenUpToOrigin(t, |t.keys|);
    forall s | s in Flatten(t).vals ensures exists k :: k in t.vals && s == KeyText(k) {
      var i :| 0 <= i < |t.keys| && s == KeyText(t.keys[i]);
      assert t.keys[i] in t.vals;
    }
  }

  /** Names holding commas collide: the keys `("a,b", "c")` and `("a", "b,c")` are
      both written `a,b,c`, so two transitions leave one entry. */
  lemma FlattenCollision()
    ensures var t := Put(Put(Empty(), Key("a,b", "c"), One("q0")), Key("a", "b,c"), One("q1"));
      && |t.keys| == 2 && Flatten(t).keys == ["a,b,c"] && Flatten(t).vals["a,b,c"] == One("q1")
  {
    var t := Put(Put(Empty(), Key("a,b", "c"), One("q0")), Key("a", "b,c"), One("q1"));
    assert Key("a,b", "c") != Key("a", "b,c");
    assert KeyText(Key("a,b", "c")) == KeyText(Key("a", "b,c")) == "a,b,c";
    assert t.keys == [Key("a,b", "c"), Key("a", "b,c")];
    assert FlattenUpTo(t, 1) == Put(Empty(), "a,b,c", One("q0"));
  }

  // ---------------------------------------------------------------------------
  // Serialising

  /** `serialize_automaton`: tag `dfa` exactly for a DFA, the fields as they are,
      and the transitions under their key texts. */
  function Encode(a: Automaton): Json
    requires Valid(a.transitions)
  {
    Json(if a.kind == Dfa then "dfa" else "nfa", a.alphabet, a.states, a.initial, a.final,
      Flatten(Encoded(a)))
  }

  /** The transitions with each value written as `serialize_automaton` writes it. */
  function Encoded(a: Automaton): (r: Dict<Key, Target>)
    requires Valid(a.transitions)
    ensures Valid(r) && r.keys == a.transitions.keys && r.vals.Keys == a.transitions.vals.Keys
    ensures forall k :: k in r.vals ==> r.vals[k] == EncodeValue(a.kind, a.transitions.vals[k])
  {
    MapValues(a.transitions, (v: Target) => EncodeValue(a.kind, v))
  }

  /** The loop of `serialize_automaton` over `automaton.transitions.items()`. */
  method Serialize(a: Automaton) returns (data: Json)
    requires Valid(a.transitions)
    ensures data == Encode(a)
  {
    var t := a.transitions;
    ghost var e := Encoded(a);
    var out: Dict<string, Target> := Empty();
    for i := 0 to |t.keys|
      invariant out == FlattenUpTo(e, i)
    {
      var k := t.keys[i];
      assert e.keys[i] == k && e.vals[k] == EncodeValue(a.kind, t.vals[k]);
      out := Put(out, KeyText(k), EncodeValue(a.kind, t.vals[k]));
    }
    data := Json(if a.kind == Dfa then "dfa" else "nfa", a.alphabet, a.states, a.initial, a.final, out);
  }

  // ---------------------------------------------------------------------------
  // Deserialising

  /** The loop of `deserialize_automaton` from the `i`-th JSON entry on, with the
      entries before it already in `table`; the first key that does not split into
      exactly two names stops the load. */
  function DecodeFrom(j: Json, i: nat, table: Dict<Key, Target>): Result<Dict<Key, Target>, CodecError>
    requires Listed(j.transitions) && i <= |j.transitions.keys|
    decreases |j.transitions.keys| - i
  {
    if i == |j.transitions.keys| then Ok(table)
    else
      var key := j.transitions.keys[i];
      match ParseKey(key)
      case None => Err(MalformedKey(key))
      case Some(k) => DecodeFrom(j, i + 1, Put(table, k, DecodeValue(j.tag, j.transitions.vals[key])))
  }

  /** `deserialize_automaton`: a DFA exactly when the tag is `dfa`. */
  function Decode(j: Json): Result<Automaton, CodecError>
    requires Listed(j.transitions)
  {
    var table :- DecodeFrom(j, 0, Empty());
    Ok(Automaton(if j.tag == "dfa" then Dfa else Nfa, j.alphabet, j.states, j.initial, j.final, table))
  }

  /** The loop of `deserialize_automaton` over `data["transitions"].items()`. */
  method Deserialize(j: Json) returns (r: Result<Automaton, CodecError>)
    requires Listed(j.transitions)
    ensures r == Decode(j)
  {
    var t := j.transitions;
    var table: Dict<Key, Target> := Empty();
    for i := 0 to |t.keys|
      invariant DecodeFrom(j, 0, Empty()) == DecodeFrom(j, i, table)
    {
      var key := t.keys[i];
      var parsed := ParseKey(key);
      if parsed.None? {
        return Err(MalformedKey(key));
      }
      table := Put(table, parsed.value, DecodeValue(j.tag, t.vals[key]));
    }
    return Ok(Automaton(if j.tag == "dfa" then Dfa else Nfa, j.alphabet, j.states, j.initial, j.final, table));
  }

  /** A load keeps the table well formed. */
  lemma {:induction false} DecodeFromValid(j: Json, i: nat, table: Dict<Key, Target>)
    requires Listed(j.transitions) && i <= |j.transitions.keys| && Valid(table)
    ensures DecodeFrom(j, i, table).Ok? ==> Valid(DecodeFrom(j, i, table).value)
    decreases |j.transitions.keys| - i
  {
    if i < |j.transitions.keys| {
      var key := j.transitions.keys[i];
      if ParseKey(key).Some? {
        DecodeFromValid(j, i + 1, Put(table, ParseKey(key).value, DecodeValue(j.tag, j.transitions.vals[key])));
      }
    }
  }

  /** One step of the load: a key that parses is added to the table, one that does
      not stops the load with its name. */
  lemma DecodeFromUnfold(j: Json, i: nat, table: Dict<Key, Target>)
    requires Listed(j.transitions) && i < |j.transitions.keys|
    ensures var key := j.transitions.keys[i];
      DecodeFrom(j, i, table) ==
        if ParseKey(key).None? then Err(MalformedKey(key))
        else DecodeFrom(j, i + 1, Put(table, ParseKey(key).value, DecodeValue(j.tag, j.transitions.vals[key])))
  {
  }

  /** A load succeeds exactly when every key has one comma, ... */
  lemma {:induction false} DecodeFromOk(j: Json, i: nat, table: Dict<Key, Target>)
    requires Listed(j.transitions) && i <= |j.transitions.keys|
    ensures DecodeFrom(j, i, table).Ok? <==>
      forall m :: i <= m < |j.transitions.keys| ==> ParseKey(j.transitions.keys[m]).Some?
    decreases |j.transitions.keys| - i
  {
    var keys := j.transitions.keys;
    if i < |keys| {
      DecodeFromUnfold(j, i, table);
      var key := keys[i];
      if ParseKey(key).Some? {
        DecodeFromOk(j, i + 1, Put(table, ParseKey(key).value, DecodeValue(j.tag, j.transitions.vals[key])));
      }
    }
  }

  /** ... and otherwise reports the first key, in file order, that does not. */
  lemma {:induction false} DecodeFromErr(j: Json, i: nat, table: Dict<Key, Target>)
    requires Listed(j.transitions) && i <= |j.transitions.keys|
    ensures DecodeFrom(j, i, table).Err? ==>
      exists m :: i <= m < |j.transitions.keys|
        && DecodeFrom(j, i, table).error == MalformedKey(j.transitions.keys[m])
        && ParseKey(j.transitions.keys[m]).None?
        && forall l :: i <= l < m ==> ParseKey(j.transitions.keys[l]).Some?
    decreases |j.transitions.keys| - i
  {
    var keys := j.transitions.keys;
    if i < |keys| {
      DecodeFromUnfold(j, i, table);
      var key := keys[i];
      if ParseKey(key).Some? {
        var next := Put(table, ParseKey(key).value, DecodeValue(j.tag, j.transitions.vals[key]));
        DecodeFromErr(j, i + 1, next);
        if DecodeFrom(j, i, table).Err? {
          var m :| i + 1 <= m < |keys|
            && DecodeFrom(j, i + 1, next).error == MalformedKey(keys[m])
            && ParseKey(keys[m]).None?
            && forall l :: i + 1 <= l < m ==> ParseKey(keys[l]).Some?;
          assert forall l :: i <= l < m ==> ParseKey(keys[l]).Some?;
        }
      } else {
        assert ParseKey(keys[i]).None?;
      }
    }
  }

  /** A key with no comma, or with two, cannot be loaded. */
  lemma MalformedKeysRejected(j: Json)
    requires Listed(j.transitions) && |j.transitions.keys| == 1
    requires j.transitions.keys[0] in {"q0", "q0,a,b"}
    ensures Decode(j) == Err(MalformedKey(j.transitions.keys[0]))
  {
    var key := j.transitions.keys[0];
    if key == "q0" {
      assert FirstComma(key) == None by {
        assert key[0] == 'q' && key[1] == '0';
      }
    } else {
      assert FirstComma(key) == Some(2) by {
        assert key[0] == 'q' && key[1] == '0' && key[2] == ',';
      }
      assert key[3..][1] == ',';
    }
    assert DecodeFrom(j, 0, Empty()) == Err(MalformedKey(key));
  }

  // ---------------------------------------------------------------------------
  // Round trip

  /** The values of an NFA table are tuples, as every builder leaves them. */
  ghost predicate ListValued(a: Automaton) {
    a.kind == Nfa ==> forall k :: k in a.transitions.vals ==> a.transitions.vals[k].Many?
  }

  /** `j` holds the transitions of `t` as `serialize_automaton` writes them for `kind`. */
  ghost predicate Written(j: Json, t: Dict<Key, Target>, kind: Kind) {
    && Listed(t)
    && Listed(j.transitions)
    && |j.transitions.keys| == |t.keys|
    && (j.tag == "dfa" <==> kind == Dfa)
    && forall m :: 0 <= m < |t.keys| ==>
         && j.transitions.keys[m] == KeyText(t.keys[m])
         && j.transitions.vals[KeyText(t.keys[m])] == EncodeValue(kind, t.vals[t.keys[m]])
  }

  /** `table` holds the first `i` entries of `t`, in order. */
  ghost predicate PrefixOf(table: Dict<Key, Target>, t: Dict<Key, Target>, i: nat)
    requires Listed(t) && i <= |t.keys|
  {
    && table.keys == t.keys[..i]
    && (forall k :: k in table.vals <==> k in t.keys[..i])
    && (forall k :: k in table.vals ==> table.vals[k] == t.vals[k])
  }

  /** Reading back an entry that was written gives the key and its value again. */
  lemma ReadBackEntry(j: Json, t: Dict<Key, Target>, kind: Kind, m: nat)
    requires Valid(t) && CommaFreeKeys(t) && (kind == Nfa ==> forall k :: k in t.vals ==> t.vals[k].Many?)
    requires Written(j, t, kind) && m < |t.keys|
    ensures ParseKey(j.transitions.keys[m]) == Some(t.keys[m])
    ensures DecodeValue(j.tag, j.transitions.vals[j.transitions.keys[m]]) == t.vals[t.keys[m]]
  {
    var k := t.keys[m];
    assert k in t.vals;
    ParseKeyText(k);
  }

  /** Reading back what was written, from entry `i` on, completes the table. */
  lemma {:induction false} ReadBack(j: Json, t: Dict<Key, Target>, kind: Kind, i: nat, table: Dict<Key, Target>)
    requires Valid(t) && CommaFreeKeys(t) && (kind == Nfa ==> forall k :: k in t.vals ==> t.vals[k].Many?)
    requires Written(j, t, kind) && i <= |t.keys| && PrefixOf(table, t, i)
    ensures DecodeFrom(j, i, table) == Ok(t)
    decreases |t.keys| - i
  {
    if i == |t.keys| {
      assert t.keys[..i] == t.keys;
      assert table.vals == t.vals;
    } else {
      var k := t.keys[i];
      ReadBackEntry(j, t, kind, i);
      var next := Put(table, k, t.vals[k]);
      assert DecodeFrom(j, i, table) == DecodeFrom(j, i + 1, next);
      forall l | 0 <= l < i ensures t.keys[..i][l] != k {
        assert t.keys[..i][l] == t.keys[l];
      }
      assert k !in table.vals;
      assert t.keys[..i + 1] == t.keys[..i] + [k];
      ReadBack(j, t, kind, i + 1, next);
    }
  }

  /** What `serialize_automaton` writes is `Written`, when no name holds a comma. */
  lemma EncodeWritten(a: Automaton)
    requires Valid(a.transitions) && CommaFreeKeys(a.transitions)
    ensures Written(Encode(a), a.transitions, a.kind)
  {
    FlattenUpToExact(Encoded(a), |a.transitions.keys|);
  }

  /** Saving an automaton and loading it back gives the same automaton, when no
      state or symbol in a transition key holds a comma and NFA values are tuples. */
  lemma RoundTrip(a: Automaton)
    requires Valid(a.transitions) && CommaFreeKeys(a.transitions) && ListValued(a)
    ensures Decode(Encode(a)) == Ok(a)
  {
    var j := Encode(a);
    EncodeWritten(a);
    PrefixOfEmpty(a.transitions);
    ReadBack(j, a.transitions, a.kind, 0, Empty());
    assert DecodeFrom(j, 0, Empty()) == Ok(a.transitions);
  }

  /** Nothing read yet is the empty prefix. */
  lemma PrefixOfEmpty(t: Dict<Key, Target>)
    requires Listed(t)
    ensures PrefixOf(Empty(), t, 0)
  {
    assert t.keys[..0] == [];
  }

  /** Any automaton a strict build accepts survives a save and a load unchanged. */
  lemma SaveLoadRoundTrip(kind: Kind, alphabetArg: string, statesArg: string, initialArg: string, finalArg: string, records: seq<string>)
    requires StrictBuilder.Build(kind, alphabetArg, statesArg, initialArg, finalArg, records).Ok?
    ensures var a := StrictBuilder.Build(kind, alphabetArg, statesArg, initialArg, finalArg, records).value;
      Valid(a.transitions) && Decode(Encode(a)) == Ok(a)
  {
    var a := StrictBuilder.Build(kind, alphabetArg, statesArg, initialArg, finalArg, records).value;
    StrictBuilder.BuildSpec(kind, alphabetArg, statesArg, initialArg, finalArg, records);
    RoundTrip(a);
  }
}
