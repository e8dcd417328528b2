/** What the interactive testing loops of main.py and main3-0.py do with one line
    typed by the user: leave, skip it, reject it for symbols outside the alphabet,
    enter step-by-step mode, or hand its symbols to the automaton. */
module InputLines {
  import opened PyStr

  /** The decision taken for one input line. */
  datatype Action =
    | Quit                            // `exit` in any letter case: leave the loop
    | Skip                            // an empty line (main3-0.py only)
    | Invalid(symbols: seq<string>)   // the symbols of the line that are not in the alphabet
    | StepMode                        // enter the step-by-step session (main3-0.py only)
    | Test(symbols: seq<string>)      // run `accepts` on these symbols

  /** `tuple(s.split(',')) if ',' in s else tuple(s)`. */
  function Tokenise(s: string): seq<string> {
    if ',' in s then Split(s, ",") else Chars(s)
  }

  /** Tokenising loses nothing: a line with a comma is its symbols joined by commas,
      none of which holds a comma, and there are at least two; any other line is
      its symbols, one character each. */
  lemma TokeniseSpec(s: string)
    ensures ',' in s ==>
      |Tokenise(s)| >= 2 && Join(Tokenise(s), ",") == s && forall t :: t in Tokenise(s) ==> ',' !in t
    ensures ',' !in s ==>
      |Tokenise(s)| == |s| && forall i :: 0 <= i < |s| ==> Tokenise(s)[i] == [s[i]]
  {
    if ',' in s {
      ContainsChar(s, ',');
      JoinSplit(s, ",");
      SplitPiecesAvoidChar(s, ',');
    }
  }

  /** `[s for s in symbols if s not in alphabet]` */
  function InvalidSymbols(symbols: seq<string>, alphabet: seq<string>): (r: seq<string>)
    ensures forall s :: s in r <==> s in symbols && s !in alphabet
    ensures |r| <= |symbols|
  {
    if symbols == [] then []
    else if symbols[0] !in alphabet then [symbols[0]] + InvalidSymbols(symbols[1..], alphabet)
    else InvalidSymbols(symbols[1..], alphabet)
  }

  /** `all(s in alphabet for s in symbols)` */
  predicate AllIn(symbols: seq<string>, alphabet: seq<string>) {
    forall i :: 0 <= i < |symbols| ==> symbols[i] in alphabet
  }

  /** The test of main.py and the filter of main3-0.py reject the same lines. */
  lemma AllInIffNoneInvalid(symbols: seq<string>, alphabet: seq<string>)
    ensures AllIn(symbols, alphabet) <==> InvalidSymbols(symbols, alphabet) == []
  {
    if !AllIn(symbols, alphabet) {
      var i :| 0 <= i < |symbols| && symbols[i] !in alphabet;
      assert symbols[i] in InvalidSymbols(symbols, alphabet);
    }
  }

  /** One line of the loop of main.py (lines 107-120), used as typed. */
  function PlainLine(line: string, alphabet: seq<string>): (r: Action)
    ensures r.Quit? <==> Lower(line) == "exit"
    ensures r.Test? <==> Lower(line) != "exit" && AllIn(Tokenise(line), alphabet)
    ensures r.Test? ==> r.symbols == Tokenise(line)
    ensures r.Invalid? ==> r.symbols != [] && forall s :: s in r.symbols <==> s in Tokenise(line) && s !in alphabet
    ensures !r.Skip? && !r.StepMode?
  {
    AllInIffNoneInvalid(Tokenise(line), alphabet);
    if Lower(line) == "exit" then Quit
    else
      var symbols := Tokenise(line);
      if !AllIn(symbols, alphabet) then Invalid(InvalidSymbols(symbols, alphabet))
      else Test(symbols)
  }

  /** One line of the loop of main3-0.py (lines 344-363) as written: the line is
      stripped, and its symbols are checked against the alphabet before the `step`
      command is recognised. */
  function SessionLine(raw: string, alphabet: seq<string>): (r: Action)
    ensures r.Quit? <==> Lower(Strip(raw)) == "exit"
    ensures r.Skip? <==> Strip(raw) == "" && Lower(Strip(raw)) != "exit"
    ensures r.Invalid? ==> r.symbols != [] && r.symbols == InvalidSymbols(Tokenise(Strip(raw)), alphabet)
    ensures r.StepMode? ==> Lower(Strip(raw)) == "step" && AllIn(Tokenise(Strip(raw)), alphabet)
    ensures r.Test? ==> r.symbols == Tokenise(Strip(raw)) && AllIn(r.symbols, alphabet) && Lower(Strip(raw)) != "step"
  {
    var line := Strip(raw);
    AllInIffNoneInvalid(Tokenise(line), alphabet);
    if Lower(line) == "exit" then Quit
    else if line == "" then Skip
    else
      var symbols := Tokenise(line);
      var invalid := InvalidSymbols(symbols, alphabet);
      if invalid != [] then Invalid(invalid)
      else if Lower(line) == "step" then StepMode
      else Test(symbols)
  }

  /** The evidently intended reading of main3-0.py's loop, as its prompt promises
      `step` for every alphabet: the command is recognised before the symbols are
      checked. */
  function SessionLineIntended(raw: string, alphabet: seq<string>): (r: Action)
    ensures r.Quit? <==> Lower(Strip(raw)) == "exit"
    ensures r.StepMode? <==> Lower(Strip(raw)) == "step"
    ensures r.Invalid? ==> r.symbols != [] && r.symbols == InvalidSymbols(Tokenise(Strip(raw)), alphabet)
    ensures r.Test? ==> r.symbols == Tokenise(Strip(raw)) && AllIn(r.symbols, alphabet)
  {
    var line := Strip(raw);
    AllInIffNoneInvalid(Tokenise(line), alphabet);
    if Lower(line) == "exit" then Quit
    else if line == "" then Skip
    else if Lower(line) == "step" then StepMode
    else
      var symbols := Tokenise(line);
      var invalid := InvalidSymbols(symbols, alphabet);
      if invalid != [] then Invalid(invalid)
      else Test(symbols)
  }

  /** The line `step` is already stripped, ... */
  lemma StepStripped()
    ensures Strip("step") == "step"
  {
    StripTrimmed("step");
  }

  /** ... already lower-case, ... */
  lemma StepLower()
    ensures Lower("step") == "step"
  {
    var l := Lower("step");
    assert l[0] == 's' && l[1] == 't' && l[2] == 'e' && l[3] == 'p';
  }

  /** ... and tokenises into its four letters. */
  lemma StepTokens()
    ensures Tokenise("step") == ["s", "t", "e", "p"]
  {
    var line := "step";
    assert ',' !in line by {
      assert line[0] == 's' && line[1] == 't' && line[2] == 'e' && line[3] == 'p';
    }
    var c := Chars(line);
    assert c[0] == "s" && c[1] == "t" && c[2] == "e" && c[3] == "p";
  }

  /** As written, typing `step` over an alphabet without the symbol `s` is rejected
      as invalid input and never starts the step-by-step session. */
  lemma StepShadowed(alphabet: seq<string>)
    requires "s" !in alphabet
    ensures SessionLine("step", alphabet) == Invalid(InvalidSymbols(["s", "t", "e", "p"], alphabet))
  {
    StepStripped();
    StepLower();
    StepTokens();
    assert "s" in InvalidSymbols(["s", "t", "e", "p"], alphabet);
  }

  /** With the intended order, `step` starts the session whatever the alphabet. */
  lemma StepRecognised(alphabet: seq<string>)
    ensures SessionLineIntended("step", alphabet) == StepMode
  {
    StepStripped();
    StepLower();
  }

  /** The intended loop and the loop as written agree on every line except `step`. */
  lemma SessionLineAgrees(raw: string, alphabet: seq<string>)
    requires Lower(Strip(raw)) != "step"
    ensures SessionLine(raw, alphabet) == SessionLineIntended(raw, alphabet)
  {
  }

  /** On a line without surrounding whitespace that is neither empty nor `step`,
      main3-0.py decides exactly as main.py does. */
  lemma SessionAgreesWithPlain(line: string, alphabet: seq<string>)
    requires line != "" && Strip(line) == line && Lower(line) != "step"
    ensures SessionLine(line, alphabet) == PlainLine(line, alphabet)
  {
    AllInIffNoneInvalid(Tokenise(line), alphabet);
  }
}
