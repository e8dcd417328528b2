/** The membership checks of fsm_creator.py, shared by every builder. */
module Validators {
  import opened Wrappers

  /** `validate_list_input`: Python's `bool(s)` on a string, true iff it is non-empty. */
  function ValidateListInput(s: string): (ok: bool)
    ensures ok <==> |s| > 0
  {
    s != ""
  }

  /** `validate_state_in_states`: membership in the tuple of declared states. */
  function ValidateStateInStates(state: string, states: seq<string>): (ok: bool)
    ensures ok <==> exists i :: 0 <= i < |states| && states[i] == state
  {
    state in states
  }

  /** `validate_symbol_in_alphabet`: membership in the tuple of declared symbols. */
  function ValidateSymbolInAlphabet(symbol: string, alphabet: seq<string>): (ok: bool)
    ensures ok <==> exists i :: 0 <= i < |alphabet| && alphabet[i] == symbol
  {
    symbol in alphabet
  }

  /** The first element of `xs` that is not in `within`: what a
      `for x in xs: if x not in within: <fail on x>` loop reports. */
  function FirstOutside(xs: seq<string>, within: seq<string>): (r: Option<string>)
    ensures r.None? <==> forall x :: x in xs ==> x in within
    ensures r.Some? ==> r.value in xs && r.value !in within
    ensures r.Some? ==> exists i :: 0 <= i < |xs| && xs[i] == r.value && forall j :: 0 <= j < i ==> xs[j] in within
  {
    if xs == [] then None
    else if xs[0] !in within then Some(xs[0])
    else
      var r := FirstOutside(xs[1..], within);
      assert r.Some? ==> exists i :: 0 <= i < |xs[1..]| && xs[1..][i] == r.value && forall j :: 0 <= j < i ==> xs[1..][j] in within;
      if r.Some? then
        var i :| 0 <= i < |xs[1..]| && xs[1..][i] == r.value && forall j :: 0 <= j < i ==> xs[1..][j] in within;
        assert xs[i + 1] == r.value && forall j :: 0 <= j < i + 1 ==> xs[j] in within;
        r
      else
        assert forall x :: x in xs ==> x == xs[0] || x in xs[1..];
        r
  }

  /** The `for state in final_states: if state not in states: ...` loop, stopping at
      the first element of `xs` outside `within`. */
  method FindOutside(xs: seq<string>, within: seq<string>) returns (r: Option<string>)
    ensures r == FirstOutside(xs, within)
  {
    var i := 0;
    while i < |xs|
      invariant 0 <= i <= |xs|
      invariant FirstOutside(xs, within) == FirstOutside(xs[i..], within)
    {
      assert xs[i..][1..] == xs[i + 1..];
      if xs[i] !in within {
        return Some(xs[i]);
      }
      i := i + 1;
    }
    return None;
  }
}
