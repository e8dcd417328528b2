/** The handful of Python `str` operations the automaton readers are built from:
    `strip()`, `startswith`, `in`, `split(sep)`, `replace(old, new)`, `lower()`
    and `<` (the order `sorted` uses), written out over `seq<char>`. */
module PyStr {
  import opened Wrappers

  /** The characters Python's `str.isspace()` accepts, which are the ones
      `str.strip()` with no argument removes. */
  predicate IsSpace(c: char) {
    || c == ' '
    || ('\t' <= c <= '\r')
    || ('\U{1C}' <= c <= '\U{1F}')
    || c == '\U{85}' || c == '\U{A0}' || c == '\U{1680}'
    || ('\U{2000}' <= c <= '\U{200A}')
    || c == '\U{2028}' || c == '\U{2029}' || c == '\U{202F}' || c == '\U{205F}' || c == '\U{3000}'
  }

  /** `s.lstrip()`: the longest suffix of `s` that does not start with whitespace. */
  function LStrip(s: string): (r: string)
    ensures |r| <= |s| && r == s[|s| - |r|..]
    ensures r == [] || !IsSpace(r[0])
    ensures forall i :: 0 <= i < |s| - |r| ==> IsSpace(s[i])
  {
    if s != [] && IsSpace(s[0]) then LStrip(s[1..]) else s
  }

  /** `s.rstrip()`: the longest prefix of `s` that does not end with whitespace. */
  function RStrip(s: string): (r: string)
    ensures |r| <= |s| && r == s[..|r|]
    ensures r == [] || !IsSpace(r[|r| - 1])
    ensures forall i :: |r| <= i < |s| ==> IsSpace(s[i])
  {
    if s != [] && IsSpace(s[|s| - 1]) then RStrip(s[..|s| - 1]) else s
  }

  /** `r` is the slice `s[i..j]`, and everything of `s` outside it is whitespace. */
  ghost predicate TrimmedAt(s: string, r: string, i: nat, j: nat) {
    && i <= j <= |s| && r == s[i..j]
    && (forall k | 0 <= k < i :: IsSpace(s[k]))
    && (forall k | j <= k < |s| :: IsSpace(s[k]))
  }

  /** `s.strip()`: `s` without its leading and trailing whitespace. */
  function Strip(s: string): (r: string)
    ensures |r| <= |s|
    ensures r == [] || (!IsSpace(r[0]) && !IsSpace(r[|r| - 1]))
    ensures exists i: nat, j: nat :: TrimmedAt(s, r, i, j)
  {
    var l := LStrip(s);
    var r := RStrip(l);
    assert r != [] ==> r[0] == l[0];
    StripSlice(s, l, r);
    r
  }

  /** A prefix `r` of a suffix `l` of `s`, with only whitespace cut off either side,
      is a slice of `s` with only whitespace around it. */
  lemma StripSlice(s: string, l: string, r: string)
    requires |l| <= |s| && l == s[|s| - |l|..]
    requires forall i :: 0 <= i < |s| - |l| ==> IsSpace(s[i])
    requires |r| <= |l| && r == l[..|r|]
    requires forall i :: |r| <= i < |l| ==> IsSpace(l[i])
    ensures TrimmedAt(s, r, |s| - |l|, |s| - |l| + |r|)
  {
    var i := |s| - |l|;
    assert r == s[i..i + |r|];
    forall k | i + |r| <= k < |s| ensures IsSpace(s[k]) {
      assert s[k] == l[k - i];
    }
  }

  /** `strip()` only removes characters. */
  lemma StripChars(s: string, c: char)
    requires c in Strip(s)
    ensures c in s
  {
    var l := LStrip(s);
    assert Strip(s) == RStrip(l);
    assert c in l;
  }

  /** A string with no whitespace at either end is its own `strip()`; in
      particular `strip()` is idempotent. */
  lemma StripTrimmed(s: string)
    requires s == [] || (!IsSpace(s[0]) && !IsSpace(s[|s| - 1]))
    ensures Strip(s) == s
  {
    assert LStrip(s) == s;
  }

  /** `strip()` gives "" exactly for all-whitespace strings. */
  lemma StripEmpty(s: string)
    ensures Strip(s) == [] <==> forall i :: 0 <= i < |s| ==> IsSpace(s[i])
  {
    var l := LStrip(s);
    if Strip(s) == [] {
      assert l == [];
    }
    if forall i :: 0 <= i < |s| ==> IsSpace(s[i]) {
      if l != [] {
        assert l[0] == s[|s| - |l|];
      }
    }
  }

  /** `s.startswith(prefix)`. */
  predicate StartsWith(s: string, prefix: string) {
    |prefix| <= |s| && s[..|prefix|] == prefix
  }

  /** `sub` occurs in `s` starting at index `i`. */
  predicate OccursAt(s: string, sub: string, i: nat) {
    i + |sub| <= |s| && s[i..i + |sub|] == sub
  }

  lemma OccursShift(s: string, sub: string, j: nat)
    requires s != []
    ensures OccursAt(s[1..], sub, j) <==> OccursAt(s, sub, j + 1)
  {
    if j + 1 + |sub| <= |s| {
      assert s[1..][j..j + |sub|] == s[j + 1..j + 1 + |sub|];
    }
  }

  /** `s.find(sub)`: the first index where `sub` occurs, or None for -1. */
  function Find(s: string, sub: string): (r: Option<nat>)
    ensures r.Some? ==> OccursAt(s, sub, r.value)
    ensures r.Some? ==> forall j: nat :: j < r.value ==> !OccursAt(s, sub, j)
    ensures r.None? ==> forall j: nat :: !OccursAt(s, sub, j)
    decreases |s|
  {
    if StartsWith(s, sub) then Some(0)
    else if s == [] then None
    else
      match Find(s[1..], sub)
      case None =>
        assert forall j: nat :: !OccursAt(s, sub, j) by {
          forall j: nat ensures !OccursAt(s, sub, j) {
            if j == 0 {
              if |sub| <= |s| { assert s[0..|sub|] == s[..|sub|]; }
            } else {
              OccursShift(s, sub, j - 1);
            }
          }
        }
        None
      case Some(i) =>
        OccursShift(s, sub, i);
        assert forall j: nat :: j < i + 1 ==> !OccursAt(s, sub, j) by {
          forall j: nat | j < i + 1 ensures !OccursAt(s, sub, j) {
            if j == 0 {
              if |sub| <= |s| { assert s[0..|sub|] == s[..|sub|]; }
            } else {
              OccursShift(s, sub, j - 1);
            }
          }
        }
        Some(i + 1)
  }

  /** `sub in s`. */
  predicate Contains(s: string, sub: string) {
    Find(s, sub).Some?
  }

  /** For a one-character pattern, `[c] in s` is plain membership of `c`. */
  lemma ContainsChar(s: string, c: char)
    ensures Contains(s, [c]) <==> c in s
  {
    if c in s {
      var j :| 0 <= j < |s| && s[j] == c;
      assert OccursAt(s, [c], j);
    }
    if Contains(s, [c]) {
      var i := Find(s, [c]).value;
      assert s[i..i + 1] == [c];
      assert s[i] == c;
    }
  }

  /** `s.split(sep)` for a non-empty separator: the pieces between the
      left-to-right, non-overlapping occurrences of `sep`. */
  function Split(s: string, sep: string): (r: seq<string>)
    requires sep != []
    ensures |r| >= 1
    ensures |r| >= 2 <==> Contains(s, sep)
    decreases |s|
  {
    match Find(s, sep)
    case None => [s]
    case Some(i) => [s[..i]] + Split(s[i + |sep|..], sep)
  }

  /** `sep.join(parts)`. */
  function Join(parts: seq<string>, sep: string): string
  {
    if |parts| == 0 then ""
    else if |parts| == 1 then parts[0]
    else parts[0] + sep + Join(parts[1..], sep)
  }

  /** `tuple(s)` or `list(s)` of a string: one one-character string per character. */
  function Chars(s: string): (r: seq<string>)
    ensures |r| == |s|
    ensures forall i :: 0 <= i < |s| ==> r[i] == [s[i]]
  {
    if s == [] then [] else [[s[0]]] + Chars(s[1..])
  }

  /** Joining the pieces of a split with the separator gives the string back. */
  lemma {:induction false} JoinSplit(s: string, sep: string)
    requires sep != []
    ensures Join(Split(s, sep), sep) == s
    decreases |s|
  {
    match Find(s, sep)
    case None =>
    case Some(i) =>
      JoinSplit(s[i + |sep|..], sep);
      JoinSplitStep(s, sep, i);
  }

  lemma JoinSplitStep(s: string, sep: string, i: nat)
    requires sep != [] && Find(s, sep) == Some(i)
    requires Join(Split(s[i + |sep|..], sep), sep) == s[i + |sep|..]
    ensures Join(Split(s, sep), sep) == s
  {
    var tail := s[i + |sep|..];
    var rest := Split(tail, sep);
    var parts := Split(s, sep);
    assert parts == [s[..i]] + rest;
    assert |rest| >= 1 && parts[1..] == rest;
    assert Join(parts, sep) == s[..i] + sep + tail;
    assert OccursAt(s, sep, i);
    Slices(s, i, i + |sep|);
  }

  /** Three consecutive slices make up the string. */
  lemma Slices(s: string, i: nat, j: nat)
    requires i <= j <= |s|
    ensures s[..i] + s[i..j] + s[j..] == s
  {
  }

  /** No piece of a split contains the separator. */
  lemma {:induction false} SplitPiecesAvoid(s: string, sep: string)
    requires sep != []
    ensures forall p :: p in Split(s, sep) ==> !Contains(p, sep)
    decreases |s|
  {
    match Find(s, sep)
    case None =>
    case Some(i) =>
      SplitPiecesAvoid(s[i + |sep|..], sep);
      HeadAvoids(s, sep, i);
      PiecesOfCons(s[..i], Split(s[i + |sep|..], sep), Split(s, sep), sep);
  }

  lemma PiecesOfCons(head: string, rest: seq<string>, pieces: seq<string>, sep: string)
    requires pieces == [head] + rest && !Contains(head, sep)
    requires forall p :: p in rest ==> !Contains(p, sep)
    ensures forall p :: p in pieces ==> !Contains(p, sep)
  {
  }

  /** The piece before the first separator holds no separator. */
  lemma HeadAvoids(s: string, sep: string, i: nat)
    requires sep != [] && Find(s, sep) == Some(i)
    ensures !Contains(s[..i], sep)
  {
    var head := s[..i];
    if Contains(head, sep) {
      var j := Find(head, sep).value;
      assert OccursAt(head, sep, j);
      assert j + |sep| <= i;
      assert head[j..j + |sep|] == s[j..j + |sep|];
      assert OccursAt(s, sep, j);
      assert false;
    }
  }

  /** No piece of a split on one character contains that character. */
  lemma SplitPiecesAvoidChar(s: string, c: char)
    ensures forall p :: p in Split(s, [c]) ==> c !in p
  {
    SplitPiecesAvoid(s, [c]);
    forall p | p in Split(s, [c]) ensures c !in p {
      ContainsChar(p, c);
    }
  }

  /** Splitting on a character that occurs in none of the parts undoes `Join`. */
  lemma {:induction false} SplitJoin(parts: seq<string>, c: char)
    requires |parts| >= 1
    requires forall p :: p in parts ==> c !in p
    ensures Split(Join(parts, [c]), [c]) == parts
  {
    if |parts| == 1 {
      ContainsChar(parts[0], c);
    } else {
      assert parts[0] in parts;
      SplitJoin(parts[1..], c);
      SplitAfterFree(parts[0], c, Join(parts[1..], [c]));
      assert parts == [parts[0]] + parts[1..];
    }
  }

  /** Splitting `p + [c] + tail` on `c`, where `p` holds no `c`, cuts off `p` first. */
  lemma SplitAfterFree(p: string, c: char, tail: string)
    requires c !in p
    ensures Split(p + [c] + tail, [c]) == [p] + Split(tail, [c])
  {
    var s := p + [c] + tail;
    assert OccursAt(s, [c], |p|);
    forall j: nat | j < |p| ensures !OccursAt(s, [c], j) {
      assert s[j..j + 1] == [p[j]];
    }
    assert Find(s, [c]) == Some(|p|);
    assert s[..|p|] == p;
    assert s[|p| + 1..] == tail;
  }

  /** `s.replace(pat, repl)`: every left-to-right, non-overlapping occurrence of
      `pat` replaced by `repl`. */
  function Replace(s: string, pat: string, repl: string): (r: string)
    requires pat != []
    ensures forall c :: c in r ==> c in s || c in repl
    decreases |s|
  {
    if s == [] then []
    else if StartsWith(s, pat) then repl + Replace(s[|pat|..], pat, repl)
    else [s[0]] + Replace(s[1..], pat, repl)
  }

  /** Replacing a pattern that does not occur changes nothing. */
  lemma {:induction false} ReplaceAbsent(s: string, pat: string, repl: string)
    requires pat != [] && !Contains(s, pat)
    ensures Replace(s, pat, repl) == s
    decreases |s|
  {
    if s != [] {
      assert !OccursAt(s, pat, 0);
      if Contains(s[1..], pat) {
        var j := Find(s[1..], pat).value;
        OccursShift(s, pat, j);
        assert false;
      }
      ReplaceAbsent(s[1..], pat, repl);
    }
  }

  /** Up to the first occurrence of the pattern, `replace` copies `s` unchanged. */
  lemma {:induction false} ReplaceUpTo(s: string, pat: string, repl: string, i: nat)
    requires pat != [] && i <= |s|
    requires forall j: nat :: j < i ==> !OccursAt(s, pat, j)
    ensures Replace(s, pat, repl) == s[..i] + Replace(s[i..], pat, repl)
    decreases i
  {
    if i > 0 {
      ReplaceKeeps(s, pat, repl);
      NoneBeforeTail(s, pat, i);
      ReplaceUpTo(s[1..], pat, repl, i - 1);
      SliceTail(s, i);
    } else {
      assert s[0..] == s;
    }
  }

  /** Dropping the first character moves every earlier-than-`i` start down by one. */
  lemma NoneBeforeTail(s: string, pat: string, i: nat)
    requires 0 < i <= |s|
    requires forall j: nat :: j < i ==> !OccursAt(s, pat, j)
    ensures forall j: nat :: j < i - 1 ==> !OccursAt(s[1..], pat, j)
  {
    forall j: nat | j < i - 1 ensures !OccursAt(s[1..], pat, j) {
      OccursShift(s, pat, j);
    }
  }

  /** The pieces of `s` around index `i`, seen from `s[1..]`. */
  lemma SliceTail(s: string, i: nat)
    requires 0 < i <= |s|
    ensures s[1..][i - 1..] == s[i..]
    ensures [s[0]] + s[1..][..i - 1] == s[..i]
  {
  }

  /** Where the pattern does not start, `replace` keeps the first character. */
  lemma ReplaceKeeps(s: string, pat: string, repl: string)
    requires pat != [] && s != [] && !OccursAt(s, pat, 0)
    ensures Replace(s, pat, repl) == [s[0]] + Replace(s[1..], pat, repl)
  {
    if |pat| <= |s| {
      assert s[0..|pat|] == s[..|pat|];
    }
  }

  /** `s.replace(pat, repl)` is `repl.join(s.split(pat))`: both cut `s` at the same
      left-to-right, non-overlapping occurrences of `pat`. */
  lemma {:induction false} ReplaceIsJoinSplit(s: string, pat: string, repl: string)
    requires pat != []
    ensures Replace(s, pat, repl) == Join(Split(s, pat), repl)
    decreases |s|
  {
    match Find(s, pat)
    case None =>
      ReplaceAbsent(s, pat, repl);
    case Some(i) =>
      var rest := s[i + |pat|..];
      ReplaceAt(s, pat, repl, i);
      ReplaceIsJoinSplit(rest, pat, repl);
      JoinCons(s[..i], Split(rest, pat), repl);
  }

  /** At the first occurrence `i` of the pattern, `replace` puts `repl` in its place. */
  lemma ReplaceAt(s: string, pat: string, repl: string, i: nat)
    requires pat != [] && OccursAt(s, pat, i)
    requires forall j: nat :: j < i ==> !OccursAt(s, pat, j)
    ensures Replace(s, pat, repl) == s[..i] + repl + Replace(s[i + |pat|..], pat, repl)
  {
    var x := Replace(s[i + |pat|..], pat, repl);
    ReplaceUpTo(s, pat, repl, i);
    ReplaceStarts(s[i..], pat, repl);
    assert s[i..][|pat|..] == s[i + |pat|..];
    assert s[..i] + (repl + x) == s[..i] + repl + x;
  }

  /** Where the pattern starts, `replace` puts `repl` in its place. */
  lemma ReplaceStarts(t: string, pat: string, repl: string)
    requires pat != [] && OccursAt(t, pat, 0)
    ensures Replace(t, pat, repl) == repl + Replace(t[|pat|..], pat, repl)
  {
    assert t[0..|pat|] == t[..|pat|];
  }

  /** Joining a head onto at least one more part puts a separator between them. */
  lemma JoinCons(head: string, tail: seq<string>, sep: string)
    requires |tail| >= 1
    ensures Join([head] + tail, sep) == head + sep + Join(tail, sep)
  {
    assert ([head] + tail)[1..] == tail;
  }

  /** Replacing the whole of `s` gives the replacement. */
  lemma ReplaceWhole(pat: string, repl: string)
    requires pat != []
    ensures Replace(pat, pat, repl) == repl
  {
    ReplaceStarts(pat, pat, repl);
    assert pat[|pat|..] == [];
    assert repl + [] == repl;
  }

  /** An occurrence of `sub` puts each of its characters in place. */
  lemma OccursChar(s: string, sub: string, j: nat, m: nat)
    requires OccursAt(s, sub, j) && m < |sub|
    ensures s[j + m] == sub[m]
  {
    assert s[j..j + |sub|][m] == s[j + m];
  }

  /** `sub` cannot start before `i` when the character it has at offset `m` is
      missing from `s` over the places such a start would need it. */
  lemma NoneBefore(s: string, sub: string, m: nat, i: nat)
    requires m < |sub|
    requires forall k :: m <= k < i + m && k < |s| ==> s[k] != sub[m]
    ensures forall j: nat :: j < i ==> !OccursAt(s, sub, j)
  {
    forall j: nat | j < i ensures !OccursAt(s, sub, j) {
      if OccursAt(s, sub, j) {
        OccursChar(s, sub, j, m);
      }
    }
  }

  /** A string missing one character of `sub` does not contain `sub`. */
  lemma AbsentChar(s: string, sub: string, m: nat)
    requires m < |sub| && sub[m] !in s
    ensures !Contains(s, sub)
  {
    if Contains(s, sub) {
      var j := Find(s, sub).value;
      OccursChar(s, sub, j, m);
    }
  }

  /** `find` reports the first place `sub` occurs. */
  lemma FindFirst(s: string, sub: string, i: nat)
    requires OccursAt(s, sub, i)
    requires forall j: nat :: j < i ==> !OccursAt(s, sub, j)
    ensures Find(s, sub) == Some(i)
  {
  }

  /** Splitting `x + sep + rest` where a character of `sep`, found once in `sep`
      up to its place, is missing from both `x` and `rest`, gives `[x, rest]`. */
  lemma SplitOnce(x: string, sep: string, m: nat, rest: string)
    requires m < |sep| && sep[m] !in x && sep[m] !in rest && sep[m] !in sep[..m]
    ensures Split(x + sep + rest, sep) == [x, rest]
  {
    var s := x + sep + rest;
    assert s[|x|..|x| + |sep|] == sep;
    forall k | m <= k < |x| + m && k < |s| ensures s[k] != sep[m] {
      if k < |x| {
        assert s[k] == x[k];
      } else {
        assert s[k] == sep[..m][k - |x|];
      }
    }
    NoneBefore(s, sep, m, |x|);
    FindFirst(s, sep, |x|);
    assert s[..|x|] == x;
    assert s[|x| + |sep|..] == rest;
    AbsentChar(rest, sep, m);
  }

  /** Replacing in `x + pat`, where a character of `pat`, found once in `pat` up
      to its place, is missing from `x`, replaces only the final `pat`. */
  lemma ReplaceSuffix(x: string, pat: string, m: nat, repl: string)
    requires m < |pat| && pat[m] !in x && pat[m] !in pat[..m]
    ensures Replace(x + pat, pat, repl) == x + repl
  {
    var s := x + pat;
    forall k | m <= k < |x| + m && k < |s| ensures s[k] != pat[m] {
      if k < |x| {
        assert s[k] == x[k];
      } else {
        assert s[k] == pat[..m][k - |x|];
      }
    }
    NoneBefore(s, pat, m, |x|);
    ReplaceUpTo(s, pat, repl, |x|);
    assert s[|x|..] == pat && s[..|x|] == x;
    ReplaceWhole(pat, repl);
  }

  /** Leading whitespace does not change `lstrip()`. */
  lemma {:induction false} LStripSpaces(l: string, t: string)
    requires forall k :: 0 <= k < |l| ==> IsSpace(l[k])
    ensures LStrip(l + t) == LStrip(t)
    decreases |l|
  {
    if l != [] {
      assert (l + t)[0] == l[0];
      assert (l + t)[1..] == l[1..] + t;
      assert forall k :: 0 <= k < |l| - 1 ==> l[1..][k] == l[k + 1];
      LStripSpaces(l[1..], t);
    } else {
      assert l + t == t;
    }
  }

  /** Trailing whitespace does not change `rstrip()`. */
  lemma {:induction false} RStripSpaces(t: string, r: string)
    requires forall k :: 0 <= k < |r| ==> IsSpace(r[k])
    ensures RStrip(t + r) == RStrip(t)
    decreases |r|
  {
    if r != [] {
      var n := |t + r| - 1;
      assert (t + r)[n] == r[|r| - 1];
      assert (t + r)[..n] == t + r[..|r| - 1];
      assert forall k :: 0 <= k < |r| - 1 ==> r[..|r| - 1][k] == r[k];
      RStripSpaces(t, r[..|r| - 1]);
    } else {
      assert t + r == t;
    }
  }

  /** `strip()` of a trimmed, non-empty string after whitespace gives it back. */
  lemma StripLeading(l: string, x: string)
    requires forall k :: 0 <= k < |l| ==> IsSpace(l[k])
    requires x != [] && !IsSpace(x[0]) && !IsSpace(x[|x| - 1])
    ensures Strip(l + x) == x
  {
    LStripSpaces(l, x);
    assert LStrip(x) == x;
    assert RStrip(x) == x;
  }

  /** `strip()` of a trimmed, non-empty string before whitespace gives it back. */
  lemma StripTrailing(x: string, r: string)
    requires forall k :: 0 <= k < |r| ==> IsSpace(r[k])
    requires x != [] && !IsSpace(x[0]) && !IsSpace(x[|x| - 1])
    ensures Strip(x + r) == x
  {
    assert (x + r)[0] == x[0];
    assert LStrip(x + r) == x + r;
    RStripSpaces(x, r);
    assert RStrip(x) == x;
  }


  /** `c.lower()` for the ASCII letters. */
  function LowerChar(c: char): char {
    if 'A' <= c <= 'Z' then (c as int + 32) as char else c
  }

  /** `s.lower()`, with the case mapping restricted to ASCII letters. */
  function Lower(s: string): (r: string)
    ensures |r| == |s|
    ensures forall i :: 0 <= i < |s| ==> r[i] == LowerChar(s[i])
  {
    seq(|s|, i requires 0 <= i < |s| => LowerChar(s[i]))
  }

  /** Python's `a < b` on strings: lexicographic by code point. */
  predicate Below(a: string, b: string)
    decreases |a|
  {
    if a == [] then b != []
    else b != [] && (a[0] < b[0] || (a[0] == b[0] && Below(a[1..], b[1..])))
  }

  lemma {:induction false} BelowIrreflexive(a: string)
    ensures !Below(a, a)
    decreases |a|
  {
    if a != [] {
      BelowIrreflexive(a[1..]);
    }
  }

  lemma {:induction false} BelowTransitive(a: string, b: string, c: string)
    requires Below(a, b) && Below(b, c)
    ensures Below(a, c)
    decreases |a|
  {
    if a != [] && a[0] == b[0] && b[0] == c[0] {
      BelowTransitive(a[1..], b[1..], c[1..]);
    }
  }

  lemma {:induction false} BelowTotal(a: string, b: string)
    requires a != b
    ensures Below(a, b) || Below(b, a)
    decreases |a|
  {
    if a != [] && b != [] && a[0] == b[0] {
      assert a == [a[0]] + a[1..] && b == [b[0]] + b[1..];
      BelowTotal(a[1..], b[1..]);
    }
  }

  predicate StrictlySorted(s: seq<string>) {
    forall i, j :: 0 <= i < j < |s| ==> Below(s[i], s[j])
  }

  function Elems(s: seq<string>): set<string> {
    set x | x in s
  }

  /** One insertion step of `sorted(set(xs))`: `x` put in place, dropped if present. */
  function InsertSorted(x: string, s: seq<string>): seq<string>
  {
    if s == [] then [x]
    else if x == s[0] then s
    else if Below(x, s[0]) then [x] + s
    else [s[0]] + InsertSorted(x, s[1..])
  }

  lemma ElemsCons(h: string, t: seq<string>)
    ensures Elems([h] + t) == {h} + Elems(t)
  {
  }

  lemma SortedCons(h: string, t: seq<string>)
    requires StrictlySorted(t)
    requires forall y :: y in Elems(t) ==> Below(h, y)
    ensures StrictlySorted([h] + t)
  {
    var r := [h] + t;
    forall i, j | 0 <= i < j < |r| ensures Below(r[i], r[j]) {
      assert r[j] == t[j - 1] && t[j - 1] in Elems(t);
      if i > 0 {
        assert r[i] == t[i - 1];
      }
    }
  }

  lemma {:induction false} InsertSortedCorrect(x: string, s: seq<string>)
    requires StrictlySorted(s)
    ensures StrictlySorted(InsertSorted(x, s))
    ensures Elems(InsertSorted(x, s)) == Elems(s) + {x}
  {
    if s == [] {
    } else if x == s[0] {
      assert x in Elems(s);
    } else if Below(x, s[0]) {
      InsertFirst(x, s);
    } else {
      BelowTotal(x, s[0]);
      SortedTail(s);
      InsertSortedCorrect(x, s[1..]);
      assert s == [s[0]] + s[1..];
      InsertLater(s[0], s[1..], x, InsertSorted(x, s[1..]));
    }
  }

  /** An element below the first goes in front. */
  lemma InsertFirst(x: string, s: seq<string>)
    requires StrictlySorted(s) && s != [] && Below(x, s[0])
    ensures StrictlySorted([x] + s) && Elems([x] + s) == Elems(s) + {x}
  {
    forall y | y in Elems(s) ensures Below(x, y) {
      var j :| 0 <= j < |s| && s[j] == y;
      if j > 0 { BelowTransitive(x, s[0], s[j]); }
    }
    SortedCons(x, s);
    ElemsCons(x, s);
  }

  lemma SortedTail(s: seq<string>)
    requires StrictlySorted(s) && s != []
    ensures StrictlySorted(s[1..])
  {
    forall i, j | 0 <= i < j < |s| - 1 ensures Below(s[1..][i], s[1..][j]) {
      assert s[1..][i] == s[i + 1] && s[1..][j] == s[j + 1];
    }
  }

  /** An element above the first goes into the rest, after the first. */
  lemma InsertLater(h: string, rest: seq<string>, x: string, tail: seq<string>)
    requires StrictlySorted([h] + rest) && Below(h, x)
    requires StrictlySorted(tail) && Elems(tail) == Elems(rest) + {x}
    ensures StrictlySorted([h] + tail) && Elems([h] + tail) == Elems([h] + rest) + {x}
  {
    forall y | y in Elems(tail) ensures Below(h, y) {
      if y != x {
        var j :| 0 <= j < |rest| && rest[j] == y;
        assert ([h] + rest)[0] == h && ([h] + rest)[j + 1] == y;
      }
    }
    SortedCons(h, tail);
    ElemsCons(h, tail);
    ElemsCons(h, rest);
  }

  /** `sorted(set(xs))`. */
  function SortedUnique(xs: seq<string>): seq<string>
  {
    if xs == [] then [] else InsertSorted(xs[0], SortedUnique(xs[1..]))
  }

  /** `sorted(set(xs))` is strictly increasing and holds exactly the elements of `xs`. */
  lemma {:induction false} SortedUniqueCorrect(xs: seq<string>)
    ensures StrictlySorted(SortedUnique(xs))
    ensures Elems(SortedUnique(xs)) == Elems(xs)
  {
    if xs != [] {
      SortedUniqueCorrect(xs[1..]);
      InsertSortedCorrect(xs[0], SortedUnique(xs[1..]));
      assert Elems(xs) == {xs[0]} + Elems(xs[1..]);
    }
  }

  /** A strictly increasing sequence is determined by its elements, so
      `SortedUnique` is the one canonical order of `set(xs)`. */
  lemma {:induction false} StrictlySortedUnique(a: seq<string>, b: seq<string>)
    requires StrictlySorted(a) && StrictlySorted(b) && Elems(a) == Elems(b)
    ensures a == b
    decreases |a|
  {
    if a != [] { assert a[0] in Elems(a); }
    if b != [] { assert b[0] in Elems(b); }
    if a != [] && b != [] {
      assert a[0] in Elems(b) && b[0] in Elems(a);
      if a[0] != b[0] {
        var i :| 0 <= i < |b| && b[i] == a[0];
        var j :| 0 <= j < |a| && a[j] == b[0];
        assert Below(b[0], b[i]) && Below(a[0], a[j]);
        BelowTransitive(a[0], b[0], a[0]);
        BelowIrreflexive(a[0]);
      }
      forall y | y in Elems(a[1..]) ensures y in Elems(b[1..]) {
        var k :| 0 <= k < |a[1..]| && a[1..][k] == y;
        assert a[k + 1] == y && Below(a[0], a[k + 1]);
        BelowIrreflexive(a[0]);
        assert y in Elems(a);
        var m :| 0 <= m < |b| && b[m] == y;
        assert m != 0;
        assert b[1..][m - 1] == y;
      }
      forall y | y in Elems(b[1..]) ensures y in Elems(a[1..]) {
        var k :| 0 <= k < |b[1..]| && b[1..][k] == y;
        assert b[k + 1] == y && Below(b[0], b[k + 1]);
        BelowIrreflexive(b[0]);
        assert y in Elems(b);
        var m :| 0 <= m < |a| && a[m] == y;
        assert m != 0;
        assert a[1..][m - 1] == y;
      }
      StrictlySortedUnique(a[1..], b[1..]);
      assert a == [a[0]] + a[1..] && b == [b[0]] + b[1..];
    }
  }
}
