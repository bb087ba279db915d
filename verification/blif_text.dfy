/**
 * The text layer of the BLIF netlist reader: comment stripping, backslash
 * continuation of physical lines into logical lines, whitespace tokenisation
 * and the classification of a logical line by its directive.
 */
module BlifText {

  /** The characters `operator>>` on a string stream skips: space, tab,
      newline, vertical tab, form feed and carriage return. */
  predicate IsSpace(c: char)
  {
    c == ' ' || c == '\t' || c == '\n' || c == '\r' || c == '\U{B}' || c == '\U{C}'
  }

  /** A token as the stream extracts it: nonempty and free of whitespace. */
  predicate IsToken(t: string)
  {
    t != [] && forall i :: 0 <= i < |t| ==> !IsSpace(t[i])
  }

  /** `p` is a prefix of `s`: what `s.find(p) == 0` tests. */
  predicate StartsWith(s: string, p: string)
  {
    |p| <= |s| && s[..|p|] == p
  }

  /** The line with everything from its first `#` on removed. */
  function StripComment(line: string): (r: string)
    ensures r <= line
    ensures '#' !in r
    ensures |r| < |line| ==> line[|r|] == '#'
  {
    if line == [] || line[0] == '#' then []
    else [line[0]] + StripComment(line[1..])
  }

  /** Length of the run of non-whitespace characters that starts `s`. */
  function WordLength(s: string): (n: nat)
    ensures n <= |s|
    ensures forall i :: 0 <= i < n ==> !IsSpace(s[i])
    ensures n < |s| ==> IsSpace(s[n])
  {
    if s == [] || IsSpace(s[0]) then 0 else 1 + WordLength(s[1..])
  }

  /** The tokens a string stream yields from `s`, in order. */
  function Tokens(s: string): (ts: seq<string>)
    ensures forall k :: 0 <= k < |ts| ==> IsToken(ts[k])
    decreases |s|
  {
    if s == [] then []
    else if IsSpace(s[0]) then Tokens(s[1..])
    else
      var n := WordLength(s);
      [s[..n]] + Tokens(s[n..])
  }

  /** The tokens written out, each followed by one space. */
  function Spaced(ts: seq<string>): string
  {
    if ts == [] then [] else ts[0] + " " + Spaced(ts[1..])
  }

  /** A word followed by a space is read back as that word. */
  lemma {:induction false} WordLengthOfWord(t: string, rest: string)
    requires IsToken(t)
    ensures WordLength(t + " " + rest) == |t|
    decreases |t|
  {
    if |t| > 1 {
      assert (t + " " + rest)[1..] == t[1..] + " " + rest;
      WordLengthOfWord(t[1..], rest);
    } else {
      assert (t + " " + rest)[1..] == " " + rest;
    }
  }

  /** Tokenising tokens written out with separating spaces gives them back. */
  lemma {:induction false} TokensOfSpaced(ts: seq<string>)
    requires forall k :: 0 <= k < |ts| ==> IsToken(ts[k])
    ensures Tokens(Spaced(ts)) == ts
  {
    if ts != [] {
      var t, rest := ts[0], Spaced(ts[1..]);
      WordLengthOfWord(t, rest);
      assert (t + " " + rest)[..|t|] == t;
      assert (t + " " + rest)[|t|..] == " " + rest;
      assert (" " + rest)[1..] == rest;
      TokensOfSpaced(ts[1..]);
    }
  }

  /** A word ends at the first whitespace character. */
  lemma {:induction false} WordLengthSplit(a: string, c: char, b: string)
    requires IsSpace(c)
    ensures WordLength(a + [c] + b) == WordLength(a)
    decreases |a|
  {
    if a != [] && !IsSpace(a[0]) {
      assert (a + [c] + b)[1..] == a[1..] + [c] + b;
      WordLengthSplit(a[1..], c, b);
    }
  }

  /** A whitespace character separates tokens: the tokens of the text on each
      side of it, in order. */
  lemma {:induction false} TokensSplit(a: string, c: char, b: string)
    requires IsSpace(c)
    ensures Tokens(a + [c] + b) == Tokens(a) + Tokens(b)
    decreases |a|
  {
    var s := a + [c] + b;
    if a == [] {
      assert s[1..] == b;
    } else if IsSpace(a[0]) {
      assert s[1..] == a[1..] + [c] + b;
      TokensSplit(a[1..], c, b);
    } else {
      var n := WordLength(a);
      WordLengthSplit(a, c, b);
      assert s[..n] == a[..n];
      assert s[n..] == a[n..] + [c] + b;
      TokensSplit(a[n..], c, b);
    }
  }

  // ----------------------------------------------------------------------------
  // Continuation lines
  // ----------------------------------------------------------------------------

  /** The reader's view of the physical lines so far: the text held from lines
      ending in a backslash, and the logical lines completed. */
  datatype Lines = Lines(held: string, logical: seq<string>)

  /** A physical line after comment removal, prefixed with the held text and
      one space when some text is held. */
  function Joined(held: string, raw: string): string
  {
    var line := StripComment(raw);
    if held != [] then held + " " + line else line
  }

  /** A line that is held for the next one: it ends in a backslash. */
  predicate Continues(line: string)
  {
    line != [] && line[|line| - 1] == '\\'
  }

  /** The next physical line: a line ending in a backslash is held without it
      and completes nothing; any other line completes a logical line. */
  function NextLine(r: Lines, raw: string): (r': Lines)
    ensures Continues(Joined(r.held, raw)) ==> r'.logical == r.logical
    ensures !Continues(Joined(r.held, raw)) ==> r'.held == [] && r'.logical == r.logical + [Joined(r.held, raw)]
  {
    var line := Joined(r.held, raw);
    if Continues(line) then Lines(line[..|line| - 1], r.logical)
    else Lines([], r.logical + [line])
  }

  /** The logical lines of a sequence of physical lines, and what is still held
      after the last of them. */
  function Logical(raw: seq<string>): (r: Lines)
    ensures '#' !in r.held
    ensures forall k :: 0 <= k < |r.logical| ==> '#' !in r.logical[k] && !Continues(r.logical[k])
    ensures |r.logical| <= |raw|
  {
    if raw == [] then Lines([], []) else NextLine(Logical(raw[..|raw| - 1]), raw[|raw| - 1])
  }

  /** Reading more physical lines only adds logical lines at the end. */
  lemma {:induction false} LogicalPrefix(raw: seq<string>, n: nat)
    requires n <= |raw|
    ensures Logical(raw[..n]).logical <= Logical(raw).logical
    decreases |raw| - n
  {
    if n < |raw| {
      LogicalPrefix(raw, n + 1);
      assert raw[..n + 1][..n] == raw[..n];
    } else {
      assert raw[..n] == raw;
    }
  }

  /** A line ending in a backslash followed by one that does not make a single
      logical line: the first without its backslash, one space, the second. */
  lemma Continuation(raw: seq<string>, first: string, second: string)
    requires Logical(raw).held == []
    requires '#' !in first && Continues(first) && |first| > 1
    requires !Continues(first[..|first| - 1] + " " + StripComment(second))
    ensures Logical(raw + [first, second]) ==
      Lines([], Logical(raw).logical + [first[..|first| - 1] + " " + StripComment(second)])
  {
    assert raw + [first, second] == (raw + [first]) + [second];
    StripNoComment(first);
    LogicalSnoc(raw, first);
    LogicalSnoc(raw + [first], second);
  }

  /** One more physical line is one `NextLine` step. */
  lemma LogicalSnoc(raw: seq<string>, line: string)
    ensures Logical(raw + [line]) == NextLine(Logical(raw), line)
  {
    assert (raw + [line])[..|raw|] == raw;
  }


  /** A line without `#` has no comment to strip. */
  lemma {:induction false} StripNoComment(line: string)
    requires '#' !in line
    ensures StripComment(line) == line
  {
    if line != [] {
      StripNoComment(line[1..]);
    }
  }

  // ----------------------------------------------------------------------------
  // Directives
  // ----------------------------------------------------------------------------

  /** What a logical line is, read from its first characters in this order. */
  datatype Directive = ModelLine | InputsLine | OutputsLine | NamesLine | EndLine | CoverLine

  function Classify(line: string): (d: Directive)
    ensures d == CoverLine <==>
      !StartsWith(line, ".model") && !StartsWith(line, ".inputs") && !StartsWith(line, ".outputs") &&
      !StartsWith(line, ".names") && !StartsWith(line, ".end")
  {
    if StartsWith(line, ".model") then ModelLine
    else if StartsWith(line, ".inputs") then InputsLine
    else if StartsWith(line, ".outputs") then OutputsLine
    else if StartsWith(line, ".names") then NamesLine
    else if StartsWith(line, ".end") then EndLine
    else CoverLine
  }

  /** The tokens other than `word`, in order. */
  function Without(ts: seq<string>, word: string): (r: seq<string>)
    ensures forall t :: t in r <==> t in ts && t != word
    ensures |r| <= |ts|
  {
    if ts == [] then []
    else Without(ts[..|ts| - 1], word) + (if ts[|ts| - 1] == word then [] else [ts[|ts| - 1]])
  }

  /** A single token is kept exactly when it differs from `word`. */
  lemma WithoutOne(t: string, word: string)
    ensures Without([t], word) == if t == word then [] else [t]
  {
    assert [t][..0] == [];
  }

  /** Filtering keeps order: the tokens of a concatenation are filtered part
      by part. */
  lemma {:induction false} WithoutAppend(a: seq<string>, b: seq<string>, word: string)
    ensures Without(a + b, word) == Without(a, word) + Without(b, word)
    decreases |b|
  {
    if b == [] {
      assert a + b == a;
    } else {
      var init := b[..|b| - 1];
      assert (a + b)[..|a + b| - 1] == a + init;
      WithoutAppend(a, init, word);
    }
  }

  /** Tokens that never equal `word` all come through, in order and with
      their repeats. */
  lemma {:induction false} WithoutAbsent(ts: seq<string>, word: string)
    requires word !in ts
    ensures Without(ts, word) == ts
  {
    if ts != [] {
      WithoutAbsent(ts[..|ts| - 1], word);
    }
  }
}
