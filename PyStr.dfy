/** The Python string operations the two input parsers are built from:
    `str.strip()`, `str.split(sep)`, `str.split()` and `str.startswith`,
    over `string` (a `seq<char>` of Unicode code points). */
module PyStr {

  /** `str.isspace` for one character: exactly the characters that
      `str.strip()` removes and `str.split()` splits on. */
  predicate IsSpace(c: char) {
    || '\t' <= c <= '\r'
    || '\U{1C}' <= c <= '\U{1F}'
    || c == ' '
    || c == '\U{85}'
    || c == '\U{A0}'
    || c == '\U{1680}'
    || '\U{2000}' <= c <= '\U{200A}'
    || c == '\U{2028}'
    || c == '\U{2029}'
    || c == '\U{202F}'
    || c == '\U{205F}'
    || c == '\U{3000}'
  }

  predicate NoSpace(s: string) {
    forall i :: 0 <= i < |s| ==> !IsSpace(s[i])
  }

  predicate AllSpace(s: string) {
    forall i :: 0 <= i < |s| ==> IsSpace(s[i])
  }

  /** `s.startswith(prefix)` */
  predicate StartsWith(s: string, prefix: string) {
    |prefix| <= |s| && s[..|prefix|] == prefix
  }

  // ---------------------------------------------------------------------
  // str.strip()
  // ---------------------------------------------------------------------

  /** `s.lstrip()`: the suffix of `s` left after dropping leading whitespace. */
  function TrimLeft(s: string): (r: string)
    ensures |r| <= |s|
    ensures r == [] || !IsSpace(r[0])
  {
    if s != [] && IsSpace(s[0]) then TrimLeft(s[1..]) else s
  }

  /** `lstrip` keeps a suffix and drops only whitespace. */
  lemma {:induction false} TrimLeftSuffix(s: string)
    ensures var r := TrimLeft(s); r == s[|s| - |r|..] && AllSpace(s[..|s| - |r|])
  {
    if s != [] && IsSpace(s[0]) {
      TrimLeftSuffix(s[1..]);
    }
  }

  /** `s.rstrip()`: the prefix of `s` left after dropping trailing whitespace. */
  function TrimRight(s: string): (r: string)
    ensures |r| <= |s|
    ensures r == [] || !IsSpace(r[|r| - 1])
  {
    if s != [] && IsSpace(s[|s| - 1]) then TrimRight(s[..|s| - 1]) else s
  }

  /** `rstrip` keeps a prefix and drops only whitespace. */
  lemma {:induction false} TrimRightPrefix(s: string)
    ensures var r := TrimRight(s); r == s[..|r|] && AllSpace(s[|r|..])
  {
    if s != [] && IsSpace(s[|s| - 1]) {
      TrimRightPrefix(s[..|s| - 1]);
    }
  }

  /** `s.strip()` */
  function Strip(s: string): (r: string)
  {
    TrimRight(TrimLeft(s))
  }

  /** What `strip` keeps is an infix of `s` that starts and ends with a
      non-space character; everything it drops on either side is whitespace. */
  lemma StripInfix(s: string)
    ensures var r := Strip(s);
            && (r == [] || (!IsSpace(r[0]) && !IsSpace(r[|r| - 1])))
            && exists lo :: 0 <= lo <= |s| - |r|
                 && s[lo..lo + |r|] == r
                 && AllSpace(s[..lo])
                 && AllSpace(s[lo + |r|..])
  {
    var t := TrimLeft(s);
    var r := TrimRight(t);
    var lo := |s| - |t|;
    TrimLeftSuffix(s);
    TrimRightPrefix(t);
    assert s[lo..lo + |r|] == t[..|r|] == r;
    assert s[lo + |r|..] == t[|r|..];
    if r != [] {
      assert r[0] == t[0];
    }
  }

  lemma {:induction false} TrimLeftAllSpace(s: string)
    requires AllSpace(s)
    ensures TrimLeft(s) == []
  {
    if s != [] {
      TrimLeftAllSpace(s[1..]);
    }
  }

  lemma {:induction false} TrimRightPadded(s: string, pad: string)
    requires AllSpace(pad)
    ensures TrimRight(s + pad) == TrimRight(s)
    decreases |pad|
  {
    if pad != [] {
      var p := pad[..|pad| - 1];
      assert (s + pad)[..|s + pad| - 1] == s + p;
      TrimRightPadded(s, p);
    } else {
      assert s + pad == s;
    }
  }

  /** Whitespace added on either side does not change the strip. */
  lemma StripPadded(pad1: string, s: string, pad2: string)
    requires AllSpace(pad1) && AllSpace(pad2)
    ensures Strip(pad1 + s + pad2) == Strip(s)
  {
    TrimLeftAllSpace(pad1);
    TrimLeftConcat(pad1, s + pad2);
    TrimLeftConcat(s, pad2);
    TrimLeftAllSpace(pad2);
    assert pad1 + s + pad2 == pad1 + (s + pad2);
    TrimRightPadded(TrimLeft(s), pad2);
  }

  /** A string with no whitespace at either end is its own strip. */
  lemma StripUnpadded(s: string)
    requires s == [] || (!IsSpace(s[0]) && !IsSpace(s[|s| - 1]))
    ensures Strip(s) == s
  {
  }

  /** Leading whitespace does not change the strip. */
  lemma StripLeadingSpace(c: char, s: string)
    requires IsSpace(c)
    ensures Strip([c] + s) == Strip(s)
  {
    assert ([c] + s)[1..] == s;
  }

  lemma StripIdempotent(s: string)
    ensures Strip(Strip(s)) == Strip(s)
  {
    StripInfix(s);
    StripUnpadded(Strip(s));
  }

  // ---------------------------------------------------------------------
  // str.split(sep) for a one-character separator
  // ---------------------------------------------------------------------

  /** `s.split(sep)`: the pieces between occurrences of `sep`; always at
      least one piece, and at least two when `sep` occurs. */
  function SplitOn(s: string, sep: char): (r: seq<string>)
    ensures |r| >= 1
    ensures sep in s ==> |r| >= 2
    ensures forall k :: 0 <= k < |r| ==> sep !in r[k]
  {
    if s == [] then [[]]
    else
      var rest := SplitOn(s[1..], sep);
      if s[0] == sep then [[]] + rest
      else [[s[0]] + rest[0]] + rest[1..]
  }

  /** `sep.join(parts)` */
  function JoinWith(parts: seq<string>, sep: char): string
    requires |parts| >= 1
  {
    if |parts| == 1 then parts[0] else parts[0] + [sep] + JoinWith(parts[1..], sep)
  }

  /** Joining the pieces again gives back the text. */
  lemma {:induction false} JoinSplitOn(s: string, sep: char)
    ensures JoinWith(SplitOn(s, sep), sep) == s
  {
    if s != [] {
      var rest := SplitOn(s[1..], sep);
      JoinSplitOn(s[1..], sep);
      if s[0] != sep && |rest| > 1 {
        assert rest == [rest[0]] + rest[1..];
        assert JoinWith(rest, sep) == rest[0] + [sep] + JoinWith(rest[1..], sep);
      }
    }
  }

  /** A prefix free of the separator is glued to the first piece of the rest. */
  lemma {:induction false} SplitOnPlainPrefix(x: string, y: string, sep: char)
    requires sep !in x
    ensures SplitOn(x + y, sep) == [x + SplitOn(y, sep)[0]] + SplitOn(y, sep)[1..]
  {
    if x != [] {
      assert (x + y)[1..] == x[1..] + y;
      SplitOnPlainPrefix(x[1..], y, sep);
      assert [x[0]] + (x[1..] + SplitOn(y, sep)[0]) == x + SplitOn(y, sep)[0];
    } else {
      assert x + y == y;
      assert x + SplitOn(y, sep)[0] == SplitOn(y, sep)[0];
      assert [SplitOn(y, sep)[0]] + SplitOn(y, sep)[1..] == SplitOn(y, sep);
    }
  }

  /** Splitting pieces that are joined by the separator gives back the pieces. */
  lemma {:induction false} SplitOnJoin(parts: seq<string>, sep: char)
    requires |parts| >= 1
    requires forall k :: 0 <= k < |parts| ==> sep !in parts[k]
    ensures SplitOn(JoinWith(parts, sep), sep) == parts
  {
    var p := parts[0];
    if |parts| == 1 {
      SplitOnPlainPrefix(p, [], sep);
      assert SplitOn([], sep) == [[]];
      assert p + [] == p;
      assert parts == [p];
    } else {
      var tail := JoinWith(parts[1..], sep);
      SplitOnJoin(parts[1..], sep);
      assert ([sep] + tail)[1..] == tail;
      assert p + [sep] + tail == p + ([sep] + tail);
      SplitOnPlainPrefix(p, [sep] + tail, sep);
      assert SplitOn([sep] + tail, sep) == [[]] + parts[1..];
      assert p + [] == p;
      assert parts == [p] + parts[1..];
    }
  }

  /** The second piece of `s.split(sep)` is the text between the first and
      the second separator (or the end): with `pre` ending in the only
      separator it holds, `(pre + v + rest).split(sep)[1] == v` whenever `v`
      holds no separator and `rest` is empty or starts with one. */
  lemma SplitOnSecondPiece(pre: string, v: string, rest: string, sep: char)
    requires pre != [] && pre[|pre| - 1] == sep && sep !in pre[..|pre| - 1]
    requires sep !in v
    requires rest == [] || rest[0] == sep
    ensures |SplitOn(pre + v + rest, sep)| >= 2
    ensures SplitOn(pre + v + rest, sep)[1] == v
  {
    var head := pre[..|pre| - 1];
    var tail := [sep] + v + rest;
    assert pre + v + rest == head + tail;
    SplitOnPlainPrefix(head, tail, sep);
    assert tail[1..] == v + rest;
    SplitOnPlainPrefix(v, rest, sep);
    if rest != [] {
      assert rest == [rest[0]] + rest[1..];
    }
  }

  // ---------------------------------------------------------------------
  // str.split() with no argument
  // ---------------------------------------------------------------------

  /** The longest whitespace-free prefix of `s`. */
  function Word(s: string): (w: string)
    ensures |w| <= |s|
    ensures s != [] && !IsSpace(s[0]) ==> w != []
  {
    if s == [] || IsSpace(s[0]) then [] else [s[0]] + Word(s[1..])
  }

  /** The word is a whitespace-free prefix that stops at whitespace or the end. */
  lemma {:induction false} WordPrefix(s: string)
    ensures var w := Word(s);
            && w == s[..|w|]
            && NoSpace(w)
            && (|w| == |s| || IsSpace(s[|w|]))
  {
    if s != [] && !IsSpace(s[0]) {
      WordPrefix(s[1..]);
    }
  }

  /** `s.split()`: the maximal runs of non-whitespace characters, in order;
      leading and trailing whitespace yields no empty token. */
  function SplitWhitespace(s: string): (r: seq<string>)
    decreases |s|
  {
    var t := TrimLeft(s);
    if t == [] then []
    else
      var w := Word(t);
      [w] + SplitWhitespace(t[|w|..])
  }

  /** Every token of `split()` is non-empty and free of whitespace. */
  lemma {:induction false} SplitWhitespaceTokens(s: string)
    ensures forall k :: 0 <= k < |SplitWhitespace(s)| ==>
              SplitWhitespace(s)[k] != [] && NoSpace(SplitWhitespace(s)[k])
    decreases |s|
  {
    var t := TrimLeft(s);
    if t != [] {
      var w := Word(t);
      WordPrefix(t);
      SplitWhitespaceTokens(t[|w|..]);
    }
  }

  /** The tokens separated by single spaces, as `" ".join(tokens)`. */
  function JoinWords(tokens: seq<string>): string {
    if tokens == [] then []
    else if |tokens| == 1 then tokens[0]
    else tokens[0] + " " + JoinWords(tokens[1..])
  }

  lemma {:induction false} TrimLeftConcat(x: string, y: string)
    ensures TrimLeft(x + y) == if TrimLeft(x) == [] then TrimLeft(y) else TrimLeft(x) + y
  {
    if x == [] {
      assert x + y == y;
    } else if IsSpace(x[0]) {
      assert (x + y)[1..] == x[1..] + y;
      TrimLeftConcat(x[1..], y);
    }
  }

  lemma {:induction false} WordConcat(x: string, y: string)
    ensures Word(x + y) == if |Word(x)| < |x| then Word(x) else x + Word(y)
  {
    if x == [] {
      assert x + y == y;
    } else if !IsSpace(x[0]) {
      assert (x + y)[1..] == x[1..] + y;
      WordConcat(x[1..], y);
    }
  }

  /** One trailing whitespace character adds no token. */
  lemma {:induction false} SplitWhitespaceTrailingSpace(s: string, c: char)
    requires IsSpace(c)
    ensures SplitWhitespace(s + [c]) == SplitWhitespace(s)
    decreases |s|
  {
    var t := TrimLeft(s);
    TrimLeftConcat(s, [c]);
    assert TrimLeft([c]) == [];
    if t != [] {
      var w := Word(t);
      var u := t[|w|..];
      WordPrefix(t);
      WordConcat(t, [c]);
      assert Word([c]) == [];
      assert (t + [c])[|w|..] == u + [c];
      assert TrimLeft(s + [c]) == t + [c];
      assert Word(t + [c]) == w;
      calc {
        SplitWhitespace(s + [c]);
        [w] + SplitWhitespace(u + [c]);
        { SplitWhitespaceTrailingSpace(u, c); }
        [w] + SplitWhitespace(u);
        SplitWhitespace(s);
      }
    }
  }

  lemma {:induction false} SplitWhitespaceTrimRight(s: string)
    ensures SplitWhitespace(TrimRight(s)) == SplitWhitespace(s)
    decreases |s|
  {
    if s != [] && IsSpace(s[|s| - 1]) {
      var p, c := s[..|s| - 1], s[|s| - 1];
      assert p + [c] == s;
      calc {
        SplitWhitespace(TrimRight(s));
        SplitWhitespace(TrimRight(p));
        { SplitWhitespaceTrimRight(p); }
        SplitWhitespace(p);
        { SplitWhitespaceTrailingSpace(p, c); }
        SplitWhitespace(p + [c]);
      }
    }
  }

  /** Stripping before `split()` changes nothing: `s.strip().split() == s.split()`. */
  lemma SplitWhitespaceStrip(s: string)
    ensures SplitWhitespace(Strip(s)) == SplitWhitespace(s)
  {
    var t := TrimLeft(s);
    SplitWhitespaceTrimRight(t);
    assert TrimLeft(t) == t;
  }

  lemma {:induction false} WordWhole(w: string)
    requires NoSpace(w)
    ensures Word(w) == w
  {
    if w != [] {
      WordWhole(w[1..]);
      assert w == [w[0]] + w[1..];
    }
  }

  /** A whitespace-free word followed by whitespace (or nothing) is the
      first token of `split()`. */
  lemma SplitWhitespaceLeadingWord(w: string, y: string)
    requires w != [] && NoSpace(w) && (y == [] || IsSpace(y[0]))
    ensures SplitWhitespace(w + y) == [w] + SplitWhitespace(y)
  {
    var s := w + y;
    TrimLeftConcat(w, y);
    assert TrimLeft(w) == w;
    WordConcat(w, y);
    WordWhole(w);
    assert Word(y) == [];
    assert Word(s) == w;
    assert s[|w|..] == y;
  }

  /** A leading whitespace character adds no token. */
  lemma SplitWhitespaceLeadingSpace(c: char, y: string)
    requires IsSpace(c)
    ensures SplitWhitespace([c] + y) == SplitWhitespace(y)
  {
    assert ([c] + y)[1..] == y;
  }

  /** `split()` inverts joining non-empty, whitespace-free tokens with spaces. */
  lemma {:induction false} SplitWhitespaceJoinWords(tokens: seq<string>)
    requires forall k :: 0 <= k < |tokens| ==> tokens[k] != [] && NoSpace(tokens[k])
    ensures SplitWhitespace(JoinWords(tokens)) == tokens
  {
    if |tokens| == 1 {
      SplitWhitespaceLeadingWord(tokens[0], []);
      assert tokens[0] + [] == tokens[0];
    } else if |tokens| > 1 {
      var w, j := tokens[0], JoinWords(tokens[1..]);
      assert JoinWords(tokens) == w + (" " + j);
      SplitWhitespaceLeadingWord(w, " " + j);
      SplitWhitespaceLeadingSpace(' ', j);
      SplitWhitespaceJoinWords(tokens[1..]);
      assert tokens == [w] + tokens[1..];
    }
  }
}
