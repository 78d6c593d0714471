/**
  Python strings as sequences of code points, and the few `str` methods the
  extractor and its two scripts rely on: `isspace`, `strip()`, `split(sep)`,
  `split()` and `sep.join(parts)`.
*/
module Text {

  datatype Option<T> = None | Some(value: T)

  /** One element of a Python `str`: any code point, lone surrogates included
      (`chr(0xD800)` is a valid one-character string). */
  type Cp = c: int | 0 <= c < 0x11_0000
  type Text = seq<Cp>

  const TAB: Cp := 0x09
  const NEWLINE: Cp := 0x0A
  const SPACE: Cp := 0x20
  const QUOTE: Cp := 0x22
  const HYPHEN: Cp := 0x2D
  const SLASH: Cp := 0x2F
  const BACKSLASH: Cp := 0x5C

  /** The code points of a Dafny string literal, for stating examples. */
  function Str(s: string): (r: Text)
  {
    seq(|s|, i requires 0 <= i < |s| => s[i] as Cp)
  }

  lemma SliceOfSlice(s: Text, i: nat, j: nat, a: nat, b: nat)
    requires i <= j <= |s| && a <= b <= j - i
    ensures s[i..j][a..b] == s[i + a..i + b]
  {
    forall k | 0 <= k < b - a
      ensures s[i..j][a..b][k] == s[i + a..i + b][k]
    {
    }
  }

  /** `str.isspace()` for one character. The `\s` class of `re`, `strip()` and
      `split()` all use this same table. */
  predicate IsSpace(c: Cp)
  {
    || 0x09 <= c <= 0x0D || 0x1C <= c <= 0x20 || c == 0x85 || c == 0xA0
    || c == 0x1680 || 0x2000 <= c <= 0x200A || c == 0x2028 || c == 0x2029
    || c == 0x202F || c == 0x205F || c == 0x3000
  }

  predicate AllSpace(s: Text)
  {
    forall k :: 0 <= k < |s| ==> IsSpace(s[k])
  }

  predicate NoSpace(s: Text)
  {
    forall k :: 0 <= k < |s| ==> !IsSpace(s[k])
  }

  // ---------------------------------------------------------------- strip()

  /** `s.lstrip()`. */
  function StripLeft(s: Text): (r: Text)
    decreases |s|
  {
    if s != [] && IsSpace(s[0]) then StripLeft(s[1..]) else s
  }

  /** lstrip() drops exactly the leading run of whitespace: what is left is a
      suffix that does not start with whitespace. */
  lemma {:induction false} StripLeftSpec(s: Text)
    ensures var r := StripLeft(s);
      |r| <= |s| && r == s[|s| - |r|..] && AllSpace(s[..|s| - |r|]) && (r == [] || !IsSpace(r[0]))
    decreases |s|
  {
    if s != [] && IsSpace(s[0]) {
      StripLeftSpec(s[1..]);
      var r := StripLeft(s[1..]);
      assert s[1..][|s| - 1 - |r|..] == s[|s| - |r|..];
      assert s[..|s| - |r|] == [s[0]] + s[1..][..|s| - 1 - |r|];
    }
  }

  /** `s.rstrip()`. */
  function StripRight(s: Text): (r: Text)
    decreases |s|
  {
    if s != [] && IsSpace(s[|s| - 1]) then StripRight(s[..|s| - 1]) else s
  }

  /** rstrip() drops exactly the trailing run of whitespace: what is left is a
      prefix that does not end with whitespace. */
  lemma {:induction false} StripRightSpec(s: Text)
    ensures var r := StripRight(s);
      |r| <= |s| && r == s[..|r|] && AllSpace(s[|r|..]) && (r == [] || !IsSpace(r[|r| - 1]))
    decreases |s|
  {
    if s != [] && IsSpace(s[|s| - 1]) {
      var p := s[..|s| - 1];
      StripRightSpec(p);
      var r := StripRight(p);
      assert p[..|r|] == s[..|r|];
      assert s[|r|..] == p[|r|..] + [s[|s| - 1]];
    }
  }

  /** `s.strip()`. */
  function Strip(s: Text): (r: Text)
  {
    StripRight(StripLeft(s))
  }

  /** strip() removes exactly the whitespace around a text that neither starts
      nor ends with whitespace. */
  lemma {:induction false} StripFrame(a: Text, m: Text, b: Text)
    requires AllSpace(a) && AllSpace(b)
    requires m == [] || (!IsSpace(m[0]) && !IsSpace(m[|m| - 1]))
    ensures Strip(a + m + b) == m
  {
    if m == [] {
      assert a + m + b == (a + b) + [];
      AllSpaceAppend(a, b);
      StripLeftFrame(a + b, []);
    } else {
      assert a + m + b == a + (m + b);
      StripLeftFrame(a, m + b);
      StripRightFrame(m, b);
    }
  }

  lemma AllSpaceAppend(a: Text, b: Text)
    requires AllSpace(a) && AllSpace(b)
    ensures AllSpace(a + b)
  {
  }

  lemma {:induction false} StripLeftFrame(a: Text, t: Text)
    requires AllSpace(a)
    requires t == [] || !IsSpace(t[0])
    ensures StripLeft(a + t) == (if AllSpace(t) then [] else t)
    decreases |a|
  {
    if a == [] {
      assert a + t == t;
    } else {
      assert (a + t)[1..] == a[1..] + t;
      StripLeftFrame(a[1..], t);
    }
  }

  lemma {:induction false} StripRightFrame(m: Text, b: Text)
    requires m != [] && !IsSpace(m[|m| - 1])
    requires AllSpace(b)
    ensures StripRight(m + b) == m
    decreases |b|
  {
    if b == [] {
      assert m + b == m;
    } else {
      assert (m + b)[..|m + b| - 1] == m + b[..|b| - 1];
      StripRightFrame(m, b[..|b| - 1]);
    }
  }

  /** strip() keeps a slice of its input: it never brings in a character. */
  lemma StripKeeps(s: Text, c: Cp)
    requires c in Strip(s)
    ensures c in s
  {
    var l := StripLeft(s);
    StripLeftSpec(s);
    StripRightSpec(l);
    assert c in l;
    assert l == s[|s| - |l|..];
  }

  /** strip() leaves nothing, or a text that neither starts nor ends with
      whitespace. */
  lemma StripEnds(s: Text)
    ensures var r := Strip(s); r == [] || (!IsSpace(r[0]) && !IsSpace(r[|r| - 1]))
  {
    var l := StripLeft(s);
    StripLeftSpec(s);
    StripRightSpec(l);
    var r := StripRight(l);
    if r != [] {
      assert r[0] == l[0];
    }
  }

  /** strip() of a text yields nothing exactly when the text is all whitespace. */
  lemma StripEmpty(s: Text)
    ensures Strip(s) == [] <==> AllSpace(s)
  {
    var l := StripLeft(s);
    StripLeftSpec(s);
    StripRightSpec(l);
    if AllSpace(s) {
      assert AllSpace(l);
      assert l == [];
    }
    if Strip(s) == [] {
      assert AllSpace(l[0..]);
      assert s == s[..|s| - |l|] + l;
    }
  }

  // ---------------------------------------------------------- split(sep)

  /** `sep.join(parts)`. */
  function Join(parts: seq<Text>, sep: Cp): (r: Text)
  {
    if parts == [] then []
    else if |parts| == 1 then parts[0]
    else parts[0] + [sep] + Join(parts[1..], sep)
  }

  /** Index of the first `c` in `s`, or `|s|` when there is none. */
  function IndexOf(s: Text, c: Cp): (k: nat)
    ensures k <= |s| && c !in s[..k]
    ensures k < |s| ==> s[k] == c
  {
    if s == [] || s[0] == c then 0 else 1 + IndexOf(s[1..], c)
  }

  /** `s.split(sep)` for a one-character separator: the pieces between the
      separators, which join back to `s`. */
  function SplitOn(s: Text, sep: Cp): (parts: seq<Text>)
    ensures |parts| >= 1
    ensures forall p :: p in parts ==> sep !in p
    ensures Join(parts, sep) == s
    decreases |s|
  {
    var k := IndexOf(s, sep);
    if k == |s| then
      assert s[..k] == s;
      [s]
    else
      var rest := SplitOn(s[k + 1..], sep);
      var parts := [s[..k]] + rest;
      assert parts[0] == s[..k] && parts[1..] == rest;
      assert Join(parts, sep) == s[..k] + [sep] + Join(rest, sep);
      assert s == s[..k] + [sep] + s[k + 1..];
      assert forall p :: p in parts ==> p == s[..k] || p in rest;
      parts
  }

  lemma {:induction false} IndexOfAbsent(s: Text, c: Cp)
    requires c !in s
    ensures IndexOf(s, c) == |s|
    decreases |s|
  {
    if s != [] {
      assert s[0] in s;
      IndexOfAbsent(s[1..], c);
    }
  }

  lemma {:induction false} IndexOfAfter(a: Text, c: Cp, b: Text)
    requires c !in a
    ensures IndexOf(a + [c] + b, c) == |a|
    decreases |a|
  {
    if a != [] {
      assert (a + [c] + b)[1..] == a[1..] + [c] + b;
      IndexOfAfter(a[1..], c, b);
    }
  }

  /** Splitting undoes joining, when no piece holds the separator. */
  lemma {:induction false} SplitJoin(parts: seq<Text>, sep: Cp)
    requires |parts| >= 1
    requires forall p :: p in parts ==> sep !in p
    ensures SplitOn(Join(parts, sep), sep) == parts
    decreases |parts|
  {
    assert parts[0] in parts;
    if |parts| == 1 {
      assert Join(parts, sep) == parts[0];
      IndexOfAbsent(parts[0], sep);
      assert parts[0][..|parts[0]|] == parts[0];
    } else {
      var j := Join(parts[1..], sep);
      var s := parts[0] + [sep] + j;
      assert Join(parts, sep) == s;
      IndexOfAfter(parts[0], sep, j);
      assert s[..|parts[0]|] == parts[0];
      assert s[|parts[0]| + 1..] == j;
      assert forall p :: p in parts[1..] ==> p in parts;
      SplitJoin(parts[1..], sep);
      assert SplitOn(s, sep) == [parts[0]] + parts[1..];
      assert parts == [parts[0]] + parts[1..];
    }
  }

  /** Joining with one more, empty, piece appends a final separator. */
  lemma {:induction false} JoinSnoc(parts: seq<Text>, sep: Cp)
    requires parts != []
    ensures Join(parts + [[]], sep) == Join(parts, sep) + [sep]
    decreases |parts|
  {
    if |parts| == 1 {
      assert (parts + [[]])[1..] == [[]];
    } else {
      assert (parts + [[]])[1..] == parts[1..] + [[]];
      JoinSnoc(parts[1..], sep);
    }
  }

  // -------------------------------------------------------------- split()

  /** Every element is a non-empty run without whitespace. */
  predicate AreWords(ws: seq<Text>)
  {
    forall i :: 0 <= i < |ws| ==> ws[i] != [] && NoSpace(ws[i])
  }

  /** Length of the leading run of non-whitespace. */
  function WordRun(s: Text): (n: nat)
    ensures n <= |s| && NoSpace(s[..n])
    ensures n < |s| ==> IsSpace(s[n])
  {
    if s == [] || IsSpace(s[0]) then 0 else 1 + WordRun(s[1..])
  }

  /** Length of the leading run of whitespace. */
  function SpaceRun(s: Text): (n: nat)
    ensures n <= |s| && AllSpace(s[..n])
    ensures n < |s| ==> !IsSpace(s[n])
  {
    if s == [] || !IsSpace(s[0]) then 0 else 1 + SpaceRun(s[1..])
  }

  /** `s.split()`: the maximal runs of non-whitespace, in order. */
  function Words(s: Text): (ws: seq<Text>)
    ensures AreWords(ws)
    decreases |s|
  {
    if s == [] then []
    else if IsSpace(s[0]) then Words(s[SpaceRun(s)..])
    else [s[..WordRun(s)]] + Words(s[WordRun(s)..])
  }

  /** A text has no words exactly when it is all whitespace. */
  lemma {:induction false} WordsEmpty(s: Text)
    ensures Words(s) == [] <==> AllSpace(s)
    decreases |s|
  {
    if s == [] {
    } else if IsSpace(s[0]) {
      var n := SpaceRun(s);
      assert Words(s) == Words(s[n..]);
      WordsEmpty(s[n..]);
      assert s == s[..n] + s[n..];
      AllSpaceAppendIff(s[..n], s[n..]);
    } else {
      assert Words(s) == [s[..WordRun(s)]] + Words(s[WordRun(s)..]);
      assert !AllSpace(s);
    }
  }

  lemma AllSpaceAppendIff(a: Text, b: Text)
    requires AllSpace(a)
    ensures AllSpace(a + b) <==> AllSpace(b)
  {
    if AllSpace(a + b) {
      assert forall k :: 0 <= k < |b| ==> b[k] == (a + b)[|a| + k];
    }
  }

  lemma {:induction false} WordRunFrame(w: Text, t: Text)
    requires NoSpace(w)
    requires t == [] || IsSpace(t[0])
    ensures WordRun(w + t) == |w|
    decreases |w|
  {
    if w == [] {
      assert w + t == t;
    } else {
      assert (w + t)[1..] == w[1..] + t;
      WordRunFrame(w[1..], t);
    }
  }

  lemma SpaceRunOne(c: Cp, t: Text)
    requires IsSpace(c)
    requires t != [] && !IsSpace(t[0])
    ensures SpaceRun([c] + t) == 1
  {
    assert ([c] + t)[1..] == t;
  }

  /** The words of a single-space join are the joined words: `split()` undoes
      `" ".join(...)` on non-empty words without whitespace. */
  lemma {:induction false} WordsJoin(ws: seq<Text>)
    requires AreWords(ws)
    ensures Words(Join(ws, SPACE)) == ws
    decreases |ws|
  {
    if ws == [] {
    } else if |ws| == 1 {
      var w := ws[0];
      WordRunFrame(w, []);
      assert w + [] == w;
      assert w[|w|..] == [];
    } else {
      var w, j := ws[0], Join(ws[1..], SPACE);
      var s := w + [SPACE] + j;
      JoinWordsEnds(ws[1..]);
      assert s == w + ([SPACE] + j);
      WordRunFrame(w, [SPACE] + j);
      assert s[..|w|] == w;
      var t := s[|w|..];
      assert t == [SPACE] + j;
      SpaceRunOne(SPACE, j);
      assert t[1..] == j;
      WordsJoin(ws[1..]);
      assert ws == [w] + ws[1..];
    }
  }

  /** A single-space join of non-empty words without whitespace is empty only
      for no words, and otherwise starts and ends with a non-whitespace. */
  lemma {:induction false} JoinWordsEnds(ws: seq<Text>)
    requires AreWords(ws)
    ensures var j := Join(ws, SPACE);
      (j == [] <==> ws == []) && (j == [] || (!IsSpace(j[0]) && !IsSpace(j[|j| - 1])))
    decreases |ws|
  {
    if |ws| >= 2 {
      JoinWordsEnds(ws[1..]);
      var j := Join(ws[1..], SPACE);
      assert Join(ws, SPACE) == ws[0] + [SPACE] + j;
    }
  }

  /** `[w.strip() for w in s.split() if w.strip() != ""]`: the comprehension
      the word extractor applies to a sentence. */
  function StrippedWords(ws: seq<Text>): (r: seq<Text>)
  {
    if ws == [] then []
    else (if Strip(ws[0]) != [] then [Strip(ws[0])] else []) + StrippedWords(ws[1..])
  }

  /** On the output of `split()` that comprehension changes nothing: every word
      is already non-empty and stripped. */
  lemma {:induction false} StrippedWordsNoop(ws: seq<Text>)
    requires AreWords(ws)
    ensures StrippedWords(ws) == ws
    decreases |ws|
  {
    if ws != [] {
      var w := ws[0];
      StripFrame([], w, []);
      assert [] + w + [] == w;
      StrippedWordsNoop(ws[1..]);
      assert ws == [w] + ws[1..];
    }
  }

  // ------------------------------------------------------- base languages

  /** `tag.split("-")[0]`: the base language of a locale tag. */
  function BaseLanguage(tag: Text): (r: Text)
  {
    SplitOn(tag, HYPHEN)[0]
  }

  /** The base language is everything before the first hyphen, or the whole tag
      when it has none. */
  lemma BaseLanguageIsPrefix(tag: Text)
    ensures var b := BaseLanguage(tag);
      |b| <= |tag| && b == tag[..|b|] && HYPHEN !in b && (|b| == |tag| || tag[|b|] == HYPHEN)
  {
    var parts := SplitOn(tag, HYPHEN);
    var k := IndexOf(tag, HYPHEN);
    assert parts[0] in parts;
  }
}
