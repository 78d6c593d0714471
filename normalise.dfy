/**
  The text normaliser applied to the flattened content of one `<string>` or
  `<item>` element: quote-aware splitting, whitespace collapsing outside
  quoted runs, one pass of backslash unescaping, and the split into stripped,
  non-empty lines. Each regular expression of the extractor is modelled as an
  explicit left-to-right scanner.
*/
module Normalise {
  import opened Text

  // ------------------------------------------------- whitespace collapsing

  /** `re.sub(r"\s+", " ", s)`: every maximal whitespace run becomes one space,
      everything between the runs is copied. */
  function Collapse(s: Text): (r: Text)
    decreases |s|
  {
    if s == [] then []
    else if IsSpace(s[0]) then [SPACE] + Collapse(s[SpaceRun(s)..])
    else s[..WordRun(s)] + Collapse(s[WordRun(s)..])
  }

  /** Collapsing brings in no character but the space, and leaves no other
      whitespace. */
  lemma {:induction false} CollapseChars(s: Text, c: Cp)
    requires c in Collapse(s)
    ensures c == SPACE || (c in s && !IsSpace(c))
    decreases |s|
  {
    if IsSpace(s[0]) {
      if c != SPACE {
        CollapseChars(s[SpaceRun(s)..], c);
      }
    } else {
      var n := WordRun(s);
      if c in s[..n] {
      } else {
        CollapseChars(s[n..], c);
      }
    }
  }

  /** The single space that a leading whitespace run leaves behind. */
  function Lead(s: Text): (r: Text)
  {
    if s != [] && IsSpace(s[0]) then [SPACE] else []
  }

  /** The single space that a trailing whitespace run after a word leaves behind. */
  function Trail(s: Text): (r: Text)
  {
    if Words(s) != [] && IsSpace(s[|s| - 1]) then [SPACE] else []
  }

  /** Collapsing leaves the words of the text joined by single spaces, with
      one space for a leading and one for a trailing whitespace run. */
  lemma {:induction false} CollapseShape(s: Text)
    ensures Collapse(s) == Lead(s) + Join(Words(s), SPACE) + Trail(s)
    decreases |s|, 2
  {
    if s == [] {
    } else if IsSpace(s[0]) {
      CollapseShapeSpace(s);
    } else {
      CollapseShapeWord(s);
    }
  }

  lemma {:induction false} CollapseShapeSpace(s: Text)
    requires s != [] && IsSpace(s[0])
    ensures Collapse(s) == Lead(s) + Join(Words(s), SPACE) + Trail(s)
    decreases |s|, 1
  {
    var t := s[SpaceRun(s)..];
    CollapseShape(t);
    SpaceRunStep(s);
    var joined, trail := Join(Words(t), SPACE), Trail(t);
    assert Collapse(t) == joined + trail;
    Associative([SPACE], joined, trail);
  }

  /** Past a leading whitespace run: one space, then what the rest gives. */
  lemma SpaceRunStep(s: Text)
    requires s != [] && IsSpace(s[0])
    ensures var t := s[SpaceRun(s)..];
      && Collapse(s) == [SPACE] + Collapse(t)
      && Words(s) == Words(t)
      && Lead(s) == [SPACE] && Lead(t) == []
      && Trail(s) == Trail(t)
  {
    var t := s[SpaceRun(s)..];
    if t != [] {
      assert s[|s| - 1] == t[|t| - 1];
    }
  }

  lemma Associative(a: Text, b: Text, c: Text)
    ensures a + (b + c) == a + b + c
  {
  }

  lemma {:induction false} CollapseShapeWord(s: Text)
    requires s != [] && !IsSpace(s[0])
    ensures Collapse(s) == Lead(s) + Join(Words(s), SPACE) + Trail(s)
    decreases |s|, 1
  {
    var t := s[WordRun(s)..];
    if t == [] {
      assert s[..WordRun(s)] == s;
      assert Collapse(s) == s;
      assert Words(s) == [s];
      assert Trail(s) == [];
    } else if Words(t) == [] {
      CollapseShapeWordBlank(s);
    } else {
      CollapseShapeWordMore(s);
    }
  }

  lemma {:induction false} CollapseShapeWordBlank(s: Text)
    requires s != [] && !IsSpace(s[0])
    requires var t := s[WordRun(s)..]; t != [] && Words(t) == []
    ensures Collapse(s) == Lead(s) + Join(Words(s), SPACE) + Trail(s)
    decreases |s|, 0
  {
    var n := WordRun(s);
    var w, t := s[..n], s[n..];
    CollapseShape(t);
    WordsEmpty(t);
    assert s[|s| - 1] == t[|t| - 1];
    assert Words(s) == [w];
    assert Trail(s) == [SPACE];
    assert Lead(t) == [SPACE] && Trail(t) == [];
    assert Collapse(s) == w + Collapse(t);
  }

  lemma {:induction false} CollapseShapeWordMore(s: Text)
    requires s != [] && !IsSpace(s[0])
    requires var t := s[WordRun(s)..]; t != [] && Words(t) != []
    ensures Collapse(s) == Lead(s) + Join(Words(s), SPACE) + Trail(s)
    decreases |s|, 0
  {
    var n := WordRun(s);
    var w, t := s[..n], s[n..];
    CollapseShape(t);
    WordRunStep(s);
    var W := Words(t);
    assert Join([w] + W, SPACE) == w + [SPACE] + Join(W, SPACE);
    Associative4(w, [SPACE], Join(W, SPACE), Trail(t));
  }

  /** Past a leading word followed by more words: the word, then what the
      rest gives, which starts with the space of its leading run. */
  lemma WordRunStep(s: Text)
    requires s != [] && !IsSpace(s[0])
    requires var t := s[WordRun(s)..]; t != [] && Words(t) != []
    ensures var n := WordRun(s); var w, t := s[..n], s[n..];
      && Collapse(s) == w + Collapse(t)
      && Words(s) == [w] + Words(t)
      && Lead(s) == [] && Lead(t) == [SPACE]
      && Trail(s) == Trail(t)
  {
    var n := WordRun(s);
    var t := s[n..];
    assert s[|s| - 1] == t[|t| - 1];
  }

  lemma Associative4(a: Text, b: Text, c: Text, d: Text)
    ensures a + (b + c + d) == [] + (a + b + c) + d
  {
  }

  /** Collapsing and then stripping yields the text's words (`s.split()`)
      joined by single spaces. */
  lemma StripCollapse(s: Text)
    ensures Strip(Collapse(s)) == Join(Words(s), SPACE)
  {
    CollapseShape(s);
    JoinWordsEnds(Words(s));
    StripFrame(Lead(s), Join(Words(s), SPACE), Trail(s));
  }

  // ---------------------------------------------------- quote-aware split

  /** A `"` that the lookbehind `(?<!\\)` accepts: not right after a backslash. */
  predicate UnescapedQuote(s: Text, i: nat)
    requires i < |s|
  {
    s[i] == QUOTE && (i == 0 || s[i - 1] != BACKSLASH)
  }

  /** What the group `(?:[^"]|\\"|\n)*` accepts: text in which every `"` comes
      right after a backslash. */
  predicate QuoteBody(w: Text)
  {
    forall k :: 0 <= k < |w| && w[k] == QUOTE ==> k > 0 && w[k - 1] == BACKSLASH
  }

  /** `s[i..e]` is a match of the delimiter pattern
      `(?<!\\)"(?:[^"]|\\"|\n)*(?<!\\)"` starting at `i`. */
  predicate QuotedRunAt(s: Text, i: nat, e: nat)
  {
    && i + 2 <= e <= |s|
    && UnescapedQuote(s, i)
    && UnescapedQuote(s, e - 1)
    && QuoteBody(s[i + 1..e - 1])
  }

  /** First unescaped `"` at or after `j`. */
  function NextUnescapedQuote(s: Text, j: nat): (k: Option<nat>)
    requires j <= |s|
    ensures k.Some? ==> j <= k.value < |s| && UnescapedQuote(s, k.value)
    ensures forall m :: j <= m < |s| && (k.None? || m < k.value) ==> !UnescapedQuote(s, m)
    decreases |s| - j
  {
    if j == |s| then None
    else if UnescapedQuote(s, j) then Some(j)
    else NextUnescapedQuote(s, j + 1)
  }

  /** The scanner's reading of the delimiter pattern at `i`: an unescaped quote
      that runs to the next unescaped quote; `None` when there is no such run. */
  function MatchAt(s: Text, i: nat): (e: Option<nat>)
    requires i <= |s|
    ensures e.Some? ==> i + 2 <= e.value <= |s|
  {
    if i < |s| && UnescapedQuote(s, i) then
      match NextUnescapedQuote(s, i + 1)
      case Some(k) => Some(k + 1)
      case None => None
    else None
  }

  /** The scanner agrees with the regular expression: the pattern matches at
      `i` ending at `e` exactly when the scanner finds `e` there. The match is
      therefore unique, and greedy repetition can only pick that one. */
  lemma MatchAtIsRegexMatch(s: Text, i: nat, e: nat)
    requires i <= |s|
    ensures QuotedRunAt(s, i, e) <==> MatchAt(s, i) == Some(e)
  {
    if MatchAt(s, i) == Some(e) {
      var body := s[i + 1..e - 1];
      forall k | 0 <= k < |body| && body[k] == QUOTE
        ensures k > 0 && body[k - 1] == BACKSLASH
      {
        assert s[i + 1 + k] == body[k];
        assert !UnescapedQuote(s, i + 1 + k);
      }
    }
    if QuotedRunAt(s, i, e) {
      var body := s[i + 1..e - 1];
      forall m | i + 1 <= m < e - 1
        ensures !UnescapedQuote(s, m)
      {
        assert s[m] == body[m - i - 1];
        if s[m] == QUOTE {
          assert m - i - 1 > 0 && body[m - i - 2] == BACKSLASH;
        }
      }
    }
  }

  /** `re.split` with the capturing delimiter pattern, scanning from `pos`;
      the piece in progress started at `start`. */
  function SplitFrom(s: Text, start: nat, pos: nat): (r: seq<Text>)
    requires start <= pos <= |s|
    decreases |s| - pos
  {
    if pos == |s| then [s[start..]]
    else match MatchAt(s, pos)
      case Some(e) => [s[start..pos], s[pos..e]] + SplitFrom(s, e, e)
      case None => SplitFrom(s, start, pos + 1)
  }

  /** `re.split(r'((?<!\\)"(?:[^"]|\\"|\n)*(?<!\\)")', s)`. */
  function SplitQuoted(s: Text): (r: seq<Text>)
  {
    SplitFrom(s, 0, 0)
  }

  function Concat(parts: seq<Text>): (r: Text)
  {
    if parts == [] then [] else parts[0] + Concat(parts[1..])
  }

  lemma {:induction false} SplitFromConcat(s: Text, start: nat, pos: nat)
    requires start <= pos <= |s|
    ensures Concat(SplitFrom(s, start, pos)) == s[start..]
    decreases |s| - pos
  {
    if pos == |s| {
      assert Concat([s[start..]]) == s[start..] + Concat([]);
    } else {
      match MatchAt(s, pos)
      case Some(e) =>
        SplitFromConcat(s, e, e);
        var rest := SplitFrom(s, e, e);
        var parts := [s[start..pos], s[pos..e]] + rest;
        assert parts[1..] == [s[pos..e]] + rest;
        assert parts[1..][1..] == rest;
        assert s[start..] == s[start..pos] + (s[pos..e] + s[e..]);
      case None =>
        SplitFromConcat(s, start, pos + 1);
    }
  }

  /** The pieces of the split concatenate back to the text. */
  lemma SplitQuotedConcat(s: Text)
    ensures Concat(SplitQuoted(s)) == s
  {
    SplitFromConcat(s, 0, 0);
  }

  predicate NoUnescapedQuote(p: Text)
  {
    forall k :: 0 <= k < |p| ==> !UnescapedQuote(p, k)
  }

  predicate AtMostOneUnescapedQuote(p: Text)
  {
    forall j, k :: 0 <= j < k < |p| && UnescapedQuote(p, j) ==> !UnescapedQuote(p, k)
  }

  /** The shape of a capturing split: plain pieces at even indices and quoted
      runs at odd ones. A plain piece before a quoted run has no unescaped
      quote and does not end with a backslash; the last piece has at most one
      unescaped quote, the one left without a partner. */
  predicate WellSplit(parts: seq<Text>)
  {
    && |parts| % 2 == 1
    && (forall i :: 0 <= i < |parts| && i % 2 == 1 ==> QuotedRunAt(parts[i], 0, |parts[i]|))
    && (forall i :: 0 <= i < |parts| - 1 && i % 2 == 0 ==>
          NoUnescapedQuote(parts[i]) && (parts[i] == [] || parts[i][|parts[i]| - 1] != BACKSLASH))
    && AtMostOneUnescapedQuote(parts[|parts| - 1])
  }

  /** Scanning from `start` up to `pos` found no match. */
  predicate NoMatchBetween(s: Text, start: nat, pos: nat)
    requires start <= pos <= |s|
  {
    forall m :: start <= m < pos ==> MatchAt(s, m).None?
  }

  lemma {:induction false} SplitFromShape(s: Text, start: nat, pos: nat)
    requires start <= pos <= |s|
    requires start == 0 || s[start - 1] == QUOTE
    requires NoMatchBetween(s, start, pos)
    ensures WellSplit(SplitFrom(s, start, pos))
    decreases |s| - pos, 1
  {
    if pos == |s| {
      LastPieceShape(s, start);
    } else {
      match MatchAt(s, pos)
      case Some(e) =>
        SplitFromShapeMatch(s, start, pos, e);
      case None =>
        SplitFromShape(s, start, pos + 1);
    }
  }

  /** With no match from `start` on, the rest of the text is the last piece. */
  lemma LastPieceShape(s: Text, start: nat)
    requires start <= |s|
    requires start == 0 || s[start - 1] == QUOTE
    requires NoMatchBetween(s, start, |s|)
    ensures AtMostOneUnescapedQuote(s[start..])
  {
    var p := s[start..];
    forall j, k | 0 <= j < k < |p| && UnescapedQuote(p, j)
      ensures !UnescapedQuote(p, k)
    {
      assert UnescapedQuote(s, start + j);
      assert MatchAt(s, start + j).None?;
      assert NextUnescapedQuote(s, start + j + 1).None?;
      assert !UnescapedQuote(s, start + k);
      assert p[k] == s[start + k] && p[k - 1] == s[start + k - 1];
    }
  }

  /** The plain piece before a match has no unescaped quote and does not end
      with a backslash. */
  lemma PlainPieceShape(s: Text, start: nat, pos: nat)
    requires start <= pos < |s|
    requires start == 0 || s[start - 1] == QUOTE
    requires NoMatchBetween(s, start, pos)
    requires MatchAt(s, pos).Some?
    ensures NoUnescapedQuote(s[start..pos])
    ensures s[start..pos] == [] || s[pos - 1] != BACKSLASH
  {
    var q := s[start..pos];
    assert UnescapedQuote(s, pos);
    forall k | 0 <= k < |q|
      ensures !UnescapedQuote(q, k)
    {
      assert q[k] == s[start + k];
      assert k > 0 ==> q[k - 1] == s[start + k - 1];
      assert MatchAt(s, start + k).None?;
      assert UnescapedQuote(s, start + k) ==> NextUnescapedQuote(s, start + k + 1).None?;
    }
  }

  lemma {:induction false} SplitFromShapeMatch(s: Text, start: nat, pos: nat, e: nat)
    requires start <= pos < |s|
    requires start == 0 || s[start - 1] == QUOTE
    requires NoMatchBetween(s, start, pos)
    requires MatchAt(s, pos) == Some(e)
    ensures WellSplit(SplitFrom(s, start, pos))
    decreases |s| - pos, 0
  {
    var q := s[start..pos];
    var run := s[pos..e];
    PlainPieceShape(s, start, pos);
    assert q != [] ==> q[|q| - 1] == s[pos - 1];
    MatchAtIsRegexMatch(s, pos, e);
    SliceOfSlice(s, pos, e, 1, e - pos - 1);
    assert QuotedRunAt(run, 0, |run|);
    SplitFromShape(s, e, e);
    var rest := SplitFrom(s, e, e);
    assert SplitFrom(s, start, pos) == [q, run] + rest;
    WellSplitCons(q, run, rest);
  }

  /** A plain piece and a quoted run in front of a well-shaped split keep it
      well-shaped. */
  lemma WellSplitCons(q: Text, run: Text, rest: seq<Text>)
    requires WellSplit(rest)
    requires QuotedRunAt(run, 0, |run|)
    requires NoUnescapedQuote(q) && (q == [] || q[|q| - 1] != BACKSLASH)
    ensures WellSplit([q, run] + rest)
  {
    var parts := [q, run] + rest;
    assert forall i :: 2 <= i < |parts| ==> parts[i] == rest[i - 2];
    assert parts[|parts| - 1] == rest[|rest| - 1];
  }

  /** The split is a well-shaped partition of the text. */
  lemma SplitQuotedShape(s: Text)
    ensures WellSplit(SplitQuoted(s))
    ensures Concat(SplitQuoted(s)) == s
  {
    SplitFromShape(s, 0, 0);
    SplitFromConcat(s, 0, 0);
  }

  // ------------------------------------------------------------ unquoting

  /** The per-piece rule: a non-empty piece that starts and ends with `"` loses
      those two characters and keeps its interior verbatim (a lone `"` becomes
      empty); any other piece has its whitespace runs collapsed. */
  function UnquotePart(p: Text): (r: Text)
  {
    if |p| > 0 && p[0] == QUOTE && p[|p| - 1] == QUOTE then
      if |p| >= 2 then p[1..|p| - 1] else []
    else Collapse(p)
  }

  function UnquoteParts(parts: seq<Text>): (r: Text)
  {
    if parts == [] then [] else UnquotePart(parts[0]) + UnquoteParts(parts[1..])
  }

  /** The whole unquote step: split, rewrite each piece, join. */
  function Unquote(s: Text): (r: Text)
  {
    UnquoteParts(SplitQuoted(s))
  }

  /** Unquoting rewrites the pieces of the split one by one: a quoted run
      (odd index) loses its two quotes and keeps its interior verbatim, and a
      plain piece before a run (even index) has its whitespace collapsed. */
  lemma UnquotePieces(s: Text, i: nat)
    requires i < |SplitQuoted(s)|
    ensures var p := SplitQuoted(s)[i];
      && (i % 2 == 1 ==> |p| >= 2 && UnquotePart(p) == p[1..|p| - 1])
      && (i % 2 == 0 && i < |SplitQuoted(s)| - 1 ==> UnquotePart(p) == Collapse(p))
  {
    SplitQuotedShape(s);
    var p := SplitQuoted(s)[i];
    if i % 2 == 1 {
      assert QuotedRunAt(p, 0, |p|);
    } else if i < |SplitQuoted(s)| - 1 {
      assert NoUnescapedQuote(p);
      assert p != [] ==> !UnescapedQuote(p, 0);
    }
  }

  /** The pieces are rewritten independently and joined in order. */
  lemma {:induction false} UnquotePartsAppend(a: seq<Text>, b: seq<Text>)
    ensures UnquoteParts(a + b) == UnquoteParts(a) + UnquoteParts(b)
    decreases |a|
  {
    if a == [] {
      assert a + b == b;
    } else {
      assert (a + b)[0] == a[0] && (a + b)[1..] == a[1..] + b;
      UnquotePartsAppend(a[1..], b);
      Associative(UnquotePart(a[0]), UnquoteParts(a[1..]), UnquoteParts(b));
    }
  }

  lemma {:induction false} SplitNoQuote(s: Text, start: nat, pos: nat, upto: nat)
    requires start <= pos <= upto <= |s|
    requires forall m :: pos <= m < upto ==> s[m] != QUOTE
    ensures SplitFrom(s, start, pos) == SplitFrom(s, start, upto)
    decreases upto - pos
  {
    if pos < upto {
      SplitNoQuote(s, start, pos + 1, upto);
    }
  }

  lemma {:induction false} SplitNoMatch(s: Text, start: nat, pos: nat, upto: nat)
    requires start <= pos <= upto <= |s|
    requires forall m :: pos <= m < upto ==> MatchAt(s, m).None?
    ensures SplitFrom(s, start, pos) == SplitFrom(s, start, upto)
    decreases upto - pos
  {
    if pos < upto {
      SplitNoMatch(s, start, pos + 1, upto);
    }
  }

  /** Without any `"` the text is one plain piece, so unquoting only collapses
      whitespace. */
  lemma UnquoteNoQuote(s: Text)
    requires QUOTE !in s
    ensures Unquote(s) == Collapse(s)
  {
    SplitNoQuote(s, 0, 0, |s|);
    assert SplitQuoted(s) == [s];
    assert UnquoteParts([s]) == UnquotePart(s) + UnquoteParts([]);
  }

  /** A single quoted run between two plain stretches splits into three pieces. */
  lemma SplitOneRun(a: Text, m: Text, b: Text)
    requires QUOTE !in a && QUOTE !in m && QUOTE !in b
    requires a == [] || a[|a| - 1] != BACKSLASH
    requires m == [] || m[|m| - 1] != BACKSLASH
    ensures SplitQuoted(a + [QUOTE] + m + [QUOTE] + b) == [a, [QUOTE] + m + [QUOTE], b]
  {
    var s := a + [QUOTE] + m + [QUOTE] + b;
    var i, e := |a|, |a| + |m| + 2;
    OneRunPieces(a, m, b);
    forall k | 0 <= k < i ensures s[k] != QUOTE { assert s[k] == a[k]; }
    SplitNoQuote(s, 0, 0, i);
    OneRunMatch(a, m, b);
    assert SplitFrom(s, 0, i) == [s[..i], s[i..e]] + SplitFrom(s, e, e);
    forall k | e <= k < |s| ensures s[k] != QUOTE { assert s[k] == b[k - e]; }
    SplitNoQuote(s, e, e, |s|);
    assert SplitFrom(s, e, |s|) == [s[e..]];
  }

  lemma OneRunPieces(a: Text, m: Text, b: Text)
    ensures var s, i, e := a + [QUOTE] + m + [QUOTE] + b, |a|, |a| + |m| + 2;
      s[..i] == a && s[i..e] == [QUOTE] + m + [QUOTE] && s[e..] == b
  {
  }

  /** The delimiter pattern matches the run exactly. */
  lemma OneRunMatch(a: Text, m: Text, b: Text)
    requires QUOTE !in m
    requires a == [] || a[|a| - 1] != BACKSLASH
    requires m == [] || m[|m| - 1] != BACKSLASH
    ensures MatchAt(a + [QUOTE] + m + [QUOTE] + b, |a|) == Some(|a| + |m| + 2)
  {
    var s := a + [QUOTE] + m + [QUOTE] + b;
    var i, e := |a|, |a| + |m| + 2;
    assert s[i] == QUOTE && (i > 0 ==> s[i - 1] == a[i - 1]);
    assert UnescapedQuote(s, i);
    forall k | i + 1 <= k < e - 1 ensures !UnescapedQuote(s, k) { assert s[k] == m[k - i - 1]; }
    assert s[e - 1] == QUOTE && s[e - 2] == (if m == [] then QUOTE else m[|m| - 1]);
    assert UnescapedQuote(s, e - 1);
    NextQuoteAt(s, i + 1, e - 1);
  }

  lemma {:induction false} NextQuoteAt(s: Text, j: nat, k: nat)
    requires j <= k < |s|
    requires forall m :: j <= m < k ==> !UnescapedQuote(s, m)
    requires UnescapedQuote(s, k)
    ensures NextUnescapedQuote(s, j) == Some(k)
    decreases k - j
  {
    if j < k {
      NextQuoteAt(s, j + 1, k);
    }
  }

  /** A quoted run between two plain stretches keeps its interior verbatim,
      while the stretches around it are collapsed. */
  lemma UnquoteOneRun(a: Text, m: Text, b: Text)
    requires QUOTE !in a && QUOTE !in m && QUOTE !in b
    requires a == [] || a[|a| - 1] != BACKSLASH
    requires m == [] || m[|m| - 1] != BACKSLASH
    ensures Unquote(a + [QUOTE] + m + [QUOTE] + b) == Collapse(a) + m + Collapse(b)
  {
    var run := [QUOTE] + m + [QUOTE];
    SplitOneRun(a, m, b);
    assert Unquote(a + [QUOTE] + m + [QUOTE] + b) == UnquoteParts([a, run, b]);
    UnquoteThree(a, run, b);
    PlainPart(a);
    PlainPart(b);
    assert run[1..|run| - 1] == m;
  }

  lemma UnquoteThree(p: Text, q: Text, r: Text)
    ensures UnquoteParts([p, q, r]) == UnquotePart(p) + UnquotePart(q) + UnquotePart(r)
  {
    assert [p, q, r][1..] == [q, r] && [q, r][1..] == [r] && [r][1..] == [];
    assert UnquoteParts([r]) == UnquotePart(r);
    assert UnquoteParts([q, r]) == UnquotePart(q) + UnquotePart(r);
  }

  lemma PlainPart(p: Text)
    requires QUOTE !in p
    ensures UnquotePart(p) == Collapse(p)
  {
    assert p != [] ==> p[0] in p;
  }

  /** An opening `"` whose only closing candidate is escaped starts no quoted
      run; the whole text is then one piece that still begins and ends with
      `"`, so the per-piece rule strips those two characters anyway and keeps
      the interior, backslash included, without collapsing it. */
  lemma UnquoteEscapedCloser(m: Text)
    requires QUOTE !in m
    ensures Unquote([QUOTE] + m + [BACKSLASH, QUOTE]) == m + [BACKSLASH]
  {
    var s := [QUOTE] + m + [BACKSLASH, QUOTE];
    forall k | 1 <= k < |s| ensures !UnescapedQuote(s, k) {
      if k <= |m| { assert s[k] == m[k - 1]; }
    }
    assert NextUnescapedQuote(s, 1).None?;
    forall k | 0 <= k < |s| ensures MatchAt(s, k).None? {
      if k > 0 { assert !UnescapedQuote(s, k); }
    }
    SplitNoMatch(s, 0, 0, |s|);
    assert SplitQuoted(s) == [s];
    assert s[1..|s| - 1] == m + [BACKSLASH];
    assert UnquoteParts([s]) == UnquotePart(s) + UnquoteParts([]);
  }

  // ----------------------------------------------------------- unescaping

  predicate IsHexDigit(c: Cp)
  {
    0x30 <= c <= 0x39 || 0x41 <= c <= 0x46 || 0x61 <= c <= 0x66
  }

  /** `int(c, 16)` for one hexadecimal digit, in either case. */
  function HexValue(c: Cp): (v: nat)
    requires IsHexDigit(c)
    ensures 0x30 <= c <= 0x39 ==> v == c - 0x30
    ensures 0x41 <= c <= 0x46 ==> v == c - 0x41 + 10
    ensures 0x61 <= c <= 0x66 ==> v == c - 0x61 + 10
    ensures v < 16
  {
    if c <= 0x39 then c - 0x30 else if c <= 0x46 then c - 0x41 + 10 else c - 0x61 + 10
  }

  /** The one-character escapes `@ ? n t ' "`. */
  predicate IsSimpleEscape(c: Cp)
  {
    c == 0x40 || c == 0x3F || c == 0x6E || c == 0x74 || c == 0x27 || c == QUOTE
  }

  /** What a one-character escape stands for: `n` and `t` a newline and a tab,
      the others themselves. */
  function SimpleEscapeValue(c: Cp): (r: Cp)
  {
    if c == 0x6E then NEWLINE else if c == 0x74 then TAB else c
  }

  /** `\u` followed by exactly four hexadecimal digits starts `s`. */
  predicate StartsWithCodeEscape(s: Text)
  {
    |s| >= 6 && s[0] == BACKSLASH && s[1] == 0x75
    && IsHexDigit(s[2]) && IsHexDigit(s[3]) && IsHexDigit(s[4]) && IsHexDigit(s[5])
  }

  function CodeEscapeValue(s: Text): (r: Cp)
    requires StartsWithCodeEscape(s)
  {
    HexValue(s[2]) * 0x1000 + HexValue(s[3]) * 0x100 + HexValue(s[4]) * 0x10 + HexValue(s[5])
  }

  /** `re.sub(r"\\([@?nt'\"]|u[0-9A-Fa-f]{4})", unescape, s)`: one left-to-right
      pass; a replacement is never scanned again, and a backslash that starts no
      recognised escape is copied. */
  function Unescape(s: Text): (r: Text)
  {
    if s == [] then []
    else if |s| >= 2 && s[0] == BACKSLASH && IsSimpleEscape(s[1]) then
      [SimpleEscapeValue(s[1])] + Unescape(s[2..])
    else if StartsWithCodeEscape(s) then
      [CodeEscapeValue(s)] + Unescape(s[6..])
    else [s[0]] + Unescape(s[1..])
  }

  /** The digit for `v` in either case: the two cases decode alike. */
  function HexDigit(v: nat, upper: bool): (c: Cp)
    requires v < 16
    ensures IsHexDigit(c) && HexValue(c) == v
  {
    if v < 10 then 0x30 + v else if upper then 0x41 + v - 10 else 0x61 + v - 10
  }

  /** `\uXXXX` for a code point of the Basic Multilingual Plane, with the hex
      digits in the chosen case. */
  function CodeEscape(c: Cp, upper: bool): (r: Text)
    requires c < 0x10000
  {
    var q1 := c / 16;
    var q2 := q1 / 16;
    [BACKSLASH, 0x75, HexDigit(q2 / 16, upper), HexDigit(q2 % 16, upper), HexDigit(q1 % 16, upper), HexDigit(c % 16, upper)]
  }

  /** `\u` and any four hexadecimal digits, upper- or lower-case, decode to the
      code point they spell, and the rest is decoded on its own. */
  lemma CodeEscapeDecodes(d0: Cp, d1: Cp, d2: Cp, d3: Cp, r: Text)
    requires IsHexDigit(d0) && IsHexDigit(d1) && IsHexDigit(d2) && IsHexDigit(d3)
    ensures Unescape([BACKSLASH, 0x75, d0, d1, d2, d3] + r)
            == [HexValue(d0) * 0x1000 + HexValue(d1) * 0x100 + HexValue(d2) * 0x10 + HexValue(d3)] + Unescape(r)
  {
    var s := [BACKSLASH, 0x75, d0, d1, d2, d3] + r;
    assert StartsWithCodeEscape(s) && s[6..] == r;
  }

  /** The digits `CodeEscape` writes spell the code point back. */
  lemma CodeEscapeValueOf(c: Cp, upper: bool, r: Text)
    requires c < 0x10000
    ensures StartsWithCodeEscape(CodeEscape(c, upper) + r)
    ensures CodeEscapeValue(CodeEscape(c, upper) + r) == c
  {
    var q1 := c / 16;
    var q2 := q1 / 16;
    assert c == q1 * 16 + c % 16;
    assert q1 == q2 * 16 + q1 % 16;
    assert q2 == (q2 / 16) * 16 + q2 % 16;
  }

  /** A backslash that starts no recognised escape is kept, and scanning goes
      on from the character after it. */
  lemma FailSoft(c: Cp, r: Text)
    requires !IsSimpleEscape(c) && c != 0x75
    ensures Unescape([BACKSLASH, c] + r) == [BACKSLASH] + Unescape([c] + r)
  {
    assert ([BACKSLASH, c] + r)[1..] == [c] + r;
  }

  /** A `\u` without four hexadecimal digits after it is kept as it stands. */
  lemma ShortCodeKept(r: Text)
    requires !StartsWithCodeEscape([BACKSLASH, 0x75] + r)
    ensures Unescape([BACKSLASH, 0x75] + r) == [BACKSLASH] + Unescape([0x75] + r)
  {
    assert ([BACKSLASH, 0x75] + r)[1..] == [0x75] + r;
  }

  /** An encoder for the escapes `Unescape` recognises. A backslash has no
      escape of its own and is written `\u005C`; so is every character of
      `coded` in the Basic Multilingual Plane. The hex digits are written in
      the chosen case. */
  function EscapeChar(c: Cp, coded: set<Cp>, upper: bool): (r: Text)
  {
    if c == BACKSLASH || (c in coded && c < 0x10000) then CodeEscape(c, upper)
    else if c == NEWLINE then [BACKSLASH, 0x6E]
    else if c == TAB then [BACKSLASH, 0x74]
    else if c == 0x40 || c == 0x3F || c == 0x27 || c == QUOTE then [BACKSLASH, c]
    else [c]
  }

  function Escape(t: Text, coded: set<Cp>, upper: bool): (r: Text)
  {
    if t == [] then [] else EscapeChar(t[0], coded, upper) + Escape(t[1..], coded, upper)
  }

  lemma UnescapeEscapeChar(c: Cp, coded: set<Cp>, upper: bool, r: Text)
    ensures Unescape(EscapeChar(c, coded, upper) + r) == [c] + Unescape(r)
  {
    var e := EscapeChar(c, coded, upper);
    if c == BACKSLASH || (c in coded && c < 0x10000) {
      assert e == CodeEscape(c, upper);
      CodeEscapeUnescapes(c, upper, r);
    } else if |e| == 2 {
      assert (e + r)[2..] == r;
    } else {
      assert (e + r)[1..] == r;
    }
  }

  lemma CodeEscapeUnescapes(c: Cp, upper: bool, r: Text)
    requires c < 0x10000
    ensures Unescape(CodeEscape(c, upper) + r) == [c] + Unescape(r)
  {
    var s := CodeEscape(c, upper) + r;
    CodeEscapeValueOf(c, upper, r);
    assert s[6..] == r;
    assert !IsSimpleEscape(s[1]);
  }

  /** Unescaping undoes `Escape`: every text survives the round trip, whichever
      characters are written as `\uXXXX` and in whichever case, which also shows
      that a decoded backslash is never rescanned. */
  lemma {:induction false} UnescapeEscape(t: Text, coded: set<Cp>, upper: bool)
    ensures Unescape(Escape(t, coded, upper)) == t
    decreases |t|
  {
    if t != [] {
      UnescapeEscapeChar(t[0], coded, upper, Escape(t[1..], coded, upper));
      UnescapeEscape(t[1..], coded, upper);
    }
  }

  /** Text without a backslash is left alone by unescaping. */
  lemma {:induction false} UnescapePlain(s: Text)
    requires BACKSLASH !in s
    ensures Unescape(s) == s
    decreases |s|
  {
    if s != [] {
      UnescapePlain(s[1..]);
    }
  }

  /** Unescaping never lengthens the text. */
  lemma {:induction false} UnescapeShrinks(s: Text)
    ensures |Unescape(s)| <= |s|
    decreases |s|
  {
    if s != [] {
      if |s| >= 2 && s[0] == BACKSLASH && IsSimpleEscape(s[1]) {
        UnescapeShrinks(s[2..]);
      } else if StartsWithCodeEscape(s) {
        UnescapeShrinks(s[6..]);
      } else {
        UnescapeShrinks(s[1..]);
      }
    }
  }

  // ------------------------------------------------------- line splitting

  /** A line the normaliser may emit: non-empty, stripped, single-line. */
  predicate CleanLine(l: Text)
  {
    l != [] && NEWLINE !in l && !IsSpace(l[0]) && !IsSpace(l[|l| - 1])
  }

  /** The body of the line loop over `s.split("\n")`: strip each line and keep
      it when something is left. */
  function KeepStripped(lines: seq<Text>): (r: seq<Text>)
    decreases |lines|
  {
    if lines == [] then []
    else
      var t := Strip(lines[0]);
      (if t != [] then [t] else []) + KeepStripped(lines[1..])
  }

  /** Lines without a newline come out non-empty, stripped and still without
      a newline. */
  lemma {:induction false} KeepStrippedIsClean(lines: seq<Text>)
    requires forall i :: 0 <= i < |lines| ==> NEWLINE !in lines[i]
    ensures forall l :: l in KeepStripped(lines) ==> CleanLine(l)
    decreases |lines|
  {
    if lines != [] {
      var t := Strip(lines[0]);
      if NEWLINE in t {
        StripKeeps(lines[0], NEWLINE);
      }
      StripEnds(lines[0]);
      KeepStrippedIsClean(lines[1..]);
      assert KeepStripped(lines) == (if t != [] then [t] else []) + KeepStripped(lines[1..]);
    }
  }

  /** The lines the normaliser emits for a decoded text. */
  function StrippedLines(s: Text): (r: seq<Text>)
  {
    KeepStripped(SplitOn(s, NEWLINE))
  }

  /** Every emitted line is non-empty, stripped and single-line. */
  lemma StrippedLinesClean(s: Text)
    ensures forall l :: l in StrippedLines(s) ==> CleanLine(l)
  {
    var lines := SplitOn(s, NEWLINE);
    forall i | 0 <= i < |lines| ensures NEWLINE !in lines[i] {
      assert lines[i] in lines;
    }
    KeepStrippedIsClean(lines);
  }

  lemma {:induction false} KeepStrippedClean(lines: seq<Text>)
    requires forall i :: 0 <= i < |lines| ==> CleanLine(lines[i])
    ensures KeepStripped(lines) == lines
    decreases |lines|
  {
    if lines != [] {
      var l := lines[0];
      StripFrame([], l, []);
      assert [] + l + [] == l;
      KeepStrippedClean(lines[1..]);
      assert lines == [l] + lines[1..];
    }
  }

  /** Clean lines joined by newlines come back unchanged and in order. */
  lemma StrippedLinesJoin(lines: seq<Text>)
    requires |lines| >= 1
    requires forall i :: 0 <= i < |lines| ==> CleanLine(lines[i])
    ensures StrippedLines(Join(lines, NEWLINE)) == lines
  {
    SplitJoin(lines, NEWLINE);
    KeepStrippedClean(lines);
  }

  // ------------------------------------------------------------- pipeline

  /** The lines produced from the flattened content of one element. */
  function NormaliseText(s: Text): (r: seq<Text>)
  {
    StrippedLines(Unescape(Unquote(s)))
  }

  /** Whatever the element's text, every line emitted for it is non-empty,
      has no whitespace at either end and holds no newline. */
  lemma NormaliseTextClean(s: Text)
    ensures forall l :: l in NormaliseText(s) ==> CleanLine(l)
  {
    StrippedLinesClean(Unescape(Unquote(s)));
  }

  lemma NoNewlineSplit(s: Text)
    requires NEWLINE !in s
    ensures SplitOn(s, NEWLINE) == [s]
  {
  }

  /** Text with no `"` and no backslash yields at most one line: its words
      joined by single spaces, which is the text collapsed and stripped; an
      all-whitespace text yields no line. */
  lemma PlainTextOneLine(s: Text)
    requires QUOTE !in s && BACKSLASH !in s
    ensures NormaliseText(s) == (if AllSpace(s) then [] else [Strip(Collapse(s))])
    ensures Strip(Collapse(s)) == Join(Words(s), SPACE)
  {
    UnquoteNoQuote(s);
    var c := Collapse(s);
    if BACKSLASH in c { CollapseChars(s, BACKSLASH); }
    UnescapePlain(c);
    if NEWLINE in c { CollapseChars(s, NEWLINE); }
    NoNewlineSplit(c);
    StripCollapse(s);
    JoinWordsEnds(Words(s));
    WordsEmpty(s);
    assert KeepStripped([c]) == (if Strip(c) != [] then [Strip(c)] else []) + KeepStripped([]);
  }

  /** An all-whitespace text yields no line. */
  lemma BlankYieldsNothing(s: Text)
    requires AllSpace(s)
    ensures NormaliseText(s) == []
  {
    assert QUOTE !in s && BACKSLASH !in s;
    PlainTextOneLine(s);
  }

  /** A lone unmatched `"` is a piece that begins and ends with `"`, so it
      vanishes and produces no line. */
  lemma LoneQuoteVanishes()
    ensures Unquote([QUOTE]) == []
    ensures NormaliseText([QUOTE]) == []
  {
    var s: Text := [QUOTE];
    assert MatchAt(s, 0).None?;
    assert SplitFrom(s, 0, 1) == [s];
    assert SplitQuoted(s) == [s];
    assert UnquoteParts([s]) == UnquotePart(s) + UnquoteParts([]);
    assert Unescape([]) == [];
    assert SplitOn([], NEWLINE) == [[]];
    assert Strip([]) == [];
    assert KeepStripped([[]]) == [] + KeepStripped([]);
  }

  /** Characters produced by an escape are not scanned again: `\u005Cn`
      decodes to a backslash followed by `n`, not to a newline. */
  lemma UnescapeNoRescan()
    ensures Unescape(Str("\\u005Cn")) == [BACKSLASH, 0x6E]
  {
  }

  /** `\uD800` decodes to a lone surrogate code point. */
  lemma UnescapeSurrogate()
    ensures Unescape(Str("\\uD800")) == [0xD800]
  {
  }
}
