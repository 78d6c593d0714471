/**
  One Android `strings.xml` file as the extractor reads it: the locale taken
  from the file's path, the XLIFF placeholders inside each `<string>` and
  `<item>` entry, the flattening of an entry to text, and the loop that turns
  every entry into clean lines.
*/
module Resources {
  import opened Text
  import opened Normalise

  // --------------------------------------------------------------- locale

  /** The marker the locale pattern `.*values-([^/\\]*)` looks for. */
  const VALUES: Text := Str("values-")

  /** The default locale of a file outside any `values-*` folder. */
  const ENGLISH: Text := Str("en")

  predicate ValuesAt(s: Text, i: nat)
  {
    i + |VALUES| <= |s| && s[i..i + |VALUES|] == VALUES
  }

  /** A position where the pattern can place `values-`: the `.*` before it
      matches any character except a newline. */
  predicate Reachable(s: Text, i: nat)
  {
    ValuesAt(s, i) && NEWLINE !in s[..i]
  }

  /** Scans the first line of `s` from `i`, remembering the last `values-`
      seen; the greedy `.*` settles on that one. */
  function LastValuesFrom(s: Text, i: nat, found: Option<nat>): (r: Option<nat>)
    requires i <= |s|
    requires found.Some? ==> ValuesAt(s, found.value)
    ensures r.Some? ==> ValuesAt(s, r.value)
    decreases |s| - i
  {
    if i == |s| || s[i] == NEWLINE then found
    else LastValuesFrom(s, i + 1, if ValuesAt(s, i) then Some(i) else found)
  }

  function LastValues(s: Text): (r: Option<nat>)
    ensures r.Some? ==> ValuesAt(s, r.value)
  {
    LastValuesFrom(s, 0, None)
  }

  lemma {:induction false} LastValuesFromSpec(s: Text, i: nat, found: Option<nat>)
    requires i <= |s|
    requires NEWLINE !in s[..i]
    requires found.Some? ==> found.value < i && Reachable(s, found.value)
    requires forall j: nat :: (if found.Some? then found.value < j else 0 <= j) && j < i ==> !ValuesAt(s, j)
    ensures LastValuesFrom(s, i, found).Some? ==> Reachable(s, LastValuesFrom(s, i, found).value)
    ensures forall j: nat :: Reachable(s, j) && (LastValuesFrom(s, i, found).None? || LastValuesFrom(s, i, found).value < j)
                          ==> false
    decreases |s| - i
  {
    if i == |s| || s[i] == NEWLINE {
      forall j: nat | Reachable(s, j) && (found.None? || found.value < j) ensures false {
        ValuesStart(s, j);
      }
    } else {
      assert s[..i + 1] == s[..i] + [s[i]];
      var next := if ValuesAt(s, i) then Some(i) else found;
      assert next.Some? ==> next.value < i + 1 && Reachable(s, next.value);
      assert forall j: nat :: (if next.Some? then next.value < j else 0 <= j) && j < i + 1 ==> !ValuesAt(s, j);
      LastValuesFromSpec(s, i + 1, next);
      assert LastValuesFrom(s, i, found) == LastValuesFrom(s, i + 1, next);
    }
  }

  /** The greedy match picks the last reachable `values-`; there is none
      exactly when no `values-` starts on the first line of the path. */
  lemma LastValuesSpec(s: Text)
    ensures LastValues(s).Some? ==> Reachable(s, LastValues(s).value)
    ensures LastValues(s).Some? ==> forall j: nat :: Reachable(s, j) ==> j <= LastValues(s).value
    ensures LastValues(s).None? <==> forall j: nat :: !Reachable(s, j)
  {
    LastValuesFromSpec(s, 0, None);
  }

  predicate IsPathSeparator(c: Cp)
  {
    c == SLASH || c == BACKSLASH
  }

  /** `[^/\\]*`: the longest prefix holding no `/` and no `\`. */
  function Segment(t: Text): (r: Text)
    ensures r <= t
    ensures forall k :: 0 <= k < |r| ==> !IsPathSeparator(r[k])
    ensures |r| == |t| || IsPathSeparator(t[|r|])
  {
    if t == [] || IsPathSeparator(t[0]) then [] else [t[0]] + Segment(t[1..])
  }

  /** The locale of a `strings.xml` path: the text after the last `values-`
      up to the next path separator, or `en`. */
  function Locale(path: Text): (r: Text)
  {
    match LastValues(path)
    case None => ENGLISH
    case Some(i) => Segment(path[i + |VALUES|..])
  }

  /** What the locale is, stated against the pattern rather than the scanner. */
  lemma LocaleSpec(path: Text)
    ensures (forall j: nat :: !Reachable(path, j)) ==> Locale(path) == ENGLISH
    ensures forall i: nat :: Reachable(path, i) && (forall j: nat :: Reachable(path, j) ==> j <= i)
                        ==> Locale(path) == Segment(path[i + |VALUES|..])
  {
    LastValuesSpec(path);
  }

  lemma ValuesStart(s: Text, i: nat)
    requires ValuesAt(s, i)
    ensures s[i] == 'v' as Cp && s[i + 6] == '-' as Cp
  {
    assert s[i..i + |VALUES|][0] == s[i];
    assert s[i..i + |VALUES|][6] == s[i + 6];
  }

  /** A sample path inside a folder with a region qualifier. */
  const REGION_PATH: Text := Str("res/values-pt-rBR/strings.xml")

  lemma RegionPathMarker()
    ensures Reachable(REGION_PATH, 4)
  {
    var p := REGION_PATH;
    forall k | 0 <= k < |VALUES| ensures p[4..4 + |VALUES|][k] == VALUES[k] {
      assert p[4..4 + |VALUES|][k] == p[4 + k];
      if k == 0 {} else if k == 1 {} else if k == 2 {} else if k == 3 {}
      else if k == 4 {} else if k == 5 {} else {}
    }
    assert p[4..4 + |VALUES|] == VALUES;
    forall k | 0 <= k < 4 ensures p[..4][k] != NEWLINE {
      assert p[..4][k] == p[k];
    }
  }

  lemma RegionPathSegment()
    ensures Segment(REGION_PATH[4 + |VALUES|..]) == Str("pt-rBR")
  {
    RegionPathTail();
    SegmentUpTo(REGION_PATH[11..], 6);
  }

  lemma RegionPathTail()
    ensures var t := REGION_PATH[11..];
      && |t| > 6 && IsPathSeparator(t[6]) && t[..6] == Str("pt-rBR")
      && forall k :: 0 <= k < 6 ==> !IsPathSeparator(t[k])
  {
    var t := REGION_PATH[11..];
    assert t[..6] == Str("pt-rBR");
  }

  /** The segment runs up to the first separator. */
  lemma {:induction false} SegmentUpTo(t: Text, n: nat)
    requires n < |t| && IsPathSeparator(t[n])
    requires forall k :: 0 <= k < n ==> !IsPathSeparator(t[k])
    ensures Segment(t) == t[..n]
    decreases n
  {
    if n > 0 {
      SegmentUpTo(t[1..], n - 1);
      assert t[..n] == [t[0]] + t[1..][..n - 1];
    }
  }

  lemma RegionPathOneV(j: nat)
    requires j < |REGION_PATH| && REGION_PATH[j] == 'v' as Cp
    ensures j == 4
  {
    var p := REGION_PATH;
    if j < 4 {
      if j == 0 {} else if j == 1 {} else if j == 2 {} else {}
    } else if j > 4 {
      if j == 5 {} else if j == 6 {} else if j == 7 {} else if j == 8 {} else if j == 9 {} else if j == 10 {} else if j == 11 {} else if j == 12 {} else if j == 13 {} else if j == 14 {} else if j == 15 {} else if j == 16 {} else if j == 17 {} else if j == 18 {} else if j == 19 {} else if j == 20 {} else if j == 21 {} else if j == 22 {} else if j == 23 {} else if j == 24 {} else if j == 25 {}
      else if j == 26 {} else if j == 27 {} else {}
    }
  }

  /** A folder `values-pt-rBR` keeps the region after the hyphen. */
  lemma LocaleWithRegion()
    ensures Locale(REGION_PATH) == Str("pt-rBR")
  {
    var p := REGION_PATH;
    RegionPathMarker();
    forall j: nat | Reachable(p, j) ensures j <= 4 {
      ValuesStart(p, j);
      RegionPathOneV(j);
    }
    LastValuesSpec(p);
    assert LastValues(p) == Some(4);
    RegionPathSegment();
  }

  /** A sample path in the default folder. */
  const DEFAULT_PATH: Text := Str("res/values/strings.xml")

  lemma DefaultPathNoMarker(j: nat)
    requires j + 6 < |DEFAULT_PATH|
    ensures !(DEFAULT_PATH[j] == 'v' as Cp && DEFAULT_PATH[j + 6] == '-' as Cp)
  {
    if j == 0 {} else if j == 1 {} else if j == 2 {} else if j == 3 {} else if j == 4 {} else if j == 5 {} else if j == 6 {} else if j == 7 {} else if j == 8 {} else if j == 9 {} else if j == 10 {} else if j == 11 {} else if j == 12 {} else if j == 13 {} else if j == 14 {} else if j == 15 {}
  }

  /** A path without `values-` is English. */
  lemma LocaleDefault()
    ensures Locale(DEFAULT_PATH) == ENGLISH
  {
    forall j: nat | Reachable(DEFAULT_PATH, j) ensures false {
      ValuesStart(DEFAULT_PATH, j);
      DefaultPathNoMarker(j);
    }
    LastValuesSpec(DEFAULT_PATH);
  }

  // ------------------------------------------------------------- elements

  /** An XML element as `xml.etree` holds it; an absent `text` or `tail` is
      the empty text. */
  datatype Element = Element(tag: Text, attrib: map<Text, Text>, text: Text, children: seq<Element>, tail: Text)

  /** The tag of an inline placeholder in the XLIFF 1.2 namespace. */
  const XLIFF_G: Text := Str("{urn:oasis:names:tc:xliff:document:1.2}g")

  const EXAMPLE: Text := Str("example")

  /** `itertext()` of an element: its text, then each child's text with that
      child's tail after it. The element's own tail is not part of it. */
  function IterText(e: Element): (r: Text)
    decreases e, 1
  {
    e.text + ChildrenText(e.children)
  }

  function ChildrenText(cs: seq<Element>): (r: Text)
    decreases cs, 0
  {
    if cs == [] then [] else IterText(cs[0]) + cs[0].tail + ChildrenText(cs[1..])
  }

  /** `attrib.get("example", "")`. */
  function Example(c: Element): (r: Text)
  {
    if EXAMPLE in c.attrib then c.attrib[EXAMPLE] else []
  }

  /** The placeholder rewrite of one direct child. */
  function Resolve(c: Element): (r: Element)
  {
    if c.tag == XLIFF_G then c.(text := Example(c)) else c
  }

  function ResolveAll(cs: seq<Element>): (r: seq<Element>)
    ensures |r| == |cs|
  {
    if cs == [] then [] else [Resolve(cs[0])] + ResolveAll(cs[1..])
  }

  /** The placeholder loop rewrites each child on its own, in place. */
  lemma {:induction false} ResolveAllAt(cs: seq<Element>)
    ensures forall i :: 0 <= i < |cs| ==> ResolveAll(cs)[i] == Resolve(cs[i])
    decreases |cs|
  {
    if cs != [] {
      ResolveAllAt(cs[1..]);
      assert ResolveAll(cs) == [Resolve(cs[0])] + ResolveAll(cs[1..]);
    }
  }

  /** What the children contribute once placeholders are resolved, written
      directly: a placeholder contributes its example where its text was. */
  function SubstitutedText(cs: seq<Element>): (r: Text)
  {
    if cs == [] then []
    else
      var own := if cs[0].tag == XLIFF_G then Example(cs[0]) else cs[0].text;
      own + ChildrenText(cs[0].children) + cs[0].tail + SubstitutedText(cs[1..])
  }

  lemma {:induction false} ResolvedText(cs: seq<Element>)
    ensures ChildrenText(ResolveAll(cs)) == SubstitutedText(cs)
    decreases |cs|
  {
    if cs != [] {
      assert ResolveAll(cs)[1..] == ResolveAll(cs[1..]);
      ResolvedText(cs[1..]);
    }
  }

  /** Resolving twice is resolving once, so replaying a file's entries is
      harmless. */
  lemma ResolveIdempotent(cs: seq<Element>)
    ensures ResolveAll(ResolveAll(cs)) == ResolveAll(cs)
  {
    ResolveAllAt(cs);
    ResolveAllAt(ResolveAll(cs));
  }

  /** Only the own text of direct placeholder children changes: the tag,
      attributes, grandchildren and tail of every child are kept, so a
      placeholder nested inside another keeps its text. */
  lemma ResolveKeeps(cs: seq<Element>)
    ensures forall i :: 0 <= i < |cs| ==>
      var r := ResolveAll(cs)[i];
      r.tag == cs[i].tag && r.attrib == cs[i].attrib && r.children == cs[i].children && r.tail == cs[i].tail
    ensures forall i :: 0 <= i < |cs| && cs[i].tag != XLIFF_G ==> ResolveAll(cs)[i] == cs[i]
  {
    ResolveAllAt(cs);
  }

  /** The text a placeholder held in the resource file does not reach the
      output: two child lists that differ only there flatten alike. */
  lemma {:induction false} PlaceholderTextIrrelevant(cs: seq<Element>, ds: seq<Element>)
    requires |cs| == |ds|
    requires forall i :: 0 <= i < |cs| ==> ds[i] == (if cs[i].tag == XLIFF_G then cs[i].(text := ds[i].text) else cs[i])
    ensures ChildrenText(ResolveAll(cs)) == ChildrenText(ResolveAll(ds))
    decreases |cs|
  {
    ResolvedText(cs);
    ResolvedText(ds);
    SubstitutedSame(cs, ds);
  }

  lemma {:induction false} SubstitutedSame(cs: seq<Element>, ds: seq<Element>)
    requires |cs| == |ds|
    requires forall i :: 0 <= i < |cs| ==> ds[i] == (if cs[i].tag == XLIFF_G then cs[i].(text := ds[i].text) else cs[i])
    ensures SubstitutedText(cs) == SubstitutedText(ds)
    decreases |cs|
  {
    if cs != [] {
      SubstitutedSame(cs[1..], ds[1..]);
    }
  }

  /** The lines one entry yields: placeholders resolved, the entry flattened,
      then normalised. The substituted text is spliced in before unquoting
      and unescaping, so it is processed like the text around it. */
  function EntryLines(text: Text, children: seq<Element>): (r: seq<Text>)
  {
    NormaliseText(text + ChildrenText(ResolveAll(children)))
  }

  /** A plain entry `a<g example="x">…</g>b` with no quotes or backslashes
      yields the words of `a`, `x` and `b` joined by single spaces. */
  lemma PlaceholderExampleLine(a: Text, g: Element, b: Text)
    requires g.tag == XLIFF_G && g.children == [] && g.tail == b
    requires QUOTE !in a + Example(g) + b && BACKSLASH !in a + Example(g) + b
    requires !AllSpace(a + Example(g) + b)
    ensures EntryLines(a, [g]) == [Join(Words(a + Example(g) + b), SPACE)]
  {
    ResolvedText([g]);
    assert SubstitutedText([g]) == Example(g) + [] + b + [];
    assert a + ChildrenText(ResolveAll([g])) == a + Example(g) + b;
    PlainTextOneLine(a + Example(g) + b);
  }

  // ------------------------------------------------------------ the entry

  /** One `<string>` or `<item>` element. Its own text never changes; the
      placeholder loop rewrites its direct children in place. */
  class StringEntry {
    const text: Text
    var children: seq<Element>

    constructor (text: Text, children: seq<Element>)
      ensures this.text == text && this.children == children
    {
      this.text := text;
      this.children := children;
    }

    /** `"".join(string.itertext())`. */
    function Content(): (r: Text)
      reads this
    {
      text + ChildrenText(children)
    }

    /** Rewrites every direct XLIFF `g` child: its text becomes its `example`
        attribute, or empty. */
    method ResolvePlaceholders()
      modifies this
      ensures children == ResolveAll(old(children))
      ensures Content() == text + SubstitutedText(old(children))
    {
      var i := 0;
      while i < |children|
        invariant 0 <= i <= |children| == |old(children)|
        invariant forall k :: 0 <= k < i ==> children[k] == Resolve(old(children[k]))
        invariant forall k :: i <= k < |children| ==> children[k] == old(children[k])
      {
        var c := children[i];
        if c.tag == XLIFF_G {
          children := children[i := c.(text := Example(c))];
        }
        i := i + 1;
      }
      ResolveAllAt(old(children));
      ResolvedText(old(children));
    }

    /** The sentences of this entry, in order. */
    method Sentences() returns (lines: seq<Text>)
      modifies this
      ensures children == ResolveAll(old(children))
      ensures lines == EntryLines(text, old(children))
    {
      ResolvePlaceholders();
      lines := SplitLines(Unescape(Unquote(Content())));
    }
  }

  lemma {:induction false} KeepStrippedSnoc(lines: seq<Text>, line: Text)
    ensures KeepStripped(lines + [line]) == KeepStripped(lines) + (if Strip(line) != [] then [Strip(line)] else [])
    decreases |lines|
  {
    var longer := lines + [line];
    if lines == [] {
      assert longer == [line] && longer[1..] == [];
    } else {
      assert longer[0] == lines[0] && longer[1..] == lines[1..] + [line];
      KeepStrippedSnoc(lines[1..], line);
    }
  }

  lemma KeepStrippedStep(lines: seq<Text>, i: nat)
    requires i < |lines|
    ensures KeepStripped(lines[..i + 1])
            == KeepStripped(lines[..i]) + (if Strip(lines[i]) != [] then [Strip(lines[i])] else [])
  {
    assert lines[..i + 1] == lines[..i] + [lines[i]];
    KeepStrippedSnoc(lines[..i], lines[i]);
  }

  /** The line loop: split on newlines, strip each line, keep the non-empty
      ones in order. */
  method SplitLines(s: Text) returns (out: seq<Text>)
    ensures out == StrippedLines(s)
  {
    var lines := SplitOn(s, NEWLINE);
    out := [];
    for i := 0 to |lines|
      invariant out == KeepStripped(lines[..i])
    {
      KeepStrippedStep(lines, i);
      var line := Strip(lines[i]);
      if line != [] {
        out := out + [line];
      }
    }
    assert lines[..|lines|] == lines;
  }

  // ------------------------------------------------------------- the file

  /** The lines of a file's entries, in entry order, from each entry's own
      text and direct children as they stood before the file was read. */
  function FileLines(snapshot: seq<(Text, seq<Element>)>): (r: seq<Text>)
  {
    if snapshot == [] then []
    else
      var last := snapshot[|snapshot| - 1];
      FileLines(snapshot[..|snapshot| - 1]) + EntryLines(last.0, last.1)
  }

  lemma FileLinesStep(snapshot: seq<(Text, seq<Element>)>, i: nat)
    requires i < |snapshot|
    ensures FileLines(snapshot[..i + 1]) == FileLines(snapshot[..i]) + EntryLines(snapshot[i].0, snapshot[i].1)
  {
    assert snapshot[..i + 1][..i] == snapshot[..i];
  }

  /** The entries of a file are distinct elements. */
  predicate Separate(entries: seq<StringEntry>)
  {
    forall i, j :: 0 <= i < j < |entries| ==> entries[i] != entries[j]
  }

  function Snapshot(entries: seq<StringEntry>): (snap: seq<(Text, seq<Element>)>)
    reads entries
    ensures |snap| == |entries|
  {
    seq(|entries|, i requires 0 <= i < |entries| reads entries => (entries[i].text, entries[i].children))
  }

  /** One turn of the file loop: read the `i`-th entry, resolving its
      placeholders, and extend the lines read so far. */
  method ReadEntry(entries: seq<StringEntry>, ghost before: seq<(Text, seq<Element>)>, i: nat, sentences: seq<Text>)
    returns (out: seq<Text>)
    requires Separate(entries) && |before| == |entries| && i < |entries|
    requires forall k :: 0 <= k < |entries| ==> entries[k].text == before[k].0
    requires forall k :: i <= k < |entries| ==> entries[k].children == before[k].1
    requires sentences == FileLines(before[..i])
    modifies entries[i]
    ensures out == FileLines(before[..i + 1])
    ensures entries[i].children == ResolveAll(before[i].1)
    ensures forall k :: 0 <= k < |entries| && k != i ==> entries[k].children == old(entries[k].children)
  {
    FileLinesStep(before, i);
    var entry := entries[i];
    assert forall k :: 0 <= k < |entries| && k != i ==> entries[k] != entry;
    var lines := entry.Sentences();
    out := sentences + lines;
  }

  /** The loop over the entries of one file, against a ghost record
      `before` of their text and children as they were on entry. */
  method ReadEntries(entries: seq<StringEntry>, ghost before: seq<(Text, seq<Element>)>) returns (sentences: seq<Text>)
    requires Separate(entries) && |before| == |entries|
    requires forall k :: 0 <= k < |entries| ==> entries[k].text == before[k].0 && entries[k].children == before[k].1
    modifies entries
    ensures sentences == FileLines(before)
    ensures forall k :: 0 <= k < |entries| ==> entries[k].children == ResolveAll(before[k].1)
  {
    sentences := [];
    var i := 0;
    assert before[..0] == [] && FileLines([]) == [];
    while i < |entries|
      invariant 0 <= i <= |entries|
      invariant sentences == FileLines(before[..i])
      invariant forall k :: 0 <= k < |entries| ==> entries[k].text == before[k].0
      invariant forall k :: 0 <= k < i ==> entries[k].children == ResolveAll(before[k].1)
      invariant forall k :: i <= k < |entries| ==> entries[k].children == before[k].1
    {
      sentences := ReadEntry(entries, before, i, sentences);
      assert sentences == FileLines(before[..i + 1]);
      i := i + 1;
    }
    assert before[..|entries|] == before;
  }

  /** One iteration of the file loop: the file's locale and the lines of
      every entry, in the order the entries are given; afterwards every
      entry's children have their placeholders resolved. */
  method ReadStringsFile(path: Text, entries: seq<StringEntry>) returns (lang: Text, sentences: seq<Text>)
    requires Separate(entries)
    modifies entries
    ensures lang == Locale(path)
    ensures sentences == FileLines(old(Snapshot(entries)))
    ensures forall k :: 0 <= k < |entries| ==> entries[k].children == ResolveAll(old(entries[k].children))
  {
    lang := Locale(path);
    ghost var before := Snapshot(entries);
    assert forall k :: 0 <= k < |entries| ==> before[k] == (entries[k].text, entries[k].children);
    sentences := ReadEntries(entries, before);
  }
}
