/**
  The sentence extractor for chosen languages: it reads the written corpus,
  reduces every locale tag to its base language, and lists under each
  requested base the sentences found in some locale of that base; each list
  is written sorted, one sentence per line.
*/
module LangTexts {
  import opened Text
  import opened Ordering
  import opened Corpus

  /** `set(l.split("-")[0] for l in tags)`: the base languages of some tags,
      used both for the requested codes and for a sentence's locales. */
  function Bases(tags: seq<Text>): (r: set<Text>)
  {
    set t | t in tags :: BaseLanguage(t)
  }

  /** The sentences of `data`, in corpus order, with a locale of base `l`. */
  function Matching(data: seq<Entry>, l: Text): (r: seq<Text>)
    decreases |data|
  {
    if data == [] then []
    else
      var e := data[|data| - 1];
      Matching(data[..|data| - 1], l) + (if l in Bases(e.langs) then [e.text] else [])
  }

  /** What `findings` holds after the loop: every requested base that some
      sentence has, with its sentences in corpus order. */
  function FindingsOf(data: seq<Entry>, desired: set<Text>): (r: map<Text, seq<Text>>)
  {
    map l | l in desired && Matching(data, l) != [] :: Matching(data, l)
  }

  /** `findings[l].append(sentence)` on a `defaultdict(list)`. */
  function AppendTo(findings: map<Text, seq<Text>>, l: Text, sentence: Text): (r: map<Text, seq<Text>>)
  {
    findings[l := (if l in findings then findings[l] else []) + [sentence]]
  }

  /** Part-way through the inner loop: the bases in `done` have had
      `sentence` appended to what `before` held for them. */
  ghost predicate AppendedFor(findings: map<Text, seq<Text>>, before: map<Text, seq<Text>>, done: set<Text>, sentence: Text)
  {
    && (forall l :: l in findings <==> l in before || l in done)
    && (forall l :: l in findings ==>
          findings[l] == (if l in before then before[l] else []) + (if l in done then [sentence] else []))
  }

  lemma FindingsStep(data: seq<Entry>, desired: set<Text>, i: nat)
    requires i < |data|
    ensures AppendedFor(FindingsOf(data[..i + 1], desired), FindingsOf(data[..i], desired),
                        Bases(data[i].langs) * desired, data[i].text)
  {
    assert data[..i + 1][..i] == data[..i];
    var before, after := FindingsOf(data[..i], desired), FindingsOf(data[..i + 1], desired);
    forall l ensures Matching(data[..i + 1], l)
                     == Matching(data[..i], l) + (if l in Bases(data[i].langs) then [data[i].text] else []) {
    }
  }

  /** The inner loop of the script: append `sentence` to the list of every
      base in `languages` that was requested, in whatever order the set
      yields them. */
  method AppendToAll(findings: map<Text, seq<Text>>, languages: set<Text>, desired: set<Text>, sentence: Text)
    returns (updated: map<Text, seq<Text>>)
    ensures AppendedFor(updated, findings, languages * desired, sentence)
  {
    updated := findings;
    var rest := languages;
    while rest != {}
      invariant rest <= languages
      invariant AppendedFor(updated, findings, (languages - rest) * desired, sentence)
      decreases |rest|
    {
      var l :| l in rest;
      AppendStep(updated, findings, languages, rest, desired, sentence, l);
      if l in desired {
        updated := AppendTo(updated, l, sentence);
      }
      rest := rest - {l};
    }
  }

  /** The loop of the script: the requested codes are reduced to base
      languages; then for each corpus entry, each base of its locales that
      was requested gets the sentence appended. */
  method Findings(data: seq<Entry>, requested: seq<Text>) returns (findings: map<Text, seq<Text>>)
    ensures findings == FindingsOf(data, Bases(requested))
  {
    var desired := Bases(requested);
    findings := map[];
    for i := 0 to |data|
      invariant findings == FindingsOf(data[..i], desired)
    {
      FindingsStep(data, desired, i);
      ghost var before := findings;
      var languages := Bases(data[i].langs);
      findings := AppendToAll(findings, languages, desired, data[i].text);
      MapsEqual(findings, FindingsOf(data[..i + 1], desired), before, languages * desired, data[i].text);
    }
    assert data[..|data|] == data;
  }

  lemma AppendStep(updated: map<Text, seq<Text>>, findings: map<Text, seq<Text>>, languages: set<Text>,
                   rest: set<Text>, desired: set<Text>, sentence: Text, l: Text)
    requires rest <= languages && l in rest
    requires AppendedFor(updated, findings, (languages - rest) * desired, sentence)
    ensures AppendedFor(if l in desired then AppendTo(updated, l, sentence) else updated,
                        findings, (languages - (rest - {l})) * desired, sentence)
  {
    var done := (languages - rest) * desired;
    if l in desired {
      assert (languages - (rest - {l})) * desired == done + {l};
    } else {
      assert (languages - (rest - {l})) * desired == done;
    }
  }

  lemma MapsEqual(f: map<Text, seq<Text>>, g: map<Text, seq<Text>>, before: map<Text, seq<Text>>,
                  done: set<Text>, sentence: Text)
    requires AppendedFor(f, before, done, sentence) && AppendedFor(g, before, done, sentence)
    ensures f == g
  {
  }

  /** A sentence is listed under `l` exactly when it has a locale whose base
      is `l`. */
  lemma MatchingSpec(data: seq<Entry>, l: Text)
    ensures forall x :: x in Matching(data, l) <==>
      exists i :: 0 <= i < |data| && data[i].text == x && l in Bases(data[i].langs)
  {
    forall x ensures x in Matching(data, l) <==> exists i :: 0 <= i < |data| && ListedUnder(data[i], l, x) {
      MatchingHas(data, l, x);
    }
  }

  /** Entry `e` puts sentence `x` under base language `l`. */
  predicate ListedUnder(e: Entry, l: Text, x: Text)
  {
    e.text == x && l in Bases(e.langs)
  }

  lemma {:induction false} MatchingHas(data: seq<Entry>, l: Text, x: Text)
    ensures x in Matching(data, l) <==> exists i :: 0 <= i < |data| && ListedUnder(data[i], l, x)
    decreases |data|
  {
    if data != [] {
      var n := |data| - 1;
      var prefix := data[..n];
      MatchingHas(prefix, l, x);
      assert x in Matching(data, l) <==> x in Matching(prefix, l) || ListedUnder(data[n], l, x);
      if x in Matching(prefix, l) {
        var i :| 0 <= i < n && ListedUnder(prefix[i], l, x);
        assert data[i] == prefix[i];
        assert ListedUnder(data[i], l, x);
      } else if ListedUnder(data[n], l, x) {
      } else {
        forall i | 0 <= i < |data| ensures !ListedUnder(data[i], l, x) {
          if i < n {
            assert prefix[i] == data[i];
          }
        }
      }
    }
  }

  /** Every key is a requested base; a requested base is a key exactly when
      some sentence has a locale of that base, and a sentence is listed under
      it exactly when one of its locales has that base. */
  lemma FindingsSpec(data: seq<Entry>, desired: set<Text>, l: Text)
    ensures l in FindingsOf(data, desired) ==> l in desired
    ensures l in FindingsOf(data, desired) <==>
      l in desired && exists i :: 0 <= i < |data| && l in Bases(data[i].langs)
    ensures l in FindingsOf(data, desired) ==> forall x :: x in FindingsOf(data, desired)[l] <==>
      exists i :: 0 <= i < |data| && data[i].text == x && l in Bases(data[i].langs)
  {
    MatchingSpec(data, l);
    if Matching(data, l) != [] {
      assert Matching(data, l)[0] in Matching(data, l);
    }
    if l in desired && exists i :: 0 <= i < |data| && l in Bases(data[i].langs) {
      var i :| 0 <= i < |data| && l in Bases(data[i].langs);
      assert data[i].text in Matching(data, l);
    }
  }

  /** A sentence whose locales share a base (`pt` and `pt-rBR`) is still
      listed once under it. */
  lemma SharedBaseOnce(tags: seq<Text>, l: Text)
    requires l in Bases(tags)
    ensures Matching([Entry(Str("x"), [], tags)], l) == [Str("x")]
  {
    assert [Entry(Str("x"), [], tags)][..0] == [];
  }

  /** With unique corpus keys, no list holds a sentence twice. */
  lemma {:induction false} MatchingNoDuplicates(data: seq<Entry>, l: Text)
    requires DistinctKeys(data)
    ensures NoDuplicates(Matching(data, l))
    decreases |data|
  {
    if data != [] {
      var n := |data| - 1;
      DistinctKeysInit(data);
      MatchingNoDuplicates(data[..n], l);
      MatchingSpec(data[..n], l);
      var prefix := Matching(data[..n], l);
      if l in Bases(data[n].langs) {
        forall k | 0 <= k < n ensures data[..n][k].text != data[n].text {
          assert data[..n][k] == data[k];
        }
        assert data[n].text !in prefix;
      }
    }
  }

  // ------------------------------------------------------------ the output

  /** A language file: `sorted(sentences)` joined with newlines, with no
      newline after the last. */
  method LanguageFile(sentences: seq<Text>) returns (sorted: seq<Text>, content: Text)
    ensures Ascending(sorted) && multiset(sorted) == multiset(sentences)
    ensures content == Join(sorted, NEWLINE)
  {
    sorted := SortList(sentences);
    content := Join(sorted, NEWLINE);
  }

  /** With unique corpus keys, every list of the result is free of
      duplicates. */
  lemma FindingsNoDuplicates(data: seq<Entry>, desired: set<Text>)
    requires DistinctKeys(data)
    ensures forall l :: l in FindingsOf(data, desired) ==> NoDuplicates(FindingsOf(data, desired)[l])
  {
    forall l | l in FindingsOf(data, desired) ensures NoDuplicates(FindingsOf(data, desired)[l]) {
      MatchingNoDuplicates(data, l);
    }
  }

  /** For a list without duplicates, as every list of the result is, the
      sorted list is the strictly ascending listing of its sentences, one
      line per sentence. */
  lemma SortedListing(sentences: seq<Text>, sorted: seq<Text>)
    requires NoDuplicates(sentences)
    requires Ascending(sorted) && multiset(sorted) == multiset(sentences)
    ensures SortedOf(sorted, Elements(sentences))
    ensures |sorted| == |sentences|
  {
    AscendingDistinct(sentences, sorted);
  }

  /** Reading a language file back line by line gives the sorted sentences,
      when no sentence holds a newline. */
  lemma LanguageFileLines(sorted: seq<Text>)
    requires sorted != []
    requires forall x :: x in sorted ==> NEWLINE !in x
    ensures SplitOn(Join(sorted, NEWLINE), NEWLINE) == sorted
  {
    SplitJoin(sorted, NEWLINE);
  }
}
