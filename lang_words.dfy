/**
  The word-list extractor: it reads the written corpus, splits every sentence
  into whitespace-separated words, and gathers under each base language of the
  sentence's locales the set of its words; each set is written sorted, one word
  per line, with a final newline.
*/
module LangWords {
  import opened Text
  import opened Ordering
  import opened Corpus
  import opened LangTexts

  /** `[word.strip() for word in sentence.split() if word.strip() != ""]`:
      the strip-and-filter step keeps every word of `split()` as it is. */
  function SentenceWords(sentence: Text): (ws: seq<Text>)
    ensures ws == Words(sentence)
    ensures forall w :: w in ws ==> w != [] && NoSpace(w)
  {
    StrippedWordsNoop(Words(sentence));
    StrippedWords(Words(sentence))
  }

  /** Every base language of some locale of the corpus. */
  function AllBases(data: seq<Entry>): (r: set<Text>)
    decreases |data|
  {
    if data == [] then {}
    else AllBases(data[..|data| - 1]) + Bases(data[|data| - 1].langs)
  }

  /** The words of the sentences of `data` that have a locale of base `l`. */
  function Vocabulary(data: seq<Entry>, l: Text): (r: set<Text>)
    decreases |data|
  {
    if data == [] then {}
    else
      var e := data[|data| - 1];
      Vocabulary(data[..|data| - 1], l) + (if l in Bases(e.langs) then Elements(SentenceWords(e.text)) else {})
  }

  /** What `lang_words` holds after the loop: one entry per base language
      met, with all the words of its sentences. */
  function LangWordsOf(data: seq<Entry>): (r: map<Text, set<Text>>)
  {
    map l | l in AllBases(data) :: Vocabulary(data, l)
  }

  /** `lang_words[l].update(words)` on a `defaultdict(set)`: the key is
      created even when there are no words to add. */
  function AddWords(langWords: map<Text, set<Text>>, l: Text, words: set<Text>): (r: map<Text, set<Text>>)
  {
    langWords[l := (if l in langWords then langWords[l] else {}) + words]
  }

  /** Part-way through the inner loop: the bases in `done` have had `words`
      added to what `before` held for them. */
  ghost predicate UpdatedFor(langWords: map<Text, set<Text>>, before: map<Text, set<Text>>, done: set<Text>, words: set<Text>)
  {
    && (forall l :: l in langWords <==> l in before || l in done)
    && (forall l :: l in langWords ==>
          langWords[l] == (if l in before then before[l] else {}) + (if l in done then words else {}))
  }

  lemma LangWordsStep(data: seq<Entry>, i: nat)
    requires i < |data|
    ensures UpdatedFor(LangWordsOf(data[..i + 1]), LangWordsOf(data[..i]),
                       Bases(data[i].langs), Elements(SentenceWords(data[i].text)))
  {
    var prefix, next := data[..i], data[..i + 1];
    assert next[..i] == prefix && next[i] == data[i];
    var words := Elements(SentenceWords(data[i].text));
    assert AllBases(next) == AllBases(prefix) + Bases(data[i].langs);
    var after, before := LangWordsOf(next), LangWordsOf(prefix);
    assert forall l :: l in after <==> l in before || l in Bases(data[i].langs);
    forall l | l in after
      ensures after[l] == (if l in before then before[l] else {}) + (if l in Bases(data[i].langs) then words else {})
    {
      assert after[l] == Vocabulary(prefix, l) + (if l in Bases(data[i].langs) then words else {});
      if l !in before {
        AllBasesSpec(prefix, l);
        NoBaseNoWords(prefix, l);
      }
    }
  }

  lemma {:induction false} NoBaseNoWords(data: seq<Entry>, l: Text)
    requires l !in AllBases(data)
    ensures Vocabulary(data, l) == {}
    decreases |data|
  {
    if data != [] {
      NoBaseNoWords(data[..|data| - 1], l);
    }
  }

  lemma UpdateStep(langWords: map<Text, set<Text>>, before: map<Text, set<Text>>, done: set<Text>,
                   words: set<Text>, l: Text)
    requires UpdatedFor(langWords, before, done, words) && l !in done
    ensures UpdatedFor(AddWords(langWords, l, words), before, done + {l}, words)
  {
  }

  lemma UpdatedEqual(f: map<Text, set<Text>>, g: map<Text, set<Text>>, before: map<Text, set<Text>>,
                     done: set<Text>, words: set<Text>)
    requires UpdatedFor(f, before, done, words) && UpdatedFor(g, before, done, words)
    ensures f == g
  {
  }

  /** The inner loop of the script: add `words` to the set of every base in
      `languages`, in whatever order the set yields them. */
  method AddToAll(langWords: map<Text, set<Text>>, languages: set<Text>, words: set<Text>)
    returns (updated: map<Text, set<Text>>)
    ensures UpdatedFor(updated, langWords, languages, words)
  {
    updated := langWords;
    var rest := languages;
    while rest != {}
      invariant rest <= languages
      invariant UpdatedFor(updated, langWords, languages - rest, words)
      decreases |rest|
    {
      var l :| l in rest;
      UpdateStep(updated, langWords, languages - rest, words, l);
      updated := AddWords(updated, l, words);
      assert languages - (rest - {l}) == (languages - rest) + {l};
      rest := rest - {l};
    }
  }

  /** The loop of the script: for each corpus entry, for each base of its
      locales, add the sentence's words to that base's set. */
  method CollectWords(data: seq<Entry>) returns (langWords: map<Text, set<Text>>)
    ensures langWords == LangWordsOf(data)
  {
    langWords := map[];
    for i := 0 to |data|
      invariant langWords == LangWordsOf(data[..i])
    {
      LangWordsStep(data, i);
      var words := Elements(SentenceWords(data[i].text));
      var languages := Bases(data[i].langs);
      ghost var before := langWords;
      langWords := AddToAll(langWords, languages, words);
      UpdatedEqual(langWords, LangWordsOf(data[..i + 1]), before, languages, words);
    }
    assert data[..|data|] == data;
  }

  lemma {:induction false} AllBasesSpec(data: seq<Entry>, l: Text)
    ensures l in AllBases(data) <==> exists i :: 0 <= i < |data| && l in Bases(data[i].langs)
    decreases |data|
  {
    if data != [] {
      var n := |data| - 1;
      AllBasesSpec(data[..n], l);
      if exists i :: 0 <= i < |data| && l in Bases(data[i].langs) {
        var i :| 0 <= i < |data| && l in Bases(data[i].langs);
        if i < n {
          assert data[..n][i] == data[i];
        }
      }
      if l in AllBases(data[..n]) {
        var i :| 0 <= i < n && l in Bases(data[..n][i].langs);
        assert data[i] == data[..n][i];
      }
    }
  }

  /** Entry `e` contributes word `w` to base language `l`. */
  predicate Says(e: Entry, l: Text, w: Text)
  {
    l in Bases(e.langs) && w in Words(e.text)
  }

  lemma VocabularyStep(data: seq<Entry>, l: Text, w: Text)
    requires data != []
    ensures w in Vocabulary(data, l) <==>
      w in Vocabulary(data[..|data| - 1], l) || Says(data[|data| - 1], l, w)
  {
    var e := data[|data| - 1];
    assert w in Elements(SentenceWords(e.text)) <==> w in Words(e.text);
  }

  lemma {:induction false} VocabularySays(data: seq<Entry>, l: Text, w: Text)
    ensures w in Vocabulary(data, l) <==> exists i :: 0 <= i < |data| && Says(data[i], l, w)
    decreases |data|
  {
    if data != [] {
      var n := |data| - 1;
      var prefix := data[..n];
      VocabularySays(prefix, l, w);
      VocabularyStep(data, l, w);
      if w in Vocabulary(prefix, l) {
        var i :| 0 <= i < n && Says(prefix[i], l, w);
        assert data[i] == prefix[i];
        assert Says(data[i], l, w);
      } else if Says(data[n], l, w) {
      } else {
        forall i | 0 <= i < |data| ensures !Says(data[i], l, w) {
          if i < n {
            assert prefix[i] == data[i];
          }
        }
      }
    }
  }

  lemma VocabularySpec(data: seq<Entry>, l: Text, w: Text)
    ensures w in Vocabulary(data, l) <==>
      exists i :: 0 <= i < |data| && l in Bases(data[i].langs) && w in Words(data[i].text)
  {
    VocabularySays(data, l, w);
  }

  /** A base language gets an entry exactly when some sentence has a locale
      of that base, and a word is in its set exactly when it is a word of such
      a sentence. */
  lemma LangWordsSpec(data: seq<Entry>, l: Text, w: Text)
    ensures l in LangWordsOf(data) <==> exists i :: 0 <= i < |data| && l in Bases(data[i].langs)
    ensures l in LangWordsOf(data) ==>
      (w in LangWordsOf(data)[l] <==>
         exists i :: 0 <= i < |data| && l in Bases(data[i].langs) && w in Words(data[i].text))
  {
    AllBasesSpec(data, l);
    VocabularySpec(data, l, w);
  }

  /** Every listed word is non-empty and free of whitespace, so in particular
      of newlines. */
  lemma {:induction false} VocabularyWords(data: seq<Entry>, l: Text)
    ensures forall w :: w in Vocabulary(data, l) ==> w != [] && NoSpace(w)
    decreases |data|
  {
    if data != [] {
      VocabularyWords(data[..|data| - 1], l);
    }
  }

  /** The result depends only on which entries the corpus holds, not on
      their order or repetition. */
  lemma LangWordsOrderFree(d1: seq<Entry>, d2: seq<Entry>)
    requires forall e :: e in d1 <==> e in d2
    ensures LangWordsOf(d1) == LangWordsOf(d2)
  {
    forall l ensures l in LangWordsOf(d1) <==> l in LangWordsOf(d2) {
      SameBases(d1, d2, l);
      SameBases(d2, d1, l);
    }
    forall l | l in LangWordsOf(d1) ensures LangWordsOf(d1)[l] == LangWordsOf(d2)[l] {
      forall w ensures w in Vocabulary(d1, l) <==> w in Vocabulary(d2, l) {
        SameVocabulary(d1, d2, l, w);
        SameVocabulary(d2, d1, l, w);
      }
    }
  }

  lemma SameBases(d1: seq<Entry>, d2: seq<Entry>, l: Text)
    requires forall e :: e in d1 ==> e in d2
    ensures l in AllBases(d1) ==> l in AllBases(d2)
  {
    AllBasesSpec(d1, l);
    AllBasesSpec(d2, l);
    if l in AllBases(d1) {
      var i :| 0 <= i < |d1| && l in Bases(d1[i].langs);
      assert d1[i] in d2;
    }
  }

  lemma SameVocabulary(d1: seq<Entry>, d2: seq<Entry>, l: Text, w: Text)
    requires forall e :: e in d1 ==> e in d2
    ensures w in Vocabulary(d1, l) ==> w in Vocabulary(d2, l)
  {
    VocabularySpec(d1, l, w);
    VocabularySpec(d2, l, w);
    if w in Vocabulary(d1, l) {
      var i :| 0 <= i < |d1| && l in Bases(d1[i].langs) && w in Words(d1[i].text);
      assert d1[i] in d2;
    }
  }

  /** A sentence of only whitespace still gives its locales' base languages
      an entry, with no words. */
  lemma BlankSentenceKey(s: Text, apps: seq<Text>, tag: Text)
    requires AllSpace(s)
    ensures LangWordsOf([Entry(s, apps, [tag])]) == map[BaseLanguage(tag) := {}]
  {
    var data := [Entry(s, apps, [tag])];
    WordsEmpty(s);
    assert data[..0] == [];
    assert Bases([tag]) == {BaseLanguage(tag)};
    assert Elements(SentenceWords(s)) == {};
    assert AllBases(data) == {BaseLanguage(tag)};
    assert Vocabulary(data, BaseLanguage(tag)) == {};
  }

  // ------------------------------------------------------------ the output

  /** A word file: the language's words in ascending order, each on its own
      line ended by a newline. */
  method WordFile(words: set<Text>) returns (sorted: seq<Text>, content: Text)
    ensures SortedOf(sorted, words)
    ensures content == Join(sorted, NEWLINE) + [NEWLINE]
  {
    sorted := SortSet(words);
    content := Join(sorted, NEWLINE) + [NEWLINE];
  }

  /** Splitting a word file at newlines gives the sorted words and an empty
      last piece after the final newline. */
  lemma WordFileLines(sorted: seq<Text>)
    requires sorted != []
    requires forall w :: w in sorted ==> NoSpace(w)
    ensures SplitOn(Join(sorted, NEWLINE) + [NEWLINE], NEWLINE) == sorted + [[]]
  {
    forall w | w in sorted + [[]] ensures NEWLINE !in w {
      if w in sorted {
        assert IsSpace(NEWLINE);
      }
    }
    JoinSnoc(sorted, NEWLINE);
    SplitJoin(sorted + [[]], NEWLINE);
  }
}
