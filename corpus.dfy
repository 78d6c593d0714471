/**
  The corpus the extractor writes: every sentence mapped to the set of apps
  and the set of locales it was found in, built by folding the results of the
  file loop, then listed with keys and both sets in ascending order.
*/
module Corpus {
  import opened Text
  import opened Ordering

  /** Where a sentence was seen. */
  datatype Source = Source(apps: set<Text>, langs: set<Text>)

  /** What the file loop yields for one `strings.xml`. */
  datatype FileResult = FileResult(app: Text, lang: Text, sentences: seq<Text>)

  /** The `defaultdict(Source)` lookup: a missing sentence has empty sets. */
  function SourceOf(strings: map<Text, Source>, sentence: Text): (r: Source)
  {
    if sentence in strings then strings[sentence] else Source({}, {})
  }

  /** The body of the inner loop: record that `sentence` occurs in `app` for
      locale `lang`. */
  function Observe(strings: map<Text, Source>, app: Text, lang: Text, sentence: Text): (r: map<Text, Source>)
  {
    var src := SourceOf(strings, sentence);
    strings[sentence := Source(src.apps + {app}, src.langs + {lang})]
  }

  /** The inner loop over the sentences of one file, left to right. */
  function ObserveAll(strings: map<Text, Source>, app: Text, lang: Text, sentences: seq<Text>): (r: map<Text, Source>)
    decreases |sentences|
  {
    if sentences == [] then strings
    else
      var last := sentences[|sentences| - 1];
      Observe(ObserveAll(strings, app, lang, sentences[..|sentences| - 1]), app, lang, last)
  }

  /** The whole loop of `main`, over the files in the order they are read. */
  function Gather(results: seq<FileResult>): (r: map<Text, Source>)
    decreases |results|
  {
    if results == [] then map[]
    else
      var r := results[|results| - 1];
      ObserveAll(Gather(results[..|results| - 1]), r.app, r.lang, r.sentences)
  }

  // --------------------------------------------- the corpus, stated directly

  function AllSentences(results: seq<FileResult>): (r: set<Text>)
  {
    set r, s | r in results && s in r.sentences :: s
  }

  function AppsOf(results: seq<FileResult>, sentence: Text): (r: set<Text>)
  {
    set r | r in results && sentence in r.sentences :: r.app
  }

  function LangsOf(results: seq<FileResult>, sentence: Text): (r: set<Text>)
  {
    set r | r in results && sentence in r.sentences :: r.lang
  }

  /** The corpus as a whole: each sentence found in some file, with the apps
      and the locales of exactly the files it was found in. */
  function Reference(results: seq<FileResult>): (r: map<Text, Source>)
  {
    map s | s in AllSentences(results) :: Source(AppsOf(results, s), LangsOf(results, s))
  }

  /** One file adds its app and locale to its own sentences and to nothing
      else; sentences it does not hold keep their entry. */
  lemma {:induction false} ObserveAllSpec(strings: map<Text, Source>, app: Text, lang: Text, sentences: seq<Text>)
    ensures forall s :: s in ObserveAll(strings, app, lang, sentences) <==> s in strings || s in sentences
    ensures forall s :: s in sentences ==>
      ObserveAll(strings, app, lang, sentences)[s]
        == Source(SourceOf(strings, s).apps + {app}, SourceOf(strings, s).langs + {lang})
    ensures forall s :: s in strings && s !in sentences ==> ObserveAll(strings, app, lang, sentences)[s] == strings[s]
    decreases |sentences|
  {
    if sentences != [] {
      var init := sentences[..|sentences| - 1];
      var last := sentences[|sentences| - 1];
      ObserveAllSpec(strings, app, lang, init);
      assert sentences == init + [last];
      forall s | s in sentences ensures s in init || s == last { }
    }
  }

  lemma ReferenceStep(results: seq<FileResult>, r: FileResult)
    ensures AllSentences(results + [r]) == AllSentences(results) + set s | s in r.sentences
    ensures forall s :: AppsOf(results + [r], s) == AppsOf(results, s) + (if s in r.sentences then {r.app} else {})
    ensures forall s :: LangsOf(results + [r], s) == LangsOf(results, s) + (if s in r.sentences then {r.lang} else {})
  {
  }

  lemma NotSeen(results: seq<FileResult>, sentence: Text)
    requires sentence !in AllSentences(results)
    ensures AppsOf(results, sentence) == {} && LangsOf(results, sentence) == {}
  {
  }

  lemma ReferenceStepAt(results: seq<FileResult>, r: FileResult, s: Text)
    ensures AppsOf(results + [r], s) == AppsOf(results, s) + (if s in r.sentences then {r.app} else {})
    ensures LangsOf(results + [r], s) == LangsOf(results, s) + (if s in r.sentences then {r.lang} else {})
  {
    ReferenceStep(results, r);
  }

  lemma ObserveAllAt(strings: map<Text, Source>, app: Text, lang: Text, sentences: seq<Text>, s: Text)
    requires s in ObserveAll(strings, app, lang, sentences)
    ensures ObserveAll(strings, app, lang, sentences)[s] ==
      if s in sentences then Source(SourceOf(strings, s).apps + {app}, SourceOf(strings, s).langs + {lang})
      else SourceOf(strings, s)
  {
    ObserveAllSpec(strings, app, lang, sentences);
  }

  lemma ObserveReferenceAt(results: seq<FileResult>, r: FileResult, s: Text)
    requires s in ObserveAll(Reference(results), r.app, r.lang, r.sentences)
    requires s in Reference(results + [r])
    ensures ObserveAll(Reference(results), r.app, r.lang, r.sentences)[s] == Reference(results + [r])[s]
  {
    var g := Reference(results);
    ObserveAllAt(g, r.app, r.lang, r.sentences, s);
    ReferenceStepAt(results, r, s);
    if s !in g {
      NotSeen(results, s);
    }
    assert SourceOf(g, s) == Source(AppsOf(results, s), LangsOf(results, s));
  }

  /** Folding one more file into the corpus of the earlier files gives the
      corpus of all of them. */
  lemma ObserveReference(results: seq<FileResult>, r: FileResult)
    ensures ObserveAll(Reference(results), r.app, r.lang, r.sentences) == Reference(results + [r])
  {
    var m, ref := ObserveAll(Reference(results), r.app, r.lang, r.sentences), Reference(results + [r]);
    assert m.Keys == ref.Keys by {
      ReferenceStep(results, r);
      ObserveAllSpec(Reference(results), r.app, r.lang, r.sentences);
    }
    forall s | s in m ensures m[s] == ref[s] {
      ObserveReferenceAt(results, r, s);
    }
  }

  /** The fold computes the corpus as stated directly. */
  lemma {:induction false} GatherIsReference(results: seq<FileResult>)
    ensures Gather(results) == Reference(results)
    decreases |results|
  {
    if results != [] {
      var init := results[..|results| - 1];
      var r := results[|results| - 1];
      GatherIsReference(init);
      assert results == init + [r];
      ObserveReference(init, r);
    }
  }

  /** The corpus depends only on which file results occur, not on their
      order or on how often each one is read. */
  lemma GatherOrderIndependent(results1: seq<FileResult>, results2: seq<FileResult>)
    requires forall r :: r in results1 <==> r in results2
    ensures Gather(results1) == Gather(results2)
  {
    GatherIsReference(results1);
    GatherIsReference(results2);
    assert AllSentences(results1) == AllSentences(results2);
    forall s ensures AppsOf(results1, s) == AppsOf(results2, s) && LangsOf(results1, s) == LangsOf(results2, s) { }
  }

  /** Reading the same files a second time (two configured repositories that
      clone into the same folder) changes nothing. */
  lemma GatherReplay(results: seq<FileResult>)
    ensures Gather(results + results) == Gather(results)
  {
    GatherOrderIndependent(results + results, results);
  }

  /** Recording a sentence again for the same app and locale changes nothing. */
  lemma ObserveIdempotent(strings: map<Text, Source>, app: Text, lang: Text, sentence: Text)
    ensures Observe(Observe(strings, app, lang, sentence), app, lang, sentence) == Observe(strings, app, lang, sentence)
  {
  }

  /** Recording only adds: no key disappears and no set shrinks. */
  lemma ObserveGrows(strings: map<Text, Source>, app: Text, lang: Text, sentence: Text)
    ensures forall s :: s in strings ==> s in Observe(strings, app, lang, sentence)
    ensures forall s :: s in strings ==>
      strings[s].apps <= Observe(strings, app, lang, sentence)[s].apps &&
      strings[s].langs <= Observe(strings, app, lang, sentence)[s].langs
  {
  }

  // ------------------------------------------------------------ the class

  /** The `defaultdict(Source)` that `main` fills. */
  class Corpus {
    var strings: map<Text, Source>

    constructor ()
      ensures strings == map[]
    {
      strings := map[];
    }

    /** The inner loop for one file result. */
    method Add(app: Text, lang: Text, sentences: seq<Text>)
      modifies this
      ensures strings == ObserveAll(old(strings), app, lang, sentences)
    {
      for i := 0 to |sentences|
        invariant strings == ObserveAll(old(strings), app, lang, sentences[..i])
      {
        assert sentences[..i + 1][..i] == sentences[..i];
        var src := SourceOf(strings, sentences[i]);
        strings := strings[sentences[i] := Source(src.apps + {app}, src.langs + {lang})];
      }
      assert sentences[..|sentences|] == sentences;
    }
  }

  /** The loop of `main` over all file results. */
  method BuildCorpus(results: seq<FileResult>) returns (corpus: Corpus)
    ensures fresh(corpus)
    ensures corpus.strings == Gather(results)
  {
    corpus := new Corpus();
    for i := 0 to |results|
      invariant corpus.strings == Gather(results[..i])
    {
      assert results[..i + 1][..i] == results[..i];
      corpus.Add(results[i].app, results[i].lang, results[i].sentences);
    }
    assert results[..|results|] == results;
  }

  // ------------------------------------------------------ the sorted output

  /** One key of the written JSON object with its two sorted lists. */
  datatype Entry = Entry(text: Text, apps: seq<Text>, langs: seq<Text>)

  function Keys(entries: seq<Entry>): (keys: seq<Text>)
    ensures |keys| == |entries|
    ensures forall i :: 0 <= i < |entries| ==> keys[i] == entries[i].text
  {
    if entries == [] then [] else [entries[0].text] + Keys(entries[1..])
  }

  /** `entries` lists `strings` as the extractor writes it: keys ascending,
      and for each key its apps and its locales ascending. */
  predicate IsSerialisation(entries: seq<Entry>, strings: map<Text, Source>)
  {
    && SortedOf(Keys(entries), strings.Keys)
    && forall i :: 0 <= i < |entries| ==> Lists(entries[i], strings)
  }

  /** One entry of the listing: a key of the corpus with both of its sets
      listed in ascending order. */
  predicate Lists(e: Entry, strings: map<Text, Source>)
  {
    && e.text in strings
    && SortedOf(e.apps, strings[e.text].apps)
    && SortedOf(e.langs, strings[e.text].langs)
  }

  /** The sorted listing of a corpus. */
  method Serialise(strings: map<Text, Source>) returns (entries: seq<Entry>)
    ensures IsSerialisation(entries, strings)
  {
    var keys := SortSet(strings.Keys);
    entries := [];
    for i := 0 to |keys|
      invariant |entries| == i
      invariant forall k :: 0 <= k < i ==> entries[k].text == keys[k] && Lists(entries[k], strings)
    {
      var src := strings[keys[i]];
      var apps := SortSet(src.apps);
      var langs := SortSet(src.langs);
      entries := entries + [Entry(keys[i], apps, langs)];
    }
    assert Keys(entries) == keys;
  }

  /** The written corpus is unique: whatever order the sets were iterated
      in, there is one listing. */
  lemma SerialisationUnique(e1: seq<Entry>, e2: seq<Entry>, strings: map<Text, Source>)
    requires IsSerialisation(e1, strings) && IsSerialisation(e2, strings)
    ensures e1 == e2
  {
    SortedUnique(Keys(e1), Keys(e2));
    forall i | 0 <= i < |e1| ensures e1[i] == e2[i] {
      assert Keys(e1)[i] == Keys(e2)[i];
      SortedUnique(e1[i].apps, e2[i].apps);
      SortedUnique(e1[i].langs, e2[i].langs);
    }
  }

  function Elements(s: seq<Text>): (r: set<Text>)
  {
    set x | x in s
  }

  /** Reading the written corpus back (`json.load`) as a map. */
  function Load(entries: seq<Entry>): (r: map<Text, Source>)
    decreases |entries|
  {
    if entries == [] then map[]
    else
      var e := entries[|entries| - 1];
      Load(entries[..|entries| - 1])[e.text := Source(Elements(e.apps), Elements(e.langs))]
  }

  lemma {:induction false} LoadSpec(entries: seq<Entry>)
    requires DistinctKeys(entries)
    ensures forall i :: 0 <= i < |entries| ==> entries[i].text in Load(entries)
    ensures forall i :: 0 <= i < |entries| ==>
      Load(entries)[entries[i].text] == Source(Elements(entries[i].apps), Elements(entries[i].langs))
    ensures forall t :: t in Load(entries) ==> exists i :: 0 <= i < |entries| && entries[i].text == t
    decreases |entries|
  {
    if entries != [] {
      var n := |entries| - 1;
      DistinctKeysInit(entries);
      LoadSpec(entries[..n]);
      assert forall i :: 0 <= i < n ==> entries[..n][i] == entries[i];
    }
  }

  /** Distinct keys stay distinct without the last entry, whose key none of
      the others has. */
  lemma DistinctKeysInit(entries: seq<Entry>)
    requires entries != [] && DistinctKeys(entries)
    ensures DistinctKeys(entries[..|entries| - 1])
    ensures forall i :: 0 <= i < |entries| - 1 ==> entries[i].text != entries[|entries| - 1].text
  {
    var n := |entries| - 1;
    var keys, init := Keys(entries), Keys(entries[..n]);
    assert forall i :: 0 <= i < n ==> init[i] == keys[i];
  }

  /** The keys of a written corpus are distinct. */
  predicate DistinctKeys(entries: seq<Entry>)
  {
    NoDuplicates(Keys(entries))
  }

  lemma SerialisationDistinct(entries: seq<Entry>, strings: map<Text, Source>)
    requires IsSerialisation(entries, strings)
    ensures DistinctKeys(entries)
  {
    var keys := Keys(entries);
    forall i, j | 0 <= i < j < |entries| ensures entries[i].text != entries[j].text {
      assert Less(keys[i], keys[j]);
      LessIrreflexive(keys[i]);
    }
  }

  lemma LoadEntry(entries: seq<Entry>, strings: map<Text, Source>, i: nat)
    requires IsSerialisation(entries, strings)
    requires i < |entries|
    ensures Source(Elements(entries[i].apps), Elements(entries[i].langs)) == strings[entries[i].text]
  {
    var src := strings[entries[i].text];
    assert Elements(entries[i].apps) == src.apps;
    assert Elements(entries[i].langs) == src.langs;
  }

  /** Loading the written corpus gives back the corpus. */
  lemma LoadSerialisation(entries: seq<Entry>, strings: map<Text, Source>)
    requires IsSerialisation(entries, strings)
    ensures Load(entries) == strings
  {
    var loaded := Load(entries);
    forall t ensures t in loaded <==> t in strings {
      LoadKey(entries, strings, t);
    }
    forall t | t in strings ensures loaded[t] == strings[t] {
      LoadValue(entries, strings, t);
    }
    assert loaded.Keys == strings.Keys;
  }

  lemma LoadKey(entries: seq<Entry>, strings: map<Text, Source>, t: Text)
    requires IsSerialisation(entries, strings)
    ensures t in Load(entries) <==> t in strings
  {
    SerialisationDistinct(entries, strings);
    LoadSpec(entries);
    var keys := Keys(entries);
    if t in strings {
      assert t in keys;
      var i :| 0 <= i < |keys| && keys[i] == t;
      assert entries[i].text == t;
    }
    if t in Load(entries) {
      var i :| 0 <= i < |entries| && entries[i].text == t;
      assert Lists(entries[i], strings);
    }
  }

  lemma LoadValue(entries: seq<Entry>, strings: map<Text, Source>, t: Text)
    requires IsSerialisation(entries, strings)
    requires t in strings
    ensures t in Load(entries) && Load(entries)[t] == strings[t]
  {
    SerialisationDistinct(entries, strings);
    LoadSpec(entries);
    var keys := Keys(entries);
    assert t in keys;
    var i :| 0 <= i < |keys| && keys[i] == t;
    LoadEntry(entries, strings, i);
  }
}
