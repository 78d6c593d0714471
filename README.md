# aosp-test-texts: sentence extraction from Android string resources

This project models the text pipeline of aosp-test-texts, which collects
real-world UI sentences from the `strings.xml` resource files of Android apps
and uses them as test texts for fonts.

- The extractor (`src/extract_strings.py`) does the following for each
  resource file:
  - takes the locale from the `values-*` folder name;
  - replaces every XLIFF placeholder `<g>` of an entry by its `example`
    attribute;
  - flattens the entry's text;
  - undoes Android's quoting: quoted stretches are kept verbatim, and
    whitespace runs elsewhere collapse to one space;
  - decodes the backslash escapes;
  - keeps each non-empty stripped line as a sentence.
- The extractor then gathers every sentence with the set of apps and the set
  of locales it occurs in. It writes that corpus as a JSON object whose keys,
  app lists and locale lists are all sorted.
- `scripts/extract-lang-texts.py` reads the corpus back. It reduces the
  requested language codes and every locale to a base language (the part
  before the first `-`). It lists, per requested base, the sentences that have
  a locale of that base, and writes each list sorted, one sentence per line.
- `scripts/extract_words.py` reads the corpus back. It collects, per base
  language, the set of whitespace-separated words of its sentences, and
  writes them sorted with a final newline.

## Representation

- Python strings are sequences of code points (`Text.Text`), lone surrogates
  included.
- `str.isspace` is the one whitespace class. It serves `\s`, `strip()` and
  `split()`.
- `<`, the ordering on `str`, is a lexicographic order on code points
  (`Ordering.Less`).

## How each part is modelled

- The two regular expressions of the extractor are modelled as scanners, each
  proved equal to a declarative reading of its pattern:
  - `Normalise.MatchAt` for the quote-delimiter pattern;
  - `Resources.LastValues` for the locale pattern.
- An XML element is a value (`Resources.Element`).
- One `<string>`/`<item>` entry is a class (`Resources.StringEntry`). Its list
  of direct children is rewritten in place by the placeholder loop.
- The `defaultdict(Source)` of `main` is a class (`Corpus.Corpus`) whose map
  field the loop updates.
- Each loop of the source is a method with its invariants. Each method is
  proved against a function stated over all inputs. The loops are:
  - the entry loop;
  - the placeholder loop;
  - the line loop;
  - the corpus loop;
  - the scripts' two nested loops;
  - `sorted()`.
- The written corpus is modelled as a sequence of `Corpus.Entry` values.
  Both scripts take it, as `json.load` returns it, as their input `data`.
  The script methods also accept sequences with a repeated key, which
  `json.load` cannot produce; the lemmas that need distinct keys require
  `Corpus.DistinctKeys` explicitly.

## Model

| member | source | states |
|---|---|---|
| Text.StripLeftSpec | src/extract_strings.py:560 | `lstrip()` removes exactly the leading whitespace run: the result is a suffix of the input, everything before it is whitespace, and it is empty or starts with non-whitespace |
| Text.StripRightSpec | src/extract_strings.py:560 | `rstrip()` removes exactly the trailing whitespace run: the result is a prefix, everything after it is whitespace, and it is empty or ends with non-whitespace |
| Text.StripFrame | src/extract_strings.py:560 | `strip()` of whitespace + m + whitespace is m whenever m neither starts nor ends with whitespace |
| Text.StripKeeps | src/extract_strings.py:560 | `strip()` brings in no character that was not in its input |
| Text.StripEnds | src/extract_strings.py:560 | the result of `strip()` is empty or has no whitespace at either end |
| Text.StripEmpty | src/extract_strings.py:561 | a stripped line is empty (and so dropped by `if line:`) exactly when the line is all whitespace |
| Text.SplitOn | src/extract_strings.py:559 | `split("\n")` gives at least one piece, no piece holds the separator, and joining the pieces with it gives the text back |
| Text.SplitJoin | src/extract_strings.py:559 | splitting a separator-join of pieces free of the separator gives back exactly those pieces |
| Text.JoinSnoc | scripts/extract_words.py:38 | joining with the final newline appended is the join of the words plus one more, empty, line |
| Text.Words | scripts/extract_words.py:29 | every element of `split()` is a non-empty run without whitespace |
| Text.WordsEmpty | scripts/extract_words.py:29 | `split()` gives no word exactly when the text is all whitespace |
| Text.WordsJoin | scripts/extract_words.py:29 | `split()` of words joined by single spaces gives back those words |
| Text.JoinWordsEnds | src/extract_strings.py:547 | a single-space join of words is empty only for no words, and otherwise neither starts nor ends with whitespace |
| Text.StrippedWordsNoop | scripts/extract_words.py:29 | the `word.strip() != ""` filter and the `strip()` in the comprehension change nothing on the output of `split()` |
| Text.BaseLanguageIsPrefix | scripts/extract-lang-texts.py:44 | `tag.split("-")[0]` is the part of the tag before the first hyphen, or the whole tag when it has none |
| Ordering.LessIrreflexive | src/extract_strings.py:501 | no string is below itself in Python's string order |
| Ordering.LessTransitive | src/extract_strings.py:501 | Python's string order is transitive |
| Ordering.LessTotal | src/extract_strings.py:501 | any two different strings are ordered one way or the other |
| Ordering.LessAsymmetric | src/extract_strings.py:501 | two strings are never each below the other |
| Ordering.SortedUnique | src/extract_strings.py:501-507 | a strictly ascending listing is determined by its elements, so `sorted` of a set does not depend on iteration order |
| Ordering.SortedOfSize | src/extract_strings.py:504 | the sorted listing of a set has exactly one entry per element |
| Ordering.InsertSorted | src/extract_strings.py:504 | inserting a new element into a strictly ascending list keeps it strictly ascending and adds exactly that element |
| Ordering.SortSet | src/extract_strings.py:504 | `sorted(s)` of a set is strictly ascending and holds exactly the elements of `s` |
| Ordering.LessEqTransitive | scripts/extract-lang-texts.py:54 | `<=` on strings is transitive |
| Ordering.InsertListAscending | scripts/extract-lang-texts.py:54 | inserting into an ascending list keeps it ascending and adds exactly one occurrence of the element |
| Ordering.SortList | scripts/extract-lang-texts.py:54 | `sorted(xs)` of a list is ascending and a permutation of `xs` (same multiset) |
| Ordering.AscendingDistinct | scripts/extract-lang-texts.py:54 | sorting a list without duplicates gives a strictly ascending list of the same length and the same elements |
| Normalise.CollapseChars | src/extract_strings.py:547 | `re.sub(r"\s+", " ", part)` brings in no character except the space and leaves no other whitespace |
| Normalise.CollapseShape | src/extract_strings.py:547 | collapsing gives the words of the part joined by single spaces, with one space for a leading and one for a trailing whitespace run |
| Normalise.StripCollapse | src/extract_strings.py:547 | collapsing and then stripping gives exactly the words joined by single spaces |
| Normalise.MatchAtIsRegexMatch | src/extract_strings.py:552 | the scanner finds a delimiter match from position i to e exactly when the delimiter pattern matches there: an unescaped quote, a body where each `"` follows a backslash, an unescaped closing quote |
| Normalise.SplitQuotedConcat | src/extract_strings.py:552 | the pieces of the capturing `re.split` concatenate back to the text |
| Normalise.SplitQuotedShape | src/extract_strings.py:552 | the split alternates plain pieces and quoted runs that match the pattern exactly; every plain piece before the last has no unescaped quote and does not end with a backslash, the last piece has at most one unescaped quote (the one left without a partner), and the pieces concatenate back to the text |
| Normalise.UnquotePieces | src/extract_strings.py:544-547 | for every input, each quoted run of the split loses exactly its two quotes, and each plain piece before the last is collapsed |
| Normalise.UnquotePartsAppend | src/extract_strings.py:544-553 | the pieces are rewritten independently and joined in order |
| Normalise.UnquoteNoQuote | src/extract_strings.py:544-553 | a text without `"` is one plain piece, so unquoting only collapses its whitespace |
| Normalise.SplitOneRun | src/extract_strings.py:552 | one quoted run between two plain stretches splits into exactly those three pieces |
| Normalise.UnquoteOneRun | src/extract_strings.py:544-553 | the interior of a quoted run is kept verbatim while the stretches around it are collapsed |
| Normalise.UnquoteEscapedCloser | src/extract_strings.py:552 | an opening `"` whose only closing candidate is escaped starts no quoted run; the piece still starts and ends with `"`, so it loses both |
| Normalise.LoneQuoteVanishes | src/extract_strings.py:545 | a lone unmatched `"` is a piece that starts and ends with `"`, so it vanishes and gives no sentence |
| Normalise.HexValue | src/extract_strings.py:569 | `int(c, 16)` of one digit: `0`-`9` give 0-9, and `A`-`F` and `a`-`f` alike give 10-15 |
| Normalise.HexDigit | src/extract_strings.py:569 | the digit written for a value below 16, in either case, reads back as that value |
| Normalise.CodeEscapeDecodes | src/extract_strings.py:566-569 | `\u` with any four hexadecimal digits, in either case, decodes to the code point they spell, and the rest is decoded on its own |
| Normalise.CodeEscapeValueOf | src/extract_strings.py:569 | the four digits written for a code point below 0x10000 spell that code point back |
| Normalise.CodeEscapeUnescapes | src/extract_strings.py:555-569 | `\uXXXX` written for any code point below 0x10000, in either case, decodes to that code point |
| Normalise.FailSoft | src/extract_strings.py:555 | a backslash followed by a character that starts no recognised escape is kept, and decoding goes on from that character |
| Normalise.ShortCodeKept | src/extract_strings.py:555 | `\u` without four hexadecimal digits after it is kept as it stands |
| Normalise.UnescapeEscapeChar | src/extract_strings.py:566-574 | the escape of one character decodes to that character, and the rest is decoded independently |
| Normalise.UnescapeEscape | src/extract_strings.py:555-574 | decoding undoes an encoder for the escapes `\@ \? \n \t \' \"` that also writes the backslash and any chosen set of code points below 0x10000 as `\uXXXX` in either case, for every text |
| Normalise.UnescapePlain | src/extract_strings.py:555 | a text without a backslash is left unchanged |
| Normalise.UnescapeShrinks | src/extract_strings.py:555 | decoding never makes the text longer |
| Normalise.UnescapeNoRescan | src/extract_strings.py:555 | a decoded backslash is not scanned again: `\u005Cn` gives a backslash and `n`, not a newline |
| Normalise.UnescapeSurrogate | src/extract_strings.py:569 | `\uD800` decodes to a lone surrogate code point |
| Normalise.KeepStrippedIsClean | src/extract_strings.py:559-562 | lines without a newline come out non-empty, stripped and still without a newline |
| Normalise.StrippedLinesClean | src/extract_strings.py:559-562 | every sentence of the line loop is non-empty, stripped and has no newline |
| Normalise.KeepStrippedClean | src/extract_strings.py:559-562 | the line loop keeps lines that are already clean, unchanged and in order |
| Normalise.StrippedLinesJoin | src/extract_strings.py:559-562 | clean lines joined by newlines come back unchanged and in order |
| Normalise.NormaliseTextClean | src/extract_strings.py:544-562 | whatever the entry's text, every sentence it yields is non-empty, stripped and single-line |
| Normalise.NoNewlineSplit | src/extract_strings.py:559 | text without a newline is one line |
| Normalise.PlainTextOneLine | src/extract_strings.py:544-562 | text with no `"` and no backslash yields no sentence if it is blank, and otherwise exactly one: its words joined by single spaces |
| Normalise.BlankYieldsNothing | src/extract_strings.py:559-562 | an all-whitespace entry yields no sentence |
| Resources.LastValuesSpec | src/extract_strings.py:529 | the scanner finds the last `values-` that the greedy `.*` can reach (on the first line), and finds none exactly when there is none |
| Resources.Segment | src/extract_strings.py:529 | `[^/\\]*` takes the longest prefix without `/` or `\` |
| Resources.LocaleSpec | src/extract_strings.py:528-530 | the locale is `en` when the pattern does not match, and otherwise the segment after the last reachable `values-` |
| Resources.LocaleWithRegion | src/extract_strings.py:528-530 | the folder `values-pt-rBR` gives the locale `pt-rBR` |
| Resources.LocaleDefault | src/extract_strings.py:528 | a path with no `values-` gives the locale `en` |
| Resources.ResolveAllAt | src/extract_strings.py:537-541 | each direct child is rewritten on its own |
| Resources.ResolvedText | src/extract_strings.py:541-542 | after the rewrite, each placeholder contributes its example (or nothing) to `itertext()` where its text was |
| Resources.ResolveIdempotent | src/extract_strings.py:537-541 | rewriting twice is the same as rewriting once |
| Resources.ResolveKeeps | src/extract_strings.py:537-541 | only the text of direct XLIFF `g` children changes; their tag, attributes, children and tail, and all other children, are kept |
| Resources.PlaceholderTextIrrelevant | src/extract_strings.py:541 | the text a placeholder held in the file never reaches the output |
| Resources.PlaceholderExampleLine | src/extract_strings.py:537-547 | a plain entry `a<g example="x"/>b` yields one sentence: the words of `a`, `x` and `b` joined by single spaces |
| Resources.StringEntry.constructor | src/extract_strings.py:534-536 | an entry holds the element's own text and its direct children |
| Resources.StringEntry.ResolvePlaceholders | src/extract_strings.py:537-541 | the loop rewrites every direct placeholder child in place; the entry's content becomes its text with each example substituted |
| Resources.StringEntry.Sentences | src/extract_strings.py:537-562 | the children are rewritten in place, and the lines are those the normaliser gives for the entry's original text and children |
| Resources.SplitLines | src/extract_strings.py:559-562 | the line loop gives exactly the non-empty stripped lines in order |
| Resources.ReadEntry | src/extract_strings.py:537-562 | one turn of the entry loop appends that entry's lines and rewrites that entry's children only |
| Resources.ReadEntries | src/extract_strings.py:534-562 | the entry loop gives every entry's lines in entry order, and resolves every entry's children |
| Resources.ReadStringsFile | src/extract_strings.py:528-563 | one file yields its locale and its entries' lines in order, each from the entry as it stood before the file was read |
| Corpus.ObserveAllSpec | src/extract_strings.py:495-497 | one file adds its app and locale to the sets of exactly its own sentences and leaves every other sentence unchanged |
| Corpus.ObserveReference | src/extract_strings.py:494-497 | folding one more file into the corpus of the earlier files gives the corpus of all of them |
| Corpus.GatherIsReference | src/extract_strings.py:493-497 | the loop of `main` yields exactly the sentences of all files, each with the apps and locales of the files it occurs in |
| Corpus.GatherOrderIndependent | src/extract_strings.py:493-497 | the corpus does not depend on the order in which files are read or on repeats |
| Corpus.GatherReplay | src/extract_strings.py:524-527 | reading the same files twice (two repositories cloned into one folder) changes nothing |
| Corpus.ObserveIdempotent | src/extract_strings.py:496-497 | recording a sentence again for the same app and locale changes nothing |
| Corpus.ObserveGrows | src/extract_strings.py:496-497 | recording only adds: no sentence disappears and no set shrinks |
| Corpus.Corpus.constructor | src/extract_strings.py:493 | the corpus starts empty |
| Corpus.Corpus.Add | src/extract_strings.py:495-497 | the inner loop records one file's sentences in the corpus |
| Corpus.BuildCorpus | src/extract_strings.py:493-497 | the loop of `main` fills the corpus with the fold over the file results, which `GatherIsReference` states directly |
| Corpus.Serialise | src/extract_strings.py:499-507 | the written object lists every sentence in ascending order, each with its apps and locales ascending and unique |
| Corpus.SerialisationUnique | src/extract_strings.py:499-507 | there is exactly one such listing of a corpus, whatever the set iteration order |
| Corpus.SerialisationDistinct | src/extract_strings.py:501-507 | the keys of the written object are distinct |
| Corpus.LoadSpec | scripts/extract-lang-texts.py:36-37 | loading an object with distinct keys gives exactly those keys, each with the sets of its lists |
| Corpus.LoadSerialisation | src/extract_strings.py:498-512 | loading the written corpus gives back the corpus |
| LangTexts.AppendToAll | scripts/extract-lang-texts.py:45-47 | the inner loop appends the sentence to the list of every requested base of the sentence, in any set order, and to nothing else |
| LangTexts.Findings | scripts/extract-lang-texts.py:40-47 | the requested codes are reduced to bases, and the loop builds, per requested base, the sentences in corpus order that have a locale of that base |
| LangTexts.MatchingSpec | scripts/extract-lang-texts.py:43-47 | a sentence is listed under a base exactly when one of its locales has that base |
| LangTexts.FindingsSpec | scripts/extract-lang-texts.py:40-47 | the keys are the requested bases that some sentence has; a sentence is in a key's list exactly when one of its locales has that base |
| LangTexts.SharedBaseOnce | scripts/extract-lang-texts.py:44 | a sentence with locales `pt` and `pt-rBR` is listed once under `pt` |
| LangTexts.MatchingNoDuplicates | scripts/extract-lang-texts.py:43-47 | with distinct corpus keys, no list holds a sentence twice |
| LangTexts.FindingsNoDuplicates | scripts/extract-lang-texts.py:43-47 | with distinct corpus keys, every list of the result is free of duplicates |
| LangTexts.LanguageFile | scripts/extract-lang-texts.py:54 | the file holds `sorted(sentences)`, an ascending permutation of the list, joined by newlines with none after the last |
| LangTexts.SortedListing | scripts/extract-lang-texts.py:54 | for a list without duplicates, the sorted list is the strictly ascending listing of its sentences, of the same length |
| LangTexts.LanguageFileLines | scripts/extract-lang-texts.py:54 | splitting the file at newlines gives back the sorted sentences |
| LangWords.SentenceWords | scripts/extract_words.py:29 | the comprehension gives exactly `split()`'s words, each non-empty and without whitespace |
| LangWords.AddToAll | scripts/extract_words.py:31-32 | the inner loop adds the words to the set of every base of the sentence, in any set order, creating missing keys |
| LangWords.CollectWords | scripts/extract_words.py:26-32 | the loop builds, per base language, the words of its sentences |
| LangWords.AllBasesSpec | scripts/extract_words.py:30-32 | a base is a key exactly when some sentence has a locale of that base |
| LangWords.VocabularySpec | scripts/extract_words.py:28-32 | a word is in a base's set exactly when it is a word of a sentence with a locale of that base |
| LangWords.LangWordsSpec | scripts/extract_words.py:28-32 | a base gets an entry exactly when some sentence has a locale of that base, and a word is in its set exactly when it is a word of such a sentence |
| LangWords.VocabularyWords | scripts/extract_words.py:29 | every collected word is non-empty and free of whitespace |
| LangWords.LangWordsOrderFree | scripts/extract_words.py:28-32 | the result depends only on which entries the corpus holds, not on their order or on repeats |
| LangWords.BlankSentenceKey | scripts/extract_words.py:28-32 | an all-whitespace sentence still gives its locale's base an entry, with no words |
| LangWords.WordFile | scripts/extract_words.py:38 | the file holds the words in strictly ascending order, each followed by a newline |
| LangWords.WordFileLines | scripts/extract_words.py:38 | splitting a word file at newlines gives the sorted words and one empty piece after the final newline |

## Left out

- Resources.ReadStringsFile: a malformed file makes `ET.parse` raise `ParseError` (src/extract_strings.py:532). The source does not catch it, so the whole run stops. The model takes an already parsed file.
- Resources.ReadStringsFile: the order of the entries is given by the caller. In the source, every `.//string` comes before every `.//item`, each in document order (src/extract_strings.py:534-536). The XPath search is not modelled.
- Resources.StringEntry.ResolvePlaceholders: an entry nested inside another entry is not modelled. Children are values, so the placeholder rewrite of an inner entry cannot show in the outer entry's `itertext()` the way it does through the shared object in the source.
- Resources.Element: XML parsing, namespaces and entity decoding are not modelled. An element is its tag (with the namespace written out), attributes, text, children and tail, with an absent text or tail taken as empty.
- Corpus.LoadSerialisation: lone surrogates are not modelled as an error. An emoji written as the escape pair `\uD83D\uDE00` decodes to two lone surrogates (see `Normalise.UnescapeSurrogate`). `json.dump(..., ensure_ascii=False)` into a UTF-8 file then raises `UnicodeEncodeError` and leaves a truncated corpus file (src/extract_strings.py:498-512). The model carries every code point through, and the round trip is stated for that idealised writer.
- Corpus.Serialise: the JSON text itself (indentation, escaping, `ensure_ascii=False`) is not modelled. The written object is a sequence of entries, and `json.load` is `Corpus.Load`.
- Corpus.BuildCorpus: `app` is the configured repository name paired with each file. The list of repositories, `download_sources` and `git` are not modelled (src/extract_strings.py:515-520, 577-579): they clone repositories over the network.
- Resources.ReadStringsFile: finding the files with `glob("**/strings.xml")` is not modelled (src/extract_strings.py:527). The path is a parameter.
- LangTexts.Findings: argument parsing, reading the corpus file, writing to the temporary directory and the `print` of each path are not modelled (scripts/extract-lang-texts.py:28-37, 49-55). The order in which the files are written does not affect their contents.
- LangWords.CollectWords: reading the corpus file, creating the output directory and writing the files are not modelled (scripts/extract_words.py:23, 34-38).
- Normalise.MatchAtIsRegexMatch: only the two patterns the source uses are modelled, not a general regular-expression engine. Backtracking is replaced by a scanner proved equal to the declarative reading of each pattern.
- Text.IsSpace: the whitespace table covers the code points Python's `str.isspace` accepts. It is written as a fixed list rather than derived from the Unicode database.
