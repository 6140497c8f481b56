# Fish-label extraction from invoice text, in Dafny

This project models the text pipeline of the label printer in `app.py`. The
pipeline reads the text of a supplier invoice for fish and builds one label
record per lot marker. A record has the commercial name (`nome`), the
scientific name (`sci`), the lot code (`lotto`), the FAO catch zone (`fao`)
and the production method (`metodo`, farmed or caught).

The model has three modules:

- `Text` (`text.dfy`) holds the Python string operations the pipeline uses:
  `str.isspace`, `upper`, `strip`, `in`, `split(w)[0]`, `split('\n')`, and
  `re.split(p, s)[0]` for a fixed pattern. Each pattern is a small scanner
  over `seq<char>`. Each operation other than the character classes and the
  plain definitions `Join` and `CountFrom` has a contract that relates its
  result to its input;
  for instance, `CutBefore` ends at the first occurrence of the word, and
  `Strip` gives the slice that whitespace alone surrounds.
- `ProductName` (`product_name.dfy`) models `pulisci_nome_prodotto`. It
  cleans a name fragment: upper-case and trim, cut at the first size grade,
  cut at the first whole-word area number 27 or 37, cut at each stop word in
  list order, drop trailing punctuation, trim. `Cleaned` is the
  specification function. `CleanProductName` is the method that rebinds the
  text step by step, as the source does. Its stop-word loop is
  `CutAtEachWord`.
- `Invoice` (`invoice.dfy`) models the string part of `estrai_tutto`. Its
  input is `testo`, the page texts already joined and upper-cased.
  `SectionsFrom` is `re.split` on the lot marker `LOTTO\s*N?\.?\s*`.
  `SplitsAs` describes that split independently: each marker is the next
  "LOTTO" after the previous marker, and each section is the text between
  two markers. The field extractors are functions. The outer loop over
  section pairs is the method `ExtractRecords`, which `ExtractAll` calls. The inner loop that keeps
  overwriting the raw name is the method `PickRawName`.

Some behaviour of `app.py` is easy to misread. The model keeps it as the
code has it:

- Stop words are cut as plain substrings, not as whole words
  (app.py:29-31). So `AMI` also cuts inside a longer word such as
  `SALAMI`.
- The scientific name is the leftmost `(...)` group that closes on its own
  line (app.py:86-87). It is not the last such group.
- Each lot marker gives exactly one record (app.py:81-113). Records are
  never merged or de-duplicated. The name is not checked against any list
  of known fish.
- Cleaning a cleaned name again can shorten it further
  (`CleaningNotIdempotent`).
- The comment at `app.py:98` says the lot code stops at a newline. But the
  lot pattern's class holds `\s`, so the lot code can run on into the next
  line (`LotCodeSpansLines`).

## Model

| member | source | states |
|---|---|---|
| Text.IsSpace | app.py:14 | the characters Python's `str.isspace` accepts, which are what `strip()` removes and what `\s` matches at app.py:78 and app.py:99-104: the ASCII controls 9-13 and 28-31, the space, and the Unicode spaces U+0085, U+00A0, U+1680, U+2000-U+200A, U+2028, U+2029, U+202F, U+205F and U+3000 |
| Text.UpperChar | app.py:14 | a lower-case letter becomes the capital 32 code points below it; any other character is kept; no lower-case letter is left |
| Text.Upper | app.py:14 | upper-casing keeps the length and leaves no lower-case letter; each lower-case letter becomes its capital in place and every other character is kept |
| Text.Strip | app.py:14 | the result is the slice of the input that remains once all leading and trailing whitespace is removed; it starts and ends with non-whitespace, or is empty |
| Text.BeforeFirst | app.py:18 | `re.split(p, s)[0]`: a prefix of the text with no match of the pattern before its end; it is the whole text or ends where the leftmost match starts |
| Text.Leftmost | app.py:86 | where `re.search` finds a pattern (here and at app.py:103): the first position at or after the start where it matches, with no match before it; none exactly when it matches nowhere |
| Text.Contains | app.py:30 | `w in s` holds exactly when `w` occurs at some position of `s` |
| Text.CutBefore | app.py:31 | `s.split(w)[0]`: a prefix of `s` in which `w` does not occur; it ends where the first occurrence starts, or is all of `s` when `w` does not occur |
| Text.Lines | app.py:90 | `split('\n')`: at least one line, none holds a newline, and joining them with newlines gives the text back |
| Text.LinesOfJoin | app.py:90 | splitting newline-free lines joined with newlines gives back those lines |
| ProductName.SizeGradeAt | app.py:18 | a size grade at `k`: digits, then `-` or `/`, then a digit |
| ProductName.AreaNumberAt | app.py:21 | an area number at `k`: "27" or "37" with no word character on either side |
| ProductName.Cleaned | app.py:9-35 | the cleaning as one function: "PESCE" for the empty text; otherwise upper-case, strip, cut at the first size grade, cut at the first area number, cut at each stop word, drop trailing punctuation, strip |
| ProductName.StopWordsNonEmpty | app.py:24-28 | no stop word is empty, so `split` on each one is defined |
| ProductName.EndAnchor | app.py:34 | the first position where `$` matches: just before the final newline when the text ends with one, else the end of the text |
| ProductName.DropTrailingPunct | app.py:34 | the whole run of `. , : - _ /` that ends the text, or ends it before a final newline, is removed and nothing else is |
| ProductName.CutAtStopWords | app.py:29-31 | cutting at each stop word in turn leaves a prefix of the text in which none of the words occurs; it is the whole text, or it ends where one of the words starts in the text |
| ProductName.CutAtEachWord | app.py:29-31 | the loop over the stop words computes the stop-word cut |
| ProductName.CleanProductName | app.py:9-35 | the step-by-step cleaning computes the cleaned name |
| ProductName.CleanedIsInfix | app.py:14-35 | a non-empty fragment's cleaned name is a contiguous piece of the fragment upper-cased and stripped |
| ProductName.CleanedHasNoSizeGrade | app.py:18 | no `digits [-/] digit` size grade occurs in a cleaned name |
| ProductName.CleanedHasNoStopWord | app.py:24-31 | no stop word occurs in a cleaned name as a substring, not even inside a longer word |
| ProductName.CleanedBlank | app.py:11-14 | a non-empty fragment of whitespace only cleans to the empty text, not to "PESCE" |
| ProductName.CleanedSentinel | app.py:11-12 | the empty fragment cleans to "PESCE"; any other fragment that cleans to "PESCE" contains "PESCE" once upper-cased |
| ProductName.CutAtStopWordsNoneOccurs | app.py:29-31 | a text in which no stop word occurs passes the stop-word loop unchanged |
| ProductName.CleaningNotIdempotent | app.py:21-31 | "ORATA 37ZONA" cleans to "ORATA 37", and that cleans again to "ORATA" |
| Invoice.MarkerEnd | app.py:78 | the lot marker starting at a "LOTTO" extends over whitespace, an optional N and an optional dot; the text after it does not start with whitespace |
| Invoice.MarkerEndGreedy | app.py:78 | the marker has a greedy match of `LOTTO\s*N?\.?\s*` (all the whitespace, then the N exactly when there is one, then the dot exactly when there is one, then all the whitespace), and every such match ends where `MarkerEnd` says |
| Invoice.GreedyMarkerUnique | app.py:78 | two greedy matches of the marker at the same "LOTTO" agree in every part |
| Invoice.SectionsFrom | app.py:78 | the split gives at least one section; no section holds "LOTTO"; each section after the first is empty or starts with non-whitespace |
| Invoice.Sections | app.py:78 | the split of the whole text |
| Invoice.MarkersFrom | app.py:78 | the marker spans of the split; each lies inside the text and covers at least "LOTTO" |
| Invoice.SectionsSplit | app.py:78 | the sections and marker spans are the split `SplitsAs` describes: each marker is the leftmost "LOTTO" after the previous marker's end, running to its greedy end; each section is the text between two markers; no "LOTTO" follows the last marker |
| Invoice.NextMarkerUnique | app.py:78 | there is only one next marker after a position |
| Invoice.SplitsAsUnique | app.py:78 | a text has only one such split, so the description fixes the sections and the markers |
| Invoice.SplitsAsRejoin | app.py:78 | putting the marker texts back between the sections of a split gives the split text |
| Invoice.SectionsRejoin | app.py:78 | re-joining the sections of the whole text with its markers gives back the text |
| Invoice.NoLotInsideMarker | app.py:78 | no other "LOTTO" starts inside a lot marker |
| Invoice.SectionCount | app.py:78 | the split gives one section more than there are occurrences of "LOTTO" |
| Invoice.ParenAt | app.py:86 | `\((.*?)\)` matches at `k`: a `(` there, and a `)` later on the same line |
| Invoice.CloseParen | app.py:86 | finds the nearest `)` with no newline before it, or reports that the line has none |
| Invoice.SciName | app.py:86-87 | the text inside the leftmost `(` that is closed on its own line, up to the nearest `)`; "N.D." when there is no such group |
| Invoice.SciNameOnOneLine | app.py:86-87 | the scientific name never holds a newline or a `)` |
| Invoice.LastLineWith | app.py:92-93 | the last line before the bound that contains the scientific name, with no later line containing it; none when no line contains it |
| Invoice.NameFragment | app.py:94-96 | the fragment taken from a matching line: its text before `(`, stripped, or the previous line stripped when that is under 3 characters and there is a previous line |
| Invoice.RawNameUpTo | app.py:91-96 | the raw name after the lines before the bound: from the last of them holding the scientific name, or "PESCE" |
| Invoice.RawNameLastLine | app.py:92-96 | the last line that contains the scientific name gives the raw name: its text before `(`, stripped, or the previous line stripped when that is under 3 characters |
| Invoice.RawNameNoLine | app.py:91-93 | with no line containing the scientific name, the raw name is "PESCE" |
| Invoice.PickRawName | app.py:90-96 | the loop that overwrites the raw name on each matching line ends with the fragment of the last matching line |
| Invoice.IsLotChar | app.py:99 | the class `[A-Z0-9\s/\\-]`: a capital letter, a digit, whitespace, `/`, a backslash or `-` |
| Invoice.LotCode | app.py:99-100 | "N.D." exactly when the section is empty or starts outside `[A-Z0-9\s/\\-]`; otherwise the whole leading run of that class, stripped, which then holds only class characters; empty only when the section starts with whitespace |
| Invoice.LotCodeSpansLines | app.py:98-100 | a lot code runs on into the next line: "A1\nB2(" gives "A1\nB2" |
| Invoice.FaoAt | app.py:103 | `FAO\s*([\d\.]+)` matches at `k`: "FAO" there, then any whitespace, then a digit or a dot |
| Invoice.FaoZone | app.py:103-104 | "37.2.1" when no "FAO" has a digit or dot behind optional spaces; otherwise the whole run of digits and dots after the first "FAO" that has one |
| Invoice.ProductionMethod | app.py:105 | "ALLEVATO" exactly when the pre-section contains "ALLEVATO", else "PESCATO" |
| Invoice.ProductOf | app.py:82-113 | the record of one section pair: cleaned raw name, scientific name and FAO zone and method from the first section, lot code from the second |
| Invoice.RecordsExtend | app.py:81-113 | appending the record of pair `i` to the records of the pairs before it leaves every record paired with its own two sections |
| Invoice.ExtractRecords | app.py:81-113 | the loop over the section pairs gives one record per pair, record `k` built from sections `k` and `k + 1` |
| Invoice.LotsPresent | app.py:99-100 | when no section after the first starts with whitespace, every record has a non-empty lot |
| Invoice.ExtractProduct | app.py:82-113 | one turn of the loop builds the record of its section pair |
| Invoice.LotNonEmpty | app.py:99-100 | a section that does not start with whitespace always gives a non-empty lot code, "N.D." included |
| Invoice.RecordNameClean | app.py:108 | the name on every record has no size grade and no stop word |
| Invoice.ExtractAll | app.py:77-114 | as many records as occurrences of "LOTTO"; none exactly when "LOTTO" does not occur; record i comes from sections i and i+1, in marker order; every lot is non-empty |

## Left out

- Reading the PDF with `PdfReader` and joining the upper-cased page texts (app.py:74-75) use a foreign library. `ExtractAll` takes the joined text `testo` as its input instead.
- `crea_pdf_solido` (app.py:37-71) draws the label with FPDF. It is layout and a foreign library, including the fixed arrival date.
- The Streamlit page, uploader, expanders and download buttons (app.py:1-7, app.py:117-140) are user interface.
- General regular expressions are not modelled. Each pattern the pipeline uses is its own scanner.
- A `None` argument to `pulisci_nome_prodotto` is not modelled. Its only caller passes a string.
- Text.Upper: upper-cases ASCII letters only; Python's `upper()` also maps other letters, and the input is taken to be ASCII.
- `\d` and the word characters of `\b` are ASCII only. Python's `re` on `str` also accepts other Unicode digits and letters. Whitespace follows `str.isspace`, Unicode spaces included.
- ProductName.CleanedSentinel: this is weaker than "PESCE exactly when the fragment is empty", because that claim is false. The fragment "pesce" also cleans to "PESCE". The lemma proves both directions that do hold.
- ProductName.CleaningNotIdempotent: cleaning twice is not the same as cleaning once, so no idempotence lemma is stated. The lemma gives an input where the two differ.
- Records are the datatype `Product`, not dictionaries. The field names are kept.
