# Zona Civico Bologna — address-to-zone lookup, modelled in Dafny

The program answers one question: given a Bologna street (and possibly a house
number), which zone and postcode (CAP) does the address belong to? It exists in
three versions, each a small set of string and sequence functions under a
Streamlit page. Each version is modelled here as its own module.

- `zona_civico_app_web_v2.py` (module `ZonaWebV2`, file `web_v2.dfy`):
  - Street names are normalised word by word (`normalizza_nome`).
  - A query matches a row when the two word sets are equal or one contains the
    other (`nomi_simili`).
  - The house number is the leading digit run (`estrai_numero_civico`).
  - Every `dal X al Y` interval of a matching row that covers the number, with
    the same parity as its start, gives one result line
    (`trova_zona_per_civico`).
  - `trova_zone_per_via` lists the matching rows, street names in title case,
    without duplicates.
- `zona_civico_app_web.py` (module `ZonaWeb`, file `web.dfy`):
  - The stripped, upper-cased query must be a substring of the row's stripped,
    upper-cased name or toponym.
  - The house number is read by `normalizza_civico`.
  - The interval and parity test is the same as in v2.
- `zona_civico_app.py` (module `ZonaApp`, file `app.dfy`):
  - Street names are normalised to their sorted clean words
    (`normalizza_testo`).
  - The house number is searched for anywhere in a single query
    (`estrai_civico`) and removed from it (`main`, lines 58-59).
  - Rows are kept when their normalised street contains the normalised query
    (`filtra_per_via`).
  - The first row whose `dal`/`al` range and `solo_pari`/`solo_dispari` flags
    admit the number is the answer (`cerca_civico`).

Shared modules:

- `Text` (`text.dfy`):
  - Characters, case mapping (`lower`, `upper`, `title`) and `strip`.
  - Digit, space and word runs.
  - Character deletion (`re.sub` with a negated class).
  - Substring tests.
  - The leading-digits reading of a house number (`re.match(r"(\d+)")`
    followed by `int`).
- `Seqs` (`seqs.dfy`): filtering and `drop_duplicates`.
- `Words` (`words.dfy`): `str.split()` and `" ".join`.
- `Sorting` (`sorting.dfy`): Python's string order and `sorted`.
- `Intervals` (`intervals.dfy`):
  - `re.findall(r'dal\s+(\d+)\s+al\s+(\d+)', ..., re.IGNORECASE)` as a
    left-to-right scanner.
  - The `dal {inizio} al {fine}` text printed back.
  - The coverage test.
- `Sheet` (`records.dfy`): the rows of the web pages' sheet and the
  (row, interval) loop both web pages share, generic in the street test.

Assumptions about the transliteration:

- `unidecode` is a parameter `translit: string -> string`.
- Lemmas that need it assume only that it leaves ASCII text unchanged
  (`Text.FixesAscii`).
- Idempotence assumes less: that it leaves `[a-z0-9 ]` text unchanged
  (`ZonaApp.FixesTextChars`).

Behaviour of the code that a reader might not expect:

- The street matchers have no guard against an empty query.
  - A whitespace-only query matches every row in v2 and in the web page.
  - A query without clean words keeps every row in the desktop page.
  - Only the pages' input checks reject the literal empty string.
- In both web pages an unreadable house number is not an empty result.
  - `civico % 2` raises `TypeError` as soon as a matching row has an interval.
  - This is modelled as a `Failure`.
- All covering (row, interval) pairs are reported, not only the first.
- Parity comes from the interval's start, not from a flag.

## Model

| member | source | states |
|---|---|---|
| Text.LeadingNumber | zona_civico_app_web_v2.py:28-30 | None exactly when the text is empty or its first character is not a digit; otherwise the value of the maximal digit run at the start |
| ZonaWebV2.HouseNumberExamples | zona_civico_app_web_v2.py:28-30 | "147/A" reads 147, "12B" reads 12, "abc" and " 12" read nothing |
| ZonaWeb.LeadingNumberIgnoresSuffix | zona_civico_app_web.py:16-18 | digits followed by anything that does not start with a digit read as the value of those digits: the suffix is ignored |
| Text.StripTrims | zona_civico_app_web.py:22 | `strip` removes exactly a whitespace prefix and a whitespace suffix, and the result neither starts nor ends with whitespace |
| Intervals.MatchAtSound | zona_civico_app_web_v2.py:44 | a match at an index reads `dal`, whitespace, digits, whitespace, `al`, whitespace, digits (letters in any case), and its last digit run cannot be extended |
| Intervals.MatchAtComplete | zona_civico_app_web_v2.py:44 | every way of reading the pattern at an index is found there, with the same pieces; so no match at an index means the pattern cannot be read there |
| Intervals.ScanSound | zona_civico_app_web_v2.py:44 | every reported match is the engine's match at its own start, at or after the scan's start |
| Intervals.ScanOrdered | zona_civico_app_web_v2.py:44 | reported matches come left to right and never overlap |
| Intervals.ScanComplete | zona_civico_app_web_v2.py:44 | every index where the pattern can be read lies inside some reported match |
| Intervals.FormatThenFind | zona_civico_app_web.py:42 | the printed "Intervallo coperto" text `dal {inizio} al {fine}`, read with the cell pattern, gives back exactly that one interval |
| Sheet.RowCovers | zona_civico_app_web_v2.py:45-48 | the pairs of a row are exactly its intervals that cover the number with the start's parity |
| Sheet.RowCoversOne | zona_civico_app_web_v2.py:45-48 | a cell with one interval gives one pair if that interval covers the number, none otherwise |
| Sheet.RowCoversAppend | zona_civico_app_web_v2.py:45-48 | the intervals of a cell are visited in order with no cut-off: the pairs for two runs of intervals are those of each run in turn |
| Sheet.Covered | zona_civico_app_web_v2.py:45-48 | the loop fails exactly when there is no number and some matching row has an interval; without a number and without intervals it reports nothing |
| Sheet.CoveredSound | zona_civico_app_web_v2.py:45-56 | every reported pair is a matching row with one of its intervals that covers the number |
| Sheet.CoveredComplete | zona_civico_app_web_v2.py:45-56 | every covering interval of every matching row is reported |
| Sheet.CoveredAppend | zona_civico_app_web_v2.py:38-56 | rows are visited in table order with no cut-off: the pairs of a concatenation are those of each part in turn |
| Sheet.CoveredOneRow | zona_civico_app_web_v2.py:45-48 | within one row, pairs follow the order of the intervals in its cell |
| Sheet.ParseAllAppend | zona_civico_app_web_v2.py:38-44 | parsing a concatenation of tables parses each part in turn |
| Sheet.ParsedFilter | zona_civico_app_web_v2.py:38-44 | the parsed matching rows are the parses of exactly the rows that pass the street test |
| Sheet.LookupFails | zona_civico_app_web_v2.py:34-48 | the lookup fails exactly when there is no number and a row passing the street test has an interval |
| Sheet.LookupPairs | zona_civico_app_web_v2.py:38-56 | with a number, a pair is reported exactly when its row passes the street test and its interval is in the row's cell and covers the number |
| Sheet.LookupAppend | zona_civico_app_web_v2.py:38-56 | the pairs for a concatenation of tables are those of the first table followed by those of the second |
| Sheet.LookupOneRow | zona_civico_app_web_v2.py:43-48 | a one-row table gives the row's covering intervals if the row passes the street test, nothing otherwise |
| Sheet.ReportAppend | zona_civico_app_web_v2.py:49-56 | the lines for a concatenation of pairs are those of each part in turn |
| Sheet.LookupReport | zona_civico_app_web_v2.py:38-56 | a line is in the output exactly when some matching row and covering interval of its cell produce it |
| Text.Title | zona_civico_app_web_v2.py:69 | `title()` changes only letter case, and a letter comes out upper-case exactly when it does not follow another letter |
| Text.TitleIgnoresCase | zona_civico_app_web_v2.py:69 | names that differ only in letter case are title-cased to the same text |
| ZonaWebV2.NormalizeName | zona_civico_app_web_v2.py:17-21 | the result has no leading, trailing or doubled whitespace, and its words are exactly the whitespace-split words of the lower-cased, transliterated input |
| ZonaWebV2.TokenSet | zona_civico_app_web_v2.py:24-25 | the token set holds exactly the words of the lower-cased, transliterated name |
| ZonaWebV2.SimilarNamesWords | zona_civico_app_web_v2.py:23-26 | two names are similar exactly when every word of one is a word of the other, in one direction or the other |
| ZonaWebV2.SimilarNamesSymmetric | zona_civico_app_web_v2.py:23-26 | similarity does not depend on the order of the two names |
| ZonaWebV2.SimilarNamesReflexive | zona_civico_app_web_v2.py:23-26 | every name is similar to itself |
| ZonaWebV2.BlankQueryIsSimilarToAll | zona_civico_app_web_v2.py:24-26 | a whitespace-only query has no words, so it is similar to every name: there is no guard |
| ZonaWebV2.FindZonesForCivicoFails | zona_civico_app_web_v2.py:34-48 | the lookup raises exactly when the house number has no leading digits and a row matching the street has an interval |
| ZonaWebV2.FindZonesForCivicoHits | zona_civico_app_web_v2.py:38-56 | with a number, a line is in the result exactly when it is made from a matching row and one of its intervals covering the number with the start's parity |
| ZonaWebV2.FindZonesForCivicoAppend | zona_civico_app_web_v2.py:38-56 | lines come in table order, all of them: the result for a concatenation of tables is the two results in turn |
| ZonaWebV2.FindZonesForCivicoOneRow | zona_civico_app_web_v2.py:44-56 | a matching row yields one line per covering interval, in the order of its cell |
| ZonaWebV2.FindZonesForCivicoCovers | zona_civico_app_web_v2.py:48-54 | with a readable house number the lookup succeeds, and every line echoes the typed number and its interval text reads back as one interval that covers the number with the same parity as its start |
| ZonaWebV2.StreetLinesMembers | zona_civico_app_web_v2.py:64-75 | a street line is listed exactly when some row passing the street test produces it |
| ZonaWebV2.FindZonesForStreet | zona_civico_app_web_v2.py:60-75 | the street lookup has no duplicate lines |
| ZonaWebV2.FindZonesForStreetMembers | zona_civico_app_web_v2.py:60-75 | a line is listed exactly when some row whose name or toponym is similar to the query produces it; no house number is involved |
| ZonaWebV2.FindZonesForStreetOrder | zona_civico_app_web_v2.py:69-75 | listed lines, whose street names are already title-cased, keep the order of their first occurrence among the matching rows |
| ZonaWebV2.FindZonesForStreetMergesCase | zona_civico_app_web_v2.py:69-75 | names are title-cased before duplicates are dropped: a matching row and a copy whose name differs only in case give one line |
| ZonaWebV2.CivicoHitListedForStreet | zona_civico_app_web_v2.py:33-75 | with a readable house number the lookup succeeds, and every line of it comes from a row that the street lookup lists, with the same street name, zone, postcode and municipality |
| ZonaWeb.StreetMatchesIgnoresCase | zona_civico_app_web.py:22-31 | queries that differ only in letter case match the same rows |
| ZonaWeb.StreetMatchesLower | zona_civico_app_web.py:22-31 | a lower-cased query matches exactly the rows the query matches |
| ZonaWeb.BlankQueryMatchesAll | zona_civico_app_web.py:22-31 | a query that strips to nothing matches every row |
| ZonaWeb.LongerQueryMatchesNothing | zona_civico_app_web.py:31 | the match is one-way: a query longer than both the name and the toponym matches neither |
| ZonaWeb.StreetMatchesSubquery | zona_civico_app_web.py:27-31 | a query whose stripped, upper-cased text occurs within that of a matching query matches too |
| ZonaWeb.FindZonesForCivicoFails | zona_civico_app_web.py:22-36 | the lookup raises exactly when the house number does not start with a digit and a matching row has an interval |
| ZonaWeb.FindZonesForCivicoHits | zona_civico_app_web.py:26-43 | with a number, a line is in the result exactly when it is made from a matching row and one of its intervals covering the number with the start's parity |
| ZonaWeb.FindZonesForCivicoAppend | zona_civico_app_web.py:26-43 | all lines are returned in table order, with no first-wins cut-off |
| ZonaWeb.FindZonesForCivicoOneRow | zona_civico_app_web.py:32-43 | a matching row yields one line per covering interval, in the order of its cell |
| ZonaWeb.FindZonesForCivicoCovers | zona_civico_app_web.py:36-42 | with a readable house number the lookup succeeds, and every line echoes the typed number and its interval text reads back as one interval that covers the number with the same parity as its start |
| ZonaApp.CleanWordsChars | zona_civico_app.py:15-18 | the words that get sorted are non-empty and made of `[a-z0-9]` |
| ZonaApp.NormalizeText | zona_civico_app.py:14-19 | the result has only `a-z`, `0-9` and single spaces between words, with no leading or trailing space |
| ZonaApp.NormalizeTextWords | zona_civico_app.py:18-19 | the words of the result are in sorted order and are a permutation of the clean words of the input |
| ZonaApp.NormalizeTextWordOrder | zona_civico_app.py:18-19 | inputs whose clean words are permutations of each other normalise to the same text |
| ZonaApp.NormalizeTextPermutedWords | zona_civico_app.py:18-19 | permuting the space-separated words of a clean input does not change the result |
| ZonaApp.NormalizeTextIdempotent | zona_civico_app.py:14-19 | normalising twice is normalising once, when transliteration leaves `[a-z0-9 ]` unchanged |
| ZonaApp.NormalizeTextDeletes | zona_civico_app.py:17-18 | a character outside `[a-z0-9 ]` (a tab, an apostrophe, a hyphen) is deleted, so it joins the words on its two sides rather than separating them |
| ZonaApp.NormalizeTextLength | zona_civico_app.py:18-19 | the result's length is the clean words' total length plus one space between each two |
| ZonaApp.ExtractCivico | zona_civico_app.py:21-23 | no match exactly when the text has no digit; a match is never empty |
| ZonaApp.ExtractCivicoSpec | zona_civico_app.py:21-23 | the match is a piece of the input that starts at its first digit and has the pattern's shape: digits, an optional letter, an optional `/` and digits |
| ZonaApp.CivicoEndShape | zona_civico_app.py:22 | the stretch read at a digit has the shape of `(\d+[a-zA-Z]?)(/\d+)?` |
| ZonaApp.ExtractCivicoExamples | zona_civico_app.py:21-23 | "147/A" gives "147" and "12B" gives "12B" |
| ZonaApp.ExtractCivicoSlashExamples | zona_civico_app.py:21-23 | "137/2" gives "137/2", and "Via Roma" gives nothing |
| ZonaApp.BeforeSlash | zona_civico_app.py:34 | the text before the first `/`: a prefix without `/`, followed by a `/` or by the end |
| ZonaApp.CivicoNumber | zona_civico_app.py:34-36 | the number is unreadable exactly when no digit precedes the first `/` |
| ZonaApp.CivicoNumberExamples | zona_civico_app.py:34-38 | "12B" reads 12; "/5" has nothing before the slash and reads nothing |
| ZonaApp.CivicoNumberSlashExample | zona_civico_app.py:34-36 | "137/2" reads 137: the part after the slash is ignored |
| ZonaApp.ParsersDisagree | zona_civico_app.py:34-36 | on "1a2" this reading gives 12 where the web pages' leading-digits reading gives 1 |
| ZonaApp.ParsersAgree | zona_civico_app.py:34-36 | on every token `estrai_civico` can return, this reading is defined and equals the leading-digits reading |
| ZonaApp.ExtractedCivicoReadable | zona_civico_app.py:58-64 | a house number found in the query can always be read by `cerca_civico` |
| ZonaApp.ParityAdmittedCases | zona_civico_app.py:43-46 | only `solo_pari` admits the even numbers, only `solo_dispari` the odd ones, and neither flag or both admit every number |
| ZonaApp.FirstAdmitted | zona_civico_app.py:40-47 | the index found is that of a row whose range and flags admit the number, and no earlier row admits it; none is found only when no row does |
| ZonaApp.CercaCivico | zona_civico_app.py:31-48 | no house number gives the rows back unchanged; an unreadable one gives nothing; otherwise at most one row, the first admitting one, and nothing exactly when no row admits the number |
| ZonaApp.FilterByStreetMembers | zona_civico_app.py:25-29 | a row is kept exactly when its normalised street contains the normalised query |
| ZonaApp.FilterByStreetAppend | zona_civico_app.py:28 | the filter keeps table order: filtering a concatenation filters each part |
| ZonaApp.BlankStreetQueryKeepsAll | zona_civico_app.py:26-28 | a query without clean words keeps every row |
| ZonaApp.FilterByStreetWordOrder | zona_civico_app.py:26-28 | the order of the query's words does not change which rows are kept |
| ZonaApp.FilterByStreetOwnName | zona_civico_app.py:26-28 | a query equal to a row's street keeps that row |
| ZonaApp.RemoveAll | zona_civico_app.py:59 | `replace(civico, "")` never lengthens the text |
| ZonaApp.RemoveAllAbsent | zona_civico_app.py:59 | text without an occurrence of the house number is unchanged |
| ZonaApp.RemoveAllShrinks | zona_civico_app.py:59 | text with an occurrence loses at least the house number's length |
| ZonaApp.RemoveAllSelf | zona_civico_app.py:59 | removing the house number from itself leaves nothing |
| ZonaApp.RemoveAllSkip | zona_civico_app.py:59 | a prefix none of whose characters can start the house number is kept as it is |
| ZonaApp.ResolveCases | zona_civico_app.py:60-70 | "no street" exactly when no row's street contains the query's street; without a house number every street row is shown as found; a found house number is one street row; otherwise all street rows are shown |
| ZonaApp.ExtractCivicoSlashLetter | zona_civico_app.py:22 | on street text, digits, `/`, a letter, the pattern as written reads only the digits |
| ZonaApp.SplitQueryAsWrittenSlashLetter | zona_civico_app.py:58-59 | on such a query, lines 58-59 leave the `/` and the letter in the street text |
| ZonaApp.NormalizeTextSlashLetterLonger | zona_civico_app.py:17-19 | a `/` and a letter left after street text ending in a space make its normalised form strictly longer |
| ZonaApp.SlashLetterLosesStreet | zona_civico_app.py:57-62 | as written, such a query reports "no street" against a row whose street normalises like the typed street text |
| ZonaApp.OwnStreetSlashLetter | zona_civico_app.py:57-62 | a row's own ASCII street without digits, typed with digits, `/` and a letter: as written the street is not found, corrected the house number is read whole and the street is found |
| ZonaApp.MazziniQuery | zona_civico_app.py:55-62 | the page's own example "Via Mazzini 147/A": as written, street text "Via Mazzini /A", number "147", and no street found; corrected, street text "Via Mazzini ", number "147/A", and the street found |
| ZonaApp.ExtractCivicoFixed | zona_civico_app.py:21-23 | corrected pattern: no match exactly when the text has no digit, and a match starts with a digit |
| ZonaApp.ExtractCivicoFixedExtends | zona_civico_app.py:22 | the corrected pattern starts where the original does and reads the same, or that plus `/` and a letter |
| ZonaApp.StreetThenCivico | zona_civico_app.py:58-59 | corrected: street text without digits followed by a house number the pattern reads whole splits into exactly those two parts |
| ZonaApp.SplitQuerySlashLetter | zona_civico_app.py:58-59 | corrected: street text, digits, `/`, a letter splits into the street text as typed and the whole house number |
| ZonaApp.SlashLetterFindsStreet | zona_civico_app.py:57-70 | corrected: such a query never reports "no street" when some row's street contains the typed street text |

## Left out

- The Streamlit pages are not modelled: page setup, titles, tabs, text inputs, buttons and messages. This includes the input checks that reject an empty street or house number (zona_civico_app_web_v2.py:91 and :106, zona_civico_app_web.py:62). Each lookup is modelled for every input. The desktop page's `if query:` is modelled as the `Idle` outcome.
- `carica_dati` is not modelled: reading the Excel sheet, the Streamlit cache and column renaming are file I/O. The sheet is a sequence of rows whose cells are the text `str(...)` makes of them.
- The transliteration (`unidecode`) is a foreign library, so it is a parameter. Only the two assumptions described above are made about it.
- Letter case, `\d` and whitespace are modelled for ASCII only: upper- and lower-case are ASCII letters, and whitespace is the characters `str.isspace` accepts below 128. Full Unicode case mapping and digit classes are not modelled.
- `.title()` on the reported street (zona_civico_app_web_v2.py:50 and :69, zona_civico_app_web.py:38) is modelled on the ASCII alphabet (`Text.Title`). A character outside ASCII counts as a word boundary, while Python treats an accented letter as part of its word.
- pandas mechanics are modelled by sequences: `iterrows`, `DataFrame` construction, NaN becoming the text "nan", and `drop_duplicates` (which keeps the first occurrence of each line). In the desktop page a missing `dal` or `al` cell is `None`, and every comparison with it is false. A non-numeric `dal`/`al` cell is not modelled.
- The desktop page's `filtra_per_via` adds a column to the cached frame in place (zona_civico_app.py:27). Only the rows it returns are modelled.
- `via_norm` in v2 (zona_civico_app_web_v2.py:35 and :61) is computed and never used.
- `str.contains` is a regular-expression search (zona_civico_app.py:28). The normalised query holds only `[a-z0-9 ]`, so it is modelled as a plain substring test.
- The `TypeError` the web pages raise on an unreadable house number is a `Failure` value. What Streamlit shows for it is not modelled.
- ZonaApp.ExtractCivicoSpec: states that the match starts at the first digit and has the pattern's shape, not that every greedy part is maximal. Maximality is shown on the examples "147/A", "12B" and "137/2" only.
- ZonaApp.SlashLetterLosesStreet: proved for a table of one row whose street normalises like the typed street text, with street text ending in a space, not for every table.

## Findings

| source | as written | input that shows it | evidently intended | confidence | as-written member | corrected member |
|---|---|---|---|---|---|---|
| zona_civico_app.py:22 | `(\d+[a-zA-Z]?)(/\d+)?` stops before `/A`, so line 59 removes only `147` and leaves `Via Mazzini /A`, which normalises to `a mazzini via`. That is longer than `mazzini via` and so not contained in it, and the page reports "Nessuna via trovata" | the page's own example query `Via Mazzini 147/A` (zona_civico_app.py:55) against a sheet row for `Via Mazzini` | a house number written `147/A` is read whole, so the street text is `Via Mazzini ` and the street is found | not executed | ZonaApp.SlashLetterLosesStreet | ZonaApp.SlashLetterFindsStreet |
