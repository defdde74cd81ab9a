# ReclameAqui complaints dashboard — the data core in Dafny

The dashboard loads a table of consumer complaints about one retailer. Each
row has a date (`TEMPO`, `DATA`), a free-form location (`LOCAL`, such as
`"Recife - PE"`), a description, a status and a tokenised description.
`load_and_prepare_data` adds three derived columns:

- `ANO`, the year of `TEMPO`;
- `ESTADO`, the state code: the last `" - "` segment of `LOCAL`, stripped and upper-cased;
- `TAMANHO_TEXTO`, the whitespace word count of the description.

It also builds the sorted, distinct state and status option lists.

On every interaction, `filtrar_e_armazenar_dados` filters the table by the
selected states, the selected statuses and a text-length range, and stores
the result. Each chart callback then applies a year range to the stored
rows and reduces them:

- monthly counts for the time series;
- `value_counts` of status and of state;
- the text lengths for the histogram;
- the punctuation-stripped token text for the word cloud;
- a per-state `groupby` count for one selected year, for the map.

Empty stored data gives a placeholder instead of a chart.

The model is a set of pure functions over `seq<Record>`, in eight modules:

| module | models |
|---|---|
| `Optional` | missing cells (`NaN`/`None`) |
| `Sequences` | order-preserving selection, subsequences, occurrence counts |
| `Text` | Python's `strip`, `upper`, `split`, `split(sep)`, `join`, and the punctuation regex |
| `Order` | Python string order and `sorted(unique())` |
| `Tally` | `groupby().size()` and `value_counts()` |
| `Calendar` | parsed dates and `resample('ME').size()` |
| `Records` | `load_and_prepare_data` |
| `Callbacks` | the store filter, the year filter and every chart's reduction |

`resample('ME').size()` emits every month from the earliest to the latest,
with 0 for empty months, and `Calendar.Monthly` does the same.

## Model

| member | source | states |
|---|---|---|
| Records.Derive | data_processing.py:20-23 | keeps the raw row; `ANO` is the year of `TEMPO`; `ESTADO` is the state code derived from `LOCAL`, so it is missing exactly when `LOCAL` is and is otherwise stripped and upper-case; `TAMANHO_TEXTO` is the description's word count, equal to the number of word starts in its text form |
| Records.EstadoOf | data_processing.py:22 | the state code is missing iff the location is, and a present one has no surrounding whitespace and no lower-case letter |
| Records.EstadoShape | data_processing.py:22 | ESTADO is the upper-cased, stripped last piece of LOCAL; that piece is a suffix of LOCAL with no `" - "` in it, preceded by a `" - "` when LOCAL has one, and equal to LOCAL when it has none |
| Records.EstadoWithoutSeparator | data_processing.py:22 | with no `" - "` in LOCAL, ESTADO is the whole of LOCAL, stripped and upper-cased |
| Records.EstadoIdempotent | data_processing.py:22 | deriving a state code from a state code gives it back unchanged |
| Records.EstadoWithout | data_processing.py:22 | a state code never contains the `" - "` separator |
| Records.EstadoOfClean | data_processing.py:22 | stripped, upper-case text without the separator is its own state code |
| Records.TextLengthBlank | data_processing.py:23 | a blank description has length 0 and any other has length above 0; a missing description reads as `"nan"` and has length 1 |
| Records.AsTextCollision | data_processing.py:23 | `astype(str)` loses exactly one distinction: two cells read alike iff they are equal or one is missing and the other is the text `"nan"` |
| Records.TextLength | data_processing.py:23 | the text length of a description is the number of word starts in its text form: non-space characters at the beginning or right after whitespace |
| Records.CorpusText | data_processing.py:33 | the start-up text has as many words as all descriptions' text forms together, and its length is their total length plus one space between each neighbouring pair |
| Records.CorpusWordCount | data_processing.py:33 | the start-up word-cloud text, all descriptions joined by spaces, has as many words as the `TAMANHO_TEXTO` column adds up to |
| Records.Prepare | data_processing.py:45-46 | derives every row in order; `lista_estados` and `lista_status` are strictly ascending and hold exactly the distinct present state and status values |
| Text.Strip | data_processing.py:22 | the result is no longer than the input and has no whitespace at either end |
| Text.StripShape | data_processing.py:22 | the result is a slice of the input with only whitespace cut off at each end |
| Text.StripIdempotent | data_processing.py:22 | stripping text that is already stripped changes nothing |
| Text.Upper | data_processing.py:22 | each character is replaced by its own upper-case form, so the length is kept, no lower-case letter is left, whitespace stays where it was, and text already upper-case is unchanged |
| Text.UpperLowerRoundTrip | data_processing.py:22 | on letters with a Latin-1 capital, upper-casing yields that capital and lower-casing gives the letter back, and each such capital comes back from its own lower-case letter |
| Text.UpperIdempotent | callbacks.py:118 | upper-casing twice is upper-casing once |
| Text.UpperKeepsStripped | data_processing.py:22 | upper-casing stripped text leaves it stripped |
| Text.FindFrom | data_processing.py:22 | gives the first position at or after `from` where the separator occurs, or none when there is none |
| Text.Split | data_processing.py:22 | splitting on a non-empty separator gives at least one piece |
| Text.SplitPiecesFree | data_processing.py:22 | no piece of the split contains the separator |
| Text.JoinSplit | data_processing.py:22 | joining the pieces with the separator rebuilds the original text |
| Text.LastPieceAfterFirst | data_processing.py:22 | the left-to-right scan decides the last piece: past the first occurrence of the separator, the last piece is that of the rest of the text |
| Text.LastPiece | data_processing.py:22 | the last piece is a suffix with no separator; it is preceded by the separator when the text has one, and is the whole text when it has none |
| Text.Words | data_processing.py:23 | every word is non-empty and free of whitespace |
| Text.WordsCount | data_processing.py:23 | the number of words equals an independent count of word starts |
| Text.WordsBlank | data_processing.py:23 | a text has no words exactly when it is all whitespace |
| Text.Join | callbacks.py:92 | joining puts one separator between each neighbouring pair: `n` parts give their total length plus `n - 1` separators, and no parts give the empty text |
| Text.WordsJoin | data_processing.py:33 | joining texts with a space neither merges nor splits words |
| Text.StripPunctuation | callbacks.py:93 | no character of the class `"'.,;:!?()-` is left; the result is a subsequence of the input; every other character keeps its number of occurrences |
| Text.StripPunctuationAppend | callbacks.py:93 | stripping a concatenation strips each part separately |
| Text.StripPunctuationClean | callbacks.py:93 | text without punctuation is unchanged |
| Order.SortedDistinct | data_processing.py:45 | the list is strictly ascending and holds a string iff some present cell holds it |
| Order.AscendingUnique | data_processing.py:45-46 | only one strictly ascending list holds a given set of strings, so the option lists are determined by their contents |
| Order.LessTransitive | data_processing.py:45 | Python's string order is transitive |
| Order.LessTotal | data_processing.py:45 | of two different strings, one is smaller than the other |
| Tally.GroupCounts | callbacks.py:115 | keys strictly ascending; each key's count is its number of rows and is positive; a key appears iff some row holds it; the counts add up to the number of present cells |
| Tally.InsertByCount | callbacks.py:55 | inserting into a table ordered by decreasing count keeps it ordered and adds exactly the one entry |
| Tally.SortByCount | callbacks.py:55 | the result is ordered by decreasing count and is a permutation of the input |
| Tally.SortTotal | callbacks.py:55 | sorting keeps the sum of the counts |
| Tally.SortDistinct | callbacks.py:55 | sorting a table with distinct keys leaves the keys distinct |
| Tally.ValueCounts | callbacks.py:55 | ordered by decreasing count; distinct keys; each count is the key's positive number of rows; a key appears iff some row holds it; the counts add up to the number of present cells |
| Calendar.MonthAtNumber | callbacks.py:44 | month numbers identify calendar months: decoding a month's number gives the month back |
| Calendar.Monthly | callbacks.py:43-44 | no rows gives no buckets; buckets are consecutive calendar months from the earliest to the latest row; each count is the month's number of rows; the end buckets are non-empty; the counts add up to the row count |
| Callbacks.ByEstado | callbacks.py:28-29 | every kept record is from the input, and holds a selected state when a selection is given |
| Callbacks.ByStatus | callbacks.py:30-31 | every kept record is from the input, and holds a selected status when a selection is given |
| Callbacks.ByTextLength | callbacks.py:32-33 | every kept record is from the input, and its length lies in the range, both ends included, when a range is given |
| Callbacks.FilterAndStore | callbacks.py:26-34 | the stored rows are no more than the input rows, and each passes every supplied filter |
| Callbacks.EstadoFilterExactly | callbacks.py:28-29 | a falsy state selection (`None` or the empty list) keeps every row as often as it occurs; a truthy one keeps exactly the rows whose present state is listed, with their multiplicity |
| Callbacks.StatusFilterExactly | callbacks.py:30-31 | the same for the status selection |
| Callbacks.IsInMonotone | callbacks.py:29 | `isin` never matches a missing cell, and a cell that matches keeps matching when more names are listed |
| Callbacks.InRange | callbacks.py:33 | `between` is inclusive: a non-empty range admits both of its ends, and an inverted range admits nothing |
| Callbacks.FilterIsConjunction | callbacks.py:26-34 | the three filters applied in turn keep the same records, in the same order, as their conjunction applied once |
| Callbacks.FilterKeepsExactly | callbacks.py:28-33 | a record is kept, with all its occurrences, iff it passes every supplied filter; otherwise it is dropped entirely |
| Callbacks.FilterIsSubsequence | callbacks.py:26-34 | the stored rows are a subsequence of the input: nothing added, nothing reordered |
| Callbacks.FilterNoSelection | callbacks.py:28-33 | with no state, no status and no text range selected, the stored rows are the whole table |
| Callbacks.FilterMonotone | callbacks.py:28-33 | enlarging a selection or widening the range keeps every record kept before, in the same order |
| Callbacks.StoredAdmits | callbacks.py:26-34 | every stored record passes the filters that produced the store |
| Callbacks.ByYear | callbacks.py:41-42 | every kept row is from the input, and its year lies in the range, both ends included, when a range is given |
| Callbacks.YearFilterExactly | callbacks.py:53-54 | the year filter keeps a row, with all its occurrences, iff its year is in the range; the result is a subsequence of the input |
| Callbacks.TimeSeries | callbacks.py:36-47 | a placeholder iff there are no stored rows; otherwise consecutive months, each a valid month counting its year-filtered rows by `DATA`, with non-empty first and last months, adding up to the number of year-filtered rows, and empty iff no row is in the year range |
| Calendar.MonthlyShowsMonth | callbacks.py:44 | every month in which some row is dated is itself the label of a non-empty bucket |
| Callbacks.TimeSeriesShowsEveryMonth | callbacks.py:41-44 | the month of `DATA` of every year-filtered row appears as a non-empty point of the series |
| Callbacks.TimeSeriesCountsAll | callbacks.py:43-44 | with no year range, the series counts every stored row |
| Callbacks.StatusCounts | callbacks.py:49-58 | a placeholder iff there are no stored rows; otherwise the status counts of the year-filtered rows: largest first, each status once with its positive count, adding up to the number of rows with a status |
| Callbacks.StatusChartOnlySelected | callbacks.py:55 | on stored rows filtered by status, the status chart shows only selected statuses |
| Callbacks.EstadoCounts | callbacks.py:60-69 | a placeholder iff there are no stored rows; otherwise the state counts of the year-filtered rows: largest first, each state once with its positive count, adding up to the number of rows with a state |
| Callbacks.EstadoChartOnlySelected | callbacks.py:66 | on stored rows filtered by state, the state chart shows only selected states |
| Callbacks.TextLengthsAreWordCounts | callbacks.py:71-79 | on derived records, the histogram plots, in row order, the `split()` word count of each year-filtered row's description text |
| Callbacks.HistogramWithinRange | callbacks.py:77 | on stored rows filtered by a text-length range, every histogram value lies in that range |
| Callbacks.Tokens | callbacks.py:92 | the texts, wrapped back into cells, are exactly the present cells of the token column, in row order; their number is the number of present cells, and a text is listed iff some row holds it |
| Callbacks.TokensCount | callbacks.py:92 | each token text is listed as many times as rows hold it |
| Callbacks.WordCloudText | callbacks.py:86-93 | a placeholder iff there are no stored rows; otherwise no punctuation is left, and the text is a subsequence of the space-joined tokens with every other character's number of occurrences unchanged |
| Callbacks.WordCloudOfCleanTokens | callbacks.py:92-93 | when no token holds punctuation, the word-cloud text is exactly the space-joined tokens |
| Callbacks.OfYear | callbacks.py:110 | every row of the selected year is kept as often as it occurs, every other row is dropped, and the kept rows stay in input order; nothing is kept iff no row has the selected year, and always when no year is selected |
| Callbacks.UpperKeys | callbacks.py:118 | each key is replaced by its own upper-cased form and its count is unchanged; a table whose keys are already upper-case is unchanged |
| Callbacks.MapCounts | callbacks.py:105-118 | "select filters" iff there are no stored rows; "no data for the year", carrying the selected year, iff no stored row has that year; otherwise positive counts with upper-case keys, adding up to the number of that year's rows that have a state |
| Callbacks.MapKeysAlreadyUpper | callbacks.py:115-118 | on prepared records, the map's counts are the per-state group counts of that year's rows: upper-casing changes nothing |
| Callbacks.MapKeysAscending | callbacks.py:115 | on prepared records, the map's states are strictly ascending, so each appears once |
| Callbacks.MapCountsPerState | callbacks.py:110-115 | on prepared records, each state on the map carries the number of that year's rows in that state, and a state is shown iff such a row exists |
| Callbacks.MapOnlySelected | callbacks.py:109-118 | on prepared records filtered by state, the map shows only selected states |

## Left out

- Dash wiring is not modelled: `app.py`, `layout.py` and the callback registration. Each callback is a function of its inputs.
- The year-range input `filtro-data` has no component in `layout.py`. The model takes it as an optional range, and a missing range filters nothing.
- A text-length or year range is modelled as a pair. A list of another length, as Dash could send, is not modelled.
- Plotly figures, titles, margins and the histogram's 50 bins are not modelled. A chart is modelled as the data handed to Plotly, or as the placeholder.
- WordCloud images, PNG encoding and base64 data URLs are not modelled. For the word clouds, the model stops at the text handed to WordCloud.
- The NLTK stopword list and the WordCloud call at start-up are not modelled, because stopwords are applied inside WordCloud.
- Reading the CSV, the `FileNotFoundError` path and reading the geojson are I/O and are left out.
- Datetime parsing is left out. Dates are already-parsed year, month and day values.
- Missing dates are not modelled. In pandas a missing `TEMPO` or `DATA` becomes `NaT`, its `ANO` is `NaN`, so the row fails every year filter (callbacks.py:42, callbacks.py:110), and `resample` skips it (callbacks.py:44). Every modelled row has a date.
- The JSON round trip of `to_dict('records')` into the store is left out. The store holds the records themselves.
- Non-string values in text columns are left out. Cells are strings or missing.
- Matching map states to geojson features happens inside Plotly and is not modelled.
- The `wordcloud-img` output id matches no component in `layout.py`. This UI defect is not modelled.
- Callbacks.WordCloudText: when the cleaned text leaves no word to draw, for instance when no token cell is present, `WordCloud(...).generate` raises `ValueError` (callbacks.py:94). The model returns `Ready("")` there and leaves that failure, like the rest of the rendering, out.
- On empty data, the word-cloud callback returns a figure instead of an image source. This UI defect is not modelled; the placeholder is modelled as `NoData`.
- Text.Upper: maps only the one-to-one ASCII and Latin-1 lower-case letters. Python's full Unicode case mapping is not modelled, including `ß` → `SS` and letters beyond U+00FF. `µ` (U+00B5) upper-cases to the Greek U+039C, whose lower case is not `µ`, so the round trip excludes it.
- Tally.ValueCounts: pandas does not specify the order among equal counts. The model lists ties in ascending key order.
- Callbacks.MapCounts: the placeholder carries the selected year. Formatting it into the title text is not modelled.
- Callbacks.TimeSeries: buckets are labelled by calendar month, not by the month-end timestamp pandas uses as the label.

