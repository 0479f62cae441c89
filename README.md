# DSE market bot: the row cleaning and trend step

`dse_bot.py` is a daily batch script. It scrapes the Dar es Salaam Stock
Exchange summary page, keeps three columns of one table (security, closing
price, change), appends each row to a spreadsheet and mails a digest. The only
logic in it that is not a call into an outside service is the step between the
scrape and the append. That step is modelled here:

- **Percent cleaning** (`clean_percent`). The regular-expression substitution
  deletes every character other than an ASCII digit, `.` or `-`. `float()`
  then reads what is left, and the result falls back to 0 when nothing is
  left or when the parse raises.
- **Trend classification** (the lambda on line 76). A positive value is UP,
  a negative one DOWN, anything else FLAT.
- **Row pipeline**. `dropna` drops the rows that lack a security or a closing
  price. Two `apply` calls then add the cleaned change and the trend to every
  remaining row.

The model is pure, like the code it models. Everything is datatypes,
functions and lemmas.

- `Wrappers` holds `Option`, used for a missing cell and for a failed parse.
- `Sequences` holds the order-preserving `Filter`. Both the character strip and
  the row drop are instances of it. Beside it is an independent description of
  its result, proved to determine the result: a subsequence of the input that
  holds every kept element as often as the input does and holds nothing else.
- `Decimals` holds exact decimals: an integer mantissa and a power-of-ten scale.
  These stand in for Python floats, and `ToReal` gives their value.
- `Numerals` models `float()` on the alphabet digits, `.` and `-`. The parser is
  a left-to-right scanner. Separately, `IsNumeral` gives the grammar `float()`
  accepts on that alphabet: an optional single leading `-`, then digits holding
  at most one `.`, with at least one digit. `Denotes` gives the number such a
  string stands for. The scanner is proved to accept exactly the grammar and
  to return the denoted number.
- `Percent` holds the strip and `CleanPercent`.
- `Trends` holds the classification and the labels written to the sheet.
  `TrendExamples` holds worked inputs.
- `Rows` holds `dropna`, the two `apply` calls and their composition.

The code and the comment disagree on one point. The comment on line 66 says
`%` is kept, but the pattern on line 69 keeps only digits, `.` and `-`. The
model follows the pattern, so `"+2.5%"` cleans to `2.5`.

## Model

| member | source | states |
|---|---|---|
| Sequences.Filter | dse_bot.py:69 | the result is no longer than the input and every element of it satisfies the predicate |
| Sequences.FilterIsSubsequence | dse_bot.py:63 | filtering only deletes elements; what it keeps stays in the original order |
| Sequences.FilterCount | dse_bot.py:63 | every element that satisfies the predicate occurs in the result exactly as often as in the input |
| Sequences.FilterUnique | dse_bot.py:69 | that description is complete: any subsequence holding only kept elements, each as often as the input, equals the filtered sequence |
| Sequences.FilterAllKept | dse_bot.py:69 | a sequence whose elements are all kept is left unchanged |
| Sequences.FilterIdempotent | dse_bot.py:69 | filtering twice is filtering once |
| Sequences.FilterPartition | dse_bot.py:63 | the kept elements and the removed elements together number exactly the input's length |
| Decimals.SignOfMantissa | dse_bot.py:76 | a decimal is positive, negative or zero exactly when its mantissa is |
| Numerals.ParseNumber | dse_bot.py:70-72 | `float()` succeeds exactly on numerals (optional single leading `-`, digits with at most one `.`, at least one digit), and then returns the number the numeral denotes |
| Numerals.ParseUnsignedCorrect | dse_bot.py:70 | the scanner without the sign accepts exactly the unsigned numerals, with the integer part plus the fraction as value |
| Numerals.StepExpected | dse_bot.py:70 | reading one more character moves the scanner from the state the prefix determines to the state the longer prefix determines |
| Numerals.ScanExpected | dse_bot.py:70 | scanning the rest of the input from the state a prefix determines ends in the state the whole input determines |
| Numerals.DigitsValueAppend | dse_bot.py:70 | appending digits multiplies the value by ten per digit and adds their value |
| Numerals.ValueOfParts | dse_bot.py:70 | integer and fraction digits read together as a mantissa, scaled by the fraction's length, give the integer part plus the fraction |
| Percent.Strip | dse_bot.py:69 | the stripped text holds only ASCII digits, `.` and `-`; `+`, `%`, spaces and letters are gone |
| Percent.StripDeletesOthers | dse_bot.py:69 | the stripped text is the input with exactly the other characters deleted: a subsequence with every digit, `.` and `-` as often as in the input, and no other character |
| Percent.StripCharacterized | dse_bot.py:69 | any text of that description is the stripped text |
| Percent.StripIdempotent | dse_bot.py:69 | stripping stripped text changes nothing |
| Percent.StripKeptText | dse_bot.py:69 | text made only of digits, `.` and `-` is its own stripped form |
| Percent.CleanPercent | dse_bot.py:67-72 | 0 when nothing is left after stripping; the denoted number when the stripped text is a numeral; 0 for every other input, so no input fails |
| Trends.Classify | dse_bot.py:76 | UP if and only if the value is positive, DOWN if and only if it is negative, FLAT if and only if it is zero |
| Trends.LabelInjective | dse_bot.py:76 | the three labels written to the sheet (`UP 📈`, `DOWN 📉`, `FLAT`) are pairwise different, so each trend is recoverable from its text |
| Trends.UnparseableIsFlat | dse_bot.py:70-72 | change text that does not strip to a numeral is labelled FLAT |
| TrendExamples.ExamplePlus | dse_bot.py:69-70 | `"+2.5%"` strips to `"2.5"`, cleans to 2.5 and is UP |
| TrendExamples.ExampleMinus | dse_bot.py:69-70 | `"-1.10"` cleans to -1.10 with its scale of two places and is DOWN |
| TrendExamples.ExampleNotAvailable | dse_bot.py:70 | `"n/a"` strips to nothing, cleans to 0 and is FLAT |
| TrendExamples.ExamplesRejected | dse_bot.py:71-72 | `"-"`, `"."`, `"1.2.3"`, `"1-2"` and `"--1"` are clean but rejected by `float()`, so they give 0 |
| Rows.Dropped | dse_bot.py:63 | every removed row lacks a security or a closing price |
| Rows.DropIncomplete | dse_bot.py:63 | the result is exactly the rows with both a security and a closing price, in their original order and each as often as in the input; its length is the input's length minus the number of removed rows |
| Rows.AnnotateRow | dse_bot.py:74-76 | the original cells are unchanged, the new change value is the cleaned change text, and the trend agrees with its sign |
| Rows.Annotate | dse_bot.py:74-76 | one annotated row per input row, in the same order, each with untouched cells, the cleaned change and an agreeing trend |
| Rows.Process | dse_bot.py:63-76 | the output has the input's length minus the dropped rows; stripped of its two new columns it is exactly the complete input rows in order; every row has a security and a price, its cleaned change and a trend that agrees with it |

## Left out

- Credential loading, spreadsheet authorisation, opening, creating and sharing the sheet (dse_bot.py:21-38) are calls into an outside service.
- Appending rows to the sheet (dse_bot.py:81-82) is the same kind of call.
- The HTTP fetch, `pd.read_html` and the table dump (dse_bot.py:45-54) are network access and a library parser.
- The fixed choice of `tables[3]` and the column projection and rename (dse_bot.py:56-60) depend on the page's layout. The model starts from rows that already hold the three renamed columns.
- The mail client, the digest text and the SMTP send (dse_bot.py:40, 87-107) are mail I/O and environment secrets. The digest also depends on how pandas prints floats and on the wall-clock `DATE` (dse_bot.py:16).
- The `str(val)` conversion on line 69 is not modelled. The change cell is given as the text `str()` produces. For a numeric cell that text is Python's float rendering. A missing cell gives `"nan"`, which strips to nothing and cleans to 0.
- The closing price is a type parameter. The pipeline only passes it through, and pandas treats its missing values as `NaN`, which the model writes as `None`.
- Numerals.ParseNumber: models `float()` only on strings of ASCII digits, `.` and `-`. Those are the only strings the strip lets through. Whitespace, `+`, exponents, `inf`, `nan` and underscores cannot reach it.
- Percent.Strip: keeps ASCII digits only. Python's `\d` also keeps other Unicode decimal digits, which `float()` accepts.
- Percent.CleanPercent: returns an exact decimal, not an IEEE double. Rounding, underflow of a tiny value to 0.0 (which would make it FLAT) and overflow to `inf` are not modelled. Python's `-0.0` is the decimal 0 here; it is FLAT in both.
- The DataFrame index and the retained raw `Change` column's position among the columns are not modelled; the raw text is kept as a field of each annotated row.
