# Three small data tools, modelled in Dafny

This project models the pure core of three command-line scripts and proves
properties of the model:

- **The number converter** (`convert_numbers.py`). Every line of an input
  file is stripped and parsed as an integer. Each line becomes one numbered
  row with two renderings of the integer. The binary rendering is the
  recursive `decimal_a_binario_recursivo`. The hexadecimal rendering is
  `format(n, 'X')` after 2^32 is added once to a negative number. A line
  that is not an integer gets the marker `#VALUE!` in both columns.
- **The word counter** (`word_count.py`). Every whitespace-separated token
  is lower-cased and counted in a dictionary. The dictionary keeps words in
  the order they were first seen. The saved report lists one
  `word<TAB>count` row per word and ends with the grand total.
- **The statistics tool** (`compute_statistics.py`). Every token of a file
  is turned into a number, ignored, or makes the program abort. The tool
  then computes the count, mean, median, mode, population variance and
  standard deviation of the numbers.

Modules follow the program structure:

| module | file | contents |
|---|---|---|
| `Wrappers` | `wrappers.dfy` | `Option` |
| `Text` | `text.dfy` | ASCII whitespace, `lower()`, `strip()`, `split()`, reading a file line by line |
| `Frequency` | `frequency.dfy` | the insertion-ordered tally `d[k] = d.get(k, 0) + 1`, shared by the word counter and the mode |
| `Radix` | `radix.dfy` | binary and hexadecimal renderings, `int()` and `str()` on integers |
| `Conversion` | `conversion.dfy` | the per-line rows of the converter |
| `Sorting` | `sorting.dfy` | `sorted()` as used by the median |
| `Aggregates` | `aggregates.dfy` | mean, median, mode, variance, standard deviation |
| `Coercion` | `coercion.dfy` | `manejar_datos_invalidos` and `leer_datos_desde_archivo` |
| `Statistics` | `statistics.dfy` | `procesar_archivo` without the clock |
| `WordCount` | `word_count.dfy` | `contar_palabras` and `guardar_resultados` |

A file is modelled as the sequence of its lines. Numbers are exact `real`s
in place of Python floats. Three things are parameters of the model rather
than part of it:

- Python's `float()` on the token as first normalised is a partial function
  `parse: string -> Option<real>`.
- The square root is a function `sqrt: real -> real`.
- The clock is left out.

The second `float()` call of `manejar_datos_invalidos` only ever sees
digits and dots. It is modelled exactly, by `Coercion.DecimalValue`.

## Model

| member | source | states |
|---|---|---|
| Radix.Binary | 4.2-1.P2/P2/convert_numbers.py:8-20 | For n >= 0 the result is a bit string whose base-2 value is n. For n > 0 it starts with "01": one leading '0' from the base case, then a leading 1 bit. For n < 0 it is '-' followed by bits whose value is -n. The result is never empty. |
| Radix.BinaryIsZeroThenCanonical | 4.2-1.P2/P2/convert_numbers.py:17-19 | For n > 0 the output is exactly "0" followed by the textbook base-2 digits of n (any bit string with no leading zero whose value is n). |
| Radix.CanonicalBitsUnique | 4.2-1.P2/P2/convert_numbers.py:17-19 | Two bit strings without leading zeros that have the same value are equal, so the digits after the leading '0' are determined. |
| Radix.BinaryNegative | 4.2-1.P2/P2/convert_numbers.py:18 | For m > 0, rendering -m gives '-' followed by the rendering of m, and that rendering is "0" followed by the textbook digits of m. |
| Radix.BinaryExamples | 4.2-1.P2/P2/convert_numbers.py:15-19 | 0 renders as "0", 5 as "0101" and -3 as "-011". |
| Radix.HexDigits | 4.2-1.P2/P2/convert_numbers.py:44 | `format(v, 'X')` for v >= 0 gives upper-case hexadecimal digits whose base-16 value is v, with no leading zero unless v is 0. |
| Radix.HexDigitsLength | 4.2-1.P2/P2/convert_numbers.py:44 | A value below 16^k has at most k hexadecimal digits. |
| Radix.FormatHex | 4.2-1.P2/P2/convert_numbers.py:44 | `format(v, 'X')` for v >= 0 is hexadecimal digits whose value is v, with no leading zero unless v is 0. For negative v it is '-' followed by digits whose value is -v, again without a leading zero. |
| Radix.HexValue | 4.2-1.P2/P2/convert_numbers.py:44 | The formatted value is n for n >= 0, with no truncation. For -2^32 <= n < 0 it lies in [0, 2^32) and agrees with n modulo 2^32. Below -2^32 it stays negative. |
| Radix.Hex | 4.2-1.P2/P2/convert_numbers.py:44 | For n >= 0 the digits decode to n. For -2^32 <= n < 0 they decode to 2^32 + n and there are at most 8 of them. Below -2^32 the column is '-' followed by the digits of -(2^32 + n). The digits never carry a leading zero, except for the single digit "0". |
| Radix.HexExamples | 4.2-1.P2/P2/convert_numbers.py:44 | 5 gives "5", 0 gives "0" and -3 gives "FFFFFFFD". |
| Radix.ParseInt | 4.2-1.P2/P2/convert_numbers.py:42 | `int()` succeeds exactly on an optional sign followed by one or more digits. An unsigned text and a text after '+' have the decimal value of their digits. After '-' the value is that of the digits, negated. |
| Radix.DecimalDigits | 4.2.P3/P3/word_count.py:72 | `str(n)` for n >= 0 is a non-empty digit string whose decimal value is n, with no leading zero unless n is 0. |
| Radix.ShowInt | 4.2.P3/P3/word_count.py:72 | `str(n)` starts with '-' exactly when n is negative. The digits after the optional sign have the decimal value of n's magnitude, with no leading zero unless n is 0. |
| Radix.ParseShowInt | 4.2.P3/P3/word_count.py:72 | Parsing inverts printing: `int(str(n)) == n` for every integer. |
| Conversion.ConvertLine | 4.2-1.P2/P2/convert_numbers.py:41-47 | A row has the given number and text. Its binary column is the marker exactly when `int()` fails, and likewise its hex column. Otherwise the columns are the two renderings of the parsed value. |
| Conversion.SentinelIsNotBinary | 4.2-1.P2/P2/convert_numbers.py:41-47 | No binary rendering equals the marker, so the marker in a column always means a failed parse. |
| Conversion.SentinelIsNotHex | 4.2-1.P2/P2/convert_numbers.py:41-47 | No hexadecimal rendering equals the marker. |
| Conversion.ConvertLines | 4.2-1.P2/P2/convert_numbers.py:37-61 | There is exactly one row per input line. Row i is numbered i + 1 and converts the stripped text of line i. A failed line does not stop the lines after it. |
| Conversion.ExampleRows | 4.2-1.P2/P2/convert_numbers.py:40-50 | The lines "5", "-3", "0" and "x7" give the rows (0101, 5), (-011, FFFFFFFD), (0, 0) and the marker twice. |
| Text.Lower | 4.2.P3/P3/word_count.py:28 | `lower()` keeps the length, maps each upper-case ASCII letter to its lower-case letter, and leaves every other character alone. |
| Text.LowerIsLowerCase | 4.2.P3/P3/word_count.py:28 | Lower-casing yields a string with no upper-case letter and is idempotent. A string is its own lower-case form exactly when it is lower-case. |
| Text.Strip | 4.2-1.P2/P2/convert_numbers.py:32 | `strip()` yields text that is empty or neither starts nor ends with whitespace. |
| Text.StripPosition | 4.2-1.P2/P2/convert_numbers.py:32 | The stripped text is a contiguous slice of the line, with only whitespace before and after it. |
| Text.Split | 4.2.P3/P3/word_count.py:26 | `split()` yields non-empty, whitespace-free tokens that, concatenated, are exactly the non-whitespace characters of the line in order. |
| Text.SplitFromWords | 4.2.P3/P3/word_count.py:26 | Every token produced by `split()` is non-empty and has no whitespace. |
| Text.SplitFromConcat | 4.2.P3/P3/word_count.py:26 | The tokens, concatenated, are exactly the non-whitespace characters of the input, in order. |
| Text.SplitAtSpace | 4.2.P3/P3/word_count.py:26 | Splitting a text at any whitespace character splits its token list there. |
| Text.SplitJoinSpaced | 4.2.P3/P3/word_count.py:26 | `split()` inverts joining whitespace-free words with single spaces. |
| Text.TokensOfLines | 4.2.P3/P3/word_count.py:25-26 | The tokens of a file, read line by line, are non-empty and free of whitespace. |
| Text.TokensOfLinesIsSplitOfText | 4.2.P3/P3/word_count.py:25-26 | Splitting a file line by line gives the same tokens as splitting its whole text. |
| Text.TokensOfLinesAppend | 4.2.P1/P1/compute_statistics.py:82-83 | The tokens of two runs of lines are the tokens of the first run, then those of the second. |
| Text.TokenOfLine | 4.2.P1/P1/compute_statistics.py:82-83 | A token of any line is a token of the file. |
| Frequency.Add | 4.2.P3/P3/word_count.py:29 | `d[k] = d.get(k, 0) + 1` keeps the key order when k is present and appends k when it is new. `get` grows by one for k and is unchanged for every other key. The total grows by one. |
| Frequency.Tally | 4.2.P3/P3/word_count.py:21-29 | The table of a sequence has distinct keys. `get(y)` is the number of occurrences of y. The keys are exactly the elements. The counts sum to the length. |
| Frequency.AddDistinct | 4.2.P3/P3/word_count.py:29 | Adding a key keeps the keys distinct. |
| Frequency.TallyCounts | 4.2.P3/P3/word_count.py:26-29 | The count stored with each key is its number of occurrences, and so at least 1. |
| Frequency.TallyOrder | 4.2.P3/P3/word_count.py:29 | Keys appear in the order of their first occurrence in the input. |
| Frequency.MaxCount | 4.2.P1/P1/compute_statistics.py:40 | `max(d.values())` bounds every count and, for a non-empty table, is attained. |
| Frequency.FirstWithCount | 4.2.P1/P1/compute_statistics.py:41-42 | Gives the first table position holding count c, or the table length when none does. |
| Frequency.MostFrequent | 4.2.P1/P1/compute_statistics.py:37-42 | The chosen key is an element of the input. |
| Frequency.MostFrequentIsFirstMaximum | 4.2.P1/P1/compute_statistics.py:37-42 | The chosen key has the highest frequency. Every value first seen before it occurs strictly less often. |
| Sorting.Sort | 4.2.P1/P1/compute_statistics.py:25 | `sorted()` returns an ascending rearrangement of its input, with the same multiset and length. |
| Sorting.SortedUnique | 4.2.P1/P1/compute_statistics.py:25 | Two ascending sequences with the same elements are equal, so the sort is determined by the multiset. |
| Sorting.SortPermutation | 4.2.P1/P1/compute_statistics.py:25 | Reordering the input does not change the sorted list. |
| Sorting.SortOfSorted | 4.2.P1/P1/compute_statistics.py:25 | An ascending input is its own sort. |
| Aggregates.SumByPermutation | 4.2.P1/P1/compute_statistics.py:19 | A sum does not depend on the order of its terms. |
| Aggregates.Mean | 4.2.P1/P1/compute_statistics.py:19 | For non-empty data the mean times the count is the sum. The mean of no data is 0. |
| Aggregates.MeanBounds | 4.2.P1/P1/compute_statistics.py:19 | The mean lies between the least and the greatest value. |
| Aggregates.MeanPermutation | 4.2.P1/P1/compute_statistics.py:19 | Reordering the data does not change the mean. |
| Aggregates.Variance | 4.2.P1/P1/compute_statistics.py:56 | For non-empty data the variance times the count is the sum of squared deviations from the given mean. Dividing by the count makes it the population variance. The variance of no data is 0. |
| Aggregates.SquaredDeviationsFacts | 4.2.P1/P1/compute_statistics.py:56 | The sum of squared deviations is non-negative, and zero exactly when every value equals the mean. |
| Aggregates.VarianceNonNegative | 4.2.P1/P1/compute_statistics.py:56 | The variance is non-negative, and zero exactly when every value equals the mean it is taken about. |
| Aggregates.VariancePermutation | 4.2.P1/P1/compute_statistics.py:56 | Reordering the data does not change the variance about a given mean. |
| Aggregates.Middle | 4.2.P1/P1/compute_statistics.py:26-31 | The middle of an ascending sequence lies between its first and last element. For an odd length it is the middle element. |
| Aggregates.Median | 4.2.P1/P1/compute_statistics.py:21-31 | The median exists exactly for non-empty data. Empty data makes the source index an empty list. |
| Aggregates.MedianBounds | 4.2.P1/P1/compute_statistics.py:25-31 | The median lies between the least and the greatest value. For an odd count it is one of the values. |
| Aggregates.MedianPermutation | 4.2.P1/P1/compute_statistics.py:25-31 | Reordering the data does not change the median. |
| Aggregates.MedianOfSorted | 4.2.P1/P1/compute_statistics.py:25-31 | On ascending data the median is the middle element for an odd count, and the average of the two middle elements for an even count. |
| Aggregates.Mode | 4.2.P1/P1/compute_statistics.py:37-42 | The mode exists exactly for non-empty data and is one of the values. |
| Aggregates.ModeIsFirstMostFrequent | 4.2.P1/P1/compute_statistics.py:37-42 | The mode has maximal frequency. Every value first seen before it occurs strictly less often. |
| Aggregates.ModeDependsOnOrder | 4.2.P1/P1/compute_statistics.py:37-42 | The mode of [1.0, 2.0] is 1.0 and the mode of [2.0, 1.0] is 2.0, so the mode, unlike the other aggregates, depends on the order of the data. |
| Aggregates.StandardDeviation | 4.2.P1/P1/compute_statistics.py:44-50 | The standard deviation recomputes the variance by itself, and it is the square root of the same variance that `calcular_varianza` gives for that mean. |
| Aggregates.Summarize | 4.2.P1/P1/compute_statistics.py:97-102 | A summary exists exactly for non-empty data. It holds the count, the mean, the median and the mode. The variance is taken about that same mean, and the standard deviation is the square root of that variance. |
| Aggregates.SummaryPermutation | 4.2.P1/P1/compute_statistics.py:97-102 | Reordering the data changes neither the mean, the median, the variance nor the standard deviation. |
| Aggregates.SummaryBounds | 4.2.P1/P1/compute_statistics.py:97-102 | On non-empty data the mean and the median lie within the range of the data and the mode is one of the values. The variance is non-negative, and zero exactly when every value equals the mean. |
| Coercion.ReplaceChar | 4.2.P1/P1/compute_statistics.py:65 | `replace(a, b)` on single characters keeps the length and rewrites exactly the positions holding a. |
| Coercion.ReplaceCharCounts | 4.2.P1/P1/compute_statistics.py:65 | After `replace(a, b)` no a is left. The b's are the old b's plus the replaced a's. |
| Coercion.Normalize | 4.2.P1/P1/compute_statistics.py:65 | Every ';' and ',' becomes '.', and every other character is kept in place. |
| Coercion.KeepNumeric | 4.2.P1/P1/compute_statistics.py:67-69 | The filter keeps only digits, dots and commas. Each kept character occurs as often as in the token, and the result is no longer than the token. |
| Coercion.KeepNumericAppend | 4.2.P1/P1/compute_statistics.py:67-69 | Filtering distributes over concatenation, so the kept characters stay in their original order. |
| Coercion.KeepNumericIdempotent | 4.2.P1/P1/compute_statistics.py:67-69 | Filtering twice is filtering once. |
| Coercion.KeptEmpty | 4.2.P1/P1/compute_statistics.py:70-74 | The filter leaves nothing exactly when the token has no digit, dot or comma. |
| Coercion.DecimalValue | 4.2.P1/P1/compute_statistics.py:72 | `float()` on digits and dots succeeds exactly on digits with at most one dot and at least one digit. The value is non-negative, and equals the integer value when there is no dot. |
| Coercion.DecimalTextIff | 4.2.P1/P1/compute_statistics.py:72 | A text of digits and dots is accepted exactly when it has at most one dot and at least one digit. |
| Coercion.DecimalValueScaled | 4.2.P1/P1/compute_statistics.py:72 | The value times 10^k is the integer read with the dot removed, where k is the number of digits after the dot. |
| Coercion.Coerce | 4.2.P1/P1/compute_statistics.py:63-74 | When the first `float()` on the normalised token succeeds, its value is the outcome. |
| Coercion.Reduced | 4.2.P1/P1/compute_statistics.py:67-72 | The text given to the second `float()` is no longer than the token and holds no comma. It is empty exactly when the token has no digit, dot or comma. |
| Coercion.ReducedShape | 4.2.P1/P1/compute_statistics.py:67-72 | The text given to the second `float()` holds only digits and dots. Its dots are the token's dots and commas. |
| Coercion.ReducedDigits | 4.2.P1/P1/compute_statistics.py:67-72 | The text given to the second `float()` has a digit exactly when the token has one. |
| Coercion.CoerceFallback | 4.2.P1/P1/compute_statistics.py:66-74 | When the first `float()` fails, the token is ignored exactly when it has no digit, dot or comma. The program aborts exactly when it has some of these but has two or more separators or no digit. Otherwise the value is `float()` of the reduced text, and it is non-negative because signs are dropped. |
| Coercion.CoerceAllAppend | 4.2.P1/P1/compute_statistics.py:82-84 | Converting two runs of tokens converts each run. |
| Coercion.Collect | 4.2.P1/P1/compute_statistics.py:84-86 | The loader gives no data exactly when some token aborts. |
| Coercion.Load | 4.2.P1/P1/compute_statistics.py:76-87 | Reading a file yields no data exactly when some token of some line aborts. |
| Coercion.CollectLength | 4.2.P1/P1/compute_statistics.py:84-86 | Every token that is not ignored contributes exactly one value. |
| Coercion.CollectNumbers | 4.2.P1/P1/compute_statistics.py:84-86 | When every token converts, each one yields a value. |
| Coercion.CollectOrigin | 4.2.P1/P1/compute_statistics.py:84-86 | Every value kept comes from a converted token. |
| Coercion.CollectAppend | 4.2.P1/P1/compute_statistics.py:80-87 | Collecting two runs of outcomes concatenates their values, so input order is kept. |
| Coercion.CollectStep | 4.2.P1/P1/compute_statistics.py:85-86 | One more outcome that does not abort appends its value, if it has one, at the end. |
| Coercion.CollectCrash | 4.2.P1/P1/compute_statistics.py:72 | A token that aborts makes the whole file abort, wherever it sits. |
| Coercion.ReadData | 4.2.P1/P1/compute_statistics.py:76-87 | The nested loops over lines and tokens compute the loader's result. |
| Coercion.ReadLine | 4.2.P1/P1/compute_statistics.py:83-86 | One pass over a line's tokens either extends the values read so far to those of the lines up to this one, or ends with no data. |
| Coercion.LoadLength | 4.2.P1/P1/compute_statistics.py:80-87 | The dataset is no longer than the token count. |
| Coercion.LoadOrigin | 4.2.P1/P1/compute_statistics.py:80-87 | Every value in the dataset is the conversion of some token of the file. |
| Statistics.ProcessFile | 4.2.P1/P1/compute_statistics.py:89-112 | A file has statistics exactly when loading succeeds with at least one value. The count is then the number of values loaded, at most the number of tokens, and the statistics are the summary of exactly the loaded data. |
| Statistics.NothingToSummarize | 4.2.P1/P1/compute_statistics.py:95-99 | A file whose tokens are all ignored, or that has no tokens, has no statistics. |
| Statistics.EveryTokenCounts | 4.2.P1/P1/compute_statistics.py:80-87 | When every token converts, the dataset has one value per token. |
| WordCount.CountWords | 4.2.P3/P3/word_count.py:21-29 | The dictionary built line by line and token by token is the table of the lower-cased tokens of the file. |
| WordCount.CountLine | 4.2.P3/P3/word_count.py:27-29 | The pass over one line extends the table of the earlier lines to the table including this line. |
| WordCount.CountedWordsShape | 4.2.P3/P3/word_count.py:26-29 | Every key is non-empty, free of whitespace and lower-case, so `lower(key) == key`. |
| WordCount.CountedWordsAreTokens | 4.2.P3/P3/word_count.py:26-29 | A word is a key exactly when some token of the file lower-cases to it. Tokens that differ only in case share an entry, and punctuation is kept. |
| WordCount.CountedOccurrences | 4.2.P3/P3/word_count.py:26-29 | Each count is the number of tokens that lower-case to its word, and so at least 1. The counts add up to the number of tokens. The keys are distinct and in first-seen order. |
| WordCount.Row | 4.2.P3/P3/word_count.py:72 | A report row is the word, a tab, and exactly `str(count)`. That text has no sign and no leading zero, and it reads back through `int()` as the count. |
| WordCount.RowRoundTrip | 4.2.P3/P3/word_count.py:72 | A report row splits at its first tab into the word and a count that `int()` reads back. |
| WordCount.SaveResults | 4.2.P3/P3/word_count.py:68-75 | The report is the header, one row per word in table order, a blank line, and the total line. The total is the sum of the counts. |
| WordCount.Run | 4.2.P3/P3/word_count.py:88-93 | On a whole file, the table is the tally of the lower-cased tokens: one entry per distinct word, in first-seen order. The report is the header, one row per entry in table order, a blank line and the total line. Each row's count is the number of occurrences of its word, and the total is the number of tokens. |

## Left out

- File opening, reading and writing, `sys.argv` checks, `sys.exit`, and the handlers for missing files and decoding errors are I/O glue. A file is its sequence of lines.
- The clock, the elapsed-time fields and the timestamp (`convert_numbers.py` lines 86-96, `word_count.py` lines 76, 82 and 91-92, `compute_statistics.py` lines 93 and 104-107) are nondeterministic. `WordCount.SaveResults` leaves out the final timing line of the report.
- Console output is left out: the converter's `print` calls, `imprimir_resultados` (which prints the same rows the report holds), and the column padding and report layout of the statistics tool (`compute_statistics.py` lines 114-155).
- The converter's report header and the tab-joined row text (`convert_numbers.py` lines 52 and 61) are not modelled. `Conversion.Row` holds the four fields.
- The converter's branch at `convert_numbers.py` lines 56-59 is not modelled. Its condition never holds, and both arms yield the same text.
- Python's `float()` grammar (exponents, `inf`, `nan`, underscores, surrounding whitespace) is not modelled. The first, guarded `float()` is the parameter `parse`.
- Floating-point rounding is not modelled. Aggregates are exact reals.
- The special float values are not modelled. `float()` at `compute_statistics.py` line 65 accepts texts such as "-0", "nan" and "inf", but `parse` yields exact reals. So -0.0, NaN and the infinities, and their behaviour as keys of the mode's dictionary, are outside the model.
- `varianza ** 0.5` is the parameter `sqrt`.
- Python's `int()` extras (underscores, surrounding whitespace, non-ASCII digits) are not modelled. `int()` is an optional sign followed by ASCII digits.
- Unicode case mapping, `isdigit()` and the Unicode whitespace classes are left out. The model is ASCII. Whitespace is space, `\t` to `\r`, and `\x1c` to `\x1f`.
- Radix.Binary: the recursion has no depth limit. `decimal_a_binario_recursivo` recurses once per bit, so under CPython's default recursion limit of 1000 a number of roughly 1000 bits (about 300 decimal digits) or more raises `RecursionError`. That error is not a `ValueError`, so the handler at `convert_numbers.py` line 45 does not catch it and the whole run aborts. The model renders such numbers.
- Radix.ParseInt: it has no length limit. Since Python 3.11, `int()` raises `ValueError` on a text of more than 4300 digits, so such a line gets `#VALUE!` there. The model parses it, and `Conversion.ConvertLine` renders it.
- Aggregates.Median: with no data the source raises `IndexError`, and `max()` in the mode raises `ValueError`. Both are modelled as `None`, and so is the whole summary.

## Notes

- The converter's binary rendering is not textbook binary. The base case `0 -> "0"` is reached from every positive number, so 1 renders as "01" and 5 as "0101".
- `format(n, 'X')` is applied to `n + 2^32` only once. A number below `-2^32` therefore still prints with a minus sign, and non-negative numbers are not truncated to 32 bits. `Radix.Hex` states both cases.
