# Apple Watch EKG parsing and threshold analysis, in Dafny

This project models the two computational cores of an app that reads Apple Watch EKG exports.

- **`parse_apple_watch_csv`** (`utils/csv_parser.py`) makes one pass over the lines of a CSV export. Each stripped line is handled one of three ways:
  - a **data line** if a loose numeric test accepts it. It is appended to the signal with its commas turned into points.
  - a **metadata line** if it holds a comma and is not numeric. It is split at the first comma into a key and a value, and later keys overwrite earlier ones.
  - **dropped** otherwise.

  The `Messrate` key, in any case, may set the sampling rate. A rate word that does not parse leaves the earlier rate in place.
- **`detect_arrhythmias`** and **`analyze_ekg`** (`models/medical_analysis.py`):
  - the first flags every interior index whose jump from the previous sample strictly exceeds `1.5 * std`, counting the flagged beats;
  - the second reports the maximum, minimum and mean of the series together with that flag report.

## Modules

| file | module | contents |
|---|---|---|
| `options.dfy` | `Options` | `Option`, for Python's `None`-or-value |
| `strings.dfy` | `Strings` | the `str` operations the parser uses: `strip`, `replace`, `split`, `lower`, `splitlines` |
| `numeric_line.dfy` | `NumericLine` | the loose numeric test and its characterisation |
| `decimal.dfy` | `Decimal` | a decimal-number reader that stands in for `float()` on the rate word |
| `csv_parser.dfy` | `CsvParser` | the parser as a method (`ParseAppleWatchCsv`, loop body `ReadInto`) and as a fold (`Parse`) of per-line entries (`ReadLine`) |
| `medical_analysis.dfy` | `MedicalAnalysis` | the flagging loop (`DetectArrhythmias`), its specification (`Flagged`, `Report`) and the summary (`AnalyzeEkg`) |

### Design

The parser is modelled twice:
- **`ParseAppleWatchCsv`** is the loop as written, over the lines of `splitlines()`. It updates a map, a token list and an optional rate.
- **`Parse`** folds `Apply` over one `LineEntry` per line. Each entry is a `Sample`, a `Field` (key, value and the rate it sets, if any) or `Ignored`.

The method is proved equal to the fold. Every property of the parser is then a lemma about the fold.

`detect_arrhythmias` is handled the same way:
- `DetectArrhythmias` is the loop.
- `FlaggedBelow` is the list the loop has built when it reaches a given index.

### Edge cases the code decides

- `float()` accepts zero and negative rate words, and the code stores them as the sampling rate (`CsvParser.ZeroRate`, `CsvParser.NegativeRate`).
- A line of only `-`, `.` or `,` is not a data line, because `isdigit()` is false on the empty string (`NumericLine.RejectedSeparatorsOnly`).
- `splitlines()` treats `\r\n` as one break, and a last line needs no terminator (`Strings.SplitRejoin`, `Strings.SplitLinesRejoin`).

## Model

| member | source | states |
|---|---|---|
| Strings.TrimLeft | utils/csv_parser.py:23 | `lstrip`: the result is no longer than the input; what it is, is stated by `TrimLeftSpec` |
| Strings.TrimRight | utils/csv_parser.py:23 | `rstrip`: the result is no longer than the input; what it is, is stated by `TrimRightSpec` |
| Strings.Trim | utils/csv_parser.py:23 | `strip(chars)`, here `strip('"')`: the result is no longer than the input; stated in full by `TrimSpec` |
| Strings.TrimLeftSpec | utils/csv_parser.py:19 | leading strip keeps a suffix, removes only whitespace (or the given characters), and stops at the first character it may not remove |
| Strings.TrimRightSpec | utils/csv_parser.py:19 | trailing strip keeps a prefix, removes only what it may, and stops at the last character it may not remove |
| Strings.TrimSpec | utils/csv_parser.py:19 | `strip` returns a slice of the line; everything cut off on either side is strippable, and the result neither starts nor ends with a strippable character |
| Strings.IsSpace | utils/csv_parser.py:19 | exactly the characters for which Python's `str.isspace()` holds, which `strip()` and `split()` remove and split at; `TrimSpec`, `WordSpec` and `FirstTokenSpec` state those operations in terms of it |
| Strings.Strip | utils/csv_parser.py:19 | `strip()` is `Trim` with Python's `isspace()` set, so `TrimSpec` states what it keeps and removes |
| Strings.TrimUnchanged | utils/csv_parser.py:19 | a string that neither starts nor ends with a character to remove is stripped to itself |
| Strings.TrimIdempotent | utils/csv_parser.py:23 | stripping a stripped string changes nothing |
| Strings.FirstIndex | utils/csv_parser.py:21 | the index found holds the character and no earlier index does |
| Strings.FirstIndexAt | utils/csv_parser.py:21 | an index holding the character with none before it is the one found |
| Strings.RemoveFirst | utils/csv_parser.py:20 | `replace(c, '', 1)` for one character; specified by `RemoveFirstSpec` and `RemoveFirstMultiset` |
| Strings.RemoveFirstSpec | utils/csv_parser.py:20 | `replace(c, '', 1)` deletes exactly the first occurrence of `c`, and returns the string unchanged when `c` is absent |
| Strings.RemoveFirstMultiset | utils/csv_parser.py:20 | the characters left are those of the input less one `c`, if there was one |
| Strings.ReplaceAll | utils/csv_parser.py:27 | `replace(',', '.')` keeps the length; the characters are stated by `ReplaceAllSpec` |
| Strings.ReplaceAllSpec | utils/csv_parser.py:32 | `replace(',', '.')` turns every comma into a point and changes no other character; the length is kept |
| Strings.SplitFirst | utils/csv_parser.py:21 | `split(",", 1)` on a line with a comma gives the text before the first comma and the text after it; rejoined with the comma they are the line, and the first part holds no comma |
| Strings.Lower | utils/csv_parser.py:25 | `lower()` keeps the length; each character is stated by `LowerSpec` |
| Strings.LowerSpec | utils/csv_parser.py:25 | `lower()` maps every character through the ASCII lower-casing and keeps the length |
| Strings.Word | utils/csv_parser.py:27 | the word that `split()` puts first, once leading whitespace is gone; no longer than the text, and stated in full by `WordSpec` |
| Strings.WordSpec | utils/csv_parser.py:27 | the first word is the longest whitespace-free prefix |
| Strings.FirstToken | utils/csv_parser.py:27 | `split()[0]`, with `None` where Python raises `IndexError`; specified by `FirstTokenSpec` |
| Strings.FirstTokenSpec | utils/csv_parser.py:27 | `split()[0]` is absent exactly when the value is all whitespace (where Python raises `IndexError`). Otherwise it is a non-empty whitespace-free run that starts after the leading whitespace and ends at whitespace or at the end |
| Strings.IsLineBreak | utils/csv_parser.py:15 | the characters at which `splitlines()` ends a line (`\n`, `\v`, `\f`, `\r`, the file, group and record separators, NEL and the Unicode line and paragraph separators); `SplitRejoin` and `SplitLinesRejoin` state the lines in terms of it |
| Strings.AfterBreak | utils/csv_parser.py:15 | the next line starts after the break; `\r\n` counts as one break, so a `\r` followed by `\n` is skipped as a pair (`SplitLinesCrLf`, `BreakTerminator`) |
| Strings.BreakIndex | utils/csv_parser.py:15 | the first line break, or the end of the text when there is none |
| Strings.SplitLines | utils/csv_parser.py:15 | `splitlines()` yields lines without line-break characters; which lines, is stated by `SplitRejoin` and `SplitLinesRejoin` |
| Strings.BreakIndexAt | utils/csv_parser.py:15 | a break with no break before it is the first break |
| Strings.SplitLinesLast | utils/csv_parser.py:15 | a non-empty last line without a terminator is still a line |
| Strings.SplitLinesCrLf | utils/csv_parser.py:15 | `\r\n` ends a line as one break and opens no empty line |
| Strings.SplitLinesBreak | utils/csv_parser.py:15 | any single break character ends a line, unless it is a `\r` followed by `\n` |
| Strings.SplitRejoin | utils/csv_parser.py:15 | break-free lines joined with terminators (`\n`, `\r\n`, `\r` or any other break, the last line possibly unterminated) split back into exactly those lines |
| Strings.SplitLinesRejoin | utils/csv_parser.py:15 | conversely, every text is its lines, each followed by the terminator it was split at, and those terminators are well formed; with `SplitRejoin` this fixes the lines of every text |
| NumericLine.Residue | utils/csv_parser.py:20 | the three single deletions of the test; the characters left are stated by `ResidueMultiset` and `ResidueCount` |
| NumericLine.IsDigitString | utils/csv_parser.py:20 | `str.isdigit()` over ASCII digits: false on the empty string, otherwise true exactly when every character is a digit; `RejectedSeparatorsOnly` and `IsNumericCharacterisation` rely on the empty case |
| NumericLine.IsNumeric | utils/csv_parser.py:20 | the test as written, `isdigit()` of the residue; characterised by `IsNumericCharacterisation` |
| NumericLine.ResidueMultiset | utils/csv_parser.py:20 | after the three deletions, the characters left are those of the line less one `.`, one `,` and one `-` |
| NumericLine.ResidueCount | utils/csv_parser.py:31 | each separator occurs once less in the residue if it occurs at all; every other character occurs as often as in the line |
| NumericLine.NumericIsLoose | utils/csv_parser.py:20 | a line the test accepts has at most one of each separator, digits elsewhere, and at least one digit |
| NumericLine.LooseIsNumeric | utils/csv_parser.py:31 | every such line passes the test |
| NumericLine.IsNumericCharacterisation | utils/csv_parser.py:20 | the test holds if and only if the line has at most one `.`, one `,` and one `-` anywhere, every other character is a digit, and some digit occurs |
| NumericLine.RejectedSeparatorsOnly | utils/csv_parser.py:20 | `""`, `"."`, `"-"`, `","` and `"-.,"` are not numeric, because `isdigit()` is false on the empty residue |
| NumericLine.CommaDecimalIsNumeric | utils/csv_parser.py:31 | `12,5` is numeric |
| NumericLine.PointDecimalIsNumeric | utils/csv_parser.py:31 | `12.5` is numeric |
| NumericLine.NegativeIsNumeric | utils/csv_parser.py:31 | `-123` is numeric |
| NumericLine.InnerMinusIsNumeric | utils/csv_parser.py:31 | `1-2` is numeric, since the minus may stand anywhere |
| NumericLine.NotNumericAtStart | utils/csv_parser.py:20 | a line that starts with a letter, such as a key, is not numeric |
| Decimal.DigitValue | utils/csv_parser.py:28 | a digit's value is below ten |
| Decimal.DigitChar | utils/csv_parser.py:28 | the digit written for a value below ten reads back as that value |
| Decimal.FractionValue | utils/csv_parser.py:28 | digits after the point are worth at least 0 and less than 1 |
| Decimal.ParseUnsigned | utils/csv_parser.py:28 | an unsigned number reads as a non-negative value |
| Decimal.ShowNat | utils/csv_parser.py:28 | a whole number is written as a non-empty string of digits without a point |
| Decimal.NatValueShowNat | utils/csv_parser.py:28 | the digits of a whole number read back as that number |
| Decimal.ParseShowNat | utils/csv_parser.py:28 | a whole number, bare or with a `-` or `+` sign, reads back as the signed number |
| Decimal.ParsePointed | utils/csv_parser.py:28 | digits, a point and digits read as the whole part plus the fraction |
| Decimal.ParseWithFraction | utils/csv_parser.py:28 | a written whole number followed by a point and digits reads back as the number plus the fraction |
| Decimal.ParseDecimal | utils/csv_parser.py:28 | `float()` on the rate word, with `None` where it raises; specified by `ParseShowNat`, `ParsePointed`, `ParseWithFraction` and `ParseRejects` |
| Decimal.ParseRejects | utils/csv_parser.py:26-30 | `""`, `"."`, `"-"` and a word do not read as numbers, so the `try` block gives no rate |
| CsvParser.Entry | utils/csv_parser.py:21-23 | key and value of a metadata line; tied to the line by `EntryKey` and `EntryValue`, their shape stated by `EntryShape` |
| CsvParser.EntryParts | utils/csv_parser.py:21-23 | the key is `strip()` of the text before the first comma, the value `strip().strip('"')` of the text after it |
| CsvParser.EntryKey | utils/csv_parser.py:21-23 | the key is the slice of the line before its first comma with only whitespace cut off on either side, and, unless empty, it neither starts nor ends with whitespace; this fixes it as `parts[0].strip()` |
| CsvParser.EntryValue | utils/csv_parser.py:21-23 | the value is `strip('"')` of the slice of the line after its first comma with only whitespace cut off on either side, that slice neither starting nor ending with whitespace unless empty; this fixes it as `parts[1].strip().strip('"')` |
| CsvParser.StripWithin | utils/csv_parser.py:23 | `strip()` of a slice of the line is itself a slice of the line, cut only at whitespace and with non-whitespace ends |
| CsvParser.EntryShape | utils/csv_parser.py:21-23 | the stored key holds no comma and has no surrounding whitespace; the stored value has no leading or trailing `"`; both are stripped for good, so stripping again changes nothing |
| CsvParser.RateOf | utils/csv_parser.py:27-28 | the rate a value gives, `None` where the `try` block fails; specified by `RateEntry`, `ZeroRate`, `NegativeRate`, `BlankValueGivesNoRate` and `RateOfHz` |
| CsvParser.Normalize | utils/csv_parser.py:32 | a data token is as long as its line |
| CsvParser.NormalizeSpec | utils/csv_parser.py:32 | a data token is its line with every comma made a point and nothing else changed, so it holds no comma |
| CsvParser.ReadLine | utils/csv_parser.py:19-32 | the loop body on one raw line, as an entry; its fates are stated by `LineFate` |
| CsvParser.ReadStripped | utils/csv_parser.py:20-32 | the same on the stripped line, metadata test first; stated through `LineFate` and `ReadInto` |
| CsvParser.LineFate | utils/csv_parser.py:19-32 | each line has one fate. It is a sample if and only if its stripped form is a loose number, a metadata entry if and only if it holds a comma and is not, and dropped otherwise |
| CsvParser.CommaNumberIsSample | utils/csv_parser.py:20-32 | `12,5` becomes the sample `12.5`, never a metadata entry with key `12` |
| CsvParser.IsRateKey | utils/csv_parser.py:25 | `key.lower() == "messrate"`; stated letter by letter by `RateKeyAnyCase` |
| CsvParser.RateKeyAnyCase | utils/csv_parser.py:25 | a key is the rate key if and only if it spells `messrate` letter by letter in any mix of cases |
| CsvParser.MapSeq | utils/csv_parser.py:18 | one entry per line, in order |
| CsvParser.MapSeqSnoc | utils/csv_parser.py:18 | one more line adds its entry at the end |
| CsvParser.Apply | utils/csv_parser.py:24-32 | one line's effect on the three variables; `ReadInto` is proved to do exactly this, and `FoldMetadata`, `FoldSamplingRate` and `FoldDataLines` state what repeated steps leave |
| CsvParser.Parse | utils/csv_parser.py:13-32 | the whole loop as a fold over the lines; `ParseAppleWatchCsv` is proved equal to it, and `MetadataLastWriteWins`, `SamplingRateIsLastSuccess` and `DataLinesAreNormalizedNumericLines` state what it computes |
| CsvParser.FoldSnoc | utils/csv_parser.py:18-32 | the state after one more entry is that entry applied to the state before |
| CsvParser.ParseSnoc | utils/csv_parser.py:18-32 | the state after one more line is that line's entry applied to the state before |
| CsvParser.ParseAppleWatchCsv | utils/csv_parser.py:13-32 | the loop leaves metadata, tokens and rate equal to the fold of the line entries of `splitlines()`. The tokens are the numeric lines, normalised and in order, and the rate is `None` if and only if no line sets it |
| CsvParser.ReadInto | utils/csv_parser.py:19-32 | one pass of the loop body applies that line's entry to the state |
| CsvParser.SamplesSnoc | utils/csv_parser.py:32 | the tokens of one more entry are the earlier tokens plus its own, if it is a sample |
| CsvParser.FoldDataLines | utils/csv_parser.py:32 | the signal is the sample tokens in input order; metadata and dropped lines do not touch it |
| CsvParser.SamplesOfEntries | utils/csv_parser.py:31-32 | there is one token per numeric stripped line, in order, each the normalised line |
| CsvParser.DataLinesAreNormalizedNumericLines | utils/csv_parser.py:31-32 | the parsed signal has one token per numeric line, in file order, each that line with its commas made points |
| CsvParser.NumericLinesEmpty | utils/csv_parser.py:31 | there are no numeric lines exactly when the test rejects every stripped line |
| CsvParser.SignalEmptyIff | utils/csv_parser.py:31-34 | the signal is empty if and only if no line passes the numeric test |
| CsvParser.FoldMetadata | utils/csv_parser.py:24 | a key is in the map if and only if some entry writes it, and its value is that of the last such entry |
| CsvParser.FoldSamplingRate | utils/csv_parser.py:25-30 | the rate is `None` if and only if no entry sets it; otherwise it is the rate of the last entry that does |
| CsvParser.MetadataLastWriteWins | utils/csv_parser.py:21-24 | a key is in the metadata if and only if some metadata line has it, and later lines with the same key overwrite earlier ones |
| CsvParser.SamplingRateIsLastSuccess | utils/csv_parser.py:13-30 | the rate stays `None` unless some rate-key line has a word that parses; the last such line wins, and failed ones after it change nothing |
| CsvParser.RateEntry | utils/csv_parser.py:25-28 | a metadata entry sets a rate if and only if its key is the rate key and its first word parses, and the rate is that parse |
| CsvParser.ZeroRate | utils/csv_parser.py:28 | a zero rate word sets the rate to 0 |
| CsvParser.NegativeRate | utils/csv_parser.py:28 | a negative rate word sets a negative rate |
| CsvParser.RateLineExample | utils/csv_parser.py:19-28 | the line `Messrate,"512 Hz"` is a metadata entry with key `Messrate`, value `512 Hz` and rate 512 |
| CsvParser.RateKeyMessrate | utils/csv_parser.py:25 | `Messrate` is the rate key |
| CsvParser.RateOfHz | utils/csv_parser.py:27-28 | the value `512 Hz` gives the rate 512 |
| CsvParser.BlankValueGivesNoRate | utils/csv_parser.py:26-30 | an empty or all-whitespace value gives no rate, where Python's `split()[0]` raises inside the `try` |
| CsvParser.FailedRateKeepsRateStoresKey | utils/csv_parser.py:24-30 | a rate line whose word does not parse keeps the earlier rate and still stores its key, in its original case, with its value |
| MedicalAnalysis.FlaggedBelow | models/medical_analysis.py:23-25 | the list the loop has built when it reaches index `hi`; specified by `FlaggedBelowHas` and `FlaggedBelowIncreasing` |
| MedicalAnalysis.Flagged | models/medical_analysis.py:23-25 | the indices `range(1, len - 1)` flags; specified by `FlaggedMembers`, `FlaggedIncreasing` and `FlaggedEmpty` |
| MedicalAnalysis.Report | models/medical_analysis.py:15-28 | the result dictionary, its count the length of the list; `DetectArrhythmias` is proved to return it |
| MedicalAnalysis.FlaggedBelowHas | models/medical_analysis.py:23-25 | before index `hi`, an index is flagged if and only if `1 <= i < hi` and its jump from the previous sample strictly exceeds the threshold |
| MedicalAnalysis.FlaggedBelowIncreasing | models/medical_analysis.py:23-25 | the list built so far is strictly increasing and below `hi` |
| MedicalAnalysis.FlaggedMembers | models/medical_analysis.py:23-25 | an index is flagged if and only if `1 <= i <= len - 2` and `abs(s[i] - s[i-1]) > threshold`; index 0 and the last index never are |
| MedicalAnalysis.FlaggedIncreasing | models/medical_analysis.py:23-25 | the flagged list is strictly increasing, so it has no duplicates |
| MedicalAnalysis.FlaggedEmpty | models/medical_analysis.py:23-24 | nothing is flagged if and only if no interior jump exceeds the threshold |
| MedicalAnalysis.ShortSeriesFlagsNothing | models/medical_analysis.py:15-23 | with fewer than three samples the report is an empty list and zero abnormal beats |
| MedicalAnalysis.ConstantSeriesFlagsNothing | models/medical_analysis.py:21-24 | with a non-negative threshold a constant series flags nothing |
| MedicalAnalysis.SpikeFlagsRiseAndFall | models/medical_analysis.py:23-26 | in `[0,0,0,100,0,0,0]` with a threshold in `[0, 100)`, indices 3 and 4 are flagged |
| MedicalAnalysis.Threshold | models/medical_analysis.py:21 | the threshold is 1.5 times the standard deviation, and it is never negative when the standard deviation is not, so `ConstantSeriesFlagsNothing` applies to `Threshold(std)` |
| MedicalAnalysis.DetectArrhythmias | models/medical_analysis.py:5-28 | the loop returns the specified report. The count equals the list length, the list holds exactly the interior indices whose jump exceeds `1.5 * std`, and it is strictly increasing |
| MedicalAnalysis.Max | models/medical_analysis.py:41 | the maximum is an element of the series and no element exceeds it |
| MedicalAnalysis.Min | models/medical_analysis.py:42 | the minimum is an element of the series and no element is below it |
| MedicalAnalysis.Mean | models/medical_analysis.py:43 | the mean of a non-empty series; specified by `MeanWithin` and `MeanBounds` |
| MedicalAnalysis.SumBounds | models/medical_analysis.py:43 | a sum of values in `[lo, hi]` lies in `[n * lo, n * hi]` |
| MedicalAnalysis.QuotientBounds | models/medical_analysis.py:43 | dividing such a sum by `n` lands in `[lo, hi]` |
| MedicalAnalysis.MeanWithin | models/medical_analysis.py:43 | the mean of values in `[lo, hi]` lies in `[lo, hi]` |
| MedicalAnalysis.MeanBounds | models/medical_analysis.py:41-43 | the mean lies between the minimum and the maximum |
| MedicalAnalysis.AnalyzeEkg | models/medical_analysis.py:30-47 | the statistics are present exactly when the series is not empty; then max and min are elements that bound every sample, and the mean is the exact arithmetic mean `Mean(signal)`, which lies between them. The flag report is that of `detect_arrhythmias` on the same series |
| MedicalAnalysis.AnalyzeSmallSeries | models/medical_analysis.py:40-45 | `[1, 5, 3]` has maximum 5, minimum 1 and mean 3 |

## Left out

- The conversion `float(val)` of the data tokens (utils/csv_parser.py:34) and the `pandas.Series` built from them. The model ends at the list of normalised token strings. Tokens such as `1.2.` (from the line `1.2,`) or `1-2` pass the numeric test, but `float()` raises on them.
- `ParseDecimal` (module `Decimal`) stands in for `float()` on the rate word (utils/csv_parser.py:28). It accepts only an optional sign, digits and at most one point, with at least one digit. Exponents, `inf`, `nan`, underscores and the rounding to a double are not modelled.
- Unicode digits: `isdigit()` is modelled on the ASCII digits only, although Python also accepts characters such as `²`. Likewise `float()` reads non-ASCII decimal digits, so `float("٥١٢")` is 512.0, where `ParseDecimal` gives `None`.
- Unicode case: `lower()` is modelled on ASCII letters only.
- Whitespace and line breaks follow Python's own sets for `isspace()` and `splitlines()`.
- The `len(parts) == 2` test (utils/csv_parser.py:22) always holds on a line that has a comma, so the model has no branch for it.
- Dict insertion order: the metadata is a `map`, so the position a re-assigned key keeps in Python's dict is not modelled.
- `np.std` (models/medical_analysis.py:21) is a parameter `std` of `DetectArrhythmias` and `AnalyzeEkg`.
- Samples are mathematical reals, so `max`, `min` and `mean` carry no IEEE-754 rounding and there are no NaN samples.
- Pandas returns NaN for the statistics of an empty series; `AnalyzeEkg` gives `None` for them instead.
- The model assumes the default positional index of the series.
- `analyze_ekg_with_llm` (models/medical_analysis.py:49-72) is a network call to a language model plus float formatting.
- The Streamlit scripts `ekg.py` and `app.py`, `models/image_analysis.py` and `utils/image_utils.py` are not part of this model. They are user interface, image-model loading and inference, and EXIF handling. The line filter in `ekg.py` is the same test and normalisation as the parser's.
