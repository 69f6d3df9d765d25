# Florida insurance report generator — Dafny model

`FloridaInsurance` reads a CSV of insurance policies. The CSV sits inside a
zip archive. The program keeps the county and the total insured value for 2011
and 2012 of each policy (`InsuranceEntry`). It then writes three small report
files:

- `count.txt`: the number of distinct counties;
- `tiv2012.txt`: the exact total of the 2012 insured values, printed with two
  decimals;
- `most_valuable.txt`: the ten counties whose insured value grew the most
  from 2011 to 2012. It starts with a `country,value` header line.

This project models the part of the program between the I/O:

- **`wrappers.dfy`**: `Option` and `Result`.
- **`java_strings.dfy`**: the Java string operations the program relies on:
  - `String.trim` (it strips every character up to U+0020);
  - `String.split(",")` with its default limit 0. That split drops trailing
    empty fields, and it returns the whole string when there is no separator.
  - `Collectors.joining`.
  The module also proves the split/join round trips.
- **`numbers.dfy`**: money and its text:
  - HALF_UP rounding to hundredths;
  - the `%.2f` text of a `BigDecimal`;
  - the decimal text of a count;
  - a reference reader for those texts, used to state what each text means.
- **`loader.dfy`**: the parsing part of `loadData`:
  - the header loop that fills the column map (a `method` with a loop
    invariant, like the source's `for` loop over a `HashMap`);
  - column resolution;
  - the row filter and parser;
  - the mutable `entries` result (`LoadData`).
  The input is the archive entry's text, already decoded into lines.
- **`reports.dfy`**: `generateCountFile`, `generateTiv2012File` and
  `generateMostValuableFile`. Each is the pure function producing the text it
  hands to `writeToFile`.
- **`sample.dfy`**: a worked example with two counties, giving the text of all
  three report files.

How the model represents the source:

- **Money is `real`.** Amounts are exact, like the `BigDecimal` arithmetic of
  the reports.
- **Parsing a number is a parameter.** `Double.parseDouble` becomes
  `parse: string -> Option<real>`, where `None` stands for
  `NumberFormatException`. The parsed value already includes the
  `BigDecimal.valueOf` conversion.
- **The county-column crash is an explicit failure.** The length filter at
  FloridaInsurance.java:68 checks only the two value columns. A data line
  that passes it but has no field at the county position reaches
  `arr[countyIdx]` at :71. That throws an `ArrayIndexOutOfBoundsException`,
  and the `catch` at :75 does not catch it, so the whole load aborts. The model
  keeps this behaviour:
  - `ParseRow` returns `CountyMissing`;
  - `Load` fails with `CountyIndexOutOfBounds` at the first such line;
  - `CountyBeyondFilterAborts` proves that any such line makes the load fail.
- **The length filter ignores the county column.** The filter at :68
  compares a line's field count only with the larger of the two value
  indices; the county index is not checked (`ParseRowOutcome`).
- **An empty ranking still ends its header with a line break.** With no
  entries, most_valuable.txt is `"country,value\n"`: the header plus a line
  break (:125, `MostValuableTextLines`).
- **The total and the ranking format zero differently.** `%.2f` on an
  unrounded `BigDecimal` takes its sign from the exact value. So a total that
  is negative but rounds to zero prints as `-0.00`: `FormatTotal` starts with
  `-` exactly when the exact total is negative. Ranked values are rounded with
  `setScale(2, HALF_UP)` before formatting, so the same case prints as `0.00`
  there: `FormatCents` starts with `-` exactly when the rounded value is.

## Model

| member | source | states |
|---|---|---|
| JavaStrings.Trim | src/main/java/uj/wmii/pwj/w7/insurance/FloridaInsurance.java:54 | `String.trim` as applied to header cells and to the county field (:71); its meaning is stated by `TrimSpec` |
| JavaStrings.TrimStartSpec | src/main/java/uj/wmii/pwj/w7/insurance/FloridaInsurance.java:54 | the leading part of `trim`: result is a suffix of the input, starts with a character above U+0020 (or is empty), and everything removed is at most U+0020 |
| JavaStrings.TrimEndSpec | src/main/java/uj/wmii/pwj/w7/insurance/FloridaInsurance.java:54 | the trailing part of `trim`: result is a prefix, ends above U+0020 (or is empty), and everything removed is at most U+0020 |
| JavaStrings.TrimSpec | src/main/java/uj/wmii/pwj/w7/insurance/FloridaInsurance.java:54 | `trim` yields a trimmed string that occurs in the input with only characters up to U+0020 around it |
| JavaStrings.TrimWithin | src/main/java/uj/wmii/pwj/w7/insurance/FloridaInsurance.java:71 | trimming adds no characters: anything in the trimmed county was in its field |
| JavaStrings.TrimFixesTrimmed | src/main/java/uj/wmii/pwj/w7/insurance/FloridaInsurance.java:54 | trimming a trimmed string changes nothing |
| JavaStrings.SplitAll | src/main/java/uj/wmii/pwj/w7/insurance/FloridaInsurance.java:51 | splitting on a separator gives at least one field and no field contains the separator |
| JavaStrings.DropTrailingEmpty | src/main/java/uj/wmii/pwj/w7/insurance/FloridaInsurance.java:67 | limit-0 trimming keeps a prefix whose last field is non-empty and drops only empty fields |
| JavaStrings.JavaSplit | src/main/java/uj/wmii/pwj/w7/insurance/FloridaInsurance.java:51 | `split(",")`: no comma gives the whole line as the one field; otherwise a prefix of all fields with trailing empty fields removed; no field holds a comma |
| JavaStrings.SplitAllWithin | src/main/java/uj/wmii/pwj/w7/insurance/FloridaInsurance.java:51 | splitting only cuts: every character of a field occurs in the split string |
| JavaStrings.JavaSplitWithin | src/main/java/uj/wmii/pwj/w7/insurance/FloridaInsurance.java:67 | every character of a field of `split(",")` occurs in the line, so a line without line breaks yields fields without them |
| JavaStrings.SplitAllNoSeparator | src/main/java/uj/wmii/pwj/w7/insurance/FloridaInsurance.java:51 | a string without the separator splits into itself |
| JavaStrings.SplitAllAtFirst | src/main/java/uj/wmii/pwj/w7/insurance/FloridaInsurance.java:51 | splitting at the first separator gives the part before it followed by the split of the rest |
| JavaStrings.SplitJoin | src/main/java/uj/wmii/pwj/w7/insurance/FloridaInsurance.java:122 | fields free of the separator, joined and split again, come back unchanged |
| JavaStrings.JoinSplit | src/main/java/uj/wmii/pwj/w7/insurance/FloridaInsurance.java:122 | splitting a text and joining the fields restores the text |
| JavaStrings.Join | src/main/java/uj/wmii/pwj/w7/insurance/FloridaInsurance.java:122 | `Collectors.joining("\n")`; `SplitJoin` and `JoinSplit` state that it is the inverse of splitting |
| JavaStrings.TrailingEmptyFieldDropped | src/main/java/uj/wmii/pwj/w7/insurance/FloridaInsurance.java:67-68 | "1,2," splits into two fields, not three, which is what the length filter counts |
| Numbers.HalfUpCents | src/main/java/uj/wmii/pwj/w7/insurance/FloridaInsurance.java:121 | HALF_UP to hundredths: within half a hundredth of the exact value, and a tie goes away from zero |
| Numbers.HalfUpCentsOfAbs | src/main/java/uj/wmii/pwj/w7/insurance/FloridaInsurance.java:101 | rounding the magnitude gives the magnitude of the rounded value |
| Numbers.NatToString | src/main/java/uj/wmii/pwj/w7/insurance/FloridaInsurance.java:93 | `String.valueOf(long)` of a count: non-empty digits without a leading zero |
| Numbers.NatToStringRoundTrip | src/main/java/uj/wmii/pwj/w7/insurance/FloridaInsurance.java:93 | the digits of a count read back as that count |
| Numbers.Unsigned2RoundTrip | src/main/java/uj/wmii/pwj/w7/insurance/FloridaInsurance.java:101 | the unsigned `%.2f` text of n hundredths reads back as n |
| Numbers.FormatCentsRoundTrip | src/main/java/uj/wmii/pwj/w7/insurance/FloridaInsurance.java:119-121 | a value already at scale 2 prints as text that reads back as the same hundredths, negatives included |
| Numbers.FormatCents | src/main/java/uj/wmii/pwj/w7/insurance/FloridaInsurance.java:119-121 | `%.2f` of a value already at scale 2: non-empty, and it starts with `-` exactly when the value is negative; `FormatCentsRoundTrip` states that it reads back as the same hundredths |
| Numbers.FormatCentsChars | src/main/java/uj/wmii/pwj/w7/insurance/FloridaInsurance.java:119-121 | a formatted amount holds only digits, `-` and `.`, so it never contains a comma or line break |
| Numbers.FormatTotal | src/main/java/uj/wmii/pwj/w7/insurance/FloridaInsurance.java:101 | `%.2f` of an unrounded amount: non-empty, and it starts with `-` exactly when the exact amount is negative, so a tiny negative total prints "-0.00" |
| Numbers.FormatTotalRoundTrip | src/main/java/uj/wmii/pwj/w7/insurance/FloridaInsurance.java:101 | `%.2f` of an exact amount reads back as the HALF_UP-rounded hundredths and has two digits after the point |
| Loader.HeaderNames | src/main/java/uj/wmii/pwj/w7/insurance/FloridaInsurance.java:53-54 | one name per header cell |
| Loader.HeaderNamesAt | src/main/java/uj/wmii/pwj/w7/insurance/FloridaInsurance.java:54 | the name of header cell i is that cell trimmed |
| Loader.ColumnMap | src/main/java/uj/wmii/pwj/w7/insurance/FloridaInsurance.java:51-55 | the map the header loop builds; `ColumnMapLastWins` states its contents |
| Loader.BuildColumnMap | src/main/java/uj/wmii/pwj/w7/insurance/FloridaInsurance.java:52-55 | the header loop produces exactly the column map: each trimmed name mapped by successive `put`s |
| Loader.PositionMapLastWins | src/main/java/uj/wmii/pwj/w7/insurance/FloridaInsurance.java:52-55 | a name is in the map iff it occurs, and its index is its last occurrence |
| Loader.ColumnMapLastWins | src/main/java/uj/wmii/pwj/w7/insurance/FloridaInsurance.java:51-55 | the same over the header cells: a name is mapped iff some trimmed cell equals it, to the last such cell |
| Loader.ResolvedColumns | src/main/java/uj/wmii/pwj/w7/insurance/FloridaInsurance.java:58-60 | with all three names present, each index is a header position whose trimmed name is that column's name |
| Loader.ParseRow | src/main/java/uj/wmii/pwj/w7/insurance/FloridaInsurance.java:67-78 | one data line through split, filter, county access and parsing; `ParseRowOutcome` states each outcome as an iff |
| Loader.RowOutcomes | src/main/java/uj/wmii/pwj/w7/insurance/FloridaInsurance.java:66-78 | each data line, in order, meets the per-line split, filter and parse |
| Loader.Collect | src/main/java/uj/wmii/pwj/w7/insurance/FloridaInsurance.java:66-80 | the `filter(nonNull)` and `toList` stages, aborting at the first out-of-bounds county; `CollectSucceedsIff`, `CollectFailsAtFirst` and `CollectKeepsParsed` state its result |
| Loader.ParseRows | src/main/java/uj/wmii/pwj/w7/insurance/FloridaInsurance.java:66-80 | the whole stream pipeline over the data lines: outcomes then collection |
| Loader.CollectSucceedsIff | src/main/java/uj/wmii/pwj/w7/insurance/FloridaInsurance.java:68-75 | the pipeline completes iff no line passes the length filter without a county field |
| Loader.CollectFailsAtFirst | src/main/java/uj/wmii/pwj/w7/insurance/FloridaInsurance.java:68-75 | a failed pipeline reports the out-of-bounds index and field count of the first offending line |
| Loader.CollectKeepsParsed | src/main/java/uj/wmii/pwj/w7/insurance/FloridaInsurance.java:66-80 | a completed pipeline returns exactly the parsed lines' entries, in line order |
| Loader.CollectAppend | src/main/java/uj/wmii/pwj/w7/insurance/FloridaInsurance.java:66-80 | the result of two stretches of lines is the first's entries then the second's, or the first failure |
| Loader.DroppedRowInvisible | src/main/java/uj/wmii/pwj/w7/insurance/FloridaInsurance.java:68-79 | a line that is too short or does not parse changes nothing: no entry, no error |
| Loader.Load | src/main/java/uj/wmii/pwj/w7/insurance/FloridaInsurance.java:48-80 | `loadData` after the archive is opened; `LoadOutcome`, `LoadedEntries` and `CountyBeyondFilterAborts` state its results |
| Loader.LoadData | src/main/java/uj/wmii/pwj/w7/insurance/FloridaInsurance.java:48-80 | the imperative loader with its header loop and `entries` list computes `Load` |
| Loader.LoadOutcome | src/main/java/uj/wmii/pwj/w7/insurance/FloridaInsurance.java:48-64 | no header line gives no entries and no error; a header missing a required name fails with `MissingColumns`; otherwise the data lines are parsed against the resolved columns |
| Loader.ParseRowOutcome | src/main/java/uj/wmii/pwj/w7/insurance/FloridaInsurance.java:67-78 | a line is dropped as too short iff its field count is at most the larger value index (the county index is not consulted); it aborts iff it passes that but lacks the county field; it is dropped iff a value fails to parse; otherwise the entry holds the trimmed, comma-free county and both parsed values |
| Loader.LoadedEntries | src/main/java/uj/wmii/pwj/w7/insurance/FloridaInsurance.java:66-80 | a successful load is an order-preserving selection of exactly the parsed data lines, every county is trimmed and comma-free, and when no input line holds a line break no county does |
| Loader.CountyBeyondFilterAborts | src/main/java/uj/wmii/pwj/w7/insurance/FloridaInsurance.java:68-75 | a data line longer than both value indices but not reaching the county index makes the whole load fail with the out-of-bounds error |
| Reports.Counties | src/main/java/uj/wmii/pwj/w7/insurance/FloridaInsurance.java:88 | one county per entry, in order |
| Reports.Distinct | src/main/java/uj/wmii/pwj/w7/insurance/FloridaInsurance.java:89 | `distinct()` yields no duplicates, the same members, and no more elements |
| Reports.CountyCount | src/main/java/uj/wmii/pwj/w7/insurance/FloridaInsurance.java:87-90 | the `count()` of distinct counties; `CountyCountIsDistinct` states its value |
| Reports.CountySetIsCounties | src/main/java/uj/wmii/pwj/w7/insurance/FloridaInsurance.java:88 | the set of counties holds exactly the counties of the mapped stream |
| Reports.CountyCountIsDistinct | src/main/java/uj/wmii/pwj/w7/insurance/FloridaInsurance.java:87-90 | the count equals the number of distinct counties, is 0 for no entries and never exceeds the number of entries |
| Reports.CountText | src/main/java/uj/wmii/pwj/w7/insurance/FloridaInsurance.java:86-93 | the text of count.txt; `CountTextMeaning` states it |
| Reports.CountTextMeaning | src/main/java/uj/wmii/pwj/w7/insurance/FloridaInsurance.java:87-93 | count.txt is all digits, reads back as the number of distinct counties, and is "0" for no entries |
| Reports.SumTiv2012 | src/main/java/uj/wmii/pwj/w7/insurance/FloridaInsurance.java:97-99 | the exact `reduce` of the 2012 values; `SumTiv2012Append` states how it adds up |
| Reports.SumTiv2012Append | src/main/java/uj/wmii/pwj/w7/insurance/FloridaInsurance.java:97-99 | the exact total over two stretches of entries is the sum of their totals, so appending an entry adds exactly its 2012 value |
| Reports.Tiv2012Text | src/main/java/uj/wmii/pwj/w7/insurance/FloridaInsurance.java:96-104 | the text of tiv2012.txt; `Tiv2012TextMeaning` states it |
| Reports.Tiv2012TextMeaning | src/main/java/uj/wmii/pwj/w7/insurance/FloridaInsurance.java:97-104 | tiv2012.txt reads back as the exact total rounded HALF_UP to hundredths, and is "0.00" for no entries |
| Reports.GroupSum | src/main/java/uj/wmii/pwj/w7/insurance/FloridaInsurance.java:109-115 | one county's exact summed `tiv2012 - tiv2011`; `GroupsPartition` and `GroupSumAbsent` state how the sums relate to the entries |
| Reports.Groups | src/main/java/uj/wmii/pwj/w7/insurance/FloridaInsurance.java:109-116 | one group per distinct county, each holding that county's exact summed change, no county twice |
| Reports.GroupsCover | src/main/java/uj/wmii/pwj/w7/insurance/FloridaInsurance.java:109-115 | every county of the entries has its group |
| Reports.GroupSumAbsent | src/main/java/uj/wmii/pwj/w7/insurance/FloridaInsurance.java:109-115 | a county with no entries sums to zero |
| Reports.GroupsPartition | src/main/java/uj/wmii/pwj/w7/insurance/FloridaInsurance.java:109-115 | the group values add up to the summed change over all entries: grouping loses and duplicates nothing |
| Reports.DescendingNonIncreasing | src/main/java/uj/wmii/pwj/w7/insurance/FloridaInsurance.java:117 | values ordered pairwise along neighbours are ordered between any two positions |
| Reports.Insert | src/main/java/uj/wmii/pwj/w7/insurance/FloridaInsurance.java:117 | inserting into a descending sequence keeps it descending and adds exactly the one group |
| Reports.SortDescending | src/main/java/uj/wmii/pwj/w7/insurance/FloridaInsurance.java:117 | the sorted stream is descending by value and a permutation of the groups |
| Reports.Ranking | src/main/java/uj/wmii/pwj/w7/insurance/FloridaInsurance.java:116-118 | sorted groups cut to ten; `RankingSize`, `RankingOrdered`, `RankingGroups` and `RankingIsTop` state it |
| Reports.RankingSize | src/main/java/uj/wmii/pwj/w7/insurance/FloridaInsurance.java:116-118 | the ranking has min(10, number of distinct counties) rows, and none exactly when there are no entries |
| Reports.RankingOrdered | src/main/java/uj/wmii/pwj/w7/insurance/FloridaInsurance.java:117-118 | the ranked (unrounded) values never increase down the list |
| Reports.RankingGroups | src/main/java/uj/wmii/pwj/w7/insurance/FloridaInsurance.java:109-118 | each ranked county is a county of the entries with its exact summed change, and no county is ranked twice |
| Reports.RankingIsTop | src/main/java/uj/wmii/pwj/w7/insurance/FloridaInsurance.java:116-118 | a county left out of the ranking sums to no more than any ranked county |
| Reports.RankLine | src/main/java/uj/wmii/pwj/w7/insurance/FloridaInsurance.java:119-121 | `"%s,%.2f"` of a county and its value at scale 2; `RankLineFields` states its fields |
| Reports.RankLines | src/main/java/uj/wmii/pwj/w7/insurance/FloridaInsurance.java:119-121 | one formatted line per ranked group, in ranking order |
| Reports.RankLineFields | src/main/java/uj/wmii/pwj/w7/insurance/FloridaInsurance.java:119-121 | a ranked line splits at its comma into the county and an amount that reads back as the HALF_UP-rounded value |
| Reports.MostValuableText | src/main/java/uj/wmii/pwj/w7/insurance/FloridaInsurance.java:107-125 | the text of most_valuable.txt; `MostValuableTextLines` and `MostValuableRow` state it |
| Reports.MostValuableTextLines | src/main/java/uj/wmii/pwj/w7/insurance/FloridaInsurance.java:119-125 | with no entries the file is the header and a line break; otherwise its lines are the header followed by exactly the ranked rows, with no line break after the last |
| Reports.MostValuableRow | src/main/java/uj/wmii/pwj/w7/insurance/FloridaInsurance.java:108-125 | line k+1 of the file names a county of the entries and holds its exact summed change rounded HALF_UP to hundredths |
| Fixture.SampleCount | src/main/java/uj/wmii/pwj/w7/insurance/FloridaInsurance.java:87-93 | two entries for Dade and one for Lee give count.txt "2" |
| Fixture.SampleTotal | src/main/java/uj/wmii/pwj/w7/insurance/FloridaInsurance.java:97-104 | the 2012 values 150, 40 and 5 give tiv2012.txt "195.00" |
| Fixture.SampleRanking | src/main/java/uj/wmii/pwj/w7/insurance/FloridaInsurance.java:108-118 | the sample ranks Dade (+40) above Lee (-5) |
| Fixture.SampleMostValuable | src/main/java/uj/wmii/pwj/w7/insurance/FloridaInsurance.java:108-125 | the sample's most_valuable.txt is "country,value\nDade,40.00\nLee,-5.00" |

## Left out

- Opening the zip archive, taking its first entry, and decoding it as UTF-8
  lines (FloridaInsurance.java:36-45, including the empty-archive
  `FileNotFoundException`). This is archive and stream I/O; the model starts
  from the decoded lines.
- `writeToFile` (:129-134) and `main` (:17-31), with its call order and
  console messages. These are filesystem and console I/O; each report is
  modelled as the text it would write.
- `Double.parseDouble` and the binary `double` behind `BigDecimal.valueOf`
  (:72-73, :98, :112). Parsing is the parameter `parse`, and its result is
  taken as the exact decimal `BigDecimal.valueOf` yields. Rounding of
  `double` values is not modelled.
- NaN and infinite doubles. `parseDouble` accepts "NaN" and "Infinity", and
  `BigDecimal.valueOf` then throws `NumberFormatException`. That exception
  escapes the report methods, which do not catch it. The model's `parse`
  yields only finite amounts, so this abort is not captured.
- `HashMap` iteration order (:109-116). The grouping map's entries are
  modelled in order of first appearance. Only the non-increasing order of the
  ranking is claimed; which of several tied counties ranks first is not.
- `String.format` locale details beyond `Locale.US`: a `.` separator, no
  grouping, two fraction digits, HALF_UP.
- `count` is a `long` and the count text uses unbounded integers. A list of
  more than 2^63 entries is not a concern.
- Loader.Load for a whole concrete file is not worked as an example.
  The sample (`Fixture`) starts from the entries, because the parser is a
  parameter.
