# Number array tally, modelled in Dafny

`NumberArrayProcessor.run(int[] numbers)` counts how often each integer occurs
in an array and prints one line per distinct value, `Number <value> appears
<count> time(s)`, in ascending order of value. It is a single stream pipeline:
`groupingBy(identity, counting)` builds a map from value to count, the map's
entry set is streamed, `sorted(comparingByKey)` orders the entries and
`forEach` prints them.

The model separates the computation from the printing and follows the
pipeline stage by stage, all as pure functions:

- `decimal.dfy`, module `Decimal`: the decimal text Java prints for an
  `Integer` and a `Long` (`IntToString`, `NatToString`), with parsers that
  prove each printed form can be read back, and that every accepted text is
  what the printer produces.
- `number_array_processor.dfy`, module `NumberArrayProcessor`: `Tally` (the
  grouping collector, a `map<int, nat>`), `EntryList` (an enumeration of the
  entry set), `SortByKey` (a stable insertion sort by key), `Report` (the
  sorted entries), `Line` (the format of one printed line) and `Run` (the
  printed lines). The central definition is `IsHistogram(r, ms)`. It says
  that `r` has one entry per distinct element of the bag `ms`, that the
  entries are strictly ascending by value, and that each entry's count is that
  element's multiplicity. The report is proved to be the histogram of the
  input's multiset, and a bag has only one histogram. From these two facts
  follow the order-independence results: the report does not depend on the
  map's iteration order, and it depends on the input only through its
  multiset.
- `processor_examples.dfy`, module `ProcessorExamples`: the unit-test
  scenarios (empty array, `{7}`, the interview array) and a negative-value
  example, stated as exact reports and exact printed lines.

## Model

| member | source | states |
|---|---|---|
| Decimal.NatToString | src/main/java/NumberArrayProcessor.java:43-44 | the printed count is a canonical numeral: one or more digits, with a leading `0` exactly when the count is zero |
| Decimal.IntToString | src/main/java/NumberArrayProcessor.java:43-44 | the printed value starts with a minus sign exactly when it is negative, and the rest is a canonical numeral (no leading zeros); `IntRoundTrip` and `ParseIntCanonical` pin its value |
| Decimal.NatRoundTrip | src/main/java/NumberArrayProcessor.java:43-44 | reading back the printed count gives the count |
| Decimal.ParseNatCanonical | src/main/java/NumberArrayProcessor.java:43-44 | every canonical numeral is the printed form of its value, so the count's text is unique |
| Decimal.IntRoundTrip | src/main/java/NumberArrayProcessor.java:43-44 | reading back the printed value, negative ones included, gives the value |
| Decimal.ParseIntCanonical | src/main/java/NumberArrayProcessor.java:43-44 | every canonical integer numeral is the printed form of its value |
| NumberArrayProcessor.Tally | src/main/java/NumberArrayProcessor.java:38-40 | the grouping map's keys are exactly the input values; each maps to its number of occurrences (its multiplicity in the input), which is at least 1 |
| NumberArrayProcessor.FirstOccurrences | src/main/java/NumberArrayProcessor.java:41 | the enumeration order of the entry set lists every distinct input value exactly once |
| NumberArrayProcessor.EntryListEnumerates | src/main/java/NumberArrayProcessor.java:40-41 | the streamed entries are exactly the map's entries, each key once |
| NumberArrayProcessor.Insert | src/main/java/NumberArrayProcessor.java:42 | inserting into the sorted prefix adds exactly the one entry: the result is a permutation of the old sequence plus that entry |
| NumberArrayProcessor.InsertAscending | src/main/java/NumberArrayProcessor.java:42 | inserting keeps a sequence ascending by key |
| NumberArrayProcessor.InsertStrictlyAscending | src/main/java/NumberArrayProcessor.java:42 | inserting a new key keeps a sequence strictly ascending by key |
| NumberArrayProcessor.SortByKey | src/main/java/NumberArrayProcessor.java:42 | `sorted(comparingByKey)` returns a permutation of its input ordered by key, and strictly ordered when the keys are distinct |
| NumberArrayProcessor.SortedEnumerationIsHistogram | src/main/java/NumberArrayProcessor.java:40-42 | sorting any enumeration of the tally, whatever its order, gives the histogram of the input |
| NumberArrayProcessor.ReportIsHistogram | src/main/java/NumberArrayProcessor.java:38-42 | the report has one entry per distinct input value and no other; its values are strictly ascending, hence without duplicates; each count is that value's number of occurrences |
| NumberArrayProcessor.HistogramUnique | src/main/java/NumberArrayProcessor.java:42 | two histograms of the same bag are equal, so the sorted report is fully determined |
| NumberArrayProcessor.ReportIndependentOfEnumeration | src/main/java/NumberArrayProcessor.java:41-42 | the map's iteration order does not affect the report |
| NumberArrayProcessor.ReportDependsOnlyOnMultiset | src/main/java/NumberArrayProcessor.java:38-42 | two inputs have the same report if and only if they hold the same values equally often, so reordering the array changes nothing |
| NumberArrayProcessor.HistogramSum | src/main/java/NumberArrayProcessor.java:40 | the counts of a histogram add up to the size of its bag |
| NumberArrayProcessor.ReportCounts | src/main/java/NumberArrayProcessor.java:40 | every reported count is at least 1, and the counts add up to the input length |
| NumberArrayProcessor.ReportLength | src/main/java/NumberArrayProcessor.java:40-41 | the report has exactly as many entries as the input has distinct values |
| NumberArrayProcessor.Lines | src/main/java/NumberArrayProcessor.java:43-44 | `forEach` prints exactly one line per sorted entry |
| NumberArrayProcessor.LineRoundTrip | src/main/java/NumberArrayProcessor.java:43-44 | a printed line reads back as the value and count it was printed for, so distinct entries print distinct lines |
| NumberArrayProcessor.ParseLineCanonical | src/main/java/NumberArrayProcessor.java:43-44 | every line that reads back as an entry is exactly the line printed for that entry |
| NumberArrayProcessor.LinesRoundTrip | src/main/java/NumberArrayProcessor.java:43-44 | the lines printed for a sequence of entries read back as that sequence |
| NumberArrayProcessor.RunPrintsHistogram | src/main/java/NumberArrayProcessor.java:38-44 | the printout reads back as the histogram of the input: one line per distinct value, in strictly ascending order of value, each with that value's number of occurrences |
| NumberArrayProcessor.RunDependsOnlyOnMultiset | src/main/java/NumberArrayProcessor.java:38-44 | two inputs print the same lines if and only if they hold the same values equally often |
| ProcessorExamples.EmptyInput | src/test/java/NumberArrayProcessorTest.java:42-49 | an empty array gives an empty report and prints no line |
| ProcessorExamples.SingleElement | src/test/java/NumberArrayProcessorTest.java:57-62 | `{7}` gives exactly the entry (7, 1) and prints exactly `Number 7 appears 1 time(s)` |
| ProcessorExamples.InterviewArray | src/test/java/NumberArrayProcessorTest.java:24-35 | the interview array gives (1,4), (2,4), (3,3), (4,4), (5,1) in that order and prints exactly those five lines |
| ProcessorExamples.NegativeValues | src/main/java/NumberArrayProcessor.java:38-44 | `{-1, -1, 0}` gives (-1, 2) then (0, 1), printed with a minus sign on the first value |

## Left out

- Printing: `forEach(... System.out.println(...))` is I/O. `Run` returns the sequence of lines that would be printed, in order, without the line terminators.
- `main` (src/main/java/NumberArrayProcessor.java:17-27) prints a fixed demonstration array and a blank line before calling `run`. That is I/O with no logic; its array is the one `ProcessorExamples.InterviewArray` covers.
- The iteration order of the `HashMap` that `groupingBy` builds is unspecified in Java. The model enumerates the entry set in first-occurrence order (`FirstOccurrences`). `ReportIndependentOfEnumeration` shows that every other enumeration yields the same report.
- A `null` array makes `run` throw `NullPointerException`. The code has no explicit check of its own, so the model follows the code and signals no error. Dafny sequences cannot be null.
- Java's `int` range for values and `long` range for counts are not modelled: values are unbounded `int`s and counts are `nat`s. A count never exceeds the array length, so `Collectors.counting()` cannot overflow. `Integer.toString` prints every `int`, including the most negative one, in the form `IntToString` gives.
- The unit tests check only that the output contains each expected line. The example lemmas state the exact sequence of lines, which is a stronger claim.
- Calling `run` twice on the same input prints the same lines both times. In the model this holds by construction, because `Run` is a function, so no lemma states it.
