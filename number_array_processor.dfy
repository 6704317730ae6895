/** The tally that `NumberArrayProcessor.run` prints: the input integers are
    grouped by value, each group is counted, the (value, count) entries are
    sorted by value and one line is printed per entry.

    The pipeline is modelled step by step: `Tally` is the
    `groupingBy(identity, counting)` collector, `EntryList` is the stream over
    the entry set, `SortByKey` is `sorted(comparingByKey)`, `Report` is the
    sorted entry sequence and `Run` the sequence of printed lines. */
module NumberArrayProcessor {

  import opened Decimal

  /** One `Map.Entry<Integer, Long>` of the grouped counts. */
  datatype Entry = Entry(value: int, count: nat)

  function Keys(es: seq<Entry>): seq<int> {
    seq(|es|, i requires 0 <= i < |es| => es[i].value)
  }

  ghost predicate DistinctKeys(es: seq<Entry>) {
    forall i, j :: 0 <= i < j < |es| ==> es[i].value != es[j].value
  }

  /** Ordered by `Map.Entry.comparingByKey()`, equal keys allowed. */
  ghost predicate Ascending(es: seq<Entry>) {
    forall i, j :: 0 <= i < j < |es| ==> es[i].value <= es[j].value
  }

  ghost predicate StrictlyAscending(es: seq<Entry>) {
    forall i, j :: 0 <= i < j < |es| ==> es[i].value < es[j].value
  }

  /** `r` is the histogram of the bag `ms`: one entry per distinct element,
      in strictly ascending order of value, each carrying that element's
      multiplicity. */
  ghost predicate IsHistogram(r: seq<Entry>, ms: multiset<int>) {
    && StrictlyAscending(r)
    && (forall i :: 0 <= i < |r| ==> r[i].count == ms[r[i].value])
    && (forall v :: v in ms <==> v in Keys(r))
  }

  // ---------------------------------------------------------------------------
  // Grouping and counting

  /** `groupingBy(Function.identity(), Collectors.counting())`: each value
      that occurs in `s` is mapped to its number of occurrences. */
  function Tally(s: seq<int>): (m: map<int, nat>)
    ensures forall v :: v in m <==> v in s
    ensures forall v :: v in m ==> m[v] == multiset(s)[v] && m[v] >= 1
    decreases |s|
  {
    if s == [] then map[]
    else
      var init, x := s[..|s| - 1], s[|s| - 1];
      assert s == init + [x];
      var m := Tally(init);
      m[x := if x in m then m[x] + 1 else 1]
  }

  /** The distinct values of `s` in the order of their first occurrence. It
      fixes one enumeration order of the tally's entry set; the order a
      `HashMap` yields is unspecified, and ReportIndependentOfEnumeration shows
      that the report does not depend on it. */
  function FirstOccurrences(s: seq<int>): (d: seq<int>)
    ensures forall v :: v in d <==> v in s
    ensures forall i, j :: 0 <= i < j < |d| ==> d[i] != d[j]
    decreases |s|
  {
    if s == [] then []
    else
      var d := FirstOccurrences(s[..|s| - 1]);
      var x := s[|s| - 1];
      if x in d then d else d + [x]
  }

  /** The entries of `m` listed in the order of `order`. */
  function EntryList(m: map<int, nat>, order: seq<int>): seq<Entry>
    requires forall i :: 0 <= i < |order| ==> order[i] in m
  {
    seq(|order|, i requires 0 <= i < |order| => Entry(order[i], m[order[i]]))
  }

  /** `es` lists the entry set of `m`, each key once, in some order. */
  ghost predicate Enumerates(es: seq<Entry>, m: map<int, nat>) {
    && DistinctKeys(es)
    && (forall i :: 0 <= i < |es| ==> es[i].value in m && es[i].count == m[es[i].value])
    && (forall k :: k in m ==> k in Keys(es))
  }

  lemma EntryListEnumerates(s: seq<int>)
    ensures Enumerates(EntryList(Tally(s), FirstOccurrences(s)), Tally(s))
  {
    var m, d := Tally(s), FirstOccurrences(s);
    var es := EntryList(m, d);
    forall k | k in m ensures k in Keys(es) {
      var i :| 0 <= i < |d| && d[i] == k;
      assert Keys(es)[i] == k;
    }
  }

  // ---------------------------------------------------------------------------
  // Sorting by key

  /** Places `e` into `r` after the leading entries whose key is not greater
      than its own; in an ascending `r` that is after every entry with an equal
      key, as a stable sort does. */
  function Insert(e: Entry, r: seq<Entry>): (t: seq<Entry>)
    ensures multiset(t) == multiset(r) + multiset{e}
    decreases |r|
  {
    if r == [] || e.value < r[0].value then [e] + r
    else
      assert r == [r[0]] + r[1..];
      [r[0]] + Insert(e, r[1..])
  }

  /** Every entry of `Insert(e, r)` is `e` or an entry of `r`. */
  lemma InsertMembers(e: Entry, r: seq<Entry>)
    ensures forall j :: 0 <= j < |Insert(e, r)| ==> Insert(e, r)[j] == e || Insert(e, r)[j] in r
  {
    var t := Insert(e, r);
    forall j | 0 <= j < |t| ensures t[j] == e || t[j] in r {
      assert t[j] in multiset(t);
    }
  }

  /** Inserting into an ascending sequence keeps it ascending. */
  lemma {:induction false} InsertAscending(e: Entry, r: seq<Entry>)
    requires Ascending(r)
    ensures Ascending(Insert(e, r))
    decreases |r|
  {
    var t := Insert(e, r);
    if r != [] && e.value >= r[0].value {
      var t' := Insert(e, r[1..]);
      InsertAscending(e, r[1..]);
      InsertMembers(e, r[1..]);
      assert t == [r[0]] + t';
      forall i, j | 0 <= i < j < |t| ensures t[i].value <= t[j].value {
        assert t[j] == t'[j - 1];
        if i > 0 {
          assert t[i] == t'[i - 1];
        } else if t'[j - 1] != e {
          var k :| 0 <= k < |r| - 1 && r[k + 1] == t'[j - 1];
        }
      }
    }
  }

  /** Inserting an entry with a new key into a strictly ascending sequence
      keeps it strictly ascending. */
  lemma {:induction false} InsertStrictlyAscending(e: Entry, r: seq<Entry>)
    requires StrictlyAscending(r) && e.value !in Keys(r)
    ensures StrictlyAscending(Insert(e, r))
    decreases |r|
  {
    var t := Insert(e, r);
    if r != [] && e.value >= r[0].value {
      assert Keys(r) == [r[0].value] + Keys(r[1..]);
      var t' := Insert(e, r[1..]);
      InsertStrictlyAscending(e, r[1..]);
      InsertMembers(e, r[1..]);
      assert t == [r[0]] + t';
      forall i, j | 0 <= i < j < |t| ensures t[i].value < t[j].value {
        assert t[j] == t'[j - 1];
        if i > 0 {
          assert t[i] == t'[i - 1];
        } else if t'[j - 1] != e {
          var k :| 0 <= k < |r| - 1 && r[k + 1] == t'[j - 1];
        }
      }
    }
  }

  lemma KeysOfPermutation(a: seq<Entry>, b: seq<Entry>)
    requires multiset(a) == multiset(b)
    ensures forall v :: v in Keys(a) ==> v in Keys(b)
  {
    forall v | v in Keys(a) ensures v in Keys(b) {
      var i :| 0 <= i < |a| && Keys(a)[i] == v;
      assert a[i] in multiset(b);
      var j :| 0 <= j < |b| && b[j] == a[i];
      assert Keys(b)[j] == v;
    }
  }

  /** `sorted(Map.Entry.comparingByKey())`: an ascending permutation of `es`,
      strictly ascending when the keys of `es` are distinct. */
  function SortByKey(es: seq<Entry>): (r: seq<Entry>)
    ensures Ascending(r)
    ensures multiset(r) == multiset(es)
    ensures DistinctKeys(es) ==> StrictlyAscending(r)
    decreases |es|
  {
    if es == [] then []
    else
      var init, e := es[..|es| - 1], es[|es| - 1];
      assert es == init + [e];
      var r := SortByKey(init);
      assert DistinctKeys(es) ==> e.value !in Keys(r) by {
        if DistinctKeys(es) {
          forall i | 0 <= i < |init| ensures Keys(init)[i] != e.value {
            assert es[i] == init[i];
          }
          KeysOfPermutation(r, init);
        }
      }
      InsertAscending(e, r);
      assert DistinctKeys(es) ==> StrictlyAscending(Insert(e, r)) by {
        if DistinctKeys(es) {
          InsertStrictlyAscending(e, r);
        }
      }
      Insert(e, r)
  }

  // ---------------------------------------------------------------------------
  // The report

  /** The entries `run` prints, in the order it prints them. */
  function Report(numbers: seq<int>): seq<Entry> {
    SortByKey(EntryList(Tally(numbers), FirstOccurrences(numbers)))
  }

  /** Sorting ANY enumeration of the tally's entry set yields the histogram of
      the input. */
  lemma SortedEnumerationIsHistogram(es: seq<Entry>, s: seq<int>)
    requires Enumerates(es, Tally(s))
    ensures IsHistogram(SortByKey(es), multiset(s))
  {
    var r, m := SortByKey(es), Tally(s);
    forall i | 0 <= i < |r| ensures r[i].count == multiset(s)[r[i].value] {
      assert r[i] in multiset(es);
    }
    KeysOfPermutation(r, es);
    KeysOfPermutation(es, r);
    forall v ensures v in multiset(s) <==> v in Keys(r) {
      if v in Keys(r) {
        var i :| 0 <= i < |es| && Keys(es)[i] == v;
        assert es[i].value in m;
      }
    }
  }

  /** The report counts every distinct input value once, in strictly
      ascending order, with its number of occurrences. */
  lemma ReportIsHistogram(numbers: seq<int>)
    ensures IsHistogram(Report(numbers), multiset(numbers))
  {
    EntryListEnumerates(numbers);
    SortedEnumerationIsHistogram(EntryList(Tally(numbers), FirstOccurrences(numbers)), numbers);
  }

  /** Removing the first entry of a histogram leaves the histogram of the bag
      without that value. */
  lemma HistogramTail(r: seq<Entry>, ms: multiset<int>)
    requires IsHistogram(r, ms) && |r| > 0
    ensures IsHistogram(r[1..], ms[r[0].value := 0])
  {
    var v, t, ms' := r[0].value, r[1..], ms[r[0].value := 0];
    assert Keys(r) == [v] + Keys(t);
    forall i | 0 <= i < |t| ensures t[i].count == ms'[t[i].value] {
      assert r[i + 1] == t[i];
    }
    forall w ensures w in ms' <==> w in Keys(t) {
      if w in Keys(t) {
        var i :| 0 <= i < |t| && Keys(t)[i] == w;
        assert r[i + 1].value == w;
      }
    }
  }

  /** A histogram is empty exactly when its bag is. */
  lemma HistogramEmpty(r: seq<Entry>, ms: multiset<int>)
    requires IsHistogram(r, ms)
    ensures r == [] <==> ms == multiset{}
  {
    if r == [] {
      forall v ensures ms[v] == 0 {
        assert v !in Keys(r);
      }
      assert ms == multiset{};
    } else {
      assert Keys(r)[0] == r[0].value;
      assert r[0].value in ms;
    }
  }

  /** A bag has only one histogram. */
  lemma {:induction false} HistogramUnique(r1: seq<Entry>, r2: seq<Entry>, ms: multiset<int>)
    requires IsHistogram(r1, ms) && IsHistogram(r2, ms)
    ensures r1 == r2
    decreases |r1|
  {
    HistogramEmpty(r1, ms);
    HistogramEmpty(r2, ms);
    if r1 != [] && r2 != [] {
      var v1, v2 := r1[0].value, r2[0].value;
      assert Keys(r1)[0] == v1 && Keys(r2)[0] == v2;
      var j :| 0 <= j < |r2| && Keys(r2)[j] == v1;
      var k :| 0 <= k < |r1| && Keys(r1)[k] == v2;
      assert v2 <= v1 && v1 <= v2;
      HistogramTail(r1, ms);
      HistogramTail(r2, ms);
      HistogramUnique(r1[1..], r2[1..], ms[v1 := 0]);
      assert r1 == [r1[0]] + r1[1..] && r2 == [r2[0]] + r2[1..];
    }
  }

  /** A histogram is the histogram of only one bag. */
  lemma HistogramDeterminesBag(r: seq<Entry>, ms1: multiset<int>, ms2: multiset<int>)
    requires IsHistogram(r, ms1) && IsHistogram(r, ms2)
    ensures ms1 == ms2
  {
    forall v ensures ms1[v] == ms2[v] {
      if v in Keys(r) {
        var i :| 0 <= i < |r| && Keys(r)[i] == v;
      }
    }
  }

  /** An enumeration of the tally sorts to the report, whatever its order: the
      printed output does not depend on the iteration order of the map. */
  lemma ReportIndependentOfEnumeration(es: seq<Entry>, numbers: seq<int>)
    requires Enumerates(es, Tally(numbers))
    ensures SortByKey(es) == Report(numbers)
  {
    SortedEnumerationIsHistogram(es, numbers);
    ReportIsHistogram(numbers);
    HistogramUnique(SortByKey(es), Report(numbers), multiset(numbers));
  }

  /** The report is determined by the bag of input values and determines it:
      reordering the input changes nothing, and two inputs with the same
      report hold the same values equally often. */
  lemma ReportDependsOnlyOnMultiset(a: seq<int>, b: seq<int>)
    ensures Report(a) == Report(b) <==> multiset(a) == multiset(b)
  {
    ReportIsHistogram(a);
    ReportIsHistogram(b);
    if multiset(a) == multiset(b) {
      HistogramUnique(Report(a), Report(b), multiset(a));
    }
    if Report(a) == Report(b) {
      HistogramDeterminesBag(Report(a), multiset(a), multiset(b));
    }
  }

  // ---------------------------------------------------------------------------
  // Counts

  function SumCounts(es: seq<Entry>): nat
    decreases |es|
  {
    if es == [] then 0 else es[0].count + SumCounts(es[1..])
  }

  function Repeat(v: int, n: nat): seq<int>
    decreases n
  {
    if n == 0 then [] else [v] + Repeat(v, n - 1)
  }

  lemma {:induction false} RepeatMultiset(v: int, n: nat)
    ensures |Repeat(v, n)| == n
    ensures forall w :: multiset(Repeat(v, n))[w] == if w == v then n else 0
    decreases n
  {
    if n > 0 {
      RepeatMultiset(v, n - 1);
    }
  }

  /** Taking every copy of `v` out of a bag removes `ms[v]` elements. */
  lemma RemoveAllCopies(ms: multiset<int>, v: int)
    ensures |ms| == |ms[v := 0]| + ms[v]
  {
    RepeatMultiset(v, ms[v]);
    var rest, copies := ms[v := 0], multiset(Repeat(v, ms[v]));
    forall w ensures ms[w] == (rest + copies)[w] { }
    assert ms == rest + copies;
  }

  /** The counts of a histogram add up to the size of its bag. */
  lemma {:induction false} HistogramSum(r: seq<Entry>, ms: multiset<int>)
    requires IsHistogram(r, ms)
    ensures SumCounts(r) == |ms|
    decreases |r|
  {
    HistogramEmpty(r, ms);
    if r != [] {
      HistogramTail(r, ms);
      HistogramSum(r[1..], ms[r[0].value := 0]);
      RemoveAllCopies(ms, r[0].value);
    }
  }

  /** Every count in the report is at least 1, and the counts add up to the
      length of the input. */
  lemma ReportCounts(numbers: seq<int>)
    ensures forall i :: 0 <= i < |Report(numbers)| ==> Report(numbers)[i].count >= 1
    ensures SumCounts(Report(numbers)) == |numbers|
  {
    var r := Report(numbers);
    ReportIsHistogram(numbers);
    forall i | 0 <= i < |r| ensures r[i].count >= 1 {
      assert Keys(r)[i] == r[i].value;
    }
    HistogramSum(r, multiset(numbers));
  }

  lemma {:induction false} DistinctCardinality(ks: seq<int>)
    requires forall i, j :: 0 <= i < j < |ks| ==> ks[i] != ks[j]
    ensures |set v | v in ks| == |ks|
    decreases |ks|
  {
    if ks != [] {
      var t := ks[1..];
      DistinctCardinality(t);
      assert (set v | v in ks) == {ks[0]} + (set v | v in t);
      assert ks[0] !in t;
    }
  }

  /** A histogram has one entry per distinct element of its bag. */
  lemma HistogramLength(r: seq<Entry>, ms: multiset<int>)
    requires IsHistogram(r, ms)
    ensures |r| == |set v | v in ms|
  {
    var ks := Keys(r);
    forall i, j | 0 <= i < j < |ks| ensures ks[i] != ks[j] {
      assert r[i].value < r[j].value;
    }
    DistinctCardinality(ks);
    var keySet, support := set v | v in ks, set v | v in ms;
    forall w ensures w in keySet <==> w in support {
      assert w in ms <==> w in Keys(r);
    }
    assert keySet == support;
  }

  /** There is exactly one report entry per distinct input value. */
  lemma ReportLength(numbers: seq<int>)
    ensures |Report(numbers)| == |set v | v in numbers|
  {
    ReportIsHistogram(numbers);
    HistogramLength(Report(numbers), multiset(numbers));
    assert (set v | v in multiset(numbers)) == (set v | v in numbers);
  }

  // ---------------------------------------------------------------------------
  // The printed lines

  /** The text printed for one entry: "Number <value> appears <count> time(s)". */
  function Line(e: Entry): string {
    "Number " + IntToString(e.value) + " appears " + NatToString(e.count) + " time(s)"
  }

  lemma LineShape(e: Entry)
    ensures Line(e) == "Number " + (IntToString(e.value) + " appears " + NatToString(e.count)) + " time(s)"
  {
    var a, b := IntToString(e.value), NatToString(e.count);
    assert "Number " + a + " appears " + b == "Number " + (a + " appears " + b);
  }

  /** One printed line per entry, in order. */
  function Lines(es: seq<Entry>): (ls: seq<string>)
    ensures |ls| == |es|
    decreases |es|
  {
    if es == [] then [] else [Line(es[0])] + Lines(es[1..])
  }

  /** The lines `run` prints, in order. */
  function Run(numbers: seq<int>): seq<string> {
    Lines(Report(numbers))
  }

  /** Index of the first space in `t`, or `|t|` when there is none. */
  function SpaceIndex(t: string): (k: nat)
    ensures k <= |t|
    decreases |t|
  {
    if t == [] || t[0] == ' ' then 0 else 1 + SpaceIndex(t[1..])
  }

  /** Reads back the entry a printed line stands for. */
  function ParseLine(line: string): Option<Entry> {
    if |line| < 15 || line[..7] != "Number " || line[|line| - 8..] != " time(s)" then None
    else ParseCounts(line[7..|line| - 8])
  }

  /** Reads "<value> appears <count>", the part of a line between its fixed
      prefix and suffix. */
  function ParseCounts(body: string): Option<Entry> {
    var k := SpaceIndex(body);
    var rest := body[k..];
    if |rest| < 9 || rest[..9] != " appears " then None
    else match (ParseInt(body[..k]), ParseNat(rest[9..]))
      case (Some(v), Some(c)) => Some(Entry(v, c))
      case _ => None
  }

  lemma {:induction false} SpaceIndexAfterWord(a: string, b: string)
    requires forall k :: 0 <= k < |a| ==> a[k] != ' '
    ensures SpaceIndex(a + " " + b) == |a|
    decreases |a|
  {
    if a != [] {
      assert (a + " " + b)[1..] == a[1..] + " " + b;
      SpaceIndexAfterWord(a[1..], b);
    }
  }

  /** ParseCounts reads a space-free word, " appears " and a count as the
      values the two parsers give. */
  lemma ParseCountsOfParts(word: string, count: string)
    requires forall k :: 0 <= k < |word| ==> word[k] != ' '
    requires ParseInt(word).Some? && ParseNat(count).Some?
    ensures ParseCounts(word + " appears " + count) == Some(Entry(ParseInt(word).value, ParseNat(count).value))
  {
    var body := word + " appears " + count;
    assert body == word + " " + ("appears " + count);
    SpaceIndexAfterWord(word, "appears " + count);
    assert body[..|word|] == word;
    assert body[|word|..] == " appears " + count;
  }

  lemma ParseCountsRoundTrip(v: int, c: nat)
    ensures ParseCounts(IntToString(v) + " appears " + NatToString(c)) == Some(Entry(v, c))
  {
    IntRoundTrip(v);
    NatRoundTrip(c);
    ParseCountsOfParts(IntToString(v), NatToString(c));
  }

  /** Every printed line can be read back as the entry it was printed for, so no
      two entries print the same line. */
  lemma LineRoundTrip(e: Entry)
    ensures ParseLine(Line(e)) == Some(e)
  {
    var body := IntToString(e.value) + " appears " + NatToString(e.count);
    var line := Line(e);
    LineShape(e);
    assert line[..7] == "Number " && line[|line| - 8..] == " time(s)";
    assert line[7..|line| - 8] == body;
    ParseCountsRoundTrip(e.value, e.count);
  }

  /** What ParseCounts accepts: a word the integer parser reads, " appears ",
      and a text the count parser reads. */
  lemma ParseCountsParts(body: string) returns (word: string, count: string)
    requires ParseCounts(body).Some?
    ensures body == word + " appears " + count
    ensures ParseInt(word) == Some(ParseCounts(body).value.value)
    ensures ParseNat(count) == Some(ParseCounts(body).value.count)
  {
    var k := SpaceIndex(body);
    var rest := body[k..];
    word, count := body[..k], rest[9..];
    assert rest == " appears " + count;
    assert body == word + rest;
  }

  lemma ParseCountsCanonical(body: string)
    requires ParseCounts(body).Some?
    ensures IntToString(ParseCounts(body).value.value) + " appears " + NatToString(ParseCounts(body).value.count) == body
  {
    var word, count := ParseCountsParts(body);
    ParseIntCanonical(word);
    ParseNatCanonical(count);
  }

  /** Every line ParseLine accepts is exactly the line printed for its entry. */
  /** What ParseLine accepts: "Number ", a text ParseCounts reads, " time(s)". */
  lemma ParseLineParts(line: string) returns (body: string)
    requires ParseLine(line).Some?
    ensures line == "Number " + body + " time(s)"
    ensures ParseCounts(body) == ParseLine(line)
  {
    body := line[7..|line| - 8];
    assert line == line[..7] + body + line[|line| - 8..];
  }

  lemma ParseLineCanonical(line: string)
    requires ParseLine(line).Some?
    ensures Line(ParseLine(line).value) == line
  {
    var body := ParseLineParts(line);
    var e := ParseCounts(body).value;
    ParseCountsCanonical(body);
    LineShape(e);
  }

  /** Reads back every line of a printout, failing if any line is not one
      that Line prints. */
  function ParseLines(lines: seq<string>): Option<seq<Entry>>
    decreases |lines|
  {
    if lines == [] then Some([])
    else
      var first, rest := ParseLine(lines[0]), ParseLines(lines[1..]);
      if first.Some? && rest.Some? then Some([first.value] + rest.value) else None
  }

  lemma ParseLinesCons(line: string, rest: seq<string>, e: Entry, es: seq<Entry>)
    requires ParseLine(line) == Some(e) && ParseLines(rest) == Some(es)
    ensures ParseLines([line] + rest) == Some([e] + es)
  {
    var lines := [line] + rest;
    assert lines[0] == line && lines[1..] == rest;
  }

  /** A printout reads back as the entries it was printed from. */
  lemma {:induction false} LinesRoundTrip(es: seq<Entry>)
    ensures ParseLines(Lines(es)) == Some(es)
    decreases |es|
  {
    if es != [] {
      LineRoundTrip(es[0]);
      LinesRoundTrip(es[1..]);
      ParseLinesCons(Line(es[0]), Lines(es[1..]), es[0], es[1..]);
      assert es == [es[0]] + es[1..];
    }
  }

  /** What `run` prints reads back as the histogram of the input: one line per
      distinct input value, in strictly ascending order of value, each with
      the value's number of occurrences. */
  lemma RunPrintsHistogram(numbers: seq<int>)
    ensures ParseLines(Run(numbers)).Some?
    ensures IsHistogram(ParseLines(Run(numbers)).value, multiset(numbers))
    ensures |Run(numbers)| == |set v | v in numbers|
  {
    LinesRoundTrip(Report(numbers));
    ReportIsHistogram(numbers);
    ReportLength(numbers);
  }

  /** Two inputs print the same lines exactly when they hold the same values
      equally often. */
  lemma RunDependsOnlyOnMultiset(a: seq<int>, b: seq<int>)
    ensures Run(a) == Run(b) <==> multiset(a) == multiset(b)
  {
    ReportDependsOnlyOnMultiset(a, b);
    LinesRoundTrip(Report(a));
    LinesRoundTrip(Report(b));
  }
}
