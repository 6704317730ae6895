/** The scenarios of the unit tests in NumberArrayProcessorTest, and a
    negative-value example, stated as lemmas about the model.
    Each report is established by checking the expected entries against the
    definition of a histogram and appealing to its uniqueness; each printed
    line is then checked against its literal text.

    The larger examples take their input as a parameter constrained by
    `requires s == [ ... ]` rather than writing the literal inside the
    ensures: this keeps the solver from unfolding `Report` on the literal
    directly, and lets the helper lemmas below take the literal's multiset
    apart in small pieces. */
module ProcessorExamples {

  import opened Decimal
  import opened NumberArrayProcessor

  /** An empty array yields an empty report and prints nothing. */
  lemma EmptyInput()
    ensures Report([]) == []
    ensures Run([]) == []
  {
  }

  /** `{7}` yields the single entry (7, 1), printed as one line. */
  lemma SingleElement()
    ensures Report([7]) == [Entry(7, 1)]
    ensures Run([7]) == ["Number 7 appears 1 time(s)"]
  {
    assert NatToString(7) == "7" && NatToString(1) == "1";
    assert Line(Entry(7, 1)) == "Number 7 appears 1 time(s)";
  }

  // The interview array

  lemma InterviewChunks(s: seq<int>)
    requires s == [1, 1, 4, 4, 4, 4, 5, 1, 1, 2, 2, 2, 2, 3, 3, 3]
    ensures s == [1, 1, 4, 4] + [4, 4, 5, 1] + [1, 2, 2, 2] + [2, 3, 3, 3]
  {
  }

  lemma InterviewBag(s: seq<int>)
    requires s == [1, 1, 4, 4, 4, 4, 5, 1, 1, 2, 2, 2, 2, 3, 3, 3]
    ensures multiset(s) == multiset{1, 1, 4, 4} + multiset{4, 4, 5, 1} + multiset{1, 2, 2, 2} + multiset{2, 3, 3, 3}
  {
    InterviewChunks(s);
    assert multiset(s) == multiset([1, 1, 4, 4]) + multiset([4, 4, 5, 1]) + multiset([1, 2, 2, 2]) + multiset([2, 3, 3, 3]);
  }

  lemma InterviewCounts(ms: multiset<int>)
    requires ms == multiset{1, 1, 4, 4} + multiset{4, 4, 5, 1} + multiset{1, 2, 2, 2} + multiset{2, 3, 3, 3}
    ensures ms[1] == 4 && ms[2] == 4 && ms[3] == 3 && ms[4] == 4 && ms[5] == 1
    ensures forall v :: v in ms ==> 1 <= v <= 5
  {
  }

  lemma InterviewHistogram(r: seq<Entry>, ms: multiset<int>)
    requires r == [Entry(1, 4), Entry(2, 4), Entry(3, 3), Entry(4, 4), Entry(5, 1)]
    requires ms == multiset{1, 1, 4, 4} + multiset{4, 4, 5, 1} + multiset{1, 2, 2, 2} + multiset{2, 3, 3, 3}
    ensures IsHistogram(r, ms)
  {
    assert Keys(r) == [1, 2, 3, 4, 5];
    InterviewCounts(ms);
  }

  lemma InterviewReport(s: seq<int>)
    requires s == [1, 1, 4, 4, 4, 4, 5, 1, 1, 2, 2, 2, 2, 3, 3, 3]
    ensures Report(s) == [Entry(1, 4), Entry(2, 4), Entry(3, 3), Entry(4, 4), Entry(5, 1)]
  {
    var expected := [Entry(1, 4), Entry(2, 4), Entry(3, 3), Entry(4, 4), Entry(5, 1)];
    InterviewBag(s);
    InterviewHistogram(expected, multiset(s));
    ReportIsHistogram(s);
    HistogramUnique(Report(s), expected, multiset(s));
  }

  lemma InterviewLines(r: seq<Entry>)
    requires r == [Entry(1, 4), Entry(2, 4), Entry(3, 3), Entry(4, 4), Entry(5, 1)]
    ensures Lines(r) == [Line(Entry(1, 4)), Line(Entry(2, 4)), Line(Entry(3, 3)), Line(Entry(4, 4)), Line(Entry(5, 1))]
  {
    assert Lines(r[4..]) == [Line(Entry(5, 1))];
    assert Lines(r[3..]) == [Line(Entry(4, 4))] + Lines(r[4..]);
    assert Lines(r[2..]) == [Line(Entry(3, 3))] + Lines(r[3..]);
    assert Lines(r[1..]) == [Line(Entry(2, 4))] + Lines(r[2..]);
  }

  lemma LineOneFour() ensures Line(Entry(1, 4)) == "Number 1 appears 4 time(s)" {
    assert NatToString(1) == "1" && NatToString(4) == "4";
  }

  lemma LineTwoFour() ensures Line(Entry(2, 4)) == "Number 2 appears 4 time(s)" {
    assert NatToString(2) == "2" && NatToString(4) == "4";
  }

  lemma LineThreeThree() ensures Line(Entry(3, 3)) == "Number 3 appears 3 time(s)" {
    assert NatToString(3) == "3";
  }

  lemma LineFourFour() ensures Line(Entry(4, 4)) == "Number 4 appears 4 time(s)" {
    assert NatToString(4) == "4";
  }

  lemma LineFiveOne() ensures Line(Entry(5, 1)) == "Number 5 appears 1 time(s)" {
    assert NatToString(5) == "5" && NatToString(1) == "1";
  }

  /** The interview array of `main` and of testRunWithInterviewArray: five
      entries in ascending order, printed as five lines. */
  lemma InterviewArray(s: seq<int>)
    requires s == [1, 1, 4, 4, 4, 4, 5, 1, 1, 2, 2, 2, 2, 3, 3, 3]
    ensures Report(s) == [Entry(1, 4), Entry(2, 4), Entry(3, 3), Entry(4, 4), Entry(5, 1)]
    ensures Run(s) == ["Number 1 appears 4 time(s)",
                       "Number 2 appears 4 time(s)",
                       "Number 3 appears 3 time(s)",
                       "Number 4 appears 4 time(s)",
                       "Number 5 appears 1 time(s)"]
  {
    InterviewReport(s);
    InterviewLines(Report(s));
    LineOneFour();
    LineTwoFour();
    LineThreeThree();
    LineFourFour();
    LineFiveOne();
  }

  // Negative values

  lemma NegativeHistogram(s: seq<int>, r: seq<Entry>)
    requires s == [-1, -1, 0] && r == [Entry(-1, 2), Entry(0, 1)]
    ensures IsHistogram(r, multiset(s))
  {
    assert multiset(s) == multiset{-1, -1, 0};
    assert Keys(r) == [-1, 0];
  }

  lemma NegativeReport(s: seq<int>)
    requires s == [-1, -1, 0]
    ensures Report(s) == [Entry(-1, 2), Entry(0, 1)]
  {
    var expected := [Entry(-1, 2), Entry(0, 1)];
    NegativeHistogram(s, expected);
    ReportIsHistogram(s);
    HistogramUnique(Report(s), expected, multiset(s));
  }

  lemma NegativeLines(r: seq<Entry>)
    requires r == [Entry(-1, 2), Entry(0, 1)]
    ensures Lines(r) == [Line(Entry(-1, 2)), Line(Entry(0, 1))]
  {
  }

  lemma LineMinusOneTwo() ensures Line(Entry(-1, 2)) == "Number -1 appears 2 time(s)" {
    assert IntToString(-1) == "-1" && NatToString(2) == "2";
  }

  lemma LineZeroOne() ensures Line(Entry(0, 1)) == "Number 0 appears 1 time(s)" {
    assert NatToString(0) == "0" && NatToString(1) == "1";
  }

  /** Negative values are counted, sorted before the others and printed with a
      minus sign. */
  lemma NegativeValues(s: seq<int>)
    requires s == [-1, -1, 0]
    ensures Report(s) == [Entry(-1, 2), Entry(0, 1)]
    ensures Run(s) == ["Number -1 appears 2 time(s)", "Number 0 appears 1 time(s)"]
  {
    NegativeReport(s);
    NegativeLines(Report(s));
    LineMinusOneTwo();
    LineZeroOne();
  }
}
