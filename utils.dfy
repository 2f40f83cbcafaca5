/**
 * The run's bookkeeping: the time-limit test, the trace of best qualities kept next to
 * the graph counters, and the text written to the `.trace` and `.sol` files.
 *
 * Elapsed times are rounded to two decimals by the timer, so they are modelled as a
 * whole number of hundredths of a second.
 */
module Utils {
  import opened Wrappers

  // ----- Timer -----

  /** `Timer.cutoff`: the limit (whole seconds) is reached once the elapsed time equals it. */
  function Cutoff(timeLimit: int, elapsed: nat): (r: bool)
    ensures r <==> elapsed as real / 100.0 >= timeLimit as real
  {
    elapsed >= timeLimit * 100
  }

  /** Elapsed times read one after another never go down. */
  predicate Nondecreasing(samples: seq<nat>) {
    forall i, j :: 0 <= i < j < |samples| ==> samples[i] <= samples[j]
  }

  /**
   * The number of polls that answer "keep going" before the first that answers "stop".
   * On a clock that never goes back, exactly the polls from that point on answer "stop",
   * which is why the algorithms take this count in place of the clock.
   */
  function PollsBeforeCutoff(timeLimit: int, samples: seq<nat>): (p: nat)
    ensures p <= |samples|
    ensures forall i :: 0 <= i < p ==> !Cutoff(timeLimit, samples[i])
    ensures p < |samples| ==> Cutoff(timeLimit, samples[p])
    ensures Nondecreasing(samples) ==> forall i :: p <= i < |samples| ==> Cutoff(timeLimit, samples[i])
    decreases |samples|
  {
    if samples == [] || Cutoff(timeLimit, samples[0]) then 0
    else 1 + PollsBeforeCutoff(timeLimit, samples[1..])
  }

  // ----- Decimal text -----

  predicate IsDigit(c: char) {
    '0' <= c <= '9'
  }

  predicate AllDigits(s: string) {
    forall i :: 0 <= i < |s| ==> IsDigit(s[i])
  }

  function DigitChar(d: nat): (c: char)
    requires d < 10
    ensures IsDigit(c)
  {
    ('0' as int + d) as char
  }

  function DigitValue(c: char): (d: nat)
    requires IsDigit(c)
    ensures d < 10
  {
    c as int - '0' as int
  }

  /** `str(n)` for a non-negative integer: its decimal digits, no leading zero. */
  function NatText(n: nat): (s: string)
    ensures s != [] && AllDigits(s)
    ensures s[0] == '0' ==> n == 0
    decreases n
  {
    if n < 10 then [DigitChar(n)] else NatText(n / 10) + [DigitChar(n % 10)]
  }

  /** The number a string of decimal digits denotes. */
  function NatValue(s: string): nat
    requires AllDigits(s)
    decreases |s|
  {
    if s == [] then 0 else NatValue(s[..|s| - 1]) * 10 + DigitValue(s[|s| - 1])
  }

  lemma {:induction false} NatTextRoundTrip(n: nat)
    ensures NatValue(NatText(n)) == n
    decreases n
  {
    if n >= 10 {
      NatTextRoundTrip(n / 10);
      var s := NatText(n);
      assert s[..|s| - 1] == NatText(n / 10);
    }
  }

  /** `str(i)` for any integer: a minus sign before the digits of a negative one. */
  function IntText(i: int): (s: string)
    ensures s != [] && '\n' !in s && ',' !in s && '.' !in s && ' ' !in s
  {
    if i < 0 then "-" + NatText(-i) else NatText(i)
  }

  /** Reads back an integer written by `IntText`; `None` on anything else. */
  function ParseInt(s: string): Option<int> {
    if s != [] && s[0] == '-' && s[1..] != [] && AllDigits(s[1..]) then Some(0 - NatValue(s[1..]) as int)
    else if s != [] && AllDigits(s) then Some(NatValue(s))
    else None
  }

  lemma IntTextRoundTrip(i: int)
    ensures ParseInt(IntText(i)) == Some(i)
  {
    if i < 0 {
      NatTextRoundTrip(-i);
      ParseNegative(NatText(-i));
    } else {
      NatTextRoundTrip(i);
      ParseDigits(NatText(i));
    }
  }

  lemma ParseNegative(digits: string)
    requires digits != [] && AllDigits(digits)
    ensures ParseInt("-" + digits) == Some(0 - NatValue(digits) as int)
  {
    assert ("-" + digits)[1..] == digits;
  }

  lemma ParseDigits(digits: string)
    requires digits != [] && AllDigits(digits)
    ensures ParseInt(digits) == Some(NatValue(digits) as int)
  {
    assert IsDigit(digits[0]);
  }

  /**
   * `str(t)` for an elapsed time of `h` hundredths rounded to two decimals: Python
   * prints the shortest decimal that reads back as the same float, so whole seconds
   * end in ".0", a trailing zero hundredth is dropped and a leading one is kept.
   */
  function CentiText(h: nat): (s: string)
    ensures '\n' !in s && ',' !in s && ' ' !in s
  {
    NatText(h / 100) + "." + FractionText(h % 100)
  }

  function FractionText(f: nat): (s: string)
    requires f < 100
    ensures 1 <= |s| <= 2 && AllDigits(s)
  {
    if f % 10 == 0 then [DigitChar(f / 10)] else [DigitChar(f / 10), DigitChar(f % 10)]
  }

  /** Reads back a time written by `CentiText`, in hundredths; `None` on anything else. */
  function ParseCenti(s: string): Option<nat> {
    var parts := Split(s, '.');
    if |parts| == 2 && parts[0] != [] && AllDigits(parts[0])
      && 1 <= |parts[1]| <= 2 && AllDigits(parts[1])
    then
      var tenths := DigitValue(parts[1][0]);
      var hundredths := if |parts[1]| == 2 then DigitValue(parts[1][1]) else 0;
      Some(NatValue(parts[0]) * 100 + tenths * 10 + hundredths)
    else None
  }

  lemma CentiTextRoundTrip(h: nat)
    ensures ParseCenti(CentiText(h)) == Some(h)
  {
    var whole := NatText(h / 100);
    var frac := FractionText(h % 100);
    assert '.' !in whole by {
      forall i | 0 <= i < |whole| ensures whole[i] != '.' {
        assert IsDigit(whole[i]);
      }
    }
    assert '.' !in frac by {
      forall i | 0 <= i < |frac| ensures frac[i] != '.' {
        assert IsDigit(frac[i]);
      }
    }
    SplitAfter(whole, '.', frac);
    SplitWithout(frac, '.');
    NatTextRoundTrip(h / 100);
    FractionTextValue(h % 100);
    assert h == h / 100 * 100 + h % 100;
  }

  /** The one or two digits of `FractionText(f)` read back as tenths and hundredths. */
  lemma FractionTextValue(f: nat)
    requires f < 100
    ensures var s := FractionText(f);
      DigitValue(s[0]) * 10 + (if |s| == 2 then DigitValue(s[1]) else 0) == f
  {
    assert f == f / 10 * 10 + f % 10;
  }

  // ----- Lines -----

  /** The pieces of `s` between occurrences of `sep` (Python's `s.split(sep)`). */
  function Split(s: string, sep: char): (r: seq<string>)
    ensures r != []
    decreases |s|
  {
    if s == [] then [""]
    else if s[0] == sep then [""] + Split(s[1..], sep)
    else
      var rest := Split(s[1..], sep);
      [[s[0]] + rest[0]] + rest[1..]
  }

  /** The pieces joined with `sep` between neighbours (Python's `sep.join(parts)`). */
  function Join(parts: seq<string>, sep: char): string
    decreases |parts|
  {
    if parts == [] then ""
    else if |parts| == 1 then parts[0]
    else parts[0] + [sep] + Join(parts[1..], sep)
  }

  lemma {:induction false} SplitWithout(s: string, sep: char)
    requires sep !in s
    ensures Split(s, sep) == [s]
    decreases |s|
  {
    if s != [] {
      SplitWithout(s[1..], sep);
      assert [s[0]] + s[1..] == s;
    }
  }

  lemma {:induction false} SplitAfter(a: string, sep: char, t: string)
    requires sep !in a
    ensures Split(a + [sep] + t, sep) == [a] + Split(t, sep)
    decreases |a|
  {
    if a == [] {
      assert [] + [sep] + t == [sep] + t;
      assert ([sep] + t)[1..] == t;
    } else {
      SplitAfter(a[1..], sep, t);
      assert (a + [sep] + t)[1..] == a[1..] + [sep] + t;
      assert [a[0]] + a[1..] == a;
    }
  }

  /** Splitting what was joined gives the pieces back, as long as none holds `sep`. */
  lemma {:induction false} SplitJoin(parts: seq<string>, sep: char)
    requires parts != []
    requires forall i :: 0 <= i < |parts| ==> sep !in parts[i]
    ensures Split(Join(parts, sep), sep) == parts
    decreases |parts|
  {
    if |parts| == 1 {
      SplitWithout(parts[0], sep);
    } else {
      SplitJoin(parts[1..], sep);
      SplitAfter(parts[0], sep, Join(parts[1..], sep));
    }
  }

  /** Joining one more piece adds a separator and the piece at the end. */
  lemma {:induction false} JoinSnoc(parts: seq<string>, sep: char, x: string)
    requires parts != []
    ensures Join(parts + [x], sep) == Join(parts, sep) + [sep] + x
    decreases |parts|
  {
    if |parts| == 1 {
      assert (parts + [x])[1..] == [x];
    } else {
      assert (parts + [x])[1..] == parts[1..] + [x];
      JoinSnoc(parts[1..], sep, x);
    }
  }

  // ----- The trace -----

  /** One `(elapsed, quality)` record of `Trace.list`. */
  datatype Record = Record(time: nat, quality: int)

  /** One `(graph reads, vertex-cover checks)` pair of `Trace.graph_stats`. */
  datatype Stat = Stat(accesses: nat, coverChecks: nat)

  /** The columns of the stats file, one entry per record. */
  datatype StatsColumns = StatsColumns(time: seq<nat>, quality: seq<int>, graphReads: seq<nat>, checks: seq<nat>)

  /** A record as one trace line: the tuple's text without its parentheses. */
  function RecordLine(r: Record): (s: string)
    ensures '\n' !in s && s != []
  {
    CentiText(r.time) + ", " + IntText(r.quality)
  }

  function ParseRecordLine(s: string): Option<Record> {
    var parts := Split(s, ',');
    if |parts| == 2 && parts[1] != [] && parts[1][0] == ' ' then
      match (ParseCenti(parts[0]), ParseInt(parts[1][1..]))
      case (Some(t), Some(q)) => Some(Record(t, q))
      case _ => None
    else None
  }

  lemma RecordLineRoundTrip(r: Record)
    ensures ParseRecordLine(RecordLine(r)) == Some(r)
  {
    var time := CentiText(r.time);
    var quality := IntText(r.quality);
    assert RecordLine(r) == time + [','] + ([' '] + quality);
    SplitAfter(time, ',', [' '] + quality);
    SplitWithout([' '] + quality, ',');
    assert ([' '] + quality)[1..] == quality;
    CentiTextRoundTrip(r.time);
    IntTextRoundTrip(r.quality);
  }

  function RecordLines(records: seq<Record>): (lines: seq<string>)
    ensures |lines| == |records|
    ensures forall i :: 0 <= i < |records| ==> lines[i] == RecordLine(records[i])
    decreases |records|
  {
    if records == [] then [] else [RecordLine(records[0])] + RecordLines(records[1..])
  }

  /** The content of the `.trace` file: one line per record, no newline after the last. */
  function TraceText(records: seq<Record>): (s: string)
    ensures s == "" <==> records == []
    ensures '\n' in s <==> |records| > 1
  {
    var lines := RecordLines(records);
    if |records| > 1 then
      var first := RecordLine(records[0]);
      assert Join(lines, '\n')[|first|] == '\n';
      JoinEnd(lines, '\n');
      Join(lines, '\n')
    else
      Join(lines, '\n')
  }

  /** Reads the records back from a trace file's content. */
  function ParseTrace(text: string): Option<seq<Record>> {
    if text == "" then Some([]) else ParseRecordLines(Split(text, '\n'))
  }

  function ParseRecordLines(lines: seq<string>): Option<seq<Record>>
    decreases |lines|
  {
    if lines == [] then Some([])
    else match (ParseRecordLine(lines[0]), ParseRecordLines(lines[1..]))
      case (Some(r), Some(rs)) => Some([r] + rs)
      case _ => None
  }

  lemma RecordLinesRoundTrip(records: seq<Record>)
    ensures ParseRecordLines(RecordLines(records)) == Some(records)
  {
    var lines := RecordLines(records);
    forall i | 0 <= i < |records|
      ensures ParseRecordLine(lines[i]) == Some(records[i])
    {
      RecordLineRoundTrip(records[i]);
    }
    ParseEachRecordLine(lines, records);
  }

  /** Lines that each read back as one record read back as all of them, in order. */
  lemma {:induction false} ParseEachRecordLine(lines: seq<string>, records: seq<Record>)
    requires |lines| == |records|
    requires forall i :: 0 <= i < |lines| ==> ParseRecordLine(lines[i]) == Some(records[i])
    ensures ParseRecordLines(lines) == Some(records)
    decreases |lines|
  {
    if lines != [] {
      ParseEachRecordLine(lines[1..], records[1..]);
      assert [records[0]] + records[1..] == records;
    }
  }

  /**
   * The trace file holds exactly the records, in order: it has one line per record and
   * reading it back gives the records; it ends without a newline.
   */
  lemma TraceTextRoundTrip(records: seq<Record>)
    ensures ParseTrace(TraceText(records)) == Some(records)
    ensures records != [] ==> |Split(TraceText(records), '\n')| == |records|
    ensures records != [] ==> TraceText(records)[|TraceText(records)| - 1] != '\n'
  {
    if records != [] {
      var lines := RecordLines(records);
      var last := lines[|lines| - 1];
      assert last == RecordLine(records[|records| - 1]);
      assert forall i :: 0 <= i < |lines| ==> '\n' !in lines[i];
      SplitJoin(lines, '\n');
      RecordLinesRoundTrip(records);
      JoinEnd(lines, '\n');
      assert last[|last| - 1] in last;
    }
  }

  /** A join of non-empty pieces ends with the last piece's last character. */
  lemma {:induction false} JoinEnd(parts: seq<string>, sep: char)
    requires parts != [] && parts[|parts| - 1] != []
    ensures Join(parts, sep) != []
    ensures Join(parts, sep)[|Join(parts, sep)| - 1] == parts[|parts| - 1][|parts[|parts| - 1]| - 1]
    decreases |parts|
  {
    if |parts| > 1 {
      JoinEnd(parts[1..], sep);
    }
  }

  /** Adding a record to a non-empty trace adds one line at the end of the file. */
  lemma TraceTextGrows(records: seq<Record>, r: Record)
    requires records != []
    ensures TraceText(records + [r]) == TraceText(records) + "\n" + RecordLine(r)
  {
    assert RecordLines(records + [r]) == RecordLines(records) + [RecordLine(r)];
    JoinSnoc(RecordLines(records), '\n', RecordLine(r));
  }

  /** What `save` has written after the first `k` lines. */
  function Written(lines: seq<string>, k: nat): string
    requires k <= |lines|
  {
    if k == 0 then ""
    else if k == |lines| then Join(lines, '\n')
    else Join(lines[..k], '\n') + "\n"
  }

  lemma WrittenStep(lines: seq<string>, k: nat)
    requires k < |lines|
    ensures Written(lines, k + 1) == Written(lines, k) + lines[k] + (if k != |lines| - 1 then "\n" else "")
  {
    assert lines[..k + 1] == lines[..k] + [lines[k]];
    if k > 0 {
      JoinSnoc(lines[..k], '\n', lines[k]);
    } else {
      assert Join(lines[..1], '\n') == lines[0];
    }
    if k + 1 == |lines| {
      assert lines[..k + 1] == lines;
    }
  }

  /**
   * `Trace`: the records handed over by an algorithm, each stamped with the elapsed
   * time, and beside them the graph's counters at that moment.
   */
  class Trace {
    var list: seq<Record>
    var graphStats: seq<Stat>

    /** The two lists grow together. */
    ghost predicate Valid()
      reads this
    {
      |list| == |graphStats|
    }

    constructor ()
      ensures Valid() && list == [] && graphStats == []
    {
      list := [];
      graphStats := [];
    }

    /**
     * `add_record`: appends exactly one record and one counter pair; what was there
     * before is kept, in order. The timer and the graph's counters are read by the
     * caller and passed in.
     */
    method AddRecord(elapsed: nat, quality: int, accesses: nat, coverChecks: nat)
      requires Valid()
      modifies this
      ensures Valid()
      ensures list == old(list) + [Record(elapsed, quality)]
      ensures graphStats == old(graphStats) + [Stat(accesses, coverChecks)]
    {
      list := list + [Record(elapsed, quality)];
      graphStats := graphStats + [Stat(accesses, coverChecks)];
    }

    /** The text `save` writes: each record's line, a newline after all but the last. */
    method SaveText() returns (text: string)
      ensures text == TraceText(list)
    {
      var lines := RecordLines(list);
      text := "";
      var idx := 0;
      while idx < |lines|
        invariant 0 <= idx <= |lines|
        invariant text == Written(lines, idx)
      {
        WrittenStep(lines, idx);
        text := text + lines[idx];
        if idx != |lines| - 1 {
          text := text + "\n";
        }
        idx := idx + 1;
      }
    }

    /** The columns `save_stats` writes: each as long as the trace, entry by entry. */
    function Stats(): (s: StatsColumns)
      requires Valid()
      reads this
      ensures |s.time| == |s.quality| == |s.graphReads| == |s.checks| == |list|
      ensures forall i :: 0 <= i < |list| ==>
        Record(s.time[i], s.quality[i]) == list[i] && Stat(s.graphReads[i], s.checks[i]) == graphStats[i]
    {
      StatsColumns(
        seq(|list|, i requires 0 <= i < |list| reads this => list[i].time),
        seq(|list|, i requires 0 <= i < |list| reads this => list[i].quality),
        seq(|list|, i requires 0 <= i < |list| && |list| == |graphStats| reads this => graphStats[i].accesses),
        seq(|list|, i requires 0 <= i < |list| && |list| == |graphStats| reads this => graphStats[i].coverChecks))
    }
  }

  // ----- The solution file -----

  /**
   * The content of the `.sol` file: the quality, a newline, then the solution's
   * vertices separated by commas without spaces.
   */
  function SolutionText(quality: int, solution: seq<int>): (s: string)
    ensures |Split(s, '\n')| == 2 && Split(s, '\n')[0] == IntText(quality)
    ensures solution == [] <==> s[|s| - 1] == '\n'
  {
    var parts := IntTexts(solution);
    var rest := Join(parts, ',');
    JoinWithout(parts, ',', '\n');
    SplitAfter(IntText(quality), '\n', rest);
    SplitWithout(rest, '\n');
    if solution != [] then
      JoinEnd(parts, ',');
      IntText(quality) + "\n" + rest
    else
      IntText(quality) + "\n" + rest
  }

  function IntTexts(xs: seq<int>): (r: seq<string>)
    ensures |r| == |xs|
    ensures forall i :: 0 <= i < |xs| ==> r[i] == IntText(xs[i])
    decreases |xs|
  {
    if xs == [] then [] else [IntText(xs[0])] + IntTexts(xs[1..])
  }

  function ParseInts(parts: seq<string>): Option<seq<int>>
    decreases |parts|
  {
    if parts == [] then Some([])
    else match (ParseInt(parts[0]), ParseInts(parts[1..]))
      case (Some(x), Some(xs)) => Some([x] + xs)
      case _ => None
  }

  /** Reads the quality and the solution back from a solution file's content. */
  function ParseSolution(text: string): Option<(int, seq<int>)> {
    var lines := Split(text, '\n');
    if |lines| != 2 then None
    else
      var list := if lines[1] == "" then Some([]) else ParseInts(Split(lines[1], ','));
      match (ParseInt(lines[0]), list)
      case (Some(q), Some(xs)) => Some((q, xs))
      case _ => None
  }

  lemma IntTextsRoundTrip(xs: seq<int>)
    ensures ParseInts(IntTexts(xs)) == Some(xs)
  {
    var parts := IntTexts(xs);
    forall i | 0 <= i < |xs|
      ensures ParseInt(parts[i]) == Some(xs[i])
    {
      IntTextRoundTrip(xs[i]);
    }
    ParseEachInt(parts, xs);
  }

  /** Pieces that each read back as one integer read back as all of them, in order. */
  lemma {:induction false} ParseEachInt(parts: seq<string>, xs: seq<int>)
    requires |parts| == |xs|
    requires forall i :: 0 <= i < |parts| ==> ParseInt(parts[i]) == Some(xs[i])
    ensures ParseInts(parts) == Some(xs)
    decreases |parts|
  {
    if parts != [] {
      ParseEachInt(parts[1..], xs[1..]);
      assert [xs[0]] + xs[1..] == xs;
    }
  }

  lemma {:induction false} JoinWithout(parts: seq<string>, sep: char, c: char)
    requires forall i :: 0 <= i < |parts| ==> c !in parts[i]
    requires c != sep
    ensures c !in Join(parts, sep)
    decreases |parts|
  {
    if |parts| > 1 {
      JoinWithout(parts[1..], sep, c);
    }
  }

  /** The solution file holds exactly the quality and the solution, in order. */
  lemma SolutionTextRoundTrip(quality: int, solution: seq<int>)
    ensures ParseSolution(SolutionText(quality, solution)) == Some((quality, solution))
  {
    var parts := IntTexts(solution);
    var rest := Join(parts, ',');
    JoinWithout(parts, ',', '\n');
    SplitAfter(IntText(quality), '\n', rest);
    SplitWithout(rest, '\n');
    IntTextRoundTrip(quality);
    if solution != [] {
      SplitJoin(parts, ',');
      IntTextsRoundTrip(solution);
      assert rest != [] by {
        JoinEnd(parts, ',');
      }
    }
  }
}
