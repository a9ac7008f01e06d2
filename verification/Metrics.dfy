/** daemon/monitor/main.go and metrics/mod.go: the line printed for each sample, and the reader that
    turns the lines of a time window back into columns. */
module Metrics {
  import opened Prelude
  import opened Text
  import opened Decimal

  const UINT64: int := 0x1_0000_0000_0000_0000
  const INT64: int := 0x8000_0000_0000_0000

  /** One measure: Unix time, bytes received and sent, processor and memory use. */
  datatype Sample = Sample(ts: int, rx: nat, tx: nat, cpu: nat, mem: nat) {
    /** The ranges of the Go types. */
    predicate InRange() {
      -INT64 <= ts < INT64 && rx < UINT64 && tx < UINT64 && cpu < UINT64 && mem < UINT64
    }
  }

  datatype NodeStats = NodeStats(timestamps: seq<int>, rxBytes: seq<nat>, txBytes: seq<nat>, cpu: seq<nat>, memory: seq<nat>)

  // ---------- writing ----------

  function Fields(s: Sample): seq<string> {
    [DecInt(s.ts), Dec(s.rx), Dec(s.tx), Dec(s.cpu), Dec(s.mem)]
  }

  /** `%d,%d,%d,%d,%d` */
  function Line(s: Sample): string {
    Join(Fields(s), ",")
  }

  function Written(samples: seq<Sample>): string {
    if samples == [] then ""
    else Written(samples[..|samples| - 1]) + Line(samples[|samples| - 1]) + "\n"
  }

  /** The loop of the monitor, until its stream ends. */
  method WriteSamples(samples: seq<Sample>) returns (file: string)
    ensures file == Written(samples)
  {
    file := "";
    for i := 0 to |samples|
      invariant file == Written(samples[..i])
    {
      assert samples[..i + 1][..i] == samples[..i];
      file := file + Line(samples[i]) + "\n";
    }
    assert samples[..|samples|] == samples;
  }

  // ---------- reading ----------

  function DropCR(line: string): string {
    if line != "" && line[|line| - 1] == '\r' then line[..|line| - 1] else line
  }

  /** What a `bufio.Scanner` takes at most, with the line break. */
  const SCAN_LIMIT := 0x1_0000

  /** The lines of a `bufio.Scanner`: a text that ends with a line break has no line after it, and a line
      that is too long ends the scan. */
  function Lines(text: string): seq<string> {
    Scanned(WithoutEmptyEnd(Split(text, '\n')))
  }

  function WithoutEmptyEnd(parts: seq<string>): seq<string>
    requires |parts| >= 1
  {
    if parts[|parts| - 1] == "" then parts[..|parts| - 1] else parts
  }

  function Scanned(parts: seq<string>): seq<string> {
    if parts == [] || |parts[0]| >= SCAN_LIMIT then [] else [DropCR(parts[0])] + Scanned(parts[1..])
  }

  /** An unsigned 64-bit number in decimal, between blanks. */
  function ParseInteger(value: string): Option<nat> {
    match Parse(Trim(value, ' '), 10)
    case Some(v) => if v < UINT64 then Some(v) else None
    case None => None
  }

  /** The values that can be read, in order; the others are skipped. */
  function Numbers(values: seq<string>): seq<nat> {
    if values == [] then []
    else
      Numbers(values[..|values| - 1]) +
      match ParseInteger(values[|values| - 1]) case Some(v) => [v] case None => []
  }

  method ParseLine(line: string) returns (numbers: seq<nat>)
    ensures numbers == Numbers(Split(line, ','))
  {
    var values := Split(line, ',');
    numbers := [];
    for i := 0 to |values|
      invariant numbers == Numbers(values[..i])
    {
      assert values[..i + 1][..i] == values[..i];
      match ParseInteger(values[i])
      case Some(num) => numbers := numbers + [num];
      case None =>
    }
    assert values[..|values|] == values;
  }

  /** Go's conversion of an unsigned 64-bit number to a signed one. */
  function ToInt64(v: nat): (i: int)
    ensures v < 18_446_744_073_709_551_616 ==> -9_223_372_036_854_775_808 <= i < 9_223_372_036_854_775_808
    ensures i == v || i == v - 18_446_744_073_709_551_616
  {
    if v < INT64 then v else v - UINT64
  }

  /** The sample on a line with at least five numbers. */
  function Row(line: string): Option<Sample> {
    var ns := Numbers(Split(line, ','));
    if |ns| >= 5 then Some(Sample(ToInt64(ns[0]), ns[1], ns[2], ns[3], ns[4])) else None
  }

  function Rows(lines: seq<string>, start: int, end: int): seq<Sample> {
    if lines == [] then []
    else
      Rows(lines[..|lines| - 1], start, end) +
      match Row(lines[|lines| - 1])
      case Some(s) => if start <= s.ts <= end then [s] else []
      case None => []
  }

  function Columns(samples: seq<Sample>): NodeStats {
    NodeStats(seq(|samples|, i requires 0 <= i < |samples| => samples[i].ts),
              seq(|samples|, i requires 0 <= i < |samples| => samples[i].rx),
              seq(|samples|, i requires 0 <= i < |samples| => samples[i].tx),
              seq(|samples|, i requires 0 <= i < |samples| => samples[i].cpu),
              seq(|samples|, i requires 0 <= i < |samples| => samples[i].mem))
  }

  method NewNodeStats(text: string, start: int, end: int) returns (ns: NodeStats)
    ensures ns == Columns(Rows(Lines(text), start, end))
  {
    hide Lines, Rows, Columns, Numbers, Split;
    var lines := Lines(text);
    ns := NodeStats([], [], [], [], []);
    NoRows(start, end);
    assert lines[..0] == [];
    for i := 0 to |lines|
      invariant ns == Columns(Rows(lines[..i], start, end))
    {
      RowsNext(lines, i, start, end);
      var numbers := ParseLine(lines[i]);
      if |numbers| >= 5 {
        var ts := ToInt64(numbers[0]);
        if ts >= start && ts <= end {
          ColumnsAppend(Rows(lines[..i], start, end), Sample(ts, numbers[1], numbers[2], numbers[3], numbers[4]));
          ns := NodeStats(ns.timestamps + [ts], ns.rxBytes + [numbers[1]], ns.txBytes + [numbers[2]],
                          ns.cpu + [numbers[3]], ns.memory + [numbers[4]]);
        }
      }
    }
    assert lines[..|lines|] == lines;
  }

  lemma NoRows(start: int, end: int)
    ensures Columns(Rows([], start, end)) == NodeStats([], [], [], [], [])
  {
  }

  lemma RowsNext(lines: seq<string>, i: nat, start: int, end: int)
    requires i < |lines|
    ensures Rows(lines[..i + 1], start, end) ==
            if Row(lines[i]).Some? && start <= Row(lines[i]).value.ts <= end
            then Rows(lines[..i], start, end) + [Row(lines[i]).value]
            else Rows(lines[..i], start, end)
  {
    hide Row;
    assert lines[..i + 1][..i] == lines[..i];
  }

  lemma ColumnsAppend(samples: seq<Sample>, s: Sample)
    ensures var c := Columns(samples);
            Columns(samples + [s])
            == NodeStats(c.timestamps + [s.ts], c.rxBytes + [s.rx], c.txBytes + [s.tx], c.cpu + [s.cpu], c.memory + [s.mem])
  {
  }

  // ---------- the round trip ----------

  /** The samples of a window, in order. */
  function Within(samples: seq<Sample>, start: int, end: int): seq<Sample> {
    if samples == [] then []
    else
      var last := samples[|samples| - 1];
      Within(samples[..|samples| - 1], start, end) + if start <= last.ts <= end then [last] else []
  }

  /** Everything that is printed is made of digits, commas and perhaps a sign. */
  lemma FieldIsClean(s: Sample, i: nat, c: char)
    requires i < 5 && !('0' <= c <= '9') && c != '-'
    ensures c !in Fields(s)[i]
    ensures Fields(s)[i] != ""
  {
    hide Dec;
    IntIsClean(s.ts, c);
    IntIsClean(s.rx, c);
    IntIsClean(s.tx, c);
    IntIsClean(s.cpu, c);
    IntIsClean(s.mem, c);
  }

  lemma IntIsClean(n: int, c: char)
    requires !('0' <= c <= '9') && c != '-'
    ensures c !in DecInt(n) && DecInt(n) != ""
  {
    DecIsDigits(if n < 0 then -n else n);
    hide Dec;
  }

  /** What is printed for a sample. */
  lemma LineText(s: Sample)
    requires s.ts >= 0
    ensures Line(s) == Dec(s.ts) + "," + Dec(s.rx) + "," + Dec(s.tx) + "," + Dec(s.cpu) + "," + Dec(s.mem)
  {
    hide Dec;
    var f := Fields(s);
    assert Join(f[4..], ",") == f[4];
    assert Join(f[3..], ",") == f[3] + "," + Join(f[4..], ",");
    assert Join(f[2..], ",") == f[2] + "," + Join(f[3..], ",");
    assert Join(f[1..], ",") == f[1] + "," + Join(f[2..], ",");
    assert Join(f, ",") == f[0] + "," + Join(f[1..], ",");
  }

  /** Blanks around a number do not matter. */
  lemma ReadPadded(left: nat, n: nat, right: nat)
    ensures ParseInteger(seq(left, _ => ' ') + Dec(n) + seq(right, _ => ' ')) == ParseInteger(Dec(n))
  {
    DecIsDigits(n);
    TrimPadded(left, Dec(n), right);
    TrimPadded(0, Dec(n), 0);
    assert seq(0, _ => ' ') + Dec(n) + seq(0, _ => ' ') == Dec(n);
  }

  lemma {:induction false} TrimPadded(left: nat, s: string, right: nat)
    requires s != "" && s[0] != ' ' && s[|s| - 1] != ' '
    ensures Trim(seq(left, _ => ' ') + s + seq(right, _ => ' '), ' ') == s
    decreases left + right
  {
    var all := seq(left, _ => ' ') + s + seq(right, _ => ' ');
    if left > 0 {
      TrimPadded(left - 1, s, right);
      assert all[1..] == seq(left - 1, _ => ' ') + s + seq(right, _ => ' ');
    } else if right > 0 {
      TrimPadded(0, s, right - 1);
      assert all[0] == s[0] && all[..|all| - 1] == seq(0, _ => ' ') + s + seq(right - 1, _ => ' ');
      assert TrimLeft(all, ' ') == all;
      assert TrimLeft(all[..|all| - 1], ' ') == all[..|all| - 1];
    } else {
      assert all == s;
    }
  }

  lemma ReadNumber(n: nat)
    ensures ParseInteger(Dec(n)) == if n < 18_446_744_073_709_551_616 then Some(n) else None
  {
    DecIsDigits(n);
    RoundTrip(n);
  }

  lemma ReadTimestamp(ts: int)
    requires -INT64 <= ts < INT64
    ensures ParseInteger(DecInt(ts)) == if ts >= 0 then Some(ts) else None
  {
    if ts >= 0 {
      ReadNumber(ts);
    } else {
      DecIsDigits(-ts);
      assert DecInt(ts)[0] == '-';
      assert DecInt(ts)[|DecInt(ts)| - 1] == Dec(-ts)[|Dec(-ts)| - 1];
    }
  }

  /** What a field contributes. */
  function NumberOf(value: string): seq<nat> {
    match ParseInteger(value) case Some(v) => [v] case None => []
  }

  lemma NumbersLast(values: seq<string>, last: string)
    ensures Numbers(values + [last]) == Numbers(values) + NumberOf(last)
  {
    hide ParseInteger;
    assert (values + [last])[..|values|] == values;
  }

  lemma NumbersConcatStep(a: seq<string>, b: seq<string>, last: string)
    requires Numbers(a + b) == Numbers(a) + Numbers(b)
    ensures Numbers(a + (b + [last])) == Numbers(a) + Numbers(b + [last])
  {
    NumbersLast(a + b, last);
    NumbersLast(b, last);
    hide *;
    assert a + (b + [last]) == a + b + [last];
  }

  lemma {:induction false} NumbersConcat(a: seq<string>, b: seq<string>)
    ensures Numbers(a + b) == Numbers(a) + Numbers(b)
  {
    if b == [] {
      assert a + b == a;
    } else {
      var before, last := b[..|b| - 1], b[|b| - 1];
      NumbersConcat(a, before);
      NumbersConcatStep(a, before, last);
      hide *;
      assert before + [last] == b;
    }
  }

  lemma NumbersOne(value: string)
    ensures Numbers([value]) == match ParseInteger(value) case Some(v) => [v] case None => []
  {
  }

  lemma NumbersOfFive(a: string, b: string, c: string, d: string, e: string, rest: seq<nat>)
    requires ParseInteger(b).Some? && ParseInteger(c).Some? && ParseInteger(d).Some? && ParseInteger(e).Some?
    requires rest == [ParseInteger(b).value, ParseInteger(c).value, ParseInteger(d).value, ParseInteger(e).value]
    ensures Numbers([a, b, c, d, e]) == (match ParseInteger(a) case Some(v) => [v] case None => []) + rest
  {
    hide ParseInteger;
    assert [a, b, c, d, e] == [a] + ([b] + ([c] + ([d] + [e])));
    NumbersConcat([a], [b] + ([c] + ([d] + [e])));
    NumbersConcat([b], [c] + ([d] + [e]));
    NumbersConcat([c], [d] + [e]);
    NumbersConcat([d], [e]);
    NumbersOne(a);
    NumbersOne(b);
    NumbersOne(c);
    NumbersOne(d);
    NumbersOne(e);
  }

  /** A printed line is read back, unless its time is negative: then only four numbers are left. */
  lemma ReadLine(s: Sample)
    requires s.InRange()
    ensures Row(Line(s)) == if s.ts >= 0 then Some(s) else None
  {
    hide ParseInteger, Dec, DecInt, Numbers;
    var f := Fields(s);
    forall i | 0 <= i < |f| ensures ',' !in f[i] { FieldIsClean(s, i, ','); }
    SplitJoin(f, ',');
    ReadTimestamp(s.ts);
    ReadNumber(s.rx);
    ReadNumber(s.tx);
    ReadNumber(s.cpu);
    ReadNumber(s.mem);
    NumbersOfFive(f[0], f[1], f[2], f[3], f[4], [s.rx, s.tx, s.cpu, s.mem]);
  }

  lemma LineIsClean(s: Sample)
    ensures '\n' !in Line(s) && Line(s) != "" && DropCR(Line(s)) == Line(s)
  {
    var f := Fields(s);
    forall i | 0 <= i < 5 ensures '\n' !in f[i] && '\r' !in f[i] && f[i] != "" {
      FieldIsClean(s, i, '\n');
      FieldIsClean(s, i, '\r');
    }
    JoinIsClean(f, ',', '\n');
    JoinIsClean(f, ',', '\r');
    assert Line(s)[|Line(s)| - 1] in Line(s);
  }

  lemma {:induction false} JoinIsClean(parts: seq<string>, sep: char, c: char)
    requires c != sep && |parts| >= 1 && parts[0] != ""
    requires forall i :: 0 <= i < |parts| ==> c !in parts[i] && parts[i] != ""
    ensures c !in Join(parts, [sep]) && Join(parts, [sep]) != ""
  {
    if |parts| > 1 {
      JoinIsClean(parts[1..], sep, c);
    }
  }

  predicate AreShort(parts: seq<string>) {
    forall i :: 0 <= i < |parts| ==> |parts[i]| < 65_536
  }

  lemma ScannedFirst(first: string, rest: seq<string>)
    ensures Scanned([first] + rest) == if |first| >= SCAN_LIMIT then [] else [DropCR(first)] + Scanned(rest)
    ensures AreShort([first] + rest) <==> |first| < SCAN_LIMIT && AreShort(rest)
  {
    hide DropCR;
    var all := [first] + rest;
    assert all[1..] == rest;
    assert forall i :: 0 <= i < |rest| ==> rest[i] == all[i + 1];
  }

  lemma ScannedConcatStep(first: string, p: seq<string>, q: seq<string>)
    requires Scanned(p + q) == Scanned(p) + if AreShort(p) then Scanned(q) else []
    ensures Scanned([first] + p + q) == Scanned([first] + p) + if AreShort([first] + p) then Scanned(q) else []
  {
    ScannedFirst(first, p);
    ScannedFirst(first, p + q);
    hide *;
    assert [first] + p + q == [first] + (p + q);
  }

  lemma {:induction false} ScannedConcat(p: seq<string>, q: seq<string>)
    ensures Scanned(p + q) == Scanned(p) + if AreShort(p) then Scanned(q) else []
  {
    if p == [] {
      assert p + q == q;
    } else {
      ScannedConcat(p[1..], q);
      ScannedConcatStep(p[0], p[1..], q);
      hide *;
      assert [p[0]] + p[1..] == p;
    }
  }

  lemma WithoutEmptyEndConcat(p: seq<string>, q: seq<string>)
    requires |q| >= 1
    ensures WithoutEmptyEnd(p + q) == p + WithoutEmptyEnd(q)
    ensures WithoutEmptyEnd(p + [""]) == p
  {
    assert (p + q)[|p + q| - 1] == q[|q| - 1];
  }

  /** What is read before a line break does not depend on what follows it, and what follows is read in
      the same way as without it, unless a line before was too long: then it is not read at all. */
  lemma LinesConcat(a: string, b: string)
    ensures Lines(a + "\n" + b) == Lines(a + "\n") + if AreShort(Split(a, '\n')) then Lines(b) else []
  {
    var p, q := Split(a, '\n'), Split(b, '\n');
    SplitConcat(a, b, '\n');
    SplitConcat(a, "", '\n');
    assert a + "\n" + "" == a + "\n" && Split("", '\n') == [""];
    hide Split, Scanned, WithoutEmptyEnd, AreShort;
    WithoutEmptyEndConcat(p, q);
    ScannedConcat(p, WithoutEmptyEnd(q));
  }

  /** A carriage return before the line break is not part of the line. */
  lemma LineWithReturn(line: string)
    requires '\n' !in line && '\r' !in line && |line| < 65_535
    ensures Lines(line + "\r\n") == [line] == Lines(line + "\n")
  {
    OneLine(line + "\r");
    OneLine(line);
    assert line + "\r\n" == line + "\r" + "\n";
    assert line != "" ==> line[|line| - 1] in line;
  }

  lemma OneLine(line: string)
    requires '\n' !in line && |line| < 65_536
    ensures Lines(line + "\n") == [DropCR(line)]
  {
    SplitSingle(line, '\n');
    SplitConcat(line, "", '\n');
    assert line + "\n" + "" == line + "\n" && Split("", '\n') == [""];
    hide Split, DropCR;
    WithoutEmptyEndConcat([line], [""]);
    ScannedFirst(line, []);
    assert [line] + [] == [line];
  }

  function LinesFor(samples: seq<Sample>): seq<string> {
    seq(|samples|, i requires 0 <= i < |samples| => Line(samples[i]))
  }

  lemma LinesForNext(before: seq<Sample>, last: Sample)
    ensures LinesFor(before + [last]) == LinesFor(before) + [Line(last)]
  {
  }

  lemma LinesForFirst(first: Sample, rest: seq<Sample>)
    ensures LinesFor([first] + rest) == [Line(first)] + LinesFor(rest)
  {
    hide Line;
    var all := [first] + rest;
    forall i | 0 < i < |all| ensures LinesFor(all)[i] == LinesFor(rest)[i - 1] {
      assert all[i] == rest[i - 1];
    }
  }

  lemma WrittenLast(before: seq<Sample>, last: Sample)
    ensures Written(before + [last]) == Written(before) + Line(last) + "\n"
  {
    hide Line;
    assert (before + [last])[..|before|] == before;
  }

  lemma Regroup(x: string, nl: string, w: string, y: string)
    ensures (x + nl + w) + y + nl == x + nl + (w + y + nl)
  {
  }

  lemma WrittenFirstStep(first: Sample, before: seq<Sample>, last: Sample)
    requires Written([first] + before) == Line(first) + "\n" + Written(before)
    ensures Written([first] + before + [last]) == Line(first) + "\n" + Written(before + [last])
  {
    hide *;
    WrittenLast([first] + before, last);
    WrittenLast(before, last);
    Regroup(Line(first), "\n", Written(before), Line(last));
  }

  lemma OneWritten(first: Sample)
    ensures Written([first]) == Line(first) + "\n" + Written([])
  {
    hide Line;
    assert [first][..0] == [];
  }

  lemma {:induction false} WrittenFirst(first: Sample, rest: seq<Sample>)
    ensures Written([first] + rest) == Line(first) + "\n" + Written(rest)
  {
    hide *;
    if rest == [] {
      OneWritten(first);
      assert rest == [] && [first] + rest == [first];
    } else {
      var before, last := rest[..|rest| - 1], rest[|rest| - 1];
      WrittenFirst(first, before);
      WrittenFirstStep(first, before, last);
      assert before + [last] == rest;
      assert [first] + before + [last] == [first] + rest;
    }
  }

  lemma NothingWritten()
    ensures Split(Written([]), '\n') == LinesFor([]) + [""]
  {
  }

  lemma {:induction false} SplitWritten(samples: seq<Sample>)
    ensures Split(Written(samples), '\n') == LinesFor(samples) + [""]
  {
    hide *;
    if samples == [] {
      NothingWritten();
      assert samples == [];
    } else {
      var first, rest := samples[0], samples[1..];
      SplitWritten(rest);
      LineIsClean(first);
      SplitSingle(Line(first), '\n');
      SplitConcat(Line(first), Written(rest), '\n');
      WrittenFirst(first, rest);
      LinesForFirst(first, rest);
      assert samples == [first] + rest;
      assert [Line(first)] + (LinesFor(rest) + [""]) == [Line(first)] + LinesFor(rest) + [""];
    }
  }

  lemma {:induction false} DecLength(n: nat, k: nat, limit: nat)
    requires k >= 1 && limit == Power10(k) && n < limit
    ensures |Dec(n)| <= k
  {
    if n >= 10 {
      DecLength(n / 10, k - 1, Power10(k - 1));
    }
  }

  function Power10(k: nat): nat {
    if k == 0 then 1 else 10 * Power10(k - 1)
  }

  lemma NumberIsShort(n: nat)
    requires n < UINT64
    ensures |Dec(n)| <= 20
  {
    assert Power10(5) == 100_000;
    assert Power10(10) == 100_000 * 100_000;
    assert Power10(15) == 100_000 * 100_000 * 100_000;
    assert Power10(20) == 100_000 * 100_000 * 100_000 * 100_000;
    DecLength(n, 20, Power10(20));
  }

  lemma LineIsShort(s: Sample)
    requires s.InRange()
    ensures |Line(s)| < SCAN_LIMIT
  {
    NumberIsShort(if s.ts < 0 then -s.ts else s.ts);
    NumberIsShort(s.rx);
    NumberIsShort(s.tx);
    NumberIsShort(s.cpu);
    NumberIsShort(s.mem);
    hide Dec;
    var f := Fields(s);
    assert |f[0]| <= 21;
    JoinLength(f, ',', 21);
  }

  lemma {:induction false} JoinLength(parts: seq<string>, sep: char, most: nat)
    requires forall i :: 0 <= i < |parts| ==> |parts[i]| <= most
    ensures |Join(parts, [sep])| <= |parts| * (most + 1)
  {
    if |parts| > 1 {
      JoinLength(parts[1..], sep, most);
      assert |parts| * (most + 1) == |parts[1..]| * (most + 1) + (most + 1);
    }
  }

  lemma {:induction false} ScanWritten(samples: seq<Sample>)
    requires forall i :: 0 <= i < |samples| ==> samples[i].InRange()
    ensures Scanned(LinesFor(samples)) == LinesFor(samples)
  {
    if samples != [] {
      var first, rest := samples[0], samples[1..];
      assert first.InRange();
      ScanWritten(rest);
      LineIsClean(first);
      LineIsShort(first);
      LinesForFirst(first, rest);
      assert samples == [first] + rest;
      hide Line, LinesFor;
      assert ([Line(first)] + LinesFor(rest))[1..] == LinesFor(rest);
    }
  }

  /** No written line is too long for the scanner. */
  lemma LinesOfWritten(samples: seq<Sample>)
    requires forall i :: 0 <= i < |samples| ==> samples[i].InRange()
    ensures Lines(Written(samples)) == LinesFor(samples)
  {
    SplitWritten(samples);
    ScanWritten(samples);
    hide Split, LinesFor, Scanned;
    assert WithoutEmptyEnd(LinesFor(samples) + [""]) == LinesFor(samples);
  }

  lemma {:induction false} RowsOfLines(samples: seq<Sample>, start: int, end: int)
    requires forall i :: 0 <= i < |samples| ==> samples[i].InRange()
    ensures Rows(LinesFor(samples), start, end) == Within(samples, if start < 0 then 0 else start, end)
  {
    hide *;
    if samples == [] {
      NothingWithin(samples, start, if start < 0 then 0 else start, end);
    } else {
      var before, last := samples[..|samples| - 1], samples[|samples| - 1];
      assert samples == before + [last];
      RowsOfLines(before, start, end);
      RowsOfNext(before, last, start, end);
    }
  }

  lemma NothingWithin(samples: seq<Sample>, start: int, from: int, end: int)
    requires samples == []
    ensures Rows(LinesFor(samples), start, end) == [] == Within(samples, from, end)
  {
  }

  lemma RowsOfNext(before: seq<Sample>, last: Sample, start: int, end: int)
    requires last.InRange() && Rows(LinesFor(before), start, end) == Within(before, if start < 0 then 0 else start, end)
    ensures Rows(LinesFor(before + [last]), start, end) == Within(before + [last], if start < 0 then 0 else start, end)
  {
    hide *;
    ReadLine(last);
    LinesForNext(before, last);
    RowsAppend(LinesFor(before), Line(last), start, end);
    WithinAppend(before, last, if start < 0 then 0 else start, end);
  }

  lemma WithinAppend(before: seq<Sample>, last: Sample, start: int, end: int)
    ensures Within(before + [last], start, end) == Within(before, start, end) + if start <= last.ts <= end then [last] else []
  {
  }

  lemma RowsAppend(lines: seq<string>, line: string, start: int, end: int)
    ensures Rows(lines + [line], start, end)
            == Rows(lines, start, end)
               + match Row(line)
                 case Some(s) => if start <= s.ts <= end then [s] else []
                 case None => []
  {
  }

  /** The columns of samples, one value for each in its own column. */
  ghost predicate AreColumnsOf(ns: NodeStats, samples: seq<Sample>) {
    && IsTable(ns) && |ns.timestamps| == |samples|
    && forall i :: 0 <= i < |samples| ==>
         && ns.timestamps[i] == samples[i].ts && ns.rxBytes[i] == samples[i].rx && ns.txBytes[i] == samples[i].tx
         && ns.cpu[i] == samples[i].cpu && ns.memory[i] == samples[i].mem
  }

  lemma ColumnsAre(samples: seq<Sample>)
    ensures AreColumnsOf(Columns(samples), samples)
  {
  }

  /** Writing any samples and reading a window of them gives exactly the samples of the window, in order
      and column by column; samples from before 1970 are lost, whatever the window. */
  method WriteAndRead(samples: seq<Sample>, start: int, end: int) returns (ns: NodeStats)
    requires forall i :: 0 <= i < |samples| ==> samples[i].InRange()
    ensures ns == Columns(Within(samples, if start < 0 then 0 else start, end))
    ensures AreColumnsOf(ns, Within(samples, if start < 0 then 0 else start, end))
    ensures (forall i :: 0 <= i < |samples| ==> samples[i].ts >= 0) ==> ns == Columns(Within(samples, start, end))
  {
    var file := WriteSamples(samples);
    ns := NewNodeStats(file, start, end);
    ColumnsAre(Within(samples, if start < 0 then 0 else start, end));
    hide AreColumnsOf;
    LinesOfWritten(samples);
    RowsOfLines(samples, start, end);
    if (forall i :: 0 <= i < |samples| ==> samples[i].ts >= 0) && start < 0 {
      NoneBeforeZero(samples, start, end);
    }
  }

  lemma {:induction false} NoneBeforeZero(samples: seq<Sample>, start: int, end: int)
    requires start < 0 && forall i :: 0 <= i < |samples| ==> samples[i].ts >= 0
    ensures Within(samples, start, end) == Within(samples, 0, end)
  {
    if samples != [] {
      NoneBeforeZero(samples[..|samples| - 1], start, end);
    }
  }

  ghost predicate IsSorted(samples: seq<Sample>) {
    forall p, q :: 0 <= p < q < |samples| ==> samples[p].ts <= samples[q].ts
  }

  /** The samples of the window are those from i up to j. */
  ghost predicate IsBlock(samples: seq<Sample>, start: int, end: int, i: nat, j: nat) {
    i <= j <= |samples| && forall p :: 0 <= p < |samples| ==> (i <= p < j <==> start <= samples[p].ts <= end)
  }

  /** With a clock that does not go back, a window is one block of the samples. */
  lemma {:induction false} WindowIsBlock(samples: seq<Sample>, start: int, end: int) returns (i: nat, j: nat)
    requires IsSorted(samples)
    ensures IsBlock(samples, start, end, i, j) && Within(samples, start, end) == samples[i..j]
  {
    if samples == [] {
      i, j := 0, 0;
    } else {
      var n := |samples| - 1;
      var before, last := samples[..n], samples[n];
      assert samples == before + [last];
      SortedPrefix(before, last);
      i, j := WindowIsBlock(before, start, end);
      hide *;
      WithinAppend(before, last, start, end);
      var k, l := BlockNext(before, last, start, end, i, j);
      assert samples[k..l] == before[i..j] + if start <= last.ts <= end then [last] else [];
      i, j := k, l;
    }
  }

  lemma SortedPrefix(before: seq<Sample>, last: Sample)
    requires IsSorted(before + [last])
    ensures IsSorted(before)
  {
    assert forall p :: 0 <= p < |before| ==> (before + [last])[p] == before[p];
  }

  /** A later sample that belongs to the window goes on with its block, or starts it. */
  lemma BlockNext(before: seq<Sample>, last: Sample, start: int, end: int, i: nat, j: nat) returns (k: nat, l: nat)
    requires IsSorted(before + [last]) && IsBlock(before, start, end, i, j)
    ensures IsBlock(before + [last], start, end, k, l) && i <= j <= |before|
    ensures if !(start <= last.ts <= end) then k == i && l == j
            else l == |before| + 1 && (if i == j then k == |before| else k == i && j == |before|)
  {
    var n := |before|;
    ghost var samples := before + [last];
    assert forall p :: 0 <= p < n ==> samples[p] == before[p] && samples[p].ts <= samples[n].ts;
    assert i < j ==> samples[i].ts <= samples[n - 1].ts;
    hide IsSorted;
    if !(start <= last.ts <= end) {
      k, l := i, j;
    } else if i == j {
      k, l := n, n + 1;
    } else {
      k, l := i, n + 1;
      assert start <= before[i].ts <= before[n - 1].ts <= last.ts;
    }
  }

  // ---------- summaries ----------

  /** The columns that have a value for each timestamp. */
  predicate IsTable(ns: NodeStats) {
    |ns.timestamps| == |ns.rxBytes| == |ns.txBytes| == |ns.cpu| == |ns.memory|
  }

  /** The largest value, or zero if there is none. */
  predicate IsMax(m: nat, values: seq<nat>) {
    (forall v :: v in values ==> v <= m) && if values == [] then m == 0 else m in values
  }

  method Max(ns: NodeStats) returns (cpu: nat, mem: nat, tx: nat, rx: nat)
    requires IsTable(ns)
    ensures IsMax(cpu, ns.cpu) && IsMax(mem, ns.memory) && IsMax(tx, ns.txBytes) && IsMax(rx, ns.rxBytes)
  {
    hide IsMax;
    cpu, mem, tx, rx := 0, 0, 0, 0;
    NoMax();
    for i := 0 to |ns.timestamps|
      invariant IsMax(cpu, ns.cpu[..i]) && IsMax(mem, ns.memory[..i])
      invariant IsMax(tx, ns.txBytes[..i]) && IsMax(rx, ns.rxBytes[..i])
    {
      MaxNext(cpu, ns.cpu, i);
      MaxNext(mem, ns.memory, i);
      MaxNext(tx, ns.txBytes, i);
      MaxNext(rx, ns.rxBytes, i);
      if cpu < ns.cpu[i] { cpu := ns.cpu[i]; }
      if mem < ns.memory[i] { mem := ns.memory[i]; }
      if tx < ns.txBytes[i] { tx := ns.txBytes[i]; }
      if rx < ns.rxBytes[i] { rx := ns.rxBytes[i]; }
    }
    WholeColumns(ns);
  }

  lemma NoMax()
    ensures IsMax(0, [])
  {
  }

  lemma MaxNext(m: nat, values: seq<nat>, i: nat)
    requires i < |values| && IsMax(m, values[..i])
    ensures IsMax(if m < values[i] then values[i] else m, values[..i + 1])
  {
    assert values[..i + 1] == values[..i] + [values[i]];
  }

  lemma WholeColumns(ns: NodeStats)
    requires IsTable(ns)
    ensures var n := |ns.timestamps|;
            ns.cpu[..n] == ns.cpu && ns.memory[..n] == ns.memory && ns.txBytes[..n] == ns.txBytes && ns.rxBytes[..n] == ns.rxBytes
  {
  }

  function Sum(values: seq<nat>): nat {
    if values == [] then 0 else Sum(values[..|values| - 1]) + values[|values| - 1]
  }

  /** A sum that is kept in 64 bits. */
  function Wrapped(values: seq<nat>): nat {
    Sum(values) % UINT64
  }

  /** Go's quotient is not a number for a column without values. */
  function Quotient(sum: nat, n: nat): Option<real> {
    if n == 0 then None else Some(sum as real / n as real)
  }

  function Mean(values: seq<nat>): Option<real> {
    Quotient(Wrapped(values), |values|)
  }

  method Average(ns: NodeStats) returns (cpu: Option<real>, mem: Option<real>, tx: Option<real>, rx: Option<real>)
    requires IsTable(ns)
    ensures cpu == Mean(ns.cpu) && mem == Mean(ns.memory) && tx == Mean(ns.txBytes) && rx == Mean(ns.rxBytes)
  {
    hide Wrapped, Sum, Quotient;
    var scpu, smem, stx, srx := 0, 0, 0, 0;
    NoSum();
    for i := 0 to |ns.timestamps|
      invariant scpu == Wrapped(ns.cpu[..i]) && smem == Wrapped(ns.memory[..i])
      invariant stx == Wrapped(ns.txBytes[..i]) && srx == Wrapped(ns.rxBytes[..i])
    {
      scpu := AddNext(scpu, ns.cpu, i);
      smem := AddNext(smem, ns.memory, i);
      stx := AddNext(stx, ns.txBytes, i);
      srx := AddNext(srx, ns.rxBytes, i);
    }
    WholeColumns(ns);
    var n := |ns.timestamps|;
    cpu, mem, tx, rx := Quotient(scpu, n), Quotient(smem, n), Quotient(stx, n), Quotient(srx, n);
  }

  /** Adds the next value of a column in 64 bits. */
  method AddNext(sum: nat, values: seq<nat>, i: nat) returns (next: nat)
    requires i < |values| && sum == Wrapped(values[..i])
    ensures next == Wrapped(values[..i + 1])
  {
    assert values[..i + 1][..i] == values[..i];
    next := (sum + values[i]) % UINT64;
  }

  lemma NoSum()
    ensures Wrapped([]) == 0
  {
  }

  /** The sum of a column is that of its parts. */
  lemma {:induction false} SumConcat(a: seq<nat>, b: seq<nat>)
    ensures Sum(a + b) == Sum(a) + Sum(b)
  {
    if b == [] {
      assert a + b == a;
    } else {
      var before, last := b[..|b| - 1], b[|b| - 1];
      SumConcat(a, before);
      assert (a + b)[..|a + b| - 1] == a + before;
    }
  }

  lemma SumOfOne(value: nat)
    ensures Sum([value]) == value && Sum([]) == 0
  {
    assert [value][..0] == [];
  }

  /** Every value of a column adds to its sum, and nothing else does. */
  lemma SumAdds(a: seq<nat>, value: nat, b: seq<nat>)
    ensures Sum(a + [value] + b) == Sum(a) + value + Sum(b) && Sum([]) == 0
  {
    SumConcat(a + [value], b);
    SumConcat(a, [value]);
    SumOfOne(value);
  }

  /** The mean is the true one exactly when the sum of the column fits 64 bits. */
  lemma MeanIsExactIff(values: seq<nat>)
    requires values != []
    ensures Mean(values) == Some(Sum(values) as real / |values| as real) <==> Sum(values) < 18_446_744_073_709_551_616
  {
    var wrapped, sum := Wrapped(values), Sum(values);
    SameQuotient(wrapped, sum, |values|);
    assert wrapped == sum <==> sum < UINT64;
  }

  lemma SameQuotient(a: nat, b: nat, n: nat)
    requires n > 0
    ensures a as real / n as real == b as real / n as real <==> a == b
  {
  }
}
