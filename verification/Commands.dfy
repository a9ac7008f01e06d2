/** daemon/monitor/netem/executor.go: the command lines, and how the device reads each of them. */
module Commands {
  import opened Prelude
  import opened Text
  import opened Decimal
  import opened Rule
  import opened Tc

  // A format string is written as the fields that it holds, printed with one blank between them and
  // split again, as the executor does.

  function Print(fields: seq<string>): seq<string> {
    Split(Join(fields, " "), ' ')
  }

  function MakeRoot(dev: string): seq<string> {
    Print(["qdisc", "add", "dev", dev, "root", "handle", "1:", "htb"])
  }

  function MakeParent(dev: string): seq<string> {
    Print(["class", "add", "dev", dev, "parent", "1:", "classid", "1:1", "htb", "rate", "1000Mbps"])
  }

  function MakeClass(dev: string, minor: nat): seq<string> {
    Print(["class", "add", "dev", dev, "parent", "1:1", "classid", "1:" + Dec(minor), "htb", "rate", "1000Mbps"])
  }

  function MakeFilter(dev: string, ip: string, minor: nat): seq<string> {
    Print(["filter", "add", "dev", dev, "protocol", "ip", "parent", "1:0", "prio", "1", "u32",
           "match", "ip", "dst", ip, "flowid", "1:" + Dec(minor)])
  }

  function MakeQDisc(dev: string, minor: nat, major: nat, rule: Rule): seq<string> {
    Print(["qdisc", "add", "dev", dev, "parent", "1:" + Dec(minor), "handle", Dec(major) + ":", MakeNetEm(rule)])
  }

  function MakeNetEm(rule: Rule): string {
    Trim(Join(["netem", rule.delay.Print(), rule.loss.Print()], " "), ' ')
  }

  /** What a rule asks the network to do. */
  function ParamsOf(rule: Rule): NetEm {
    NetEm(rule.delay.Milliseconds(), rule.loss.Hundredths())
  }

  /** The parameters are a delay in nanoseconds, in whole milliseconds, and a loss, in hundredths of a
      percent; a delay that is not positive and a loss that is not in (0, 1] do not count. */
  predicate IsOnWire(params: NetEm, delay: int, loss: real) {
    && (if delay <= 0 then params.delayMs == 0
        else params.delayMs * 1_000_000 <= delay < (params.delayMs + 1) * 1_000_000)
    && (if loss <= 0.0 || loss > 1.0 then params.loss == 0 else IsNearest(params.loss, loss * 10_000.0))
  }

  lemma ParamsOnWire(rule: Rule)
    ensures IsOnWire(ParamsOf(rule), rule.delay.value, rule.loss.value)
  {
    if 0.0 < rule.loss.value { RoundIsNearest(rule.loss.value * 10_000.0); }
  }

  lemma OnWireIsUnique(p: NetEm, q: NetEm, delay: int, loss: real)
    requires IsOnWire(p, delay, loss) && IsOnWire(q, delay, loss)
    ensures p == q
  {
    if 0.0 < loss <= 1.0 { NearestIsUnique(p.loss, q.loss, loss * 10_000.0); }
  }

  // ---------- reading the printed pieces ----------

  lemma PutWord(w: string, rest: string)
    requires ' ' !in w
    ensures Split(w + " " + rest, ' ') == [w] + Split(rest, ' ')
  {
    SplitSingle(w, ' ');
    SplitConcat(w, rest, ' ');
  }

  lemma PrintedIsFree(n: nat, c: char)
    requires !('0' <= c <= '9')
    ensures c !in Dec(n)
  {
  }

  /** `1:N`, printed in decimal, is read in base 16. */
  lemma ReadPrintedId(n: nat)
    ensures ReadId("1:" + Dec(n)) == if HexRead(n) < 0x1_0000 then Some(Id(1, HexRead(n))) else None
    ensures IsWord("1:" + Dec(n))
  {
    PrintedIsFree(n, ':');
    PrintedIsFree(n, ' ');
    SplitSingle("1", ':');
    SplitSingle(Dec(n), ':');
    SplitConcat("1", Dec(n), ':');
    assert "1:" + Dec(n) == "1" + ":" + Dec(n);
    DecIsDigits(n);
    HexParse(n);
    HexParse(1);
    assert Dec(1) == "1";
  }

  lemma ReadPrintedHandle(n: nat)
    ensures ReadHandle(Dec(n) + ":") == if HexRead(n) < 0x1_0000 then Some(HexRead(n)) else None
    ensures IsWord(Dec(n) + ":")
  {
    PrintedIsFree(n, ':');
    PrintedIsFree(n, ' ');
    SplitSingle(Dec(n), ':');
    SplitConcat(Dec(n), "", ':');
    assert Dec(n) + ":" == Dec(n) + ":" + "";
    HexParse(n);
  }

  lemma ReadFixedIds()
    ensures ReadId("1:") == Some(Id(1, 0)) && ReadId("1:0") == Some(Id(1, 0)) && ReadId("1:1") == Some(Id(1, 1))
    ensures ReadHandle("1:") == Some(1)
  {
    ReadPrintedId(0);
    ReadPrintedId(1);
    assert Dec(0) == "0" && Dec(1) == "1";
    ReadPrintedHandle(1);
  }

  lemma ReadPrintedDelay(d: Delay)
    ensures ReadDelay(Words(Split(d.Print(), ' '))) == Some(d.Milliseconds())
    ensures d.value > 0 ==> Words(Split(d.Print(), ' ')) == ["delay", Dec(d.Milliseconds()) + "ms"]
    ensures d.value <= 0 ==> d.Print() == ""
  {
    if d.value > 0 {
      var n := Dec(d.Milliseconds());
      var token := n + "ms";
      PrintedIsFree(d.Milliseconds(), ' ');
      assert d.Print() == "delay" + " " + token;
      PutWord("delay", token);
      SplitSingle(token, ' ');
      WordsAll(["delay", token]);
      assert token[..|token| - 2] == n;
      RoundTrip(d.Milliseconds());
    }
  }

  lemma TwoDigits(a: nat, b: nat)
    requires a < 10 && b < 10
    ensures Parse([HEX[a], HEX[b]], 10) == Some(a * 10 + b)
  {
    var s := [HEX[a], HEX[b]];
    assert s[..1] == [HEX[a]] && s[..1][..0] == "";
    assert ValueOf("", 10) == 0;
    assert ValueOf([HEX[a]], 10) == a;
  }

  lemma ReadPrintedPercent(h: nat)
    ensures ReadPercent(PrintHundredths(h) + "%") == Some(h)
  {
    var whole, a, b := h / 100, h / 10 % 10, h % 10;
    assert whole * 100 + (a * 10 + b) == h;
    ReadDigits(whole, a, b);
  }

  lemma ReadDigits(whole: nat, a: nat, b: nat)
    requires a < 10 && b < 10
    ensures ReadPercent(Dec(whole) + "." + [HEX[a], HEX[b]] + "%") == Some(whole * 100 + (a * 10 + b))
  {
    hide Parse, ReadPercent, Dec, ValueOf;
    RoundTrip(whole);
    TwoDigits(a, b);
    ReadPercentOf(Dec(whole), HEX[a], HEX[b]);
  }

  lemma PercentIsWord(h: nat)
    ensures IsWord(PrintHundredths(h) + "%")
  {
    PrintedIsFree(h / 100, ' ');
  }

  lemma ReadPercentOf(whole: string, a: char, b: char)
    ensures var token := whole + "." + [a, b] + "%";
            ReadPercent(token) ==
            match (Parse(whole, 10), Parse([a, b], 10))
            case (Some(w), Some(r)) => Some(w * 100 + r)
            case _ => None
  {
    var token := whole + "." + [a, b] + "%";
    var n := |token| - 4;
    assert token[..n] == whole;
    assert token[n + 1..n + 3] == [a, b];
  }

  lemma ReadPrintedLoss(l: Loss)
    ensures ReadLoss(Words(Split(l.Print(), ' '))) == Some(l.Hundredths())
    ensures 0.0 < l.value <= 1.0 ==> exists p :: Words(Split(l.Print(), ' ')) == ["loss", p]
    ensures !(0.0 < l.value <= 1.0) ==> l.Print() == ""
  {
    if 0.0 < l.value <= 1.0 {
      var token := PrintHundredths(l.Hundredths()) + "%";
      ReadPrintedPercent(l.Hundredths());
      PercentIsWord(l.Hundredths());
      assert l.Print() == "loss" + " " + token;
      PutWord("loss", token);
      SplitSingle(token, ' ');
      WordsAll(["loss", token]);
    }
  }

  /** Trimming blanks at the end does not change the words. */
  lemma {:induction false} WordsOfTrimmed(s: string)
    ensures Words(Split(TrimRight(s, ' '), ' ')) == Words(Split(s, ' '))
  {
    if s != "" && s[|s| - 1] == ' ' {
      var t := s[..|s| - 1];
      WordsOfTrimmed(t);
      assert s == t + " " + "";
      SplitConcat(t, "", ' ');
      WordsConcat(Split(t, ' '), [""]);
    }
  }

  /** The words of the netem part are its name, then those of the delay, then those of the loss. */
  lemma NetEmWords(d: string, l: string)
    ensures Words(Split(TrimRight(Join(["netem", d, l], " "), ' '), ' '))
            == ["netem"] + (Words(Split(d, ' ')) + Words(Split(l, ' ')))
  {
    WordsOfTrimmed(Join(["netem", d, l], " "));
    var rest := d + " " + l;
    assert Join([d, l], " ") == rest;
    PutWord("netem", rest);
    assert ["netem", d, l][1..] == [d, l];
    SplitConcat(d, l, ' ');
    WordsConcat(["netem"], Split(rest, ' '));
    WordsConcat(Split(d, ' '), Split(l, ' '));
    WordsAll(["netem"]);
  }

  lemma ReadPrintedNetEm(rule: Rule)
    ensures var ws := Words(Split(MakeNetEm(rule), ' '));
            && |ws| >= 1 && ws[0] == "netem" && ReadNetEm(ws[1..]) == Some(ParamsOf(rule))
            && IsOnWire(ReadNetEm(ws[1..]).value, rule.delay.value, rule.loss.value)
  {
    ParamsOnWire(rule);
    hide IsOnWire;
    var d, l := rule.delay.Print(), rule.loss.Print();
    NetEmWords(d, l);
    ReadPrintedDelay(rule.delay);
    ReadPrintedLoss(rule.loss);
    ReadBoth(Words(Split(d, ' ')), Words(Split(l, ' ')));
  }

  lemma ReadBoth(dw: seq<string>, lw: seq<string>)
    requires ReadDelay(dw).Some? && ReadLoss(lw).Some?
    ensures ReadNetEm(dw + lw) == Some(NetEm(ReadDelay(dw).value, ReadLoss(lw).value))
  {
  }

  // ---------- reading whole commands ----------

  /** A command whose fields are words is read back field by field. */
  lemma ReadFields(fields: seq<string>)
    requires |fields| >= 1
    requires forall i :: 0 <= i < |fields| ==> IsWord(fields[i])
    ensures Words(Print(fields)) == fields
  {
    SplitJoin(fields, ' ');
    WordsAll(fields);
  }

  /** The verb is told by the first word, and the rest is what follows the device. */
  lemma ReadQdiscArgs(dev: string, args: seq<string>, tail: seq<string>)
    requires Words(args) == ["qdisc", "add", "dev", dev] + tail
    ensures Read(dev, args) == ReadQdisc(tail)
  {
    hide Words, ReadQdisc, ReadClass, ReadFilter;
    assert Words(args)[4..] == tail;
  }

  lemma ReadClassArgs(dev: string, args: seq<string>, tail: seq<string>)
    requires Words(args) == ["class", "add", "dev", dev] + tail
    ensures Read(dev, args) == ReadClass(tail)
  {
    hide Words, ReadQdisc, ReadClass, ReadFilter;
    assert Words(args)[4..] == tail;
  }

  lemma ReadFilterArgs(dev: string, args: seq<string>, tail: seq<string>)
    requires Words(args) == ["filter", "add", "dev", dev] + tail
    ensures Read(dev, args) == ReadFilter(tail)
  {
    hide Words, ReadQdisc, ReadClass, ReadFilter;
    assert Words(args)[4..] == tail;
  }

  lemma RootWords(dev: string)
    requires IsWord(dev)
    ensures Words(MakeRoot(dev)) == ["qdisc", "add", "dev", dev] + ["root", "handle", "1:", "htb"]
  {
    ReadFields(["qdisc", "add", "dev", dev, "root", "handle", "1:", "htb"]);
  }

  lemma ReadRoot(dev: string)
    requires IsWord(dev)
    ensures Read(dev, MakeRoot(dev)) == Some(AddRoot(1))
  {
    RootWords(dev);
    hide MakeRoot, Words, Read, ReadHandle;
    ReadQdiscArgs(dev, MakeRoot(dev), ["root", "handle", "1:", "htb"]);
    ReadFixedIds();
  }

  lemma ClassWords(dev: string, under: string, id: string)
    requires IsWord(dev) && IsWord(under) && IsWord(id)
    ensures Words(Print(["class", "add", "dev", dev, "parent", under, "classid", id, "htb", "rate", "1000Mbps"]))
            == ["class", "add", "dev", dev] + ["parent", under, "classid", id, "htb", "rate", "1000Mbps"]
  {
    ReadFields(["class", "add", "dev", dev, "parent", under, "classid", id, "htb", "rate", "1000Mbps"]);
  }

  lemma ReadClassTail(under: string, id: string)
    ensures ReadClass(["parent", under, "classid", id, "htb", "rate", "1000Mbps"]) ==
            match (ReadId(under), ReadId(id))
            case (Some(p), Some(c)) => Some(AddClass(p, c))
            case _ => None
  {
    hide ReadId;
  }

  lemma ReadParent(dev: string)
    requires IsWord(dev)
    ensures Read(dev, MakeParent(dev)) == Some(AddClass(Id(1, 0), Id(1, 1)))
  {
    hide Words, Print, Read, ReadId, ReadClass;
    ClassWords(dev, "1:", "1:1");
    ReadClassArgs(dev, MakeParent(dev), ["parent", "1:", "classid", "1:1", "htb", "rate", "1000Mbps"]);
    ReadClassTail("1:", "1:1");
    ReadFixedIds();
  }

  lemma ReadClassCommand(dev: string, minor: nat)
    requires IsWord(dev)
    ensures Read(dev, MakeClass(dev, minor))
            == if HexRead(minor) < 0x1_0000 then Some(AddClass(Id(1, 1), Id(1, HexRead(minor)))) else None
  {
    hide Words, Print, Read, ReadId, ReadClass, Dec, HexRead;
    var id := "1:" + Dec(minor);
    ReadPrintedId(minor);
    ClassWords(dev, "1:1", id);
    ReadClassArgs(dev, MakeClass(dev, minor), ["parent", "1:1", "classid", id, "htb", "rate", "1000Mbps"]);
    ReadClassTail("1:1", id);
    ReadFixedIds();
  }

  /** The words of a filter command that are the same for every device and rule. */
  lemma FixedFilterWords()
    ensures IsWord("filter") && IsWord("add") && IsWord("dev") && IsWord("protocol") && IsWord("ip") && IsWord("parent")
    ensures IsWord("1:0") && IsWord("prio") && IsWord("1") && IsWord("u32") && IsWord("match") && IsWord("dst") && IsWord("flowid")
  {
  }

  lemma FilterWords(dev: string, address: string, id: string)
    requires IsWord(dev) && IsWord(address) && IsWord(id)
    ensures Words(Print(["filter", "add", "dev", dev, "protocol", "ip", "parent", "1:0", "prio", "1", "u32",
                         "match", "ip", "dst", address, "flowid", id]))
            == ["filter", "add", "dev", dev]
               + ["protocol", "ip", "parent", "1:0", "prio", "1", "u32", "match", "ip", "dst", address, "flowid", id]
  {
    hide *;
    FixedFilterWords();
    ReadFields(["filter", "add", "dev", dev, "protocol", "ip", "parent", "1:0", "prio", "1", "u32",
                "match", "ip", "dst", address, "flowid", id]);
  }

  lemma ReadFilterTail(address: string, id: string)
    ensures var ws := ["protocol", "ip", "parent", "1:0", "prio", "1", "u32", "match", "ip", "dst", address, "flowid", id];
            ReadFilter(ws) ==
            match (ReadAddress(address), ReadId(id))
            case (Some(a), Some(c)) => Some(AddFilter(Id(1, 0), a, c))
            case _ => None
  {
    hide ReadId, ReadAddress;
    var ws := ["protocol", "ip", "parent", "1:0", "prio", "1", "u32", "match", "ip", "dst", address, "flowid", id];
    assert ws[..3] == ["protocol", "ip", "parent"];
    assert ws[4..10] == ["prio", "1", "u32", "match", "ip", "dst"];
    ReadFixedIds();
  }

  lemma ReadPrintedAddress(rule: Rule)
    ensures ReadAddress(rule.MatchAddr()) == if IsHost(rule.ip) then Some(rule.ip) else None
  {
    hide IsHost;
    assert rule.MatchAddr()[..|rule.MatchAddr()| - 3] == rule.ip;
  }

  lemma ReadFilterCommand(dev: string, rule: Rule, minor: nat)
    requires IsWord(dev) && ' ' !in rule.ip
    requires HexRead(minor) < 0x1_0000
    ensures Read(dev, MakeFilter(dev, rule.MatchAddr(), minor))
            == if IsHost(rule.ip) then Some(AddFilter(Id(1, 0), rule.ip, Id(1, HexRead(minor)))) else None
  {
    var id, address := "1:" + Dec(minor), rule.MatchAddr();
    var tail := ["protocol", "ip", "parent", "1:0", "prio", "1", "u32", "match", "ip", "dst", address, "flowid", id];
    ReadPrintedAddress(rule);
    hide Words, Print, Read, ReadId, ReadFilter, ReadAddress, IsHost, Dec, HexRead;
    ReadPrintedId(minor);
    FilterWords(dev, address, id);
    ReadFilterArgs(dev, MakeFilter(dev, address, minor), tail);
    ReadFilterTail(address, id);
  }

  /** The address can be told from the command. */
  lemma FilterTellsAddress(dev: string, a: string, b: string, m: nat, n: nat)
    requires ' ' !in dev && ' ' !in a && ' ' !in b && MakeFilter(dev, a, m) == MakeFilter(dev, b, n)
    ensures a == b
  {
    FilterFields(dev, a, m);
    FilterFields(dev, b, n);
  }

  lemma FilterFields(dev: string, address: string, minor: nat)
    requires ' ' !in dev && ' ' !in address
    ensures |MakeFilter(dev, address, minor)| == 17 && MakeFilter(dev, address, minor)[14] == address
  {
    PrintedIsFree(minor, ' ');
    var fields := ["filter", "add", "dev", dev, "protocol", "ip", "parent", "1:0", "prio", "1", "u32",
                   "match", "ip", "dst", address, "flowid", "1:" + Dec(minor)];
    SplitJoin(fields, ' ');
  }

  lemma QDiscWords(dev: string, id: string, handle: string, netem: string)
    requires IsWord(dev) && IsWord(id) && IsWord(handle)
    ensures Words(Print(["qdisc", "add", "dev", dev, "parent", id, "handle", handle, netem]))
            == ["qdisc", "add", "dev", dev] + (["parent", id, "handle", handle] + Words(Split(netem, ' ')))
  {
    var head, tail := ["qdisc", "add", "dev", dev], ["parent", id, "handle", handle];
    assert head + tail + [netem] == ["qdisc", "add", "dev", dev, "parent", id, "handle", handle, netem];
    WordsWithLast(head + tail, netem);
  }

  lemma WordsWithLast(fields: seq<string>, last: string)
    requires forall i :: 0 <= i < |fields| ==> IsWord(fields[i])
    ensures Words(Print(fields + [last])) == fields + Words(Split(last, ' '))
  {
    hide Words, Split, Join;
    SplitJoinLast(fields, last, ' ');
    WordsConcat(fields, Split(last, ' '));
    WordsAll(fields);
  }

  lemma ReadQDiscTail(id: string, handle: string, netem: seq<string>)
    requires |netem| >= 1 && netem[0] == "netem"
    ensures ReadQdisc(["parent", id, "handle", handle] + netem) ==
            match (ReadId(id), ReadHandle(handle), ReadNetEm(netem[1..]))
            case (Some(p), Some(h), Some(params)) => Some(AddLeaf(p, h, params))
            case _ => None
  {
  }

  lemma ReadQDiscCommand(dev: string, minor: nat, major: nat, rule: Rule)
    requires IsWord(dev)
    requires HexRead(minor) < 0x1_0000 && HexRead(major) < 0x1_0000
    ensures Read(dev, MakeQDisc(dev, minor, major, rule))
            == Some(AddLeaf(Id(1, HexRead(minor)), HexRead(major), ParamsOf(rule)))
  {
    hide Words, Print, Read, ReadId, ReadQdisc, ReadNetEm, ReadHandle, Dec, HexRead, MakeNetEm, ParamsOf;
    var id, handle, netem := "1:" + Dec(minor), Dec(major) + ":", MakeNetEm(rule);
    ReadPrintedId(minor);
    ReadPrintedHandle(major);
    ReadPrintedNetEm(rule);
    QDiscWords(dev, id, handle, netem);
    ReadQdiscArgs(dev, MakeQDisc(dev, minor, major, rule), ["parent", id, "handle", handle] + Words(Split(netem, ' ')));
    ReadQDiscTail(id, handle, Words(Split(netem, ' ')));
  }
}
