/** An abstract `tc` network device: it reads commands, refuses the ones that do not fit its current
    tree, and sends each packet through the queueing disciplines that the accepted ones built. */
module Tc {
  import opened Prelude
  import opened Text
  import opened Decimal

  /** Parameters of a netem discipline: whole milliseconds and hundredths of a percent. */
  datatype NetEm = NetEm(delayMs: nat, loss: nat)

  datatype Kind = Htb | Netem(params: NetEm)

  /** `major:minor`. A qdisc is the id whose minor is zero. */
  datatype Id = Id(major: nat, minor: nat)

  datatype Op =
    | AddRoot(handle: nat)
    | AddLeaf(parent: Id, handle: nat, params: NetEm)
    | AddClass(under: Id, id: Id)
    | AddFilter(at: Id, dst: string, flow: Id)

  datatype Filter = Filter(at: Id, dst: string, flow: Id)

  /** The tree of a device: the root handle, the kind of each qdisc by handle, the classes, the qdisc
      attached to each class, and the filters in the order they are tried. */
  datatype Device = Device(root: Option<nat>, qdiscs: map<nat, Kind>, classes: set<Id>,
                           leaves: map<Id, nat>, filters: seq<Filter>)

  const EMPTY := Device(None, map[], {}, map[], [])

  /** One command; None when the device refuses it and stays as it was. */
  function Step(d: Device, op: Op): Option<Device> {
    match op
    case AddRoot(h) =>
      if d.root.Some? || h == 0 || h in d.qdiscs then None
      else Some(d.(root := Some(h), qdiscs := d.qdiscs[h := Htb]))
    case AddLeaf(p, h, params) =>
      if p !in d.classes || p in d.leaves || h == 0 || h in d.qdiscs then None
      else Some(d.(qdiscs := d.qdiscs[h := Netem(params)], leaves := d.leaves[p := h]))
    case AddClass(p, id) =>
      if p.major !in d.qdiscs || !d.qdiscs[p.major].Htb? || (p.minor != 0 && p !in d.classes)
         || id.major != p.major || id.minor == 0 || id in d.classes then None
      else Some(d.(classes := d.classes + {id}))
    case AddFilter(at, dst, flow) =>
      if at.minor != 0 || at.major !in d.qdiscs || flow !in d.classes then None
      else Some(d.(filters := d.filters + [Filter(at, dst, flow)]))
  }

  /** The flow of the first filter of the root that matches the destination. */
  function FlowOf(filters: seq<Filter>, root: nat, dst: string): Option<Id> {
    if filters == [] then None
    else if filters[0].at == Id(root, 0) && filters[0].dst == dst then Some(filters[0].flow)
    else FlowOf(filters[1..], root, dst)
  }

  /** The netem discipline that a packet for `dst` goes through, if any. */
  function Classify(d: Device, dst: string): Option<NetEm> {
    if d.root.None? then None
    else
      match FlowOf(d.filters, d.root.value, dst)
      case None => None
      case Some(flow) =>
        if flow in d.classes && flow in d.leaves && d.leaves[flow] in d.qdiscs
        then (match d.qdiscs[d.leaves[flow]] case Netem(p) => Some(p) case Htb => None)
        else None
  }

  // ---------- reading a command ----------

  /** A number in base 16 that fits 16 bits: `tc` reads every part of a handle that way. */
  function ReadHex16(s: string): Option<nat> {
    match Parse(s, 16)
    case Some(v) => if v < 0x1_0000 then Some(v) else None
    case None => None
  }

  function ReadId(token: string): Option<Id> {
    var parts := Split(token, ':');
    if |parts| != 2 then None
    else
      match (ReadHex16(parts[0]), if parts[1] == "" then Some(0) else ReadHex16(parts[1]))
      case (Some(major), Some(minor)) => Some(Id(major, minor))
      case _ => None
  }

  function ReadHandle(token: string): Option<nat> {
    match ReadId(token)
    case Some(id) => if id.minor == 0 then Some(id.major) else None
    case None => None
  }

  /** A host is one word without a slash. */
  predicate IsHost(s: string) {
    IsWord(s) && '/' !in s
  }

  /** An address is read as a host followed by a full-length prefix. */
  function ReadAddress(token: string): Option<string> {
    var n := |token| - 3;
    if n >= 0 && token[n..] == "/32" && IsHost(token[..n]) then Some(token[..n]) else None
  }

  function ReadMs(token: string): Option<nat> {
    var n := |token| - 2;
    if n >= 0 && token[n..] == "ms" then Parse(token[..n], 10) else None
  }

  /** A percentage with two decimals, in hundredths. */
  function ReadPercent(token: string): Option<nat> {
    var n := |token| - 4;
    if n < 0 || token[n] != '.' || token[n + 3] != '%' then None
    else
      match (Parse(token[..n], 10), Parse(token[n + 1..n + 3], 10))
      case (Some(whole), Some(rest)) => Some(whole * 100 + rest)
      case _ => None
  }

  function ReadDelay(ws: seq<string>): Option<nat> {
    if ws == [] then Some(0)
    else if |ws| == 2 && ws[0] == "delay" then ReadMs(ws[1])
    else None
  }

  function ReadLoss(ws: seq<string>): Option<nat> {
    if ws == [] then Some(0)
    else if |ws| == 2 && ws[0] == "loss" then ReadPercent(ws[1])
    else None
  }

  /** `[delay Nms] [loss P%]` */
  function ReadNetEm(ws: seq<string>): Option<NetEm> {
    var n := if |ws| >= 2 && ws[0] == "delay" then 2 else 0;
    match (ReadDelay(ws[..n]), ReadLoss(ws[n..]))
    case (Some(d), Some(l)) => Some(NetEm(d, l))
    case _ => None
  }

  /** `parent P handle H netem ...` or `root handle H htb` */
  function ReadQdisc(ws: seq<string>): Option<Op> {
    if |ws| == 4 && ws[0] == "root" && ws[1] == "handle" && ws[3] == "htb" then
      match ReadHandle(ws[2]) case Some(h) => Some(AddRoot(h)) case None => None
    else if |ws| >= 5 && ws[0] == "parent" && ws[2] == "handle" && ws[4] == "netem" then
      match (ReadId(ws[1]), ReadHandle(ws[3]), ReadNetEm(ws[5..]))
      case (Some(p), Some(h), Some(params)) => Some(AddLeaf(p, h, params))
      case _ => None
    else None
  }

  /** `parent P classid C htb rate R` */
  function ReadClass(ws: seq<string>): Option<Op> {
    if |ws| == 7 && ws[0] == "parent" && ws[2] == "classid" && ws[4] == "htb" && ws[5] == "rate" then
      match (ReadId(ws[1]), ReadId(ws[3]))
      case (Some(p), Some(c)) => Some(AddClass(p, c))
      case _ => None
    else None
  }

  /** `protocol ip parent P prio 1 u32 match ip dst A flowid C` */
  function ReadFilter(ws: seq<string>): Option<Op> {
    if |ws| == 13 && ws[..3] == ["protocol", "ip", "parent"]
       && ws[4..10] == ["prio", "1", "u32", "match", "ip", "dst"] && ws[11] == "flowid" then
      match (ReadId(ws[3]), ReadAddress(ws[10]), ReadId(ws[12]))
      case (Some(p), Some(a), Some(c)) => Some(AddFilter(p, a, c))
      case _ => None
    else None
  }

  /** Reads the arguments of a command for the device `dev`, ignoring empty ones. */
  function Read(dev: string, args: seq<string>): Option<Op> {
    var ws := Words(args);
    if |ws| < 4 || ws[1] != "add" || ws[2] != "dev" || ws[3] != dev then None
    else if ws[0] == "qdisc" then ReadQdisc(ws[4..])
    else if ws[0] == "class" then ReadClass(ws[4..])
    else if ws[0] == "filter" then ReadFilter(ws[4..])
    else None
  }

  /** Reads and applies one command line. */
  function Apply(dev: string, d: Device, args: seq<string>): Option<Device> {
    match Read(dev, args)
    case Some(op) => Step(d, op)
    case None => None
  }

  /** Applies commands in order up to the first refused one; the flag says that none was. */
  function Run(dev: string, d: Device, commands: seq<seq<string>>): (Device, bool)
    decreases |commands|
  {
    if commands == [] then (d, true)
    else
      match Apply(dev, d, commands[0])
      case None => (d, false)
      case Some(d') => Run(dev, d', commands[1..])
  }

  function ReadAll(dev: string, commands: seq<seq<string>>): seq<Option<Op>> {
    seq(|commands|, i requires 0 <= i < |commands| => Read(dev, commands[i]))
  }

  /** Run, on commands that have been read already. */
  function RunOps(d: Device, ops: seq<Option<Op>>): (Device, bool)
    decreases |ops|
  {
    if ops == [] then (d, true)
    else if ops[0].None? then (d, false)
    else
      match Step(d, ops[0].value)
      case None => (d, false)
      case Some(d') => RunOps(d', ops[1..])
  }

  lemma {:induction false} RunConcat(dev: string, d: Device, a: seq<seq<string>>, b: seq<seq<string>>)
    ensures var (m, ok) := Run(dev, d, a);
            Run(dev, d, a + b) == if ok then Run(dev, m, b) else (m, false)
    decreases |a|
  {
    if a == [] {
      assert a + b == b;
    } else {
      assert (a + b)[1..] == a[1..] + b;
      match Apply(dev, d, a[0])
      case None =>
      case Some(d') => RunConcat(dev, d', a[1..], b);
    }
  }

  lemma {:induction false} RunIsRunOps(dev: string, d: Device, commands: seq<seq<string>>)
    ensures Run(dev, d, commands) == RunOps(d, ReadAll(dev, commands))
    decreases |commands|
  {
    if commands != [] {
      assert ReadAll(dev, commands)[1..] == ReadAll(dev, commands[1..]);
      match Apply(dev, d, commands[0])
      case None =>
      case Some(d') => RunIsRunOps(dev, d', commands[1..]);
    }
  }
}
