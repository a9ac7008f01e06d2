/** metrics/simplot: the tags on the time axis (usageplot.go) and the sizes in the tables (mod.go). */
module Simplot {
  import opened Prelude
  import opened Text
  import opened Decimal

  // ---------- tags ----------

  const NANOS_PER_SECOND := 1_000_000_000

  function SecondOf(ts: int): int {
    TruncDiv(ts, NANOS_PER_SECOND)
  }

  /** The timestamp, in nanoseconds, is in the second; the seconds before zero end with it, so that the
      second zero is twice as long. */
  predicate InSecond(ts: int, second: int) {
    if ts >= 0 then second * 1_000_000_000 <= ts < (second + 1) * 1_000_000_000
    else (second - 1) * 1_000_000_000 < ts <= second * 1_000_000_000
  }

  lemma SecondOfIff(ts: int, second: int)
    ensures SecondOf(ts) == second <==> InSecond(ts, second)
  {
  }

  /** The timestamps of one second, in the order in which they are listed. */
  function Bucket(order: seq<int>, second: int): (b: seq<int>)
    ensures forall i :: 0 <= i < |b| ==> b[i] in order
  {
    if order == [] then []
    else
      var last := order[|order| - 1];
      Bucket(order[..|order| - 1], second) + (if SecondOf(last) == second then [last] else [])
  }

  function Names(raw: map<int, string>, keys: seq<int>): seq<string>
    requires forall i :: 0 <= i < |keys| ==> keys[i] in raw
  {
    seq(|keys|, i requires 0 <= i < |keys| => raw[keys[i]])
  }

  /** The order lists every key once: what one run of Go's loop over a map does. */
  ghost predicate Visits(order: seq<int>, keys: set<int>) {
    && (forall i, j :: 0 <= i < j < |order| ==> order[i] != order[j])
    && (forall i :: 0 <= i < |order| ==> order[i] in keys)
    && (forall ts :: ts in keys ==> ts in order)
  }

  lemma NotEmpty(keys: set<int>)
    requires keys != {}
    ensures exists key :: key in keys
  {
    if forall key :: key !in keys {
      assert false;
    }
  }

  /** The tag of a second is its bucket, joined. */
  ghost predicate Merged(raw: map<int, string>, order: seq<int>, tags: map<int, string>, second: int)
    requires forall i :: 0 <= i < |order| ==> order[i] in raw
  {
    var b := Bucket(order, second);
    if b == [] then second !in tags else second in tags && tags[second] == Join(Names(raw, b), ", ")
  }

  /** The merged tags are the buckets of the seconds, each joined in the order of the visit. */
  ghost predicate Processed(raw: map<int, string>, order: seq<int>, tags: map<int, string>) {
    && (forall i :: 0 <= i < |order| ==> order[i] in raw)
    && (forall second :: Merged(raw, order, tags, second))
  }

  lemma {:induction false} JoinLast(parts: seq<string>, last: string, sep: string)
    requires parts != []
    ensures Join(parts + [last], sep) == Join(parts, sep) + sep + last
  {
    if |parts| == 1 {
      assert (parts + [last])[1..] == [last];
    } else {
      JoinLast(parts[1..], last, sep);
      assert (parts + [last])[1..] == parts[1..] + [last];
      calc {
        Join(parts + [last], sep);
        parts[0] + sep + (Join(parts[1..], sep) + sep + last);
        Join(parts, sep) + sep + last;
      }
    }
  }

  lemma ProcessedNext(raw: map<int, string>, order: seq<int>, tags: map<int, string>, ts: int, next: map<int, string>)
    requires Processed(raw, order, tags) && ts in raw
    requires var s := SecondOf(ts);
             next == tags[s := if s in tags then tags[s] + ", " + raw[ts] else raw[ts]]
    ensures Processed(raw, order + [ts], next)
  {
    hide SecondOf, Join, Names, Bucket;
    forall second ensures Merged(raw, order + [ts], next, second) {
      assert Merged(raw, order, tags, second);
      BucketNext(raw, order, ts, second);
      if second == SecondOf(ts) {
        NamesNext(raw, Bucket(order, second), ts);
      }
    }
  }

  lemma BucketNext(raw: map<int, string>, order: seq<int>, ts: int, second: int)
    ensures Bucket(order + [ts], second) == if SecondOf(ts) == second then Bucket(order, second) + [ts] else Bucket(order, second)
  {
  }

  lemma NamesNext(raw: map<int, string>, keys: seq<int>, ts: int)
    requires ts in raw && forall i :: 0 <= i < |keys| ==> keys[i] in raw
    ensures Join(Names(raw, keys + [ts]), ", ")
            == if keys == [] then raw[ts] else Join(Names(raw, keys), ", ") + ", " + raw[ts]
  {
    assert Names(raw, keys + [ts]) == Names(raw, keys) + [raw[ts]];
    if keys != [] {
      JoinLast(Names(raw, keys), raw[ts], ", ");
    }
  }

  /** Merges the tags of a second; the order of the loop is arbitrary. */
  method ProcessTags(raw: map<int, string>) returns (tags: map<int, string>, ghost order: seq<int>)
    ensures Visits(order, raw.Keys) && Processed(raw, order, tags)
    ensures forall second :: second in tags <==> exists ts :: ts in raw && InSecond(ts, second)
  {
    tags, order := map[], [];
    var left := raw.Keys;
    while left != {}
      invariant left <= raw.Keys
      invariant Visits(order, raw.Keys - left) && Processed(raw, order, tags)
    {
      NotEmpty(left);
      var ts :| ts in left;
      var key := SecondOf(ts);
      var next := if key in tags then tags[key := tags[key] + ", " + raw[ts]] else tags[key := raw[ts]];
      ProcessedNext(raw, order, tags, ts, next);
      tags, order, left := next, order + [ts], left - {ts};
    }
    forall second ensures second in tags <==> exists ts :: ts in raw && InSecond(ts, second) {
      BucketEmpty(order, second);
      assert Merged(raw, order, tags, second);
      hide InSecond, SecondOf;
      assert (exists ts :: ts in order && InSecond(ts, second)) <==> (exists ts :: ts in raw && InSecond(ts, second));
    }
  }

  lemma {:induction false} BucketEmpty(order: seq<int>, second: int)
    ensures Bucket(order, second) != [] <==> exists ts :: ts in order && InSecond(ts, second)
  {
    if order != [] {
      SecondOfIff(order[|order| - 1], second);
      BucketEmpty(order[..|order| - 1], second);
      assert order == order[..|order| - 1] + [order[|order| - 1]];
    }
  }

  lemma {:induction false} BucketCount(order: seq<int>, second: int, ts: int)
    ensures multiset(Bucket(order, second))[ts] == if SecondOf(ts) == second then multiset(order)[ts] else 0
  {
    if order != [] {
      BucketCount(order[..|order| - 1], second, ts);
      assert order == order[..|order| - 1] + [order[|order| - 1]];
    }
  }

  lemma {:induction false} OnceEach(order: seq<int>, ts: int)
    requires forall i, j :: 0 <= i < j < |order| ==> order[i] != order[j]
    ensures multiset(order)[ts] == if ts in order then 1 else 0
  {
    if order != [] {
      OnceEach(order[..|order| - 1], ts);
      assert order == order[..|order| - 1] + [order[|order| - 1]];
    }
  }

  /** No tag is lost or repeated: each is once in the bucket of its own second and in no other. */
  lemma TagConservation(raw: map<int, string>, order: seq<int>, ts: int, second: int)
    requires Visits(order, raw.Keys)
    ensures multiset(Bucket(order, second))[ts] == if ts in raw && InSecond(ts, second) then 1 else 0
  {
    SecondOfIff(ts, second);
    BucketCount(order, second, ts);
    OnceEach(order, ts);
  }

  /** The order of the loop can only reorder the tags of one second. */
  lemma OrderOnlyPermutes(raw: map<int, string>, a: seq<int>, b: seq<int>, second: int)
    requires Visits(a, raw.Keys) && Visits(b, raw.Keys)
    ensures multiset(Bucket(a, second)) == multiset(Bucket(b, second))
  {
    forall ts ensures multiset(Bucket(a, second))[ts] == multiset(Bucket(b, second))[ts] {
      TagConservation(raw, a, ts, second);
      TagConservation(raw, b, ts, second);
    }
  }

  // ---------- ticks ----------

  datatype Tick = Tick(value: int, text: string)

  function TickCount(min: real, max: real): int {
    Trunc(max - min + 1.0)
  }

  /** One tick a second from the start of the axis; Go refuses to make a slice of negative length. */
  method Ticks(tags: map<int, string>, min: real, max: real) returns (tks: array<Tick>)
    requires TickCount(min, max) >= 0
    ensures fresh(tks) && tks.Length == TickCount(min, max)
    ensures forall i :: 0 <= i < tks.Length ==>
              tks[i] == Tick(Trunc(min) + i,
                             if Trunc(min) + i in tags then tags[Trunc(min) + i] else "+" + Dec(i) + "s")
  {
    hide *;
    var n := TickCount(min, max);
    tks := new Tick[n](_ => Tick(0, ""));
    for i := 0 to n
      invariant forall k :: 0 <= k < i ==> tks[k] == Tick(Trunc(min) + k, "+" + Dec(k) + "s")
    {
      tks[i] := Tick(Trunc(min) + i, "+" + Dec(i) + "s");
    }
    var left := tags.Keys;
    while left != {}
      invariant left <= tags.Keys
      invariant forall k :: 0 <= k < n ==>
                  tks[k] == Tick(Trunc(min) + k,
                                 if Trunc(min) + k in tags.Keys - left then tags[Trunc(min) + k]
                                 else "+" + Dec(k) + "s")
    {
      NotEmpty(left);
      var key :| key in left;
      var index := key - Trunc(min);
      if 0 <= index < n {
        tks[index] := Tick(tks[index].value, tags[key]);
      }
      left := left - {key};
    }
  }

  /** The tags of a second, or the time elapsed if it has none. */
  ghost function AxisText(raw: map<int, string>, order: seq<int>, start: int, i: nat): string
    requires Visits(order, raw.Keys)
  {
    var b := Bucket(order, start + i);
    if b == [] then "+" + Dec(i) + "s" else Join(Names(raw, b), ", ")
  }

  /** The marker of the time axis: the tags of each second of the run, and the elapsed time elsewhere. */
  method TimeAxis(raw: map<int, string>, min: real, max: real) returns (tks: array<Tick>, ghost order: seq<int>)
    requires TickCount(min, max) >= 0
    ensures tks.Length == TickCount(min, max) && Visits(order, raw.Keys)
    ensures forall i :: 0 <= i < tks.Length ==> tks[i].text == AxisText(raw, order, Trunc(min), i)
  {
    hide *;
    var tags;
    tags, order := ProcessTags(raw);
    tks := Ticks(tags, min, max);
    forall i | 0 <= i < tks.Length ensures tks[i].text == AxisText(raw, order, Trunc(min), i) {
      AxisTextOf(raw, order, tags, Trunc(min), i);
    }
  }

  lemma AxisTextOf(raw: map<int, string>, order: seq<int>, tags: map<int, string>, start: int, i: nat)
    requires Visits(order, raw.Keys) && Processed(raw, order, tags)
    ensures AxisText(raw, order, start, i) == if start + i in tags then tags[start + i] else "+" + Dec(i) + "s"
  {
    assert Merged(raw, order, tags, start + i);
  }

  /** What truncation takes away, with the sign of the number. */
  function Rest(x: real): real {
    x - Trunc(x) as real
  }

  /** There is a tick exactly on an axis that does not go back. The last one is then the second of the
      right end, if what truncation takes from the right end is as much as from the left end or up to one
      second more; with less that second, and its tags, are left out, and with a second or more, on an
      axis across zero, there is one tick behind it. */
  lemma LastTick(min: real, max: real)
    ensures TickCount(min, max) >= 1 <==> min <= max
    ensures min <= max ==>
              Trunc(min) + TickCount(min, max) - 1 ==
              Trunc(max) + (if Rest(max) < Rest(min) then -1 else if Rest(max) < Rest(min) + 1.0 then 0 else 1)
  {
    var d := max - min + 1.0;
    var whole := Trunc(max) - Trunc(min) + 1;
    assert d == whole as real + (Rest(max) - Rest(min));
  }

  // ---------- sizes ----------

  const SUFFIXES := ["B", "KiB", "MiB", "GiB"]

  function Power(n: nat): (p: real)
    ensures p >= 1.0
  {
    if n == 0 then 1.0 else 1024.0 * Power(n - 1)
  }

  const LIMIT := Power(|SUFFIXES|)

  predicate Guard(value: real, suffix: nat) {
    value > 1024.0 || suffix >= |SUFFIXES|
  }

  /** The value after n turns of the loop. */
  function Iterate(value: real, n: nat): real {
    if n == 0 then value else Iterate(value, n - 1) / 1024.0
  }

  lemma {:induction false} IterateIsScaled(value: real, n: nat)
    ensures Iterate(value, n) * Power(n) == value
  {
    if n > 0 {
      IterateIsScaled(value, n - 1);
    }
  }

  /** `%.2f` */
  function Fixed2(x: real): string {
    if x < 0.0 then "-" + PrintHundredths(RoundHalfEven(-x * 100.0)) else PrintHundredths(RoundHalfEven(x * 100.0))
  }

  /** What `%.2f` prints is a number of hundredths that is nearest to the number. */
  lemma Fixed2IsNearest(x: real)
    ensures exists h: nat :: IsNearest(h, (if x < 0.0 then -x else x) * 100.0)
                             && Fixed2(x) == (if x < 0.0 then "-" else "") + PrintHundredths(h)
  {
    hide IsNearest, PrintHundredths, RoundHalfEven;
    var y := (if x < 0.0 then -x else x) * 100.0;
    RoundIsNearest(y);
    assert Fixed2(x) == (if x < 0.0 then "-" else "") + PrintHundredths(RoundHalfEven(y));
  }

  /** A text in a field of the given width, to the right. */
  function PadLeft(s: string, width: nat): string {
    if |s| < width then seq(width - |s|, _ => ' ') + s else s
  }

  /** The suffix is valid, and the smallest with which the scaled value is at most 1024. */
  ghost predicate IsScaled(value: real, scaled: real, suffix: nat) {
    && suffix < |SUFFIXES| && scaled <= 1024.0 && scaled * Power(suffix) == value
    && forall k :: 0 <= k < suffix ==> value > 1024.0 * Power(k)
  }

  /** The units, how much each of them is and how far it is used. */
  ghost predicate IsHuman(value: real, scaled: real, unit: string) {
    if value <= 1024.0 then unit == "B" && scaled == value
    else if value <= 1_048_576.0 then unit == "KiB" && scaled * 1024.0 == value
    else if value <= 1_073_741_824.0 then unit == "MiB" && scaled * 1_048_576.0 == value
    else unit == "GiB" && scaled * 1_073_741_824.0 == value
  }

  lemma PowersAre()
    ensures Power(0) == 1.0 && Power(1) == 1024.0 && Power(2) == 1_048_576.0 && Power(3) == 1_073_741_824.0
    ensures Power(4) == 1_099_511_627_776.0
  {
    PowerNext(0);
    PowerNext(1);
    PowerNext(2);
    PowerNext(3);
  }

  lemma ScaledIsHuman(value: real, scaled: real, suffix: nat)
    requires IsScaled(value, scaled, suffix)
    ensures IsHuman(value, scaled, SUFFIXES[suffix])
  {
    PowersAre();
    hide Power;
    var powers := [Power(0), Power(1), Power(2), Power(3)];
    assert powers[suffix] == Power(suffix);
    NotBigger(scaled, Power(suffix));
    forall k | 0 <= k < suffix ensures value > 1024.0 * powers[k] {
      assert powers[k] == Power(k);
    }
  }

  /** There is only one way to scale a value. */
  lemma ScaledIsUnique(value: real, x: real, i: nat, y: real, j: nat)
    requires IsScaled(value, x, i) && IsScaled(value, y, j)
    ensures x == y && i == j
  {
    NotSmaller(value, x, i, y, j);
    NotSmaller(value, y, j, x, i);
    hide Power;
    SameFactor(x, y, Power(i));
  }

  lemma NotSmaller(value: real, x: real, i: nat, y: real, j: nat)
    requires IsScaled(value, x, i) && IsScaled(value, y, j)
    ensures i >= j
  {
    hide Power;
    NotBigger(x, Power(i));
  }

  lemma SameFactor(x: real, y: real, p: real)
    requires p >= 1.0 && x * p == y * p
    ensures x == y
  {
    assert x * p / p == x && y * p / p == y;
  }

  /** A size in the largest unit that it reaches; the precondition is when the loop ends at all, see
      `HumanEndsIff`. */
  method Int2Human(value: real) returns (text: string, ghost scaled: real, ghost unit: string)
    requires value <= LIMIT
    ensures scaled <= 1024.0 && IsHuman(value, scaled, unit)
    ensures text == PadLeft(Fixed2(scaled), 6) + " " + unit
  {
    var v, i := Scale(value);
    ScaledIsHuman(value, v, i);
    scaled, unit := v, SUFFIXES[i];
    text := PadLeft(Fixed2(v), 6) + " " + SUFFIXES[i];
  }

  method Scale(value: real) returns (scaled: real, suffix: nat)
    requires value <= LIMIT
    ensures IsScaled(value, scaled, suffix)
  {
    scaled, suffix := value, 0;
    LimitIs();
    while Guard(scaled, suffix)
      invariant suffix < |SUFFIXES| && scaled * Power(suffix) == value
      invariant forall k :: 0 <= k < suffix ==> value > 1024.0 * Power(k)
      decreases |SUFFIXES| - suffix
    {
      Bigger(scaled, Power(suffix));
      PowerNext(suffix);
      if suffix == |SUFFIXES| - 1 {
        assert false;
      }
      Rescale(scaled, Power(suffix));
      scaled := scaled / 1024.0;
      suffix := suffix + 1;
    }
  }

  lemma Bigger(a: real, p: real)
    requires a > 1024.0 && p >= 1.0
    ensures a * p > 1024.0 * p
  {
  }

  lemma Rescale(a: real, p: real)
    ensures a / 1024.0 * (1024.0 * p) == a * p
  {
  }

  lemma PowerNext(n: nat)
    ensures Power(n + 1) == 1024.0 * Power(n)
  {
  }

  lemma LimitIs()
    ensures LIMIT == 1024.0 * Power(3)
  {
  }

  /** The loop ends exactly for the sizes up to 1024^4; above, its guard holds after any number of turns. */
  lemma HumanEndsIff(value: real)
    ensures (exists n: nat :: !Guard(Iterate(value, n), n)) <==> value <= 1_099_511_627_776.0
    ensures LIMIT == 1_099_511_627_776.0
  {
    LimitIs();
    PowersAre();
    if n: nat :| !Guard(Iterate(value, n), n) {
      IterateIsScaled(value, n);
      PowerMonotone(n, 3);
      NotBigger(Iterate(value, n), Power(n));
    }
    if value <= LIMIT {
      IterateIsScaled(value, 3);
      if Guard(Iterate(value, 3), 3) {
        Bigger(Iterate(value, 3), Power(3));
      }
    }
  }

  lemma NotBigger(a: real, p: real)
    requires a <= 1024.0 && p >= 1.0
    ensures a * p <= 1024.0 * p
  {
  }

  lemma {:induction false} PowerMonotone(a: nat, b: nat)
    requires a <= b
    ensures Power(a) <= Power(b)
  {
    if a < b {
      PowerMonotone(a, b - 1);
    }
  }
}
