/** sim/docker/io.go: one goroutine per container appends to five columns without a lock and publishes
    copies of their slice headers under one. Slices share their backing arrays with the copies. */
module DockerIO {
  import opened DockerProtocol

  /** A Go slice from index zero: a header with a length over a backing array of the length `cap`. */
  datatype Slice = Slice(arr: array<int>, len: nat)

  datatype Routine = Routine(name: string, pc: Pc, cols: seq<Slice>)

  /** A copy of the headers of goroutine g, taken when it had `count` complete samples. */
  datatype Publication = Publication(g: nat, count: nat, cols: seq<Slice>)

  function NamesOf(routines: seq<Routine>): seq<string> {
    seq(|routines|, i requires 0 <= i < |routines| => routines[i].name)
  }

  function PcsOf(routines: seq<Routine>): seq<Pc> {
    seq(|routines|, i requires 0 <= i < |routines| => routines[i].pc)
  }

  function TakenOf(published: seq<Publication>): seq<Taken> {
    seq(|published|, i requires 0 <= i < |published| => Taken(published[i].g, published[i].count))
  }

  lemma MovedRoutine(routines: seq<Routine>, g: nat, r: Routine)
    requires g < |routines| && r.name == routines[g].name
    ensures NamesOf(routines[g := r]) == NamesOf(routines) && PcsOf(routines[g := r]) == PcsOf(routines)[g := r.pc]
  {
  }

  lemma NewRoutine(routines: seq<Routine>, r: Routine)
    ensures NamesOf(routines + [r]) == NamesOf(routines) + [r.name] && PcsOf(routines + [r]) == PcsOf(routines) + [r.pc]
  {
  }

  lemma NewPublication(published: seq<Publication>, p: Publication)
    ensures TakenOf(published + [p]) == TakenOf(published) + [Taken(p.g, p.count)]
  {
  }

  function Column(record: seq<seq<int>>, c: nat): seq<int>
    requires forall i :: 0 <= i < |record| ==> |record[i]| > c
  {
    seq(|record|, i requires 0 <= i < |record| => record[i][c])
  }

  predicate IsRecord(record: seq<seq<int>>) {
    forall i :: 0 <= i < |record| ==> |record[i]| == COLUMNS
  }

  /** Go's append: in place while there is spare capacity, else in a longer copy. Only the index after
      the last one is written, so every shorter header on the same array shows what it did before. */
  method Append(s: Slice, x: int, room: nat) returns (t: Slice)
    requires s.len <= s.arr.Length
    modifies s.arr
    ensures t.len == s.len + 1 <= t.arr.Length
    ensures t.arr[..t.len] == old(s.arr[..s.len]) + [x]
    ensures s.arr[..s.len] == old(s.arr[..s.len])
    ensures t.arr == s.arr || fresh(t.arr)
  {
    if s.len < s.arr.Length {
      s.arr[s.len] := x;
      t := Slice(s.arr, s.len + 1);
    } else {
      var bigger := new int[s.len + 1 + room];
      forall i | 0 <= i < s.len { bigger[i] := s.arr[i]; }
      bigger[s.len] := x;
      t := Slice(bigger, s.len + 1);
    }
  }

  /** The columns of a new `NodeStats`: five nil slices, which share nothing. */
  method EmptyColumns() returns (cols: seq<Slice>)
    ensures |cols| == COLUMNS
    ensures forall c :: 0 <= c < COLUMNS ==> cols[c].len == 0 && fresh(cols[c].arr)
    ensures forall c, d :: 0 <= c < d < COLUMNS ==> cols[c].arr != cols[d].arr
  {
    cols := [];
    for i := 0 to COLUMNS
      invariant |cols| == i
      invariant forall c :: 0 <= c < i ==> cols[c].len == 0 && fresh(cols[c].arr)
      invariant forall c, d :: 0 <= c < d < i ==> cols[c].arr != cols[d].arr
    {
      var a := new int[0];
      cols := cols + [Slice(a, 0)];
    }
  }

  class DockerIO {
    var routines: seq<Routine>
    var stats: map<string, seq<Slice>>
    var holder: Holder
    ghost var records: seq<seq<seq<int>>>      // the samples each goroutine has decoded
    ghost var published: seq<Publication>      // every copy of headers ever made
    ghost var entries: map<string, nat>        // the publication that each entry of stats comes from
    ghost var Repr: set<array<int>>

    /** The state without its memory. */
    ghost function Abstract(): (v: View)
      requires |records| == |routines|
      reads this
      ensures Sized(v)
    {
      View(NamesOf(routines), PcsOf(routines), records, holder, TakenOf(published), entries)
    }

    /** The length that column c of goroutine g must have at this point of the goroutine. */
    ghost function LengthOf(g: nat, c: nat): int
      requires g < |routines| && |records| == |routines|
      reads `routines, `records
    {
      var pc := routines[g].pc;
      |records[g]| - if pc.Appending? && c >= pc.next then 1 else 0
    }

    ghost predicate GoodColumn(g: nat, c: nat)
      requires g < |routines| && |records| == |routines|
      reads `routines, `records, `Repr, Repr
    {
      && |routines[g].cols| == COLUMNS && c < COLUMNS && IsRecord(records[g])
      && var s := routines[g].cols[c];
      && s.arr in Repr && s.len <= s.arr.Length && s.len == LengthOf(g, c)
      && s.arr[..s.len] == Column(records[g], c)[..s.len]
    }

    ghost predicate GoodPc(g: nat)
      requires g < |routines| && |records| == |routines|
      reads `routines, `records, `holder
    {
      var pc := routines[g].pc;
      && (pc.Appending? ==> pc.next < COLUMNS && |records[g]| > 0 && pc.sample == records[g][|records[g]| - 1])
      && (pc.Locked? || pc.Published? <==> holder == Goroutine(g))
    }

    /** A copy shows the first `count` samples in each column, and every array that it shares with a
        column of a goroutine is that column's own, not shorter than the copy. */
    ghost predicate GoodCopy(p: Publication)
      reads `routines, `records, `Repr, Repr
    {
      && |records| == |routines| && p.g < |routines| && IsRecord(records[p.g])
      && p.count <= |records[p.g]| && |p.cols| == COLUMNS
      && forall c :: 0 <= c < COLUMNS ==>
           && p.cols[c].arr in Repr && p.cols[c].len == p.count <= p.cols[c].arr.Length
           && p.cols[c].arr[..p.count] == Column(records[p.g], c)[..p.count]
           && forall g, d ::
                (0 <= g < |routines| && 0 <= d < |routines[g].cols| && routines[g].cols[d].arr == p.cols[c].arr) ==>
                g == p.g && d == c && p.count <= routines[g].cols[d].len
    }

    /** The entry of a name was copied from a goroutine of that name. */
    ghost predicate IsEntry(name: string)
      reads `stats, `routines, `published, `entries
    {
      && name in stats && name in entries && entries[name] < |published|
      && var p := published[entries[name]];
      p.cols == stats[name] && p.g < |routines| && routines[p.g].name == name
    }

    /** No two columns share an array. */
    ghost predicate Unshared()
      reads `routines
    {
      && (forall g :: 0 <= g < |routines| ==> |routines[g].cols| == COLUMNS)
      && (forall g, c, h, d ::
            (0 <= g < |routines| && 0 <= h < |routines| && 0 <= c < COLUMNS && 0 <= d < COLUMNS
             && routines[g].cols[c].arr == routines[h].cols[d].arr) ==> g == h && c == d)
    }

    ghost predicate Valid()
      reads this, Repr
    {
      && |records| == |routines|
      && (forall g, c :: 0 <= g < |routines| && 0 <= c < COLUMNS ==> GoodColumn(g, c))
      && (forall g :: 0 <= g < |routines| ==> GoodPc(g))
      && Unshared()
      && (forall i :: 0 <= i < |published| ==> GoodCopy(published[i]))
      && (holder.Goroutine? ==> holder.g < |routines|)
      && stats.Keys == entries.Keys && (forall n :: n in stats ==> IsEntry(n))
    }

    /** What a published copy shows in a column. */
    ghost function Shown(p: Publication, c: nat): seq<int>
      requires |p.cols| == COLUMNS && c < COLUMNS && p.cols[c].len <= p.cols[c].arr.Length
      reads p.cols[c].arr
    {
      p.cols[c].arr[..p.cols[c].len]
    }

    /** The copy is still good and shows what it showed. */
    twostate predicate Untouched(p: Publication)
      reads this, Repr
    {
      GoodCopy(p) && old(GoodCopy(p)) && forall e :: 0 <= e < COLUMNS ==> Shown(p, e) == old(Shown(p, e))
    }

    twostate predicate CopiesUntouched(copies: seq<Publication>)
      reads this, Repr
    {
      forall i :: 0 <= i < |copies| ==> Untouched(copies[i])
    }

    /** The entries of the map are still those of their goroutines. */
    twostate lemma EntriesKept()
      requires old(Valid()) && stats == old(stats) && entries == old(entries)
      requires old(published) <= published && old(|routines|) <= |routines|
      requires forall g :: 0 <= g < old(|routines|) ==> routines[g].name == old(routines)[g].name
      ensures stats.Keys == entries.Keys && forall n :: n in stats ==> IsEntry(n)
    {
      forall n | n in stats ensures IsEntry(n) { assert old(IsEntry(n)); }
    }

    /** How the state may differ after the goroutine g has appended x to column c: only the index after
        the last one of that column's array was written. */
    twostate predicate Appended(g: nat, c: nat, x: int, new t: Slice, pc: Pc)
      reads this, Repr
    {
      && old(Valid()) && g < old(|routines|) && c < COLUMNS
      && routines == old(routines)[g := Routine(old(routines)[g].name, pc, old(routines)[g].cols[c := t])]
      && records == old(records) && published == old(published) && stats == old(stats) && entries == old(entries) && holder == old(holder)
      && Repr == old(Repr) + {t.arr}
      && old(GoodColumn(g, c))
      && var s := old(routines)[g].cols[c];
      && t.len == s.len + 1 <= t.arr.Length && t.arr[..t.len] == old(s.arr[..s.len]) + [x]
      && s.arr[..s.len] == old(s.arr[..s.len])
      && (t.arr == s.arr || t.arr !in old(Repr))
      && (forall a :: a in old(Repr) && a != s.arr ==> a[..] == old(a[..]))
    }

    twostate lemma OthersKept(new g: nat, new c: nat, new x: int, new t: Slice, new pc: Pc, new h: nat, new d: nat)
      requires Appended(g, c, x, t, pc) && h < |routines| && d < COLUMNS && (h != g || d != c)
      requires h == g ==> old(LengthOf(g, d)) == LengthOf(g, d)
      ensures GoodColumn(h, d)
    {
      assert old(GoodColumn(h, d));
    }

    /** The column has one more value, that of the current sample. */
    twostate lemma NewValue(new g: nat, new c: nat, new x: int, new t: Slice, new pc: Pc)
      requires Appended(g, c, x, t, pc) && |records[g]| == t.len == LengthOf(g, c)
      requires records[g][t.len - 1][c] == x
      ensures GoodColumn(g, c)
    {
      var s := old(routines)[g].cols[c];
      assert Column(records[g], c)[..t.len] == Column(records[g], c)[..s.len] + [x];
    }

    twostate lemma CopyKept(new g: nat, new c: nat, new x: int, new t: Slice, new pc: Pc, p: Publication)
      requires Appended(g, c, x, t, pc) && old(GoodCopy(p))
      ensures Untouched(p)
    {
      var s := old(routines)[g].cols[c];
      forall e | 0 <= e < COLUMNS ensures p.cols[e].arr[..p.count] == old(p.cols[e].arr[..p.count]) {
        if p.cols[e].arr == s.arr {
          assert p.count <= s.len;
          assert s.arr[..p.count] == s.arr[..s.len][..p.count];
        }
      }
    }

    twostate lemma StillUnshared(new g: nat, new c: nat, new x: int, new t: Slice, new pc: Pc)
      requires Appended(g, c, x, t, pc)
      ensures Unshared()
    {
      forall h, d | 0 <= h < |routines| && 0 <= d < COLUMNS
        ensures old(routines)[h].cols[d].arr in old(Repr) && |routines[h].cols| == COLUMNS
      {
        assert old(GoodColumn(h, d));
      }
    }

    /** A value appended at the end of its column keeps everything that was shown. */
    twostate lemma AppendedIsValid(new g: nat, new c: nat, new x: int, new t: Slice, new pc: Pc)
      requires Appended(g, c, x, t, pc) && old(GoodPc(g)) && old(routines)[g].pc.Appending?
      requires c == old(routines)[g].pc.next && x == old(routines)[g].pc.sample[c]
      requires pc == if c + 1 < COLUMNS then Appending(old(routines)[g].pc.sample, c + 1) else WantsLock
      ensures Valid() && CopiesUntouched(old(published))
    {
      assert t.len == old(LengthOf(g, c)) + 1;
      StillUnshared(g, c, x, t, pc);
      hide GoodColumn, GoodCopy, IsEntry, Shown, Column;
      EntriesKept();
      NewValue(g, c, x, t, pc);
      forall h, d | 0 <= h < |routines| && 0 <= d < COLUMNS && (h != g || d != c) ensures GoodColumn(h, d) {
        OthersKept(g, c, x, t, pc, h, d);
      }
      forall i | 0 <= i < |published| ensures Untouched(published[i]) && GoodCopy(published[i]) {
        CopyKept(g, c, x, t, pc, published[i]);
      }
      forall h | 0 <= h < |routines| ensures GoodPc(h) { assert old(GoodPc(h)); }
    }

    /** Appends the next value of the current sample, in place or in a grown copy. No published copy
        shows anything else than before. */
    method AppendValue(g: nat, room: nat)
      requires Valid() && g < |routines| && routines[g].pc.Appending?
      modifies this, Repr
      ensures Valid() && fresh(Repr - old(Repr)) && old(Repr) <= Repr
      ensures Abstract() == Next(old(Abstract()), AppendNext(g, room))
      ensures published == old(published) && CopiesUntouched(published)
    {
      assert GoodPc(g) && GoodColumn(g, routines[g].pc.next);
      var r := routines[g];
      var c := r.pc.next;
      var x := r.pc.sample[c];
      var s := r.cols[c];
      var pc := if c + 1 < COLUMNS then Appending(r.pc.sample, c + 1) else WantsLock;
      assert Next(Abstract(), AppendNext(g, room)) == At(Abstract(), g, pc);
      hide Next, NamesOf, PcsOf, TakenOf;
      var t := Append(s, x, room);
      Repr := Repr + {t.arr};
      MovedRoutine(routines, g, Routine(r.name, pc, r.cols[c := t]));
      routines := routines[g := Routine(r.name, pc, r.cols[c := t])];
      assert Appended(g, c, x, t, pc);
      hide Valid, Appended;
      AppendedIsValid(g, c, x, t, pc);
    }

    // ---------- the other steps ----------

    constructor ()
      ensures Valid() && Abstract() == START && Repr == {}
    {
      routines, stats, holder := [], map[], Nobody;
      records, published, entries, Repr := [], [], map[], {};
    }

    /** How the state may differ after a goroutine with its own new columns has been added. */
    twostate predicate Joined(name: string, new cols: seq<Slice>)
      reads this, Repr
    {
      && old(Valid()) && |cols| == COLUMNS
      && routines == old(routines) + [Routine(name, Idle, cols)] && records == old(records) + [[]]
      && published == old(published) && stats == old(stats) && entries == old(entries) && holder == old(holder)
      && old(Repr) <= Repr && (forall a :: a in old(Repr) ==> a[..] == old(a[..]))
      && (forall c :: 0 <= c < COLUMNS ==> cols[c].len == 0 && cols[c].arr in Repr && cols[c].arr !in old(Repr))
      && (forall c, d :: 0 <= c < d < COLUMNS ==> cols[c].arr != cols[d].arr)
    }

    twostate lemma ColumnJoined(new name: string, new cols: seq<Slice>, new h: nat, new c: nat)
      requires Joined(name, cols) && h < |routines| && c < COLUMNS
      ensures GoodColumn(h, c) && GoodPc(h)
    {
      if h < old(|routines|) {
        assert old(GoodColumn(h, c)) && old(GoodPc(h));
      }
    }

    twostate lemma CopyJoined(new name: string, new cols: seq<Slice>, p: Publication)
      requires Joined(name, cols) && old(GoodCopy(p))
      ensures Untouched(p)
    {
    }

    twostate lemma UnsharedToo(new name: string, new cols: seq<Slice>)
      requires Joined(name, cols)
      ensures Unshared()
    {
      forall h, d | 0 <= h < |old(routines)| && 0 <= d < COLUMNS ensures old(routines)[h].cols[d].arr in old(Repr) {
        assert old(GoodColumn(h, d));
      }
    }

    twostate lemma JoinedIsValid(new name: string, new cols: seq<Slice>)
      requires Joined(name, cols)
      ensures Valid() && CopiesUntouched(old(published))
    {
      UnsharedToo(name, cols);
      hide GoodColumn, GoodCopy, GoodPc, IsEntry, Shown;
      EntriesKept();
      forall h, c | 0 <= h < |routines| && 0 <= c < COLUMNS ensures GoodColumn(h, c) { ColumnJoined(name, cols, h, c); }
      forall h | 0 <= h < |routines| ensures GoodPc(h) { ColumnJoined(name, cols, h, 0); }
      forall i | 0 <= i < |published| ensures Untouched(published[i]) && GoodCopy(published[i]) {
        CopyJoined(name, cols, published[i]);
      }
    }

    /** Starts a goroutine for a container, with five empty columns of its own. */
    method MonitorContainer(name: string)
      requires Valid()
      modifies this
      ensures Valid() && fresh(Repr - old(Repr)) && old(Repr) <= Repr
      ensures Abstract() == Next(old(Abstract()), Start(name))
      ensures published == old(published) && CopiesUntouched(published)
    {
      hide NamesOf, PcsOf, TakenOf;
      var cols := EmptyColumns();
      Repr := Repr + set c | 0 <= c < COLUMNS :: cols[c].arr;
      NewRoutine(routines, Routine(name, Idle, cols));
      routines := routines + [Routine(name, Idle, cols)];
      records := records + [[]];
      assert Joined(name, cols);
      hide Valid, Joined;
      JoinedIsValid(name, cols);
    }

    /** How the state may differ after a goroutine has come to a point that needs no change of its columns. */
    twostate predicate Moved(g: nat, pc: Pc, next: Holder)
      reads this, Repr
    {
      && old(Valid()) && g < old(|routines|) && !old(routines)[g].pc.Appending? && !pc.Appending?
      && routines == old(routines)[g := Routine(old(routines)[g].name, pc, old(routines)[g].cols)] && holder == next
      && (pc.Locked? || pc.Published? <==> next == Goroutine(g)) && (next.Goroutine? ==> next.g < |routines|)
      && (forall h :: 0 <= h < |routines| && h != g ==> (old(holder) == Goroutine(h) <==> next == Goroutine(h)))
      && records == old(records) && published == old(published) && stats == old(stats) && entries == old(entries)
      && Repr == old(Repr) && (forall a :: a in Repr ==> a[..] == old(a[..]))
    }

    twostate lemma ColumnMoved(new g: nat, new pc: Pc, new next: Holder, new h: nat, new c: nat)
      requires Moved(g, pc, next) && h < |routines| && c < COLUMNS
      ensures GoodColumn(h, c) && GoodPc(h)
    {
      assert old(GoodColumn(h, c)) && old(GoodPc(h));
    }

    twostate lemma CopyMoved(new g: nat, new pc: Pc, new next: Holder, p: Publication)
      requires Moved(g, pc, next) && old(GoodCopy(p))
      ensures Untouched(p)
    {
    }

    twostate lemma MovedIsValid(new g: nat, new pc: Pc, new next: Holder)
      requires Moved(g, pc, next)
      ensures Valid() && CopiesUntouched(old(published))
    {
      hide GoodColumn, GoodCopy, GoodPc, IsEntry, Shown;
      EntriesKept();
      forall h, c | 0 <= h < |routines| && 0 <= c < COLUMNS ensures GoodColumn(h, c) { ColumnMoved(g, pc, next, h, c); }
      forall h | 0 <= h < |routines| ensures GoodPc(h) { ColumnMoved(g, pc, next, h, 0); }
      forall i | 0 <= i < |published| ensures Untouched(published[i]) && GoodCopy(published[i]) {
        CopyMoved(g, pc, next, published[i]);
      }
    }

    /** Moves the goroutine to another point that needs no change of its columns. */
    method Move(g: nat, pc: Pc, next: Holder)
      requires Valid() && g < |routines| && !routines[g].pc.Appending? && !pc.Appending?
      requires pc.Locked? || pc.Published? <==> next == Goroutine(g)
      requires next.Goroutine? ==> next.g < |routines|
      requires forall h :: 0 <= h < |routines| && h != g ==> (holder == Goroutine(h) <==> next == Goroutine(h))
      modifies this
      ensures Valid() && Repr == old(Repr)
      ensures Abstract() == At(old(Abstract()), g, pc).(holder := next)
      ensures published == old(published) && CopiesUntouched(published)
    {
      hide NamesOf, PcsOf, TakenOf;
      MovedRoutine(routines, g, Routine(routines[g].name, pc, routines[g].cols));
      holder := next;
      routines := routines[g := Routine(routines[g].name, pc, routines[g].cols)];
      assert Moved(g, pc, next);
      hide Valid, Moved;
      MovedIsValid(g, pc, next);
    }

    /** How the state may differ after a sample has been decoded. */
    twostate predicate Decoded(g: nat, sample: seq<int>)
      reads this, Repr
    {
      && old(Valid()) && g < old(|routines|) && old(routines)[g].pc.Idle? && |sample| == COLUMNS
      && records == old(records)[g := old(records)[g] + [sample]]
      && routines == old(routines)[g := Routine(old(routines)[g].name, Appending(sample, 0), old(routines)[g].cols)]
      && published == old(published) && stats == old(stats) && entries == old(entries) && holder == old(holder) && Repr == old(Repr)
      && (forall a :: a in Repr ==> a[..] == old(a[..]))
    }

    twostate lemma ColumnDecoded(new g: nat, new sample: seq<int>, new h: nat, new c: nat)
      requires Decoded(g, sample) && h < |routines| && c < COLUMNS
      ensures GoodColumn(h, c) && GoodPc(h)
    {
      assert old(GoodColumn(h, c)) && old(GoodPc(h)) && old(GoodColumn(g, c));
      assert Column(records[h], c)[..|old(records)[h]|] == Column(old(records)[h], c);
    }

    twostate lemma CopyDecoded(new g: nat, new sample: seq<int>, p: Publication)
      requires Decoded(g, sample) && old(GoodCopy(p))
      ensures Untouched(p)
    {
      assert old(GoodColumn(g, 0));
      forall c | 0 <= c < COLUMNS ensures Column(records[p.g], c)[..p.count] == Column(old(records)[p.g], c)[..p.count] {}
    }

    twostate lemma DecodedIsValid(new g: nat, new sample: seq<int>)
      requires Decoded(g, sample)
      ensures Valid() && CopiesUntouched(old(published))
    {
      assert old(GoodPc(g));
      hide GoodColumn, GoodCopy, GoodPc, IsEntry, Shown;
      EntriesKept();
      forall h, c | 0 <= h < |routines| && 0 <= c < COLUMNS ensures GoodColumn(h, c) { ColumnDecoded(g, sample, h, c); }
      forall h | 0 <= h < |routines| ensures GoodPc(h) { ColumnDecoded(g, sample, h, 0); }
      forall i | 0 <= i < |published| ensures Untouched(published[i]) && GoodCopy(published[i]) {
        CopyDecoded(g, sample, published[i]);
      }
    }

    /** A sample has been decoded: its values are about to be appended. */
    method DecodeSample(g: nat, sample: seq<int>)
      requires Valid() && g < |routines| && routines[g].pc.Idle? && |sample| == COLUMNS
      modifies this
      ensures Valid() && Repr == old(Repr)
      ensures Abstract() == Next(old(Abstract()), Decode(g, sample))
      ensures records == old(records)[g := old(records)[g] + [sample]]
      ensures published == old(published) && CopiesUntouched(published)
    {
      assert Abstract().pcs[g] == routines[g].pc;
      hide NamesOf, PcsOf, TakenOf;
      records := records[g := records[g] + [sample]];
      MovedRoutine(routines, g, Routine(routines[g].name, Appending(sample, 0), routines[g].cols));
      routines := routines[g := Routine(routines[g].name, Appending(sample, 0), routines[g].cols)];
      assert Decoded(g, sample);
      hide Valid, Decoded;
      DecodedIsValid(g, sample);
    }

    lemma CopyOfHeaders(g: nat)
      requires |records| == |routines| && Unshared() && g < |routines| && !routines[g].pc.Appending?
      requires forall c :: 0 <= c < COLUMNS ==> GoodColumn(g, c)
      ensures GoodCopy(Publication(g, |records[g]|, routines[g].cols))
    {
      assert GoodColumn(g, 0);
      forall c | 0 <= c < COLUMNS
        ensures var s := routines[g].cols[c];
                && s.arr in Repr && s.len == |records[g]| <= s.arr.Length
                && s.arr[..s.len] == Column(records[g], c)[..s.len]
      {
        assert GoodColumn(g, c);
      }
    }

    /** How the state may differ after the headers have been copied into the map. */
    twostate predicate Copied(g: nat)
      reads this, Repr
    {
      && old(Valid()) && g < old(|routines|) && old(routines)[g].pc.Locked?
      && routines == old(routines)[g := Routine(old(routines)[g].name, Published, old(routines)[g].cols)]
      && records == old(records) && holder == old(holder) == Goroutine(g) && Repr == old(Repr)
      && published == old(published) + [Publication(g, |records[g]|, routines[g].cols)]
      && stats == old(stats)[routines[g].name := routines[g].cols]
      && entries == old(entries)[routines[g].name := |old(published)|]
      && (forall a :: a in Repr ==> a[..] == old(a[..]))
    }

    twostate lemma ColumnCopied(new g: nat, new h: nat, new c: nat)
      requires Copied(g) && h < |routines| && c < COLUMNS
      ensures GoodColumn(h, c) && GoodPc(h)
    {
      assert old(GoodColumn(h, c)) && old(GoodPc(h));
    }

    twostate lemma CopyCopied(new g: nat, p: Publication)
      requires Copied(g) && old(GoodCopy(p))
      ensures Untouched(p)
    {
    }

    twostate lemma CopiedIsValid(new g: nat)
      requires Copied(g)
      ensures Valid() && CopiesUntouched(old(published))
    {
      hide GoodColumn, GoodPc, GoodCopy, Shown;
      forall h, c | 0 <= h < |routines| && 0 <= c < COLUMNS ensures GoodColumn(h, c) { ColumnCopied(g, h, c); }
      forall h | 0 <= h < |routines| ensures GoodPc(h) { ColumnCopied(g, h, 0); }
      forall i | 0 <= i < |old(published)| ensures Untouched(old(published)[i]) && GoodCopy(old(published)[i]) {
        CopyCopied(g, old(published)[i]);
      }
      CopyOfHeaders(g);
      forall n | n in stats ensures IsEntry(n) {
        if n != routines[g].name { assert old(IsEntry(n)); }
      }
    }

    /** With the lock held, the headers are copied into the shared map. */
    method PublishHeaders(g: nat)
      requires Valid() && g < |routines| && routines[g].pc.Locked?
      modifies this
      ensures Valid() && Repr == old(Repr)
      ensures Abstract() == Next(old(Abstract()), Publish(g))
      ensures published == old(published) + [Publication(g, |old(records)[g]|, old(routines)[g].cols)]
      ensures stats == old(stats)[old(routines)[g].name := old(routines)[g].cols]
      ensures CopiesUntouched(old(published))
    {
      assert GoodPc(g) && Abstract().pcs[g] == routines[g].pc && Abstract().names[g] == routines[g].name;
      hide NamesOf, PcsOf, TakenOf;
      NewPublication(published, Publication(g, |records[g]|, routines[g].cols));
      MovedRoutine(routines, g, Routine(routines[g].name, Published, routines[g].cols));
      stats := stats[routines[g].name := routines[g].cols];
      entries := entries[routines[g].name := |published|];
      published := published + [Publication(g, |records[g]|, routines[g].cols)];
      routines := routines[g := Routine(routines[g].name, Published, routines[g].cols)];
      assert Copied(g);
      hide Valid, Copied;
      CopiedIsValid(g);
    }

    /** One step of any goroutine or of the reader; a step whose turn it is not changes nothing. */
    method Step(action: Action)
      requires Valid()
      modifies this, Repr
      ensures Valid() && fresh(Repr - old(Repr)) && old(Repr) <= Repr
      ensures Abstract() == Next(old(Abstract()), action)
      ensures old(published) <= published && CopiesUntouched(old(published))
    {
      hide GoodColumn, GoodCopy, IsEntry, Unshared, Shown;
      match action
      case Start(name) =>
        MonitorContainer(name);
      case Decode(g, sample) =>
        if g < |routines| && routines[g].pc.Idle? && |sample| == COLUMNS { DecodeSample(g, sample); }
      case DecodeFails(g) =>
        if g < |routines| && routines[g].pc.Idle? { assert GoodPc(g); Move(g, Gone, holder); }
      case AppendNext(g, room) =>
        if g < |routines| && routines[g].pc.Appending? { AppendValue(g, room); }
      case Lock(g) =>
        if g < |routines| && routines[g].pc.WantsLock? && holder.Nobody? { Move(g, Locked, Goroutine(g)); }
      case Publish(g) =>
        if g < |routines| && routines[g].pc.Locked? { PublishHeaders(g); }
      case Unlock(g) =>
        if g < |routines| && routines[g].pc.Published? { assert GoodPc(g); Move(g, Idle, Nobody); }
      case ReaderLock =>
        if holder.Nobody? { SetReader(Reader); }
      case ReaderUnlock =>
        if holder.Reader? { SetReader(Nobody); }
    }

    method SetReader(next: Holder)
      requires Valid() && !holder.Goroutine? && !next.Goroutine?
      modifies this`holder
      ensures Valid() && Abstract() == old(Abstract()).(holder := next) && CopiesUntouched(published)
    {
      holder := next;
      forall h | 0 <= h < |routines| ensures GoodPc(h) { assert old(GoodPc(h)); }
      forall n | n in stats ensures IsEntry(n) { assert old(IsEntry(n)); }
    }

    /** The copy shows the samples that its goroutine had first, as many as when the copy was made. */
    ghost predicate ShowsFirst(p: Publication)
      reads `routines, `records, `Repr, Repr
    {
      GoodCopy(p) && forall c :: 0 <= c < COLUMNS ==> Shown(p, c) == Column(records[p.g][..p.count], c)
    }

    lemma CopiesShow()
      requires Valid()
      ensures forall i :: 0 <= i < |published| ==> ShowsFirst(published[i])
    {
    }

    lemma PublicationsFit()
      requires Valid()
      ensures Fits(Abstract())
    {
      forall i | 0 <= i < |published| ensures GoodCopy(published[i]) {}
    }

    lemma LockIsExclusive()
      requires Valid()
      ensures Exclusive(Abstract())
    {
      forall g | 0 <= g < |routines|
        ensures routines[g].pc.Locked? || routines[g].pc.Published? <==> holder == Goroutine(g)
      {
        assert GoodPc(g);
      }
    }

    /** Any interleaving: the program does what the state machine does. Copies of headers from before the
        run show what they did, and every copy, also those made in the run, shows the samples that its
        goroutine had first, as many as when the copy was made. */
    method Run(schedule: seq<Action>)
      requires Valid()
      modifies this, Repr
      ensures Valid() && fresh(Repr - old(Repr)) && old(Repr) <= Repr
      ensures Abstract() == DockerProtocol.Run(old(Abstract()), schedule)
      ensures old(published) <= published && CopiesUntouched(old(published))
      ensures forall i :: 0 <= i < |published| ==> ShowsFirst(published[i])
    {
      hide GoodColumn, GoodPc, IsEntry, Unshared, Column, Next, ShowsFirst;
      for i := 0 to |schedule|
        invariant Valid() && fresh(Repr - old(Repr)) && old(Repr) <= Repr
        invariant Abstract() == DockerProtocol.Run(old(Abstract()), schedule[..i])
        invariant old(published) <= published && CopiesUntouched(old(published))
      {
        assert schedule[..i + 1][..i] == schedule[..i];
        Step(schedule[i]);
      }
      assert schedule[..|schedule|] == schedule;
      CopiesShow();
    }

    /** What the encoder finds for a name, in any valid state: five columns, which are those of the samples
        that the goroutine had when it published. */
    method ReadNode(name: string) returns (columns: seq<seq<int>>)
      requires Valid() && name in stats
      ensures IsSnapshot(columns, Abstract(), name)
    {
      assert IsEntry(name);
      ghost var p := published[entries[name]];
      assert GoodCopy(p);
      columns := [];
      var headers := stats[name];
      for c := 0 to COLUMNS
        invariant |columns| == c && forall d :: 0 <= d < c ==> columns[d] == Column(records[p.g][..p.count], d)
      {
        columns := columns + [headers[c].arr[..headers[c].len]];
        assert Column(records[p.g], c)[..p.count] == Column(records[p.g][..p.count], c);
      }
    }

    /** The other goroutines go on while the reader has the lock. */
    method GoOn(schedule: seq<Action>)
      requires Valid() && holder.Reader? && ReaderUnlock !in schedule
      modifies this, Repr
      ensures Valid() && fresh(Repr - old(Repr)) && old(Repr) <= Repr && holder.Reader? && |records| == |routines|
      ensures Abstract() == DockerProtocol.Run(old(Abstract()), schedule) && SameMap(old(Abstract()), Abstract())
    {
      LockIsExclusive();
      hide Valid, Exclusive;
      UnderReader(Abstract(), schedule);
      RunGrows(Abstract(), schedule);
      Run(schedule);
    }

    /** FetchStats, from the moment when it gets the lock. However the other goroutines go on between the
        reading of one name and the next, the file is the shared map as it was at that moment. */
    method FetchStats(pauses: map<string, seq<Action>>) returns (file: map<string, seq<seq<int>>>, ghost run: seq<Action>)
      requires Valid() && holder.Nobody?
      requires forall n :: n in pauses ==> ReaderUnlock !in pauses[n]
      modifies this, Repr
      ensures Valid() && fresh(Repr - old(Repr)) && holder.Nobody?
      ensures Abstract() == DockerProtocol.Run(old(Abstract()), run)
      ensures file.Keys == old(Abstract()).entries.Keys
      ensures forall n :: n in file ==> IsSnapshot(file[n], old(Abstract()), n)
    {
      ghost var v := Abstract();
      TakeLock();
      hide *;
      file, run := ReadNames(v, [ReaderLock], pauses);
      ReleaseLock(v, run);
      run := run + [ReaderUnlock];
    }

    /** Reads all names under the lock. */
    method ReadNames(ghost v: View, ghost before: seq<Action>, pauses: map<string, seq<Action>>)
      returns (file: map<string, seq<seq<int>>>, ghost run: seq<Action>)
      requires Valid() && holder.Reader? && Sized(v) && |records| == |routines|
      requires Abstract() == DockerProtocol.Run(v, before) && SameMap(v, Abstract())
      requires forall n :: n in pauses ==> ReaderUnlock !in pauses[n]
      modifies this, Repr
      ensures Valid() && fresh(Repr - old(Repr)) && holder.Reader? && |records| == |routines|
      ensures Abstract() == DockerProtocol.Run(v, run)
      ensures file.Keys == v.entries.Keys && forall n :: n in file ==> IsSnapshot(file[n], v, n)
    {
      hide *;
      run := before;
      file := map[];
      var left := stats.Keys;
      Names();
      SameMapSameNames(v, Abstract());
      while left != {}
        invariant Valid() && fresh(Repr - old(Repr)) && holder.Reader? && old(Repr) <= Repr && |records| == |routines|
        invariant Abstract() == DockerProtocol.Run(v, run) && SameMap(v, Abstract())
        invariant left <= v.entries.Keys && file.Keys == v.entries.Keys - left
        invariant forall n :: n in file ==> IsSnapshot(file[n], v, n)
      {
        var n :| n in left;
        if n in pauses {
          RunConcat(v, run, pauses[n]);
          ghost var w := Abstract();
          GoOn(pauses[n]);
          SameMapTwice(v, w, Abstract());
          run := run + pauses[n];
        }
        Names();
        SameMapSameNames(v, Abstract());
        var columns := ReadNode(n);
        SnapshotKept(columns, v, Abstract(), n);
        file := file[n := columns];
        left := left - {n};
      }
    }

    method ReleaseLock(ghost v: View, ghost run: seq<Action>)
      requires Valid() && Sized(v) && holder.Reader? && Abstract() == DockerProtocol.Run(v, run)
      modifies this, Repr
      ensures Valid() && Repr == old(Repr) && holder.Nobody?
      ensures Abstract() == DockerProtocol.Run(v, run + [ReaderUnlock])
    {
      RunConcat(v, run, [ReaderUnlock]);
      RunOne(Abstract(), ReaderUnlock);
      SetReader(Nobody);
    }

    method TakeLock()
      requires Valid() && holder.Nobody?
      modifies this, Repr
      ensures Valid() && Repr == old(Repr) && holder.Reader? && |records| == |routines|
      ensures Abstract() == DockerProtocol.Run(old(Abstract()), [ReaderLock]) && SameMap(old(Abstract()), Abstract())
    {
      PublicationsFit();
      RunOne(Abstract(), ReaderLock);
      SetReader(Reader);
    }

    lemma Names()
      requires Valid()
      ensures stats.Keys == Abstract().entries.Keys
    {
    }
  }

  /** The measuring of any containers under any schedule, and the file that is written at its end, when
      nobody holds the lock. The columns of a container whose name no other one has are those of the samples
      that its goroutine decoded, as they came, without the one in progress; it is in the file as soon
      as there is such a sample. */
  method Measure(schedule: seq<Action>, pauses: map<string, seq<Action>>) returns (file: map<string, seq<seq<int>>>)
    requires DockerProtocol.Run(START, schedule).holder.Nobody?
    requires forall n :: n in pauses ==> ReaderUnlock !in pauses[n]
    ensures var v := DockerProtocol.Run(START, schedule);
            forall g :: 0 <= g < |v.names| && (forall h :: 0 <= h < |v.names| && h != g ==> v.names[h] != v.names[g]) ==>
              Shows(file, v.names[g], DecodedBy(schedule, g), v.pcs[g])
  {
    var dio := new DockerIO();
    ghost var v := DockerProtocol.Run(START, schedule);
    hide *;
    dio.Run(schedule);
    ghost var run;
    StateAfterRun(dio, v);
    file, run := dio.FetchStats(pauses);
    forall g | 0 <= g < |v.names| && (forall h :: 0 <= h < |v.names| && h != g ==> v.names[h] != v.names[g])
      ensures Shows(file, v.names[g], DecodedBy(schedule, g), v.pcs[g])
    {
      FileShows(file, schedule, v, g);
    }
  }

  lemma StateAfterRun(dio: DockerIO, v: View)
    requires dio.Valid() && dio.Abstract() == v
    ensures dio.holder == v.holder
  {
  }

  /** The file has an entry for the name if there is a complete sample, and then the columns of those. */
  ghost predicate Shows(file: map<string, seq<seq<int>>>, name: string, decoded: seq<seq<int>>, pc: Pc) {
    var complete := |decoded| - if pc.Appending? || pc.WantsLock? || pc.Locked? then 1 else 0;
    && (name in file <==> complete > 0)
    && (name in file ==>
          && |file[name]| == 5 && forall c, k :: 0 <= c < 5 && 0 <= k < complete ==>
               |file[name][c]| == complete && k < |decoded| && |decoded[k]| == 5 && file[name][c][k] == decoded[k][c])
  }

  lemma FileShows(file: map<string, seq<seq<int>>>, schedule: seq<Action>, v: View, g: nat)
    requires v == DockerProtocol.Run(START, schedule) && g < |v.names|
    requires forall h :: 0 <= h < |v.names| && h != g ==> v.names[h] != v.names[g]
    requires file.Keys == v.entries.Keys && forall n :: n in file ==> IsSnapshot(file[n], v, n)
    ensures Shows(file, v.names[g], DecodedBy(schedule, g), v.pcs[g])
  {
    EntryIsFresh(schedule, g);
    RecordsAreDecoded(schedule, g);
    hide DockerProtocol.Run, DecodedBy;
  }

  /** The shared map, and what it shows, has not changed. */
  ghost predicate SameMap(v: View, w: View) {
    Fits(v) && Fits(w) && Grown(v, w) && v.published == w.published && v.entries == w.entries
  }

  lemma SameMapSameNames(v: View, w: View)
    requires SameMap(v, w)
    ensures v.entries == w.entries
  {
  }

  lemma SameMapTwice(u: View, v: View, w: View)
    requires SameMap(u, v) && SameMap(v, w)
    ensures SameMap(u, w)
  {
    forall g | 0 <= g < |u.records| ensures u.records[g] <= w.records[g] {
      assert u.records[g] <= v.records[g] <= w.records[g];
    }
  }

  /** Publications are by goroutines that exist, of samples that they have. */
  ghost predicate Fits(v: View) {
    Sized(v) && forall p :: 0 <= p < |v.published| ==>
      v.published[p].g < |v.names| && v.published[p].count <= |v.records[v.published[p].g]|
  }

  lemma SnapshotKept(columns: seq<seq<int>>, v: View, w: View, name: string)
    requires IsSnapshot(columns, w, name) && SameMap(v, w)
    ensures IsSnapshot(columns, v, name)
  {
    var t := v.published[v.entries[name]];
    assert w.records[t.g][..t.count] == v.records[t.g][..t.count];
    forall i | 0 <= i < |v.records[t.g]| ensures v.records[t.g][i] == w.records[t.g][i] {}
  }

  /** The columns of a name, as its last publication has them. */
  ghost predicate IsSnapshot(columns: seq<seq<int>>, v: View, name: string) {
    && Sized(v) && name in v.entries && v.entries[name] < |v.published|
    && var t := v.published[v.entries[name]];
    && t.g < |v.names| && v.names[t.g] == name
    && IsRecord(v.records[t.g]) && t.count <= |v.records[t.g]| && |columns| == COLUMNS
    && forall c :: 0 <= c < COLUMNS ==> columns[c] == Column(v.records[t.g][..t.count], c)
  }
}
