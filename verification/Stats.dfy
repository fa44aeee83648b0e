/** Per-CPU counters, written by XDP programs while user space copies them, and
    the poller that prints differences between its readings. */
module Stats {
  import opened Packet
  import opened Words

  const XDP_ACTION_MAX: nat := 5

  /** The records of one map, one for each action; a record holds the packets of
      CPU c in word 2c and its bytes in word 2c + 1. These are true counts:
      memory holds them modulo 2^64. */
  type Counts = seq<seq<nat>>

  ghost predicate Shaped(cpus: nat, counts: Counts) {
    |counts| == XDP_ACTION_MAX && forall a :: 0 <= a < |counts| ==> |counts[a]| == 2 * cpus
  }

  function Add(counts: Counts, a: nat, w: nat, amount: nat): Counts
    requires a < |counts| && w < |counts[a]|
  {
    var words: seq<nat> := counts[a][w := counts[a][w] + amount];
    counts[a := words]
  }

  // ---------------------------------------------------------------------------
  // CPUs, whoever handles the pin, and the poller, in any interleaving.

  datatype Pin = NoPin | Pinned(id: nat)

  /** A finished reading of map `m`: what was copied, and the true counts of that
      map when the first word was about to be copied and when the last one had been. */
  datatype Reading = Reading(m: nat, began: Counts, copied: Counts, ended: Counts)

  /** The poller copies record `|done|` of the map `m` it has open, and has the words
      `part` of it; or rests between readings; or has opened map `m`, whose ID it
      has still to check; or has stopped. */
  datatype Pc =
    | Copying(m: nat, began: Counts, done: Counts, part: seq<nat>)
    | Rest
    | Opened(m: nat)
    | Stopped(failed: bool)

  /** `maps` holds every map there has been, by an ID that is never reused. */
  datatype World = World(maps: map<nat, Counts>, pin: Pin, readings: seq<Reading>, pc: Pc)

  /** A CPU adds to one of its words in some map. */
  ghost predicate CountAs(s: World, t: World, m: nat, a: nat, w: nat, amount: nat) {
    && m in s.maps && a < |s.maps[m]| && w < |s.maps[m][a]|
    && t == s.(maps := s.maps[m := Add(s.maps[m], a, w, amount)])
  }

  ghost predicate CountStep(s: World, t: World) {
    exists m, a: nat, w: nat, amount: nat :: CountAs(s, t, m, a, w, amount)
  }

  /** Somebody loads a new map, or pins one of the maps, or removes the pin. */
  ghost predicate ReplaceStep(cpus: nat, s: World, t: World) {
    || (t == s.(pin := t.pin) && (t.pin.Pinned? ==> t.pin.id in s.maps))
    || exists m: nat, counts: Counts :: LoadAs(cpus, s, t, m, counts)
  }

  ghost predicate LoadAs(cpus: nat, s: World, t: World, m: nat, counts: Counts) {
    m !in s.maps && Shaped(cpus, counts) && t == s.(maps := s.maps[m := counts])
  }

  /** The poller of map `id`: copies what it has open word by word, action by
      action; then opens whatever is pinned, and reads on only if that has the
      ID `id`. */
  ghost predicate PollStep(id: nat, s: World, t: World)
    requires OpenMapThere(s)
  {
    match s.pc
    case Copying(m, began, done, part) =>
      if |done| >= XDP_ACTION_MAX then
        t == s.(readings := s.readings + [Reading(m, began, done, s.maps[m])], pc := Rest)
      else if |part| < |s.maps[m][|done|]| then
        t == s.(pc := Copying(m, began, done, part + [s.maps[m][|done|][|part|]]))
      else
        t == s.(pc := Copying(m, began, done + [part], []))
    case Rest =>
      t == s.(pc := if s.pin == NoPin then Stopped(true) else Opened(s.pin.id))
    case Opened(m) =>
      t == s.(pc := if m != id then Stopped(false) else Copying(m, s.maps[m], [], []))
    case Stopped(_) => false
  }

  ghost predicate OpenMapThere(s: World) {
    s.pc.Copying? || s.pc.Opened? ==> s.pc.m in s.maps && |s.maps[s.pc.m]| == XDP_ACTION_MAX
  }

  ghost predicate Step(cpus: nat, id: nat, s: World, t: World) {
    OpenMapThere(s) && (CountStep(s, t) || ReplaceStep(cpus, s, t) || PollStep(id, s, t))
  }

  /** The poller starts with the map it was given. */
  ghost predicate Start(cpus: nat, id: nat, s: World) {
    && (forall m :: m in s.maps ==> Shaped(cpus, s.maps[m]))
    && (s.pin.Pinned? ==> s.pin.id in s.maps)
    && id in s.maps && s.readings == [] && s.pc == Copying(id, s.maps[id], [], [])
  }

  ghost predicate IsRun(cpus: nat, id: nat, run: seq<World>) {
    && run != [] && Start(cpus, id, run[0])
    && forall i {:trigger run[i]} :: 0 < i < |run| ==> Step(cpus, id, run[i - 1], run[i])
  }

  ghost function Last(run: seq<World>): World
    requires run != []
  {
    run[|run| - 1]
  }

  // ---------------------------------------------------------------------------
  // Counts only rise, so copies are squeezed between them.

  ghost predicate Below(a: seq<nat>, b: seq<nat>) {
    |a| <= |b| && forall i :: 0 <= i < |a| ==> a[i] <= b[i]
  }

  ghost predicate AllBelow(a: Counts, b: Counts) {
    |a| <= |b| && forall k :: 0 <= k < |a| ==> |a[k]| == |b[k]| && Below(a[k], b[k])
  }

  lemma AllBelowTransitive(a: Counts, b: Counts, c: Counts)
    requires AllBelow(a, b) && AllBelow(b, c)
    ensures AllBelow(a, c)
  {
    forall k | 0 <= k < |a|
      ensures |a[k]| == |c[k]| && Below(a[k], c[k])
    {
      assert Below(a[k], b[k]) && Below(b[k], c[k]);
    }
  }

  lemma AddAbove(counts: Counts, a: nat, w: nat, amount: nat)
    requires a < |counts| && w < |counts[a]|
    ensures AllBelow(counts, Add(counts, a, w, amount))
  {
  }

  /** A reading lies between the counts at its two ends. */
  ghost predicate Squeezed(cpus: nat, r: Reading) {
    && Shaped(cpus, r.began) && Shaped(cpus, r.copied) && Shaped(cpus, r.ended)
    && AllBelow(r.began, r.copied) && AllBelow(r.copied, r.ended)
  }

  /** The running copy lies between the counts at its start and the counts now. */
  ghost predicate CopyOk(cpus: nat, pc: Pc, now: Counts)
    requires pc.Copying?
  {
    && Shaped(cpus, pc.began) && Shaped(cpus, now) && AllBelow(pc.began, now)
    && |pc.done| <= XDP_ACTION_MAX && AllBelow(pc.done, now)
    && (forall k :: 0 <= k < |pc.done| ==> Below(pc.began[k], pc.done[k]))
    && (|pc.done| == XDP_ACTION_MAX ==> pc.part == [])
    && (|pc.done| < XDP_ACTION_MAX ==> PartOk(pc.began[|pc.done|], pc.part, now[|pc.done|]))
  }

  ghost predicate PartOk(began: seq<nat>, part: seq<nat>, now: seq<nat>) {
    |part| <= |began| && Below(part, now) && forall i :: 0 <= i < |part| ==> began[i] <= part[i]
  }

  /** Every reading is squeezed, and each starts from counts no lower than those
      the one before ended with; `next` is where the next one starts at least. */
  ghost predicate ReadingsOk(cpus: nat, readings: seq<Reading>, next: Counts) {
    && (forall k :: 0 <= k < |readings| ==> Squeezed(cpus, readings[k]))
    && (forall k :: 0 < k < |readings| ==> AllBelow(readings[k - 1].ended, readings[k].began))
    && (readings != [] ==> AllBelow(readings[|readings| - 1].ended, next))
  }

  /** Everything read is of map `id`: this is what the check of the ID is for. */
  ghost predicate OneMap(id: nat, s: World) {
    && (s.pc.Copying? ==> s.pc.m == id)
    && forall k {:trigger s.readings[k]} :: 0 <= k < |s.readings| ==> s.readings[k].m == id
  }

  ghost predicate Inv(cpus: nat, id: nat, s: World) {
    && (forall m :: m in s.maps ==> Shaped(cpus, s.maps[m]))
    && id in s.maps && (s.pin.Pinned? ==> s.pin.id in s.maps) && (s.pc.Opened? ==> s.pc.m in s.maps)
    && OneMap(id, s)
    && (s.pc.Copying? ==> CopyOk(cpus, s.pc, s.maps[id]))
    && ReadingsOk(cpus, s.readings, if s.pc.Copying? then s.pc.began else s.maps[id])
  }

  lemma CountKeepsInv(cpus: nat, id: nat, s: World, t: World, m: nat, a: nat, w: nat, amount: nat)
    requires Inv(cpus, id, s) && CountAs(s, t, m, a, w, amount)
    ensures Inv(cpus, id, t)
  {
    AddAbove(s.maps[m], a, w, amount);
    var now, later := s.maps[id], t.maps[id];
    assert AllBelow(now, later);
    if s.pc.Copying? {
      CopyRises(cpus, s.pc, now, later);
    } else if s.readings != [] {
      AllBelowTransitive(s.readings[|s.readings| - 1].ended, now, later);
    }
  }

  lemma CopyRises(cpus: nat, pc: Pc, now: Counts, later: Counts)
    requires pc.Copying? && CopyOk(cpus, pc, now) && AllBelow(now, later) && Shaped(cpus, later)
    ensures CopyOk(cpus, pc, later)
  {
    AllBelowTransitive(pc.began, now, later);
    AllBelowTransitive(pc.done, now, later);
    if |pc.done| < XDP_ACTION_MAX {
      assert Below(now[|pc.done|], later[|pc.done|]);
    }
  }

  lemma CopyWordOk(cpus: nat, pc: Pc, now: Counts)
    requires pc.Copying? && CopyOk(cpus, pc, now) && |pc.done| < XDP_ACTION_MAX
    ensures if |pc.part| < |now[|pc.done|]| then
              CopyOk(cpus, pc.(part := pc.part + [now[|pc.done|][|pc.part|]]), now)
            else CopyOk(cpus, Copying(pc.m, pc.began, pc.done + [pc.part], []), now)
  {
    assert Below(pc.began[|pc.done|], now[|pc.done|]);
  }

  lemma PollKeepsInv(cpus: nat, id: nat, s: World, t: World)
    requires Inv(cpus, id, s) && OpenMapThere(s) && PollStep(id, s, t)
    ensures Inv(cpus, id, t)
  {
    var now := s.maps[id];
    if s.pc.Copying? && |s.pc.done| < XDP_ACTION_MAX {
      CopyWordOk(cpus, s.pc, now);
    } else if s.pc.Copying? {
      ReadingDone(cpus, s.readings, s.pc, now);
    } else {
      SelfBelow(cpus, id, now);
    }
  }

  lemma SelfBelow(cpus: nat, id: nat, counts: Counts)
    requires Shaped(cpus, counts)
    ensures AllBelow(counts, counts) && CopyOk(cpus, Copying(id, counts, [], []), counts)
  {
  }

  lemma ReadingDone(cpus: nat, readings: seq<Reading>, pc: Pc, now: Counts)
    requires pc.Copying? && CopyOk(cpus, pc, now) && |pc.done| == XDP_ACTION_MAX
    requires ReadingsOk(cpus, readings, pc.began)
    ensures ReadingsOk(cpus, readings + [Reading(pc.m, pc.began, pc.done, now)], now)
  {
    var r := Reading(pc.m, pc.began, pc.done, now);
    SelfBelow(cpus, pc.m, now);
    assert Squeezed(cpus, r) by {
      assert forall k :: 0 <= k < XDP_ACTION_MAX ==> |pc.done[k]| == |now[k]| == |pc.began[k]|;
    }
    var more := readings + [r];
    forall k | 0 < k < |more|
      ensures AllBelow(more[k - 1].ended, more[k].began)
    {
      assert k < |readings| ==> more[k] == readings[k];
    }
  }

  lemma StepKeepsInv(cpus: nat, id: nat, s: World, t: World)
    requires Inv(cpus, id, s) && Step(cpus, id, s, t)
    ensures Inv(cpus, id, t)
  {
    hide CopyOk, ReadingsOk;
    if CountStep(s, t) {
      var m, a: nat, w: nat, amount: nat :| CountAs(s, t, m, a, w, amount);
      CountKeepsInv(cpus, id, s, t, m, a, w, amount);
    } else if ReplaceStep(cpus, s, t) {
      if t != s.(pin := t.pin) {
        var m: nat, counts: Counts :| LoadAs(cpus, s, t, m, counts);
      }
    } else {
      PollKeepsInv(cpus, id, s, t);
    }
  }

  /** On every run: readings are squeezed and follow one another, and all of
      them, though each opens whatever is pinned, are of the one map `id`. */
  lemma {:induction false} RunInv(cpus: nat, id: nat, run: seq<World>)
    requires IsRun(cpus, id, run)
    ensures Inv(cpus, id, Last(run)) && OneMap(id, Last(run))
  {
    hide Inv, Step, OneMap;
    if |run| == 1 {
      StartInv(cpus, id, run[0]);
    } else {
      RunPrefix(cpus, id, run);
      RunInv(cpus, id, run[..|run| - 1]);
      StepKeepsInv(cpus, id, Last(run[..|run| - 1]), Last(run));
    }
    ReadsOneMap(cpus, id, Last(run));
  }

  lemma ReadsOneMap(cpus: nat, id: nat, s: World)
    requires Inv(cpus, id, s)
    ensures OneMap(id, s)
  {
  }

  /** The invariant at any moment of a run. */
  lemma InvAt(cpus: nat, id: nat, run: seq<World>, i: nat)
    requires IsRun(cpus, id, run) && i < |run|
    ensures Inv(cpus, id, run[i])
    ensures i > 0 ==> Step(cpus, id, run[i - 1], run[i])
  {
    hide Step, Start, Inv;
    var p := run[..i + 1];
    forall j {:trigger p[j]} | 0 < j < |p|
      ensures Step(cpus, id, p[j - 1], p[j])
    {
      assert p[j] == run[j] && p[j - 1] == run[j - 1];
    }
    RunInv(cpus, id, p);
  }

  lemma RunPrefix(cpus: nat, id: nat, run: seq<World>)
    requires IsRun(cpus, id, run) && |run| > 1
    ensures var before := run[..|run| - 1];
            IsRun(cpus, id, before) && Step(cpus, id, Last(before), Last(run))
  {
    hide Step, Start;
    var n := |run| - 1;
    var before := run[..n];
    forall i {:trigger before[i]} | 0 < i < n
      ensures Step(cpus, id, before[i - 1], before[i])
    {
      assert before[i] == run[i] && before[i - 1] == run[i - 1];
    }
    assert run[n] == Last(run) && run[n - 1] == Last(before);
  }

  lemma StartInv(cpus: nat, id: nat, s: World)
    requires Start(cpus, id, s)
    ensures Inv(cpus, id, s)
  {
    SelfBelow(cpus, id, s.maps[id]);
  }

  // ---------------------------------------------------------------------------
  // Sums over the CPUs.

  /** The sum of one field, 0 for packets and 1 for bytes, over all CPUs. */
  function FieldSum(words: seq<nat>, field: nat): nat
    requires field < 2
  {
    if |words| < 2 then 0 else words[field] + FieldSum(words[2..], field)
  }

  /** The sums, CPU by CPU, and what is reported and printed of them. */
  lemma SumByCpu(packets: nat, bytes: nat, rest: seq<nat>, field: nat, prev: nat, now: nat)
    requires field < 2
    ensures FieldSum([], field) == 0
    ensures FieldSum([packets, bytes] + rest, 0) == packets + FieldSum(rest, 0)
    ensures FieldSum([packets, bytes] + rest, 1) == bytes + FieldSum(rest, 1)
    ensures Report(rest, field) == FieldSum(rest, field) % 0x1_0000_0000_0000_0000
    ensures Delta(prev, now) == (now - prev) % 0x1_0000_0000_0000_0000
    ensures XDP_ACTION_MAX == 5
  {
    assert ([packets, bytes] + rest)[2..] == rest;
  }

  lemma {:induction false} BelowSum(a: seq<nat>, b: seq<nat>, field: nat)
    requires Below(a, b) && |a| == |b| && field < 2
    ensures FieldSum(a, field) <= FieldSum(b, field)
  {
    if 2 <= |a| {
      assert forall i :: 0 <= i < |a[2..]| ==> a[2..][i] == a[i + 2] && b[2..][i] == b[i + 2];
      BelowSum(a[2..], b[2..], field);
    }
  }

  /** For every interleaving, what a reading sums to lies between the true totals
      of its action when the reading began and when it ended. */
  lemma ReadingIsBetween(cpus: nat, id: nat, run: seq<World>, k: nat, a: nat, field: nat)
    requires IsRun(cpus, id, run) && k < |Last(run).readings| && a < XDP_ACTION_MAX && field < 2
    ensures var r := Last(run).readings[k];
            && |r.began| == |r.copied| == |r.ended| == XDP_ACTION_MAX
            && FieldSum(r.began[a], field) <= FieldSum(r.copied[a], field) <= FieldSum(r.ended[a], field)
  {
    RunInv(cpus, id, run);
    var r := Last(run).readings[k];
    assert Squeezed(cpus, r);
    BelowSum(r.began[a], r.copied[a], field);
    BelowSum(r.copied[a], r.ended[a], field);
  }

  // ---------------------------------------------------------------------------
  // One lookup: the copy of one record.

  /** From moment `i`, when the poller is about to look record `a` up, to moment
      `j` it has been copying that record, as far as `part` at `j` goes. */
  ghost predicate Lookup(run: seq<World>, i: nat, j: nat, a: nat) {
    && i <= j < |run| && run[i].pc.Copying? && run[i].pc.part == []
    && (forall k {:trigger run[k]} :: i <= k <= j ==> run[k].pc.Copying? && |run[k].pc.done| == a)
  }

  lemma LookupPart(run: seq<World>, i: nat, j: nat, a: nat) returns (part: seq<nat>)
    requires Lookup(run, i, j, a)
    ensures i <= j < |run| && run[j].pc.Copying? && part == run[j].pc.part
  {
    part := run[j].pc.part;
  }

  /** The words copied so far lie between the counts at `i` and those at `j`. */
  lemma {:induction false} LookupSqueezed(cpus: nat, id: nat, run: seq<World>, i: nat, j: nat, a: nat)
    requires IsRun(cpus, id, run) && a < XDP_ACTION_MAX && Lookup(run, i, j, a)
    ensures id in run[i].maps && id in run[j].maps
    ensures Shaped(cpus, run[i].maps[id]) && Shaped(cpus, run[j].maps[id])
    ensures AllBelow(run[i].maps[id], run[j].maps[id])
    ensures PartOk(run[i].maps[id][a], run[j].pc.part, run[j].maps[id][a])
    decreases j
  {
    hide IsRun, Step, PartOk, AllBelow, Shaped, CopyOk, ReadingsOk;
    InvAt(cpus, id, run, i);
    InvAt(cpus, id, run, j);
    if i == j {
      BeginLookup(cpus, id, run[i].maps[id], a);
    } else {
      var s, t := run[j - 1], run[j];
      InvAt(cpus, id, run, j - 1);
      LookupSqueezed(cpus, id, run, i, j - 1, a);
      LookupStep(cpus, id, s, t, run[i].maps[id], a);
    }
  }

  lemma BeginLookup(cpus: nat, id: nat, counts: Counts, a: nat)
    requires Shaped(cpus, counts) && a < XDP_ACTION_MAX
    ensures AllBelow(counts, counts) && PartOk(counts[a], [], counts[a])
  {
  }

  lemma LookupStep(cpus: nat, id: nat, s: World, t: World, first: Counts, a: nat)
    requires Inv(cpus, id, s) && Inv(cpus, id, t) && Step(cpus, id, s, t) && Shaped(cpus, first) && a < XDP_ACTION_MAX
    requires s.pc.Copying? && t.pc.Copying? && |s.pc.done| == |t.pc.done| == a
    requires AllBelow(first, s.maps[id]) && PartOk(first[a], s.pc.part, s.maps[id][a])
    ensures AllBelow(first, t.maps[id]) && PartOk(first[a], t.pc.part, t.maps[id][a])
  {
    hide CopyOk, ReadingsOk;
    if CountStep(s, t) {
      var m, x: nat, w: nat, amount: nat :| CountAs(s, t, m, x, w, amount);
      AddAbove(s.maps[m], x, w, amount);
      assert AllBelow(s.maps[id], t.maps[id]);
      AllBelowTransitive(first, s.maps[id], t.maps[id]);
      assert Below(s.maps[id][a], t.maps[id][a]);
    } else if ReplaceStep(cpus, s, t) {
      if t != s.(pin := t.pin) {
        var m: nat, counts: Counts :| LoadAs(cpus, s, t, m, counts);
      }
    } else {
      assert Below(first[a], s.maps[id][a]);
    }
  }

  /** For every interleaving, what one lookup copies sums to a value between the
      true totals of its action when that lookup began and when it ended. */
  lemma CopyIsBetween(cpus: nat, id: nat, run: seq<World>, i: nat, j: nat, a: nat, field: nat)
    requires IsRun(cpus, id, run) && Lookup(run, i, j, a) && |run[j].pc.part| == 2 * cpus
    requires a < XDP_ACTION_MAX && field < 2
    ensures id in run[i].maps && id in run[j].maps && |run[i].maps[id]| == |run[j].maps[id]| == XDP_ACTION_MAX
    ensures FieldSum(run[i].maps[id][a], field) <= FieldSum(run[j].pc.part, field)
    ensures FieldSum(run[j].pc.part, field) <= FieldSum(run[j].maps[id][a], field)
  {
    hide FieldSum, IsRun;
    LookupSqueezed(cpus, id, run, i, j, a);
    BelowSum(run[i].maps[id][a], run[j].pc.part, field);
    BelowSum(run[j].pc.part, run[j].maps[id][a], field);
  }

  /** The words come from a lookup of record `a` that ends in a moment of the run. */
  ghost predicate Traced(run: seq<World>, a: nat, words: seq<nat>) {
    exists i: nat, j: nat :: Lookup(run, i, j, a) && run[j].pc.part == words
  }

  /** Since moment `i` record `a` is being looked up. */
  ghost predicate LookingUp(run: seq<World>, i: nat, a: nat) {
    run != [] && Lookup(run, i, |run| - 1, a)
  }

  /** All records copied so far were looked up, and the running copy is a lookup. */
  ghost predicate AllTraced(run: seq<World>)
    requires run != []
  {
    var s := Last(run);
    && (forall k, a {:trigger s.readings[k].copied[a]} :: 0 <= k < |s.readings| && 0 <= a < |s.readings[k].copied| ==>
          Traced(run, a, s.readings[k].copied[a]))
    && (s.pc.Copying? ==>
          && (forall a {:trigger s.pc.done[a]} :: 0 <= a < |s.pc.done| ==> Traced(run, a, s.pc.done[a]))
          && exists i: nat :: LookingUp(run, i, |s.pc.done|))
  }

  lemma TracedLater(run: seq<World>, t: World, a: nat, words: seq<nat>)
    requires Traced(run, a, words)
    ensures Traced(run + [t], a, words)
  {
    var i: nat, j: nat :| Lookup(run, i, j, a) && run[j].pc.part == words;
    var more := run + [t];
    assert forall k {:trigger more[k]} :: 0 <= k < |run| ==> more[k] == run[k];
    assert Lookup(more, i, j, a);
  }

  lemma LookupLonger(run: seq<World>, t: World, i: nat, a: nat)
    requires LookingUp(run, i, a) && t.pc.Copying? && |t.pc.done| == a
    ensures LookingUp(run + [t], i, a)
  {
    var more := run + [t];
    assert forall k {:trigger more[k]} :: 0 <= k < |run| ==> more[k] == run[k];
  }

  lemma LookupHere(run: seq<World>)
    requires run != [] && Last(run).pc.Copying? && Last(run).pc.part == []
    ensures LookingUp(run, |run| - 1, |Last(run).pc.done|)
  {
  }

  /** How far the copies of a state are those of the state before. */
  lemma CopiesOf(cpus: nat, id: nat, s: World, t: World)
    requires OpenMapThere(s) && Step(cpus, id, s, t)
    ensures t.readings == s.readings
            || (s.pc.Copying? && |t.readings| == |s.readings| + 1 && t.readings[..|s.readings|] == s.readings
                && t.readings[|s.readings|].copied == s.pc.done && !t.pc.Copying?)
    ensures t.pc.Copying? ==> t.readings == s.readings
    ensures t.pc.Copying? ==>
              || (s.pc.Copying? && t.pc.done == s.pc.done)
              || (s.pc.Copying? && t.pc.done == s.pc.done + [s.pc.part] && t.pc.part == [])
              || (t.pc.done == [] && t.pc.part == [])
  {
    if CountStep(s, t) {
      var m, x: nat, w: nat, amount: nat :| CountAs(s, t, m, x, w, amount);
    } else if ReplaceStep(cpus, s, t) {
      if t != s.(pin := t.pin) {
        var m: nat, counts: Counts :| LoadAs(cpus, s, t, m, counts);
      }
    }
  }

  lemma TracedStep(cpus: nat, id: nat, run: seq<World>, t: World)
    requires run != [] && AllTraced(run) && Step(cpus, id, Last(run), t)
    ensures AllTraced(run + [t])
  {
    var s, more := Last(run), run + [t];
    CopiesOf(cpus, id, s, t);
    hide Step, LookingUp, Traced;
    if s.pc.Copying? {
      forall a | 0 <= a < |s.pc.done|
        ensures Traced(more, a, s.pc.done[a])
      {
        TracedLater(run, t, a, s.pc.done[a]);
      }
    }
    forall k, a {:trigger t.readings[k].copied[a]} | 0 <= k < |t.readings| && 0 <= a < |t.readings[k].copied|
      ensures Traced(more, a, t.readings[k].copied[a])
    {
      if k < |s.readings| {
        assert t.readings[k] == s.readings[k];
        TracedLater(run, t, a, s.readings[k].copied[a]);
      }
    }
    if t.pc.Copying? {
      TracedCopy(run, t);
    }
  }

  lemma TracedCopy(run: seq<World>, t: World)
    requires run != [] && AllTraced(run) && t.pc.Copying?
    requires var s := Last(run);
             || (s.pc.Copying? && t.pc.done == s.pc.done)
             || (s.pc.Copying? && t.pc.done == s.pc.done + [s.pc.part] && t.pc.part == [])
             || (t.pc.done == [] && t.pc.part == [])
    ensures forall a {:trigger t.pc.done[a]} :: 0 <= a < |t.pc.done| ==> Traced(run + [t], a, t.pc.done[a])
    ensures exists i: nat :: LookingUp(run + [t], i, |t.pc.done|)
  {
    hide LookingUp, Traced;
    var s, more := Last(run), run + [t];
    forall a {:trigger t.pc.done[a]} | 0 <= a < |t.pc.done|
      ensures Traced(more, a, t.pc.done[a])
    {
      if a == |s.pc.done| {
        var i: nat :| LookingUp(run, i, |s.pc.done|);
        NowTraced(run, i, a);
      } else {
        assert t.pc.done[a] == s.pc.done[a];
      }
      TracedLater(run, t, a, t.pc.done[a]);
    }
    if t.pc.part == [] {
      LookupHere(more);
    } else {
      var i: nat :| LookingUp(run, i, |s.pc.done|);
      LookupLonger(run, t, i, |s.pc.done|);
    }
  }

  lemma NowTraced(run: seq<World>, i: nat, a: nat)
    requires LookingUp(run, i, a)
    ensures run != [] && Last(run).pc.Copying? && Traced(run, a, Last(run).pc.part)
  {
  }

  lemma {:induction false} RunTraced(cpus: nat, id: nat, run: seq<World>)
    requires IsRun(cpus, id, run)
    ensures AllTraced(run)
  {
    hide Step;
    if |run| == 1 {
      hide LookingUp;
      LookupHere(run);
    } else {
      hide AllTraced, Start;
      RunPrefix(cpus, id, run);
      RunTraced(cpus, id, run[..|run| - 1]);
      TracedStep(cpus, id, run[..|run| - 1], Last(run));
      assert run[..|run| - 1] + [Last(run)] == run;
    }
  }

  /** Every record of every finished reading was copied by a lookup of its own,
      between whose ends its sums lie, however long the whole reading took. */
  lemma RecordIsLookedUp(cpus: nat, id: nat, run: seq<World>, k: nat, a: nat) returns (i: nat, j: nat)
    requires IsRun(cpus, id, run) && k < |Last(run).readings| && a < XDP_ACTION_MAX
    ensures |Last(run).readings[k].copied| == XDP_ACTION_MAX && Last(run).readings[k].m == id
    ensures Lookup(run, i, j, a) && run[j].pc.part == Last(run).readings[k].copied[a] && |run[j].pc.part| == 2 * cpus
  {
    hide Step, Start, Lookup;
    RunInv(cpus, id, run);
    RunTraced(cpus, id, run);
    assert Squeezed(cpus, Last(run).readings[k]);
    i, j := TraceOf(run, a, Last(run).readings[k].copied[a]);
  }

  lemma TraceOf(run: seq<World>, a: nat, words: seq<nat>) returns (i: nat, j: nat)
    requires Traced(run, a, words)
    ensures Lookup(run, i, j, a) && run[j].pc.part == words
  {
    i, j :| Lookup(run, i, j, a) && run[j].pc.part == words;
  }

  /** Readings rise: although each is a torn copy, reading k is at most the true
      total when it ended, which is at most the one when the next began. */
  lemma ReadingsRise(cpus: nat, id: nat, run: seq<World>, k: nat, a: nat, field: nat)
    requires IsRun(cpus, id, run) && k + 1 < |Last(run).readings| && a < XDP_ACTION_MAX && field < 2
    ensures var (r, s) := (Last(run).readings[k], Last(run).readings[k + 1]);
            && |r.copied| == |r.ended| == |s.began| == |s.copied| == XDP_ACTION_MAX
            && FieldSum(r.copied[a], field) <= FieldSum(r.ended[a], field)
                 <= FieldSum(s.began[a], field) <= FieldSum(s.copied[a], field)
  {
    RunInv(cpus, id, run);
    ReadingIsBetween(cpus, id, run, k, a, field);
    ReadingIsBetween(cpus, id, run, k + 1, a, field);
    var r, s := Last(run).readings[k], Last(run).readings[k + 1];
    assert AllBelow(Last(run).readings[k + 1 - 1].ended, Last(run).readings[k + 1].began);
    BelowSum(r.ended[a], s.began[a], field);
  }

  // ---------------------------------------------------------------------------
  // What user space makes of it, in 64 bits.

  /** The words as memory holds them. */
  function Wrapped(words: seq<nat>): (r: seq<nat>)
    ensures |r| == |words|
  {
    seq(|words|, i requires 0 <= i < |words| => words[i] % U64)
  }

  lemma {:induction false} WrappedSum(words: seq<nat>, field: nat)
    requires field < 2
    ensures FieldSum(Wrapped(words), field) % U64 == FieldSum(words, field) % U64
  {
    if 2 <= |words| {
      var rest := FieldSum(Wrapped(words[2..]), field);
      assert Wrapped(words)[2..] == Wrapped(words[2..]);
      WrappedSum(words[2..], field);
      AddWraps(words[field], rest);
      AddWraps(rest, words[field]);
      AddWraps(FieldSum(words[2..], field), words[field]);
    }
  }

  /** The total user space reports of the record it copied. */
  function Report(words: seq<nat>, field: nat): nat
    requires field < 2
  {
    FieldSum(words, field) % U64
  }

  /** What user space makes of one lookup, whose words memory holds modulo 2^64,
      is a total of the action between the true ones at both ends of the lookup. */
  lemma ReportIsBetween(cpus: nat, id: nat, run: seq<World>, i: nat, j: nat, a: nat, field: nat)
    requires IsRun(cpus, id, run) && Lookup(run, i, j, a) && |run[j].pc.part| == 2 * cpus
    requires a < XDP_ACTION_MAX && field < 2
    ensures id in run[i].maps && id in run[j].maps && |run[i].maps[id]| == |run[j].maps[id]| == XDP_ACTION_MAX
    ensures var total := FieldSum(run[j].pc.part, field);
            && FieldSum(run[i].maps[id][a], field) <= total <= FieldSum(run[j].maps[id][a], field)
            && Report(Wrapped(run[j].pc.part), field) == total % 0x1_0000_0000_0000_0000
  {
    hide FieldSum, Wrapped, IsRun, Lookup;
    var part := LookupPart(run, i, j, a);
    CopyIsBetween(cpus, id, run, i, j, a, field);
    WrappedSum(part, field);
  }

  /** The difference it prints, an unsigned 64-bit subtraction. */
  function Delta(prev: nat, now: nat): nat {
    (now - prev) % U64
  }

  lemma DeltaIsDifference(x: nat, y: nat)
    requires x <= y
    ensures Delta(x % U64, y % U64) == (y - x) % U64
  {
    var p, q := x / U64, y / U64;
    var d := y % U64 - x % U64;
    assert y - x == U64 * (q - p) + d;
    assert (y - x) / U64 == q - p + (if d < 0 then -1 else 0);
  }

  /** Every printed difference is the difference of two rising sums modulo 2^64,
      so it is that difference, and not negative, whenever the true total of the
      action stays below 2^64, or only grows by less than that. */
  lemma PrintedIsGrowth(cpus: nat, id: nat, run: seq<World>, k: nat, a: nat, field: nat)
    requires IsRun(cpus, id, run) && k + 1 < |Last(run).readings| && a < XDP_ACTION_MAX && field < 2
    ensures var (r, s) := (Last(run).readings[k], Last(run).readings[k + 1]);
            && |r.copied| == |s.copied| == |s.ended| == XDP_ACTION_MAX
            && (var growth := FieldSum(s.copied[a], field) - FieldSum(r.copied[a], field);
                var printed := Delta(Report(r.copied[a], field), Report(s.copied[a], field));
                && 0 <= growth && printed == growth % U64
                && (growth < U64 ==> printed == growth)
                && (FieldSum(s.ended[a], field) < U64 ==>
                      printed == growth == Report(s.copied[a], field) - Report(r.copied[a], field)))
  {
    hide FieldSum, Delta, Step, Start;
    var r, s := Last(run).readings[k], Last(run).readings[k + 1];
    ReadingsRise(cpus, id, run, k, a, field);
    ReadingIsBetween(cpus, id, run, k + 1, a, field);
    GrowthValues(FieldSum(r.copied[a], field), FieldSum(s.copied[a], field), FieldSum(s.ended[a], field));
  }

  lemma GrowthValues(x: nat, y: nat, z: nat)
    requires x <= y <= z
    ensures Delta(x % U64, y % U64) == (y - x) % U64
    ensures y - x < U64 ==> (y - x) % U64 == y - x
    ensures z < U64 ==> y - x < U64 && x % U64 == x && y % U64 == y
  {
    DeltaIsDifference(x, y);
    SmallMod(y - x);
    SmallMod(x);
    SmallMod(y);
  }

  lemma SmallMod(x: nat)
    ensures x < U64 ==> x % U64 == x
  {
  }

  /** The first `n` printed differences of an action, added up. */
  ghost function PrintedSum(readings: seq<Reading>, n: nat, a: nat, field: nat): nat
    requires n < |readings| && field < 2
    requires forall k :: 0 <= k < |readings| ==> a < |readings[k].copied|
  {
    if n == 0 then 0
    else
      PrintedSum(readings, n - 1, a, field)
      + Delta(Report(readings[n - 1].copied[a], field), Report(readings[n].copied[a], field))
  }

  /** The printed differences telescope to last reading minus first as long as
      true totals stay below 2^64: nothing is lost and nothing counted twice. */
  lemma {:induction false} PrintedTelescopes(cpus: nat, id: nat, run: seq<World>, n: nat, a: nat, field: nat)
    requires IsRun(cpus, id, run) && n < |Last(run).readings| && a < XDP_ACTION_MAX && field < 2
    requires forall k :: 0 <= k <= n ==>
               a < |Last(run).readings[k].ended| && FieldSum(Last(run).readings[k].ended[a], field) < U64
    ensures var rs := Last(run).readings;
            && (forall k :: 0 <= k < |rs| ==> a < |rs[k].copied|)
            && PrintedSum(rs, n, a, field)
               == Report(rs[n].copied[a], field) - Report(rs[0].copied[a], field)
  {
    hide FieldSum, Delta, Step, Start;
    var rs := Last(run).readings;
    forall k | 0 <= k < |rs|
      ensures a < |rs[k].copied|
    {
      ReadingIsBetween(cpus, id, run, k, a, field);
    }
    ReadingIsBetween(cpus, id, run, n, a, field);
    SmallMod(FieldSum(rs[n].copied[a], field));
    if n > 0 {
      PrintedTelescopes(cpus, id, run, n - 1, a, field);
      PrintedIsGrowth(cpus, id, run, n - 1, a, field);
      ReadingIsBetween(cpus, id, run, n - 1, a, field);
      SmallMod(FieldSum(rs[n - 1].copied[a], field));
    }
  }

  // ---------------------------------------------------------------------------
  // The counting program.

  /** One packet of `len` bytes counted by CPU `cpu`. */
  function Recorded(counts: Counts, a: nat, cpu: nat, len: nat): Counts
    requires a < |counts| && 2 * cpu + 2 <= |counts[a]|
  {
    Add(Add(counts, a, 2 * cpu, 1), a, 2 * cpu + 1, len)
  }

  /** The two words of one CPU as memory holds them. */
  function CpuWords(counts: Counts, a: nat, cpu: nat): seq<nat>
    requires a < |counts| && 2 * cpu + 2 <= |counts[a]|
  {
    [counts[a][2 * cpu] % U64, counts[a][2 * cpu + 1] % U64]
  }

  /** `xdp_stats_record_action`. `rec` is the record of the action on the current
      CPU, null when the lookup fails; `counts` are the true counts behind it. */
  method RecordAction(rec: array?<nat>, action: nat, len: nat, ghost counts: Counts, ghost cpu: nat) returns (ret: int)
    requires rec != null && action < XDP_ACTION_MAX ==>
               && action < |counts| && 2 * cpu + 2 <= |counts[action]|
               && rec[..] == CpuWords(counts, action, cpu)
    modifies if rec == null then {} else {rec}
    ensures ret == if action < XDP_ACTION_MAX && rec != null then action else XDP_ABORTED
    ensures action > 4 || rec == null ==> ret == 0
    ensures action <= 4 && rec != null ==>
              && ret == action && rec.Length == 2
              && rec[0] == (old(rec[0]) + 1) % 0x1_0000_0000_0000_0000
              && rec[1] == (old(rec[1]) + len) % 0x1_0000_0000_0000_0000
    ensures rec != null ==>
              rec[..] == if action < XDP_ACTION_MAX then CpuWords(Recorded(counts, action, cpu, len), action, cpu)
                         else old(rec[..])
  {
    if action >= XDP_ACTION_MAX {
      return XDP_ABORTED;
    }
    if rec == null {
      return XDP_ABORTED;
    }
    AddWraps(counts[action][2 * cpu], 1);
    AddWraps(counts[action][2 * cpu + 1], len);
    assert rec.Length == |rec[..]| == 2;
    assert rec[0] == rec[..][0] && rec[1] == rec[..][1];
    rec[0] := (rec[0] + 1) % U64;
    rec[1] := (rec[1] + len) % U64;
    ret := action;
  }

  /** Recording is two of the steps the poller has to live with, and raises the
      totals of its action by one packet and `len` bytes. */
  lemma RecordedIsTwoSteps(s: World, m: nat, a: nat, cpu: nat, len: nat)
    requires m in s.maps && a < |s.maps[m]| && 2 * cpu + 2 <= |s.maps[m][a]|
    ensures var mid := s.(maps := s.maps[m := Add(s.maps[m], a, 2 * cpu, 1)]);
            var t := s.(maps := s.maps[m := Recorded(s.maps[m], a, cpu, len)]);
            CountStep(s, mid) && CountStep(mid, t)
    ensures var after := Recorded(s.maps[m], a, cpu, len)[a];
            && FieldSum(after, 0) == FieldSum(s.maps[m][a], 0) + 1
            && FieldSum(after, 1) == FieldSum(s.maps[m][a], 1) + len
            && |after| == |s.maps[m][a]|
            && forall w :: 0 <= w < |after| ==>
                 after[w] == s.maps[m][a][w] + if w == 2 * cpu then 1 else if w == 2 * cpu + 1 then len else 0
    ensures CpuWords(s.maps[m], a, cpu)
            == [s.maps[m][a][2 * cpu] % 0x1_0000_0000_0000_0000, s.maps[m][a][2 * cpu + 1] % 0x1_0000_0000_0000_0000]
  {
    var words := s.maps[m][a];
    var mid := s.(maps := s.maps[m := Add(s.maps[m], a, 2 * cpu, 1)]);
    var t := s.(maps := s.maps[m := Recorded(s.maps[m], a, cpu, len)]);
    assert CountAs(s, mid, m, a, 2 * cpu, 1);
    assert t.maps == mid.maps[m := Add(mid.maps[m], a, 2 * cpu + 1, len)];
    assert CountAs(mid, t, m, a, 2 * cpu + 1, len);
    SumOfAdd(words, cpu, 1, len);
  }

  lemma {:induction false} SumOfAdd(words: seq<nat>, cpu: nat, x: nat, y: nat)
    requires 2 * cpu + 2 <= |words|
    ensures var w := words[2 * cpu := words[2 * cpu] + x];
            var v := w[2 * cpu + 1 := w[2 * cpu + 1] + y];
            FieldSum(v, 0) == FieldSum(words, 0) + x && FieldSum(v, 1) == FieldSum(words, 1) + y
  {
    var w := words[2 * cpu := words[2 * cpu] + x];
    var v := w[2 * cpu + 1 := w[2 * cpu + 1] + y];
    if cpu == 0 {
      assert v[2..] == words[2..];
    } else {
      var u := words[2..];
      var w2 := u[2 * (cpu - 1) := u[2 * (cpu - 1)] + x];
      assert v[2..] == w2[2 * (cpu - 1) + 1 := w2[2 * (cpu - 1) + 1] + y];
      SumOfAdd(u, cpu - 1, x, y);
    }
  }
}
