/** The polling reader as it runs: it copies records while CPUs count and the pin
    changes hands, and everything it does is a run of the counting system. */
module StatsPoller {
  import opened Stats
  import opened Words

  datatype Datarec = Datarec(rxPackets: nat, rxBytes: nat)

  /** What `stats_print` compares. */
  datatype Line = Line(prev: seq<Datarec>, now: seq<Datarec>)

  datatype Outcome = Running | OpenFailed | Restart

  /** The totals user space has for every action of a copied map. */
  function Reports(copied: Counts): (r: seq<Datarec>)
    ensures |r| == |copied|
  {
    seq(|copied|, a requires 0 <= a < |copied| => Datarec(Report(copied[a], 0), Report(copied[a], 1)))
  }

  /** The summing part of `map_get_value_percpu_array`, over the copied record. */
  method SumPercpu(values: seq<nat>) returns (value: Datarec)
    requires |values| % 2 == 0
    ensures value == Datarec(Report(values, 0), Report(values, 1))
  {
    hide FieldSum;
    var sumPkts, sumBytes := 0, 0;
    var nrCpus := |values| / 2;
    for i := 0 to nrCpus
      invariant (sumPkts + FieldSum(values[2 * i..], 0)) % U64 == Report(values, 0)
      invariant (sumBytes + FieldSum(values[2 * i..], 1)) % U64 == Report(values, 1)
      invariant 0 <= sumPkts < U64 && 0 <= sumBytes < U64
    {
      SumStep(values[2 * i..], 0, sumPkts);
      SumStep(values[2 * i..], 1, sumBytes);
      assert values[2 * i..][2..] == values[2 * (i + 1)..];
      sumPkts := (sumPkts + values[2 * i]) % U64;
      sumBytes := (sumBytes + values[2 * i + 1]) % U64;
    }
    NoneLeft(values[2 * nrCpus..]);
    value := Datarec(sumPkts, sumBytes);
  }

  lemma SumStep(rest: seq<nat>, field: nat, sum: nat)
    requires 2 <= |rest| && field < 2
    ensures ((sum + rest[field]) % U64 + FieldSum(rest[2..], field)) % U64 == (sum + FieldSum(rest, field)) % U64
  {
    AddWraps(sum + rest[field], FieldSum(rest[2..], field));
  }

  lemma NoneLeft(rest: seq<nat>)
    requires |rest| < 2
    ensures FieldSum(rest, 0) == FieldSum(rest, 1) == 0
  {
  }

  /** The poller of map `id`. `fd` is the map behind the descriptor it has open. */
  class Poller {
    const cpus: nat
    const id: nat
    var fd: nat
    var maps: map<nat, Counts>
    var pin: Pin
    var record: seq<Datarec>
    ghost var readings: seq<Reading>
    ghost var pc: Pc
    ghost var run: seq<World>

    ghost function Abs(): World
      reads this`maps, this`pin, this`readings, this`pc
    {
      World(maps, pin, readings, pc)
    }

    ghost predicate Linked()
      reads this`fd, this`maps, this`pin, this`readings, this`pc, this`run
    {
      IsRun(cpus, id, run) && Last(run) == Abs() && (pc.Copying? || pc.Opened? ==> pc.m == fd)
    }

    /** A poller for the map `id`, one of those there are, opened already. */
    constructor (cpus: nat, id: nat, maps: map<nat, Counts>, pin: Pin)
      requires id in maps && (pin.Pinned? ==> pin.id in maps) && forall m :: m in maps ==> Shaped(cpus, maps[m])
      ensures Linked() && pc == Copying(id, maps[id], [], []) && readings == []
      ensures this.cpus == cpus && this.id == id
    {
      this.cpus, this.id, this.fd, this.maps, this.pin := cpus, id, id, maps, pin;
      record, readings := [], [];
      pc := Copying(id, maps[id], [], []);
      run := [World(maps, pin, [], Copying(id, maps[id], [], []))];
    }

    ghost method Tick()
      requires IsRun(cpus, id, run) && Step(cpus, id, Last(run), Abs())
      requires pc.Copying? || pc.Opened? ==> pc.m == fd
      modifies this`run
      ensures Linked() && run == old(run) + [Abs()]
    {
      hide Step;
      run := run + [Abs()];
    }

    lemma InvNow()
      requires Linked()
      ensures Inv(cpus, id, Abs())
    {
      RunInv(cpus, id, run);
    }

    // -------------------------------------------------------------------------
    // Everybody else.

    /** Since the run had `n` states the poller has stayed where it is. */
    ghost predicate Waited(n: nat, at: Pc)
      reads this`run
    {
      n <= |run| && forall k {:trigger run[k]} :: n <= k < |run| ==> run[k].pc == at
    }

    /** Any number of counts, new maps and changes of the pin. */
    method Environment()
      requires Linked()
      modifies this`maps, this`pin, this`run
      ensures Linked() && old(run) <= run && Waited(|old(run)|, pc)
    {
      hide IsRun;
      var steps: nat := *;
      while steps > 0
        invariant Linked() && old(run) <= run && Waited(|old(run)|, pc)
      {
        var kind: nat := *;
        if kind == 0 {
          var m: nat := *;
          var a: nat := *;
          var w: nat := *;
          var amount: nat := *;
          CountSomewhere(m, a, w, amount);
        } else if kind == 1 {
          var m: nat := *;
          LoadMap(m);
        } else {
          var p: Pin := *;
          Repin(p);
        }
        steps := steps - 1;
      }
    }

    method CountSomewhere(m: nat, a: nat, w: nat, amount: nat)
      requires Linked()
      modifies this`maps, this`run
      ensures Linked() && (run == old(run) || run == old(run) + [Abs()])
    {
      hide IsRun;
      if m in maps && a < |maps[m]| && w < |maps[m][a]| {
        InvNow();
        ghost var s := Abs();
        maps := maps[m := Add(maps[m], a, w, amount)];
        assert CountAs(s, Abs(), m, a, w, amount);
        Tick();
      }
    }

    /** A new map starts from zero. */
    method LoadMap(m: nat)
      requires Linked()
      modifies this`maps, this`run
      ensures Linked() && (run == old(run) || run == old(run) + [Abs()])
    {
      hide IsRun;
      if m !in maps {
        InvNow();
        ghost var s := Abs();
        var counts: Counts := seq(XDP_ACTION_MAX, _ => seq(2 * cpus, _ => 0));
        maps := maps[m := counts];
        assert LoadAs(cpus, s, Abs(), m, counts);
        Tick();
      }
    }

    method Repin(p: Pin)
      requires Linked()
      modifies this`pin, this`run
      ensures Linked() && (run == old(run) || run == old(run) + [Abs()])
    {
      hide IsRun;
      if p.Pinned? ==> p.id in maps {
        InvNow();
        ghost var s := Abs();
        pin := p;
        assert ReplaceStep(cpus, s, Abs());
        Tick();
      }
    }

    // -------------------------------------------------------------------------
    // Reading.

    /** Copies word `w` of the record of action `a`. */
    method CopyWord(a: nat, w: nat) returns (value: nat)
      requires Linked() && pc.Copying? && |pc.done| == a < XDP_ACTION_MAX && |pc.part| == w < 2 * cpus
      modifies this`pc, this`run
      ensures Linked() && run == old(run) + [Abs()]
      ensures pc.Copying? && pc == old(pc).(part := pc.part)
      ensures exists word: nat :: pc.part == old(pc).part + [word] && value == word % U64
    {
      hide IsRun;
      InvNow();
      var word := maps[fd][a][w];
      pc := pc.(part := pc.part + [word]);
      value := word % U64;
      Tick();
    }

    /** From when the run had `n` states record `a` is being looked up. */
    ghost predicate LookedUp(n: nat, a: nat)
      reads this`run
    {
      0 < n <= |run| && Lookup(run, n - 1, |run| - 1, a)
    }

    lemma StillLookedUp(before: seq<World>, n: nat, a: nat, at: Pc)
      requires 0 < n <= |before| <= |run| && before <= run && Lookup(before, n - 1, |before| - 1, a)
      requires Waited(|before|, at) && at.Copying? && |at.done| == a
      ensures LookedUp(n, a)
    {
      assert forall k {:trigger run[k]} :: 0 <= k < |before| ==> run[k] == before[k];
    }

    lemma LookupBegins(a: nat)
      requires Linked() && pc.Copying? && |pc.done| == a && pc.part == []
      ensures LookedUp(|run|, a)
    {
    }

    /** The lookup: copies the record of action `a`, CPU by CPU, while the
        counting goes on. */
    method CopyRecord(a: nat) returns (values: seq<nat>)
      requires Linked() && pc.Copying? && |pc.done| == a < XDP_ACTION_MAX && pc.part == []
      modifies this`maps, this`pin, this`pc, this`run
      ensures Linked() && old(run) <= run && LookedUp(|old(run)|, a)
      ensures pc.Copying? && pc == old(pc).(part := pc.part)
      ensures |pc.part| == 2 * cpus && values == Wrapped(pc.part)
    {
      hide Linked, Lookup;
      values := [];
      LookupBegins(a);
      for w := 0 to 2 * cpus
        invariant Linked() && old(run) <= run && LookedUp(|old(run)|, a)
        invariant pc.Copying? && pc == old(pc).(part := pc.part)
        invariant |pc.part| == w && values == Wrapped(pc.part)
      {
        ghost var before := run;
        Environment();
        StillLookedUp(before, |old(run)|, a, pc);
        before := run;
        var value := CopyWord(a, w);
        StillLookedUp(before, |old(run)|, a, pc);
        values := values + [value];
        assert values == Wrapped(pc.part);
      }
    }

    /** Goes on to the next action. */
    ghost method EndRecord()
      requires Linked() && pc.Copying? && |pc.done| < XDP_ACTION_MAX && |pc.part| == 2 * cpus
      modifies this`pc, this`run
      ensures Linked() && run == old(run) + [Abs()]
      ensures pc == Copying(old(pc).m, old(pc).began, old(pc).done + [old(pc).part], [])
    {
      hide IsRun;
      InvNow();
      pc := Copying(pc.m, pc.began, pc.done + [pc.part], []);
      Tick();
    }

    ghost method EndReading()
      requires Linked() && pc.Copying? && |pc.done| == XDP_ACTION_MAX
      modifies this`pc, this`readings, this`run
      ensures Linked() && run == old(run) + [Abs()] && pc == Rest
      ensures |readings| == |old(readings)| + 1 && old(readings) <= readings
      ensures readings[|old(readings)|].copied == old(pc).done && readings[|old(readings)|].m == fd
    {
      hide IsRun;
      InvNow();
      readings := readings + [Reading(fd, pc.began, pc.done, maps[fd])];
      pc := Rest;
      Tick();
    }

    /** What the descriptor's map has for action `a`. */
    ghost function Record(a: nat): seq<nat>
      reads this`fd, this`maps
    {
      if fd in maps && a < |maps[fd]| then maps[fd][a] else []
    }

    /** `map_collect` for action `a`: both totals are of the action, modulo 2^64,
        at some point between the call and the return. */
    method MapCollect(a: nat) returns (value: Datarec, ghost packets: nat, ghost bytes: nat)
      requires Linked() && pc.Copying? && |pc.done| == a < XDP_ACTION_MAX && pc.part == []
      modifies this`maps, this`pin, this`pc, this`run
      ensures Linked() && old(run) <= run
      ensures pc.Copying? && pc.m == old(pc).m && |pc.done| == a + 1 && old(pc).done <= pc.done && pc.part == []
      ensures value == Datarec(Report(pc.done[a], 0), Report(pc.done[a], 1))
      ensures FieldSum(old(Record(a)), 0) <= packets <= FieldSum(Record(a), 0)
      ensures FieldSum(old(Record(a)), 1) <= bytes <= FieldSum(Record(a), 1)
      ensures value.rxPackets == packets % 0x1_0000_0000_0000_0000 && value.rxBytes == bytes % 0x1_0000_0000_0000_0000
    {
      hide Linked, LookedUp, Record, Report, FieldSum;
      ghost var first := Record(a);
      NowOpen(a);
      ghost var n := |run|;
      var values := CopyRecord(a);
      packets := ReportOfLookup(n, a, 0, first);
      bytes := ReportOfLookup(n, a, 1, first);
      value := SumPercpu(values);
      SameReports(pc.part);
      EndRecord();
    }

    lemma NowOpen(a: nat)
      requires Linked() && pc.Copying? && a < XDP_ACTION_MAX
      ensures run != [] && id in Last(run).maps && |Last(run).maps[id]| == XDP_ACTION_MAX
      ensures Last(run).maps[id][a] == Record(a) && fd == id
    {
      InvNow();
    }

    lemma ReportOfLookup(n: nat, a: nat, field: nat, first: seq<nat>) returns (total: nat)
      requires Linked() && pc.Copying? && LookedUp(n, a) && a < XDP_ACTION_MAX && field < 2 && |pc.part| == 2 * cpus
      requires id in run[n - 1].maps && a < |run[n - 1].maps[id]| && first == run[n - 1].maps[id][a]
      ensures FieldSum(first, field) <= total <= FieldSum(Record(a), field)
      ensures Report(Wrapped(pc.part), field) == total % 0x1_0000_0000_0000_0000
    {
      hide IsRun, Record, Lookup, Report, FieldSum;
      NowOpen(a);
      var j := |run| - 1;
      assert run[j] == Abs();
      ReportIsBetween(cpus, id, run, n - 1, j, a, field);
      assert run[j].maps[id][a] == Record(a) && run[j].pc.part == pc.part;
      total := FieldSum(pc.part, field);
    }

    lemma SameReports(words: seq<nat>)
      ensures Report(Wrapped(words), 0) == Report(words, 0) && Report(Wrapped(words), 1) == Report(words, 1)
    {
      WrappedSum(words, 0);
      WrappedSum(words, 1);
    }

    /** `stats_collect`: afterwards the record holds the totals of one reading of
        the map that is open. */
    method StatsCollect()
      requires Linked() && pc.Copying? && pc.done == [] && pc.part == []
      modifies this`maps, this`pin, this`record, this`pc, this`readings, this`run
      ensures Linked() && old(run) <= run && pc == Rest
      ensures |readings| == |old(readings)| + 1 && old(readings) <= readings
      ensures readings[|old(readings)|].m == fd && record == Reports(readings[|old(readings)|].copied)
    {
      hide Linked, Report, Record, FieldSum;
      var totals: seq<Datarec> := [];
      for a := 0 to XDP_ACTION_MAX
        invariant Linked() && old(run) <= run && readings == old(readings)
        invariant pc.Copying? && |pc.done| == a && pc.part == [] && totals == Reports(pc.done)
      {
        var value, packets, bytes := MapCollect(a);
        totals := totals + [value];
        assert totals == Reports(pc.done);
      }
      record := totals;
      EndReading();
    }

    /** `open_bpf_map_file`: opens whatever is pinned. */
    method OpenBpfMapFile() returns (ok: bool)
      requires Linked() && pc == Rest
      modifies this`fd, this`pc, this`run
      ensures Linked() && run == old(run) + [Abs()]
      ensures ok <==> pin.Pinned?
      ensures if ok then fd == pin.id && pc == Opened(fd) else pc == Stopped(true)
    {
      hide IsRun;
      InvNow();
      ok := pin.Pinned?;
      if ok {
        fd := pin.id;
        pc := Opened(fd);
      } else {
        pc := Stopped(true);
      }
      Tick();
    }

    /** Compares the ID of the opened map with the one the poller is for. */
    method CheckId() returns (same: bool)
      requires Linked() && pc.Opened?
      modifies this`pc, this`run
      ensures Linked() && run == old(run) + [Abs()]
      ensures same <==> fd == id
      ensures if same then pc.Copying? && pc == Copying(fd, pc.began, [], []) else pc == Stopped(false)
    {
      hide IsRun;
      InvNow();
      same := id == fd;
      if same {
        pc := Copying(fd, maps[fd], [], []);
      } else {
        pc := Stopped(false);
      }
      Tick();
    }

    /** Opens the pin again; others may act before and after it is opened. What
        is read from then on is what was opened, so it is the ID test, and not
        the pin, that keeps the poller on its map. */
    method Reopen() returns (outcome: Outcome)
      requires Linked() && pc == Rest
      modifies this`fd, this`maps, this`pin, this`pc, this`run
      ensures Linked() && old(run) <= run
      ensures outcome == Running ==> fd == id && pc.Copying? && pc == Copying(fd, pc.began, [], [])
      ensures outcome == Restart ==> fd != id && pc == Stopped(false)
      ensures outcome == OpenFailed ==> pc == Stopped(true)
    {
      hide Linked;
      Environment();
      var ok := OpenBpfMapFile();
      if !ok {
        return OpenFailed;
      }
      Environment();
      var same := CheckId();
      outcome := if same then Running else Restart;
    }

    /** `stats_poll`, for as many turns as are asked for or until the pin fails or
        shows another map. Line k compares readings k and k + 1 of the recorded
        run, and all readings are of map `id`. */
    method StatsPoll(turns: nat) returns (lines: seq<Line>, outcome: Outcome)
      requires Linked() && pc.Copying? && pc.done == [] && pc.part == [] && readings == []
      modifies this`fd, this`maps, this`pin, this`record, this`pc, this`readings, this`run
      ensures Linked() && old(run) <= run && |readings| == |lines| + 1
      ensures forall k {:trigger readings[k]} :: 0 <= k < |readings| ==> readings[k].m == id
      ensures forall k {:trigger lines[k]} :: 0 <= k < |lines| ==>
                lines[k] == Line(Reports(readings[k].copied), Reports(readings[k + 1].copied))
      ensures if outcome == Running then |lines| == turns && pc == Rest
              else |lines| < turns && pc == Stopped(outcome == OpenFailed)
    {
      hide Linked, Reports;
      OpenIsId();
      StatsCollect();
      lines := [];
      for i := 0 to turns
        invariant Linked() && old(run) <= run && pc == Rest
        invariant |lines| == i && |readings| == i + 1 && record == Reports(readings[i].copied)
        invariant forall k {:trigger readings[k]} :: 0 <= k < |readings| ==> readings[k].m == id
        invariant forall k {:trigger lines[k]} :: 0 <= k < |lines| ==>
                    lines[k] == Line(Reports(readings[k].copied), Reports(readings[k + 1].copied))
      {
        var prev := record;
        outcome := Reopen();
        if outcome != Running {
          return;
        }
        ghost var before := readings;
        StatsCollect();
        assert forall k :: 0 <= k < |before| ==> readings[k] == before[k];
        lines := lines + [Line(prev, record)];
      }
      outcome := Running;
    }

    lemma OpenIsId()
      requires Linked() && pc.Copying?
      ensures fd == id
    {
      InvNow();
    }

    /** What a printed line says of an action: although CPUs counted during both
        readings, each of its differences is a true growth modulo 2^64, and the
        growth itself while true totals stay below 2^64. */
    lemma LineIsGrowth(line: Line, k: nat, a: nat)
      requires Linked() && k + 1 < |readings| && a < XDP_ACTION_MAX
      requires line == Line(Reports(readings[k].copied), Reports(readings[k + 1].copied))
      ensures var (r, s) := (readings[k], readings[k + 1]);
              && |r.copied| == |s.copied| == |s.ended| == |line.prev| == |line.now| == XDP_ACTION_MAX
              && (var growth := FieldSum(s.copied[a], 0) - FieldSum(r.copied[a], 0);
                  var printed := line.now[a].rxPackets - line.prev[a].rxPackets;
                  && 0 <= growth && printed % 0x1_0000_0000_0000_0000 == growth % 0x1_0000_0000_0000_0000
                  && (FieldSum(s.ended[a], 0) < 0x1_0000_0000_0000_0000 ==> printed == growth))
              && (var growth := FieldSum(s.copied[a], 1) - FieldSum(r.copied[a], 1);
                  var printed := line.now[a].rxBytes - line.prev[a].rxBytes;
                  && 0 <= growth && printed % 0x1_0000_0000_0000_0000 == growth % 0x1_0000_0000_0000_0000
                  && (FieldSum(s.ended[a], 1) < 0x1_0000_0000_0000_0000 ==> printed == growth))
    {
      hide FieldSum, IsRun, Report;
      PrintedIsGrowth(cpus, id, run, k, a, 0);
      PrintedIsGrowth(cpus, id, run, k, a, 1);
      GrowthOfReports(readings[k], readings[k + 1], a);
    }

    lemma GrowthOfReports(r: Reading, s: Reading, a: nat)
      requires a < |r.copied| == |s.copied|
      ensures Reports(r.copied)[a] == Datarec(Report(r.copied[a], 0), Report(r.copied[a], 1))
      ensures Reports(s.copied)[a] == Datarec(Report(s.copied[a], 0), Report(s.copied[a], 1))
    {
      hide FieldSum;
    }
  }
}
