/** The nested index of collected samples (src/core/SimpleCollector.cpp, DeviceDataCollection.cpp,
    CollectorDataValues.cpp), against the flat log of what was exported. */
module Collector {

  type DeviceID = nat
  type ModuleID = nat

  /** A stored sample: its time, value and whether it is valid. */
  datatype TimeValue = TimeValue(time: int, value: real, valid: bool)

  datatype SensorValue = SensorValue(id: ModuleID, value: real, valid: bool)

  datatype SensorData = SensorData(device: DeviceID, time: int, values: seq<SensorValue>)

  /** An exported sample in the flat log. */
  datatype Sample = Sample(device: DeviceID, id: ModuleID, stored: TimeValue)

  datatype DataValues = DataValues(id: ModuleID, samples: seq<TimeValue>)

  function Stored(v: SensorValue, time: int): TimeValue { TimeValue(time, v.value, v.valid) }

  function Samples(data: SensorData): (s: seq<Sample>)
    ensures |s| == |data.values|
    ensures forall i | 0 <= i < |s| :: var v := data.values[i];
      s[i] == Sample(data.device, v.id, TimeValue(data.time, v.value, v.valid))
  {
    seq(|data.values|, i requires 0 <= i < |data.values| =>
      Sample(data.device, data.values[i].id, Stored(data.values[i], data.time)))
  }

  /** The samples of one module of one device in a log, in its order. */
  function Series(log: seq<Sample>, d: DeviceID, m: ModuleID): seq<TimeValue> {
    if log == [] then []
    else
      var last := |log| - 1;
      Series(log[..last], d, m) + if log[last].device == d && log[last].id == m then [log[last].stored] else []
  }

  /** A series has each stored sample as often as the log has it for the pair, and no other. */
  lemma {:induction false} SeriesCounts(log: seq<Sample>, d: DeviceID, m: ModuleID, v: TimeValue)
    ensures multiset(Series(log, d, m))[v] == multiset(log)[Sample(d, m, v)]
    decreases |log|
  {
    if log != [] {
      var front, end := log[..|log| - 1], log[|log| - 1];
      assert log == front + [end];
      SeriesCounts(front, d, m, v);
    }
  }

  /** It has them in the order of the log. */
  lemma {:induction false} SeriesInOrder(log: seq<Sample>, more: seq<Sample>, d: DeviceID, m: ModuleID)
    ensures Series(log + more, d, m) == Series(log, d, m) + Series(more, d, m)
    decreases |more|
  {
    if more == [] {
      assert log + more == log;
    } else {
      var front := more[..|more| - 1];
      assert (log + more)[..|log + more| - 1] == log + front;
      SeriesInOrder(log, front, d, m);
    }
  }

  predicate Has(log: seq<Sample>, d: DeviceID, m: ModuleID) {
    exists i | 0 <= i < |log| :: log[i].device == d && log[i].id == m
  }

  /** The modules kept for a device are those of the log, each once, with their series. */
  ghost predicate Keeps(modules: seq<DataValues>, log: seq<Sample>, d: DeviceID) {
    && (forall j, k | 0 <= j < k < |modules| :: modules[j].id != modules[k].id)
    && (forall k | 0 <= k < |modules| ::
          Has(log, d, modules[k].id) && modules[k].samples == Series(log, d, modules[k].id))
    && (forall m | Has(log, d, m) :: Listed(modules, m))
  }

  ghost predicate Listed(modules: seq<DataValues>, m: ModuleID) {
    exists k | 0 <= k < |modules| :: modules[k].id == m
  }

  lemma HasMore(log: seq<Sample>, s: Sample, d: DeviceID, m: ModuleID)
    ensures Has(log + [s], d, m) <==> Has(log, d, m) || (s.device == d && s.id == m)
  {
    var all := log + [s];
    if Has(log, d, m) {
      var i :| 0 <= i < |log| && log[i].device == d && log[i].id == m;
      assert all[i] == log[i];
    }
    assert all[|log|] == s;
  }

  lemma SeriesMore(log: seq<Sample>, s: Sample, d: DeviceID, m: ModuleID)
    ensures Series(log + [s], d, m) == Series(log, d, m) + if s.device == d && s.id == m then [s.stored] else []
  {
    assert (log + [s])[..|log|] == log;
  }

  lemma {:induction false} SeriesEmpty(log: seq<Sample>, d: DeviceID, m: ModuleID)
    requires !Has(log, d, m)
    ensures Series(log, d, m) == []
  {
    if log != [] {
      var front, s := log[..|log| - 1], log[|log| - 1];
      assert log == front + [s];
      HasMore(front, s, d, m);
      SeriesEmpty(front, d, m);
    }
  }

  /** A sample of another device changes nothing for this one. */
  lemma OtherDeviceKeeps(modules: seq<DataValues>, log: seq<Sample>, d: DeviceID, s: Sample)
    requires Keeps(modules, log, d) && s.device != d
    ensures Keeps(modules, log + [s], d)
  {
    forall m
      ensures Has(log + [s], d, m) <==> Has(log, d, m)
      ensures Series(log + [s], d, m) == Series(log, d, m)
    {
      HasMore(log, s, d, m);
      SeriesMore(log, s, d, m);
    }
  }

  /** A sample of a module that is kept goes to the end of its series. */
  lemma AppendedKeeps(modules: seq<DataValues>, log: seq<Sample>, d: DeviceID, s: Sample, k: nat)
    requires Keeps(modules, log, d) && s.device == d && k < |modules| && modules[k].id == s.id
    ensures Keeps(modules[k := DataValues(s.id, modules[k].samples + [s.stored])], log + [s], d)
  {
    var modules' := modules[k := DataValues(s.id, modules[k].samples + [s.stored])];
    forall j | 0 <= j < |modules'|
      ensures Has(log + [s], d, modules'[j].id) && modules'[j].samples == Series(log + [s], d, modules'[j].id)
    {
      HasMore(log, s, d, modules[j].id);
      SeriesMore(log, s, d, modules[j].id);
    }
    forall m | Has(log + [s], d, m)
      ensures Listed(modules', m)
    {
      HasMore(log, s, d, m);
      assert Listed(modules, m);
      var j :| 0 <= j < |modules| && modules[j].id == m;
      assert modules'[j].id == m;
    }
  }

  /** A sample of a new module starts its series. */
  lemma StartedKeeps(modules: seq<DataValues>, log: seq<Sample>, d: DeviceID, s: Sample)
    requires Keeps(modules, log, d) && s.device == d && !Listed(modules, s.id)
    ensures Keeps(modules + [DataValues(s.id, [s.stored])], log + [s], d)
  {
    var modules' := modules + [DataValues(s.id, [s.stored])];
    SeriesEmpty(log, d, s.id);
    forall j | 0 <= j < |modules'|
      ensures Has(log + [s], d, modules'[j].id) && modules'[j].samples == Series(log + [s], d, modules'[j].id)
    {
      HasMore(log, s, d, modules'[j].id);
      SeriesMore(log, s, d, modules'[j].id);
    }
    forall m | Has(log + [s], d, m)
      ensures Listed(modules', m)
    {
      HasMore(log, s, d, m);
      if m == s.id {
        assert modules'[|modules|].id == m;
      } else {
        assert Listed(modules, m);
        var j :| 0 <= j < |modules| && modules[j].id == m;
        assert modules'[j].id == m;
      }
    }
  }

  class DeviceDataCollection {
    const device: DeviceID
    var modules: seq<DataValues>

    constructor (device: DeviceID)
      ensures this.device == device && modules == []
    {
      this.device, modules := device, [];
    }

    /** insertData: the data of another device are ignored. */
    method InsertData(data: SensorData, ghost log: seq<Sample>)
      requires Keeps(modules, log, device)
      modifies this
      ensures data.device == device ==> Keeps(modules, log + Samples(data), device)
      ensures data.device != device ==> modules == old(modules)
    {
      if data.device != device { return; }
      var i := 0;
      assert log + Samples(data)[..0] == log;
      while i < |data.values|
        invariant i <= |data.values| && Keeps(modules, log + Samples(data)[..i], device)
      {
        var v := data.values[i];
        ghost var s := Samples(data)[i];
        assert log + Samples(data)[..i + 1] == log + Samples(data)[..i] + [s];
        var k := 0;
        while k < |modules| && modules[k].id != v.id
          invariant k <= |modules| && forall j | 0 <= j < k :: modules[j].id != v.id
        {
          k := k + 1;
        }
        if k == |modules| {
          StartedKeeps(modules, log + Samples(data)[..i], device, s);
          modules := modules + [DataValues(v.id, [Stored(v, data.time)])];
        } else {
          AppendedKeeps(modules, log + Samples(data)[..i], device, s, k);
          modules := modules[k := DataValues(v.id, modules[k].samples + [Stored(v, data.time)])];
        }
        i := i + 1;
      }
      assert Samples(data)[..i] == Samples(data);
    }
  }

  lemma {:induction false} OtherDevicesKeep(modules: seq<DataValues>, log: seq<Sample>, d: DeviceID, more: seq<Sample>)
    requires Keeps(modules, log, d) && forall i | 0 <= i < |more| :: more[i].device != d
    ensures Keeps(modules, log + more, d)
    decreases |more|
  {
    if more == [] {
      assert log + more == log;
    } else {
      OtherDeviceKeeps(modules, log, d, more[0]);
      assert log + more == (log + [more[0]]) + more[1..];
      OtherDevicesKeep(modules, log + [more[0]], d, more[1..]);
    }
  }

  /** What is reported about one module: its valid samples and the number of invalid ones. */
  datatype StatisticsData = StatisticsData(device: DeviceID, id: ModuleID, samples: seq<real>, invalid: nat)

  predicate InWindow(v: TimeValue, now: int, span: int) { now - v.time <= span }

  /** The valid values of a series inside the window, and how many invalid ones it has there. */
  function ValidIn(series: seq<TimeValue>, now: int, span: int): seq<real> {
    if series == [] then []
    else
      var last := series[|series| - 1];
      ValidIn(series[..|series| - 1], now, span) + if InWindow(last, now, span) && last.valid then [last.value] else []
  }

  function InvalidIn(series: seq<TimeValue>, now: int, span: int): nat {
    if series == [] then 0
    else
      var last := series[|series| - 1];
      InvalidIn(series[..|series| - 1], now, span) + if InWindow(last, now, span) && !last.valid then 1 else 0
  }

  /** No sample of the window goes uncounted. */
  lemma {:induction false} WindowIsPartitioned(series: seq<TimeValue>, now: int, span: int)
    ensures |ValidIn(series, now, span)| + InvalidIn(series, now, span) == |WindowOf(series, now, span)|
  {
    if series != [] { WindowIsPartitioned(series[..|series| - 1], now, span); }
  }

  function WindowOf(series: seq<TimeValue>, now: int, span: int): seq<TimeValue> {
    if series == [] then []
    else
      var last := series[|series| - 1];
      WindowOf(series[..|series| - 1], now, span) + if InWindow(last, now, span) then [last] else []
  }

  /** The statistics of the log for one pair. */
  function StatOf(log: seq<Sample>, d: DeviceID, m: ModuleID, now: int, span: int): StatisticsData {
    StatisticsData(d, m, ValidIn(Series(log, d, m), now, span), InvalidIn(Series(log, d, m), now, span))
  }

  // ----- what the statistics are, sample by sample

  /** Where a log has a sample of the pair in the window, valid or not, and with the value if it is valid. */
  ghost function Places(log: seq<Sample>, d: DeviceID, m: ModuleID, now: int, span: int, valid: bool, x: real)
    : set<nat>
  {
    set i: nat | i < |log| && log[i].device == d && log[i].id == m && now - log[i].stored.time <= span
                 && log[i].stored.valid == valid && (valid ==> log[i].stored.value == x)
  }

  lemma PlacesMore(front: seq<Sample>, s: Sample, d: DeviceID, m: ModuleID, now: int, span: int, valid: bool, x: real)
    ensures var here := s.device == d && s.id == m && now - s.stored.time <= span
                        && s.stored.valid == valid && (valid ==> s.stored.value == x);
      Places(front + [s], d, m, now, span, valid, x)
        == Places(front, d, m, now, span, valid, x) + (if here then {|front|} else {})
      && |Places(front + [s], d, m, now, span, valid, x)|
        == |Places(front, d, m, now, span, valid, x)| + (if here then 1 else 0)
  {
    assert |front| !in Places(front, d, m, now, span, valid, x);
    assert forall i: nat | i < |front| :: (front + [s])[i] == front[i];
    assert (front + [s])[|front|] == s;
  }

  /** Of the values reported for a pair, each is there as often as the log has it in the window for that pair, valid;
      and the number of invalid ones is that of the log. */
  lemma {:induction false} StatCounts(log: seq<Sample>, d: DeviceID, m: ModuleID, now: int, span: int, x: real)
    ensures var stat := StatOf(log, d, m, now, span);
      && multiset(stat.samples)[x] == |Places(log, d, m, now, span, true, x)|
      && stat.invalid == |Places(log, d, m, now, span, false, x)|
    decreases |log|
  {
    if log != [] {
      var front, s := log[..|log| - 1], log[|log| - 1];
      assert log == front + [s];
      StatCounts(front, d, m, now, span, x);
      PlacesMore(front, s, d, m, now, span, true, x);
      PlacesMore(front, s, d, m, now, span, false, x);
      StatOneMore(front, s, d, m, now, span, x);
    }
  }

  lemma StatOneMore(front: seq<Sample>, s: Sample, d: DeviceID, m: ModuleID, now: int, span: int, x: real)
    ensures var before, after := StatOf(front, d, m, now, span), StatOf(front + [s], d, m, now, span);
      var here := s.device == d && s.id == m && now - s.stored.time <= span;
      && multiset(after.samples)[x]
           == multiset(before.samples)[x] + (if here && s.stored.valid && s.stored.value == x then 1 else 0)
      && after.invalid == before.invalid + (if here && !s.stored.valid then 1 else 0)
  {
    SeriesMore(front, s, d, m);
    if s.device == d && s.id == m {
      StatMore(Series(front, d, m), s.stored, now, span);
    } else {
      assert Series(front + [s], d, m) == Series(front, d, m);
    }
  }

  lemma StatMore(series: seq<TimeValue>, v: TimeValue, now: int, span: int)
    ensures ValidIn(series + [v], now, span)
         == ValidIn(series, now, span) + if now - v.time <= span && v.valid then [v.value] else []
    ensures InvalidIn(series + [v], now, span)
         == InvalidIn(series, now, span) + if now - v.time <= span && !v.valid then 1 else 0
  {
    assert (series + [v])[..|series|] == series;
  }

  /** The reported values are in the order of the series. */
  lemma {:induction false} ValidInOrder(a: seq<TimeValue>, b: seq<TimeValue>, now: int, span: int)
    ensures ValidIn(a + b, now, span) == ValidIn(a, now, span) + ValidIn(b, now, span)
    decreases |b|
  {
    if b == [] {
      assert a + b == a;
    } else {
      var front, v := b[..|b| - 1], b[|b| - 1];
      assert a + b == a + front + [v] && b == front + [v];
      ValidInOrder(a, front, now, span);
      StatMore(a + front, v, now, span);
      StatMore(front, v, now, span);
    }
  }

  /** An entry has each value as often as the log has it for the pair, valid and inside the window, and counts the
      invalid ones there. */
  ghost predicate Right(stat: StatisticsData, log: seq<Sample>, now: int, span: int) {
    && (forall x :: multiset(stat.samples)[x] == |Places(log, stat.device, stat.id, now, span, true, x)|)
    && stat.invalid == |Places(log, stat.device, stat.id, now, span, false, 0.0)|
  }

  lemma FaithfulIsRight(result: seq<StatisticsData>, log: seq<Sample>, now: int, span: int)
    requires Faithful(result, log, now, span)
    ensures forall i | 0 <= i < |result| :: Right(result[i], log, now, span)
  {
    forall i | 0 <= i < |result|
      ensures Right(result[i], log, now, span)
    {
      forall x
        ensures multiset(result[i].samples)[x] == |Places(log, result[i].device, result[i].id, now, span, true, x)|
      {
        StatCounts(log, result[i].device, result[i].id, now, span, x);
      }
      StatCounts(log, result[i].device, result[i].id, now, span, 0.0);
    }
  }

  ghost predicate Reports(result: seq<StatisticsData>, d: DeviceID, m: ModuleID) {
    exists i | 0 <= i < |result| :: result[i].device == d && result[i].id == m
  }

  /** Entries for distinct pairs, each with the statistics of the log. */
  ghost predicate Faithful(result: seq<StatisticsData>, log: seq<Sample>, now: int, span: int) {
    && (forall i | 0 <= i < |result| :: result[i] == StatOf(log, result[i].device, result[i].id, now, span))
    && (forall i, j | 0 <= i < j < |result| :: (result[i].device, result[i].id) != (result[j].device, result[j].id))
  }

  class SimpleCollector {
    var data: map<DeviceID, DeviceDataCollection>  // m_data
    ghost var log: seq<Sample>                     // everything exported so far

    ghost function Parts(): set<DeviceDataCollection>
      reads this
    {
      set d | d in data :: data[d]
    }

    ghost predicate Valid()
      reads this, Parts()
    {
      && (forall d | d in data :: data[d].device == d && Keeps(data[d].modules, log, d))
      && (forall d, m | Has(log, d, m) :: d in data)
    }

    constructor ()
      ensures Valid() && log == [] && data == map[]
    {
      data, log := map[], [];
    }

    /** onExport */
    method OnExport(sensed: SensorData)
      requires Valid()
      modifies this, Parts()
      ensures Valid() && log == old(log) + Samples(sensed)
      ensures fresh(Parts() - old(Parts()))
    {
      var d := sensed.device;
      ghost var before := log;
      if d !in data {
        var collection := new DeviceDataCollection(d);
        assert Keeps(collection.modules, before, d);
        collection.InsertData(sensed, before);
        data := data[d := collection];
      } else {
        assert forall e | e in data && e != d :: data[e].device != data[d].device;
        data[d].InsertData(sensed, before);
      }
      log := before + Samples(sensed);
      forall e | e in data && e != d
        ensures Keeps(data[e].modules, log, e)
      {
        OtherDevicesKeep(data[e].modules, before, e, Samples(sensed));
      }
      forall e, m | Has(log, e, m)
        ensures e in data
      {
        var i :| 0 <= i < |log| && log[i].device == e && log[i].id == m;
        if i < |before| { assert before[i] == log[i] && Has(before, e, m); }
      }
    }

    /** The innermost loop: the samples of one module. */
    static method ModuleStats(series: seq<TimeValue>, now: int, span: int) returns (samples: seq<real>, invalid: nat)
      ensures samples == ValidIn(series, now, span) && invalid == InvalidIn(series, now, span)
    {
      samples, invalid := [], 0;
      var i := 0;
      while i < |series|
        invariant i <= |series|
        invariant samples == ValidIn(series[..i], now, span) && invalid == InvalidIn(series[..i], now, span)
      {
        assert series[..i + 1][..i] == series[..i];
        if now - series[i].time <= span {
          if series[i].valid { samples := samples + [series[i].value]; } else { invalid := invalid + 1; }
        }
        i := i + 1;
      }
      assert series[..i] == series;
    }

    /** The statistics of one device, in the order its modules came. */
    method DeviceStats(d: DeviceID, now: int, span: int) returns (result: seq<StatisticsData>)
      requires Valid() && d in data
      ensures Faithful(result, log, now, span)
      ensures forall i | 0 <= i < |result| :: result[i].device == d
      ensures forall m :: Reports(result, d, m) <==> Has(log, d, m)
    {
      var modules := data[d].modules;
      result := [];
      var k := 0;
      while k < |modules|
        invariant k <= |modules| && |result| == k
        invariant forall i | 0 <= i < k :: result[i] == StatOf(log, d, modules[i].id, now, span)
      {
        var samples, invalid := ModuleStats(modules[k].samples, now, span);
        result := result + [StatisticsData(d, modules[k].id, samples, invalid)];
        k := k + 1;
      }
      ReportsModules(result, modules, log, d, now, span);
    }

    /** computeLastStats: one entry for each device and module of the log, in the order of devices. */
    method ComputeLastStats(now: int, span: int) returns (result: seq<StatisticsData>)
      requires Valid()
      ensures Faithful(result, log, now, span)
      ensures forall i | 0 <= i < |result| :: Right(result[i], log, now, span)
      ensures forall d, m :: Reports(result, d, m) <==> Has(log, d, m)
      ensures Ascending(result)
    {
      result := [];
      var rest := data.Keys;
      while rest != {}
        invariant rest <= data.Keys && Faithful(result, log, now, span)
        invariant forall i, e | 0 <= i < |result| && e in rest :: result[i].device < e
        invariant Ascending(result)
        invariant forall d, m | d !in rest :: Reports(result, d, m) <==> Has(log, d, m)
        decreases rest
      {
        var d := Least(rest);
        var stats := DeviceStats(d, now, span);
        JoinReports(result, stats, d, log, rest);
        JoinFaithful(result, stats, d, log, now, span);
        JoinBelow(result, stats, d, rest);
        result := result + stats;
        rest := rest - {d};
      }
      FaithfulIsRight(result, log, now, span);
    }

    /** modulesCount */
    method ModulesCount() returns (n: nat)
      requires Valid()
      ensures n == |Pairs(log)|
    {
      n := 0;
      var rest := data.Keys;
      ghost var counted := {};
      while rest != {}
        invariant data.Keys == counted + rest && counted !! rest
        invariant n == |PairsOf(log, counted)|
        decreases rest
      {
        var d := Least(rest);
        CountsOneMore(data[d].modules, log, d, counted);
        n := n + |data[d].modules|;
        rest, counted := rest - {d}, counted + {d};
      }
      forall p | p in Pairs(log)
        ensures p in PairsOf(log, counted)
      {
        assert Has(log, p.0, p.1);
      }
      assert PairsOf(log, counted) == Pairs(log);
    }
  }

  /** The pairs of device and module that occur in a log. */
  function Pairs(log: seq<Sample>): set<(DeviceID, ModuleID)> {
    set i | 0 <= i < |log| :: (log[i].device, log[i].id)
  }

  function PairsOf(log: seq<Sample>, devices: set<DeviceID>): set<(DeviceID, ModuleID)> {
    set p | p in Pairs(log) && p.0 in devices
  }

  function ModulePairs(d: DeviceID, modules: seq<DataValues>): set<(DeviceID, ModuleID)> {
    set k | 0 <= k < |modules| :: (d, modules[k].id)
  }

  lemma {:induction false} ModulePairsSize(d: DeviceID, modules: seq<DataValues>)
    requires forall j, k | 0 <= j < k < |modules| :: modules[j].id != modules[k].id
    ensures |ModulePairs(d, modules)| == |modules|
  {
    if modules != [] {
      var last := |modules| - 1;
      ModulePairsSize(d, modules[..last]);
      assert ModulePairs(d, modules) == ModulePairs(d, modules[..last]) + {(d, modules[last].id)};
    }
  }

  lemma ModulePairsAre(modules: seq<DataValues>, log: seq<Sample>, d: DeviceID)
    requires Keeps(modules, log, d)
    ensures ModulePairs(d, modules) == PairsOf(log, {d})
  {
    forall m: ModuleID
      ensures (d, m) in ModulePairs(d, modules) <==> (d, m) in PairsOf(log, {d})
    {
      assert (d, m) in PairsOf(log, {d}) <==> Has(log, d, m);
      assert (d, m) in ModulePairs(d, modules) <==> Listed(modules, m);
    }
  }

  lemma ReportsModules(result: seq<StatisticsData>, modules: seq<DataValues>, log: seq<Sample>, d: DeviceID,
                       now: int, span: int)
    requires Keeps(modules, log, d) && |result| == |modules|
    requires forall i | 0 <= i < |result| :: result[i] == StatOf(log, d, modules[i].id, now, span)
    ensures Faithful(result, log, now, span)
    ensures forall m :: Reports(result, d, m) <==> Has(log, d, m)
  {
    forall m
      ensures Reports(result, d, m) <==> Has(log, d, m)
    {
      if Has(log, d, m) {
        assert Listed(modules, m);
        var j :| 0 <= j < |modules| && modules[j].id == m;
        assert result[j].id == m;
      }
    }
  }

  lemma CountsOneMore(modules: seq<DataValues>, log: seq<Sample>, d: DeviceID, counted: set<DeviceID>)
    requires Keeps(modules, log, d) && d !in counted
    ensures |PairsOf(log, counted + {d})| == |PairsOf(log, counted)| + |modules|
  {
    ModulePairsSize(d, modules);
    ModulePairsAre(modules, log, d);
    assert PairsOf(log, counted + {d}) == PairsOf(log, counted) + PairsOf(log, {d});
    assert PairsOf(log, counted) !! PairsOf(log, {d});
  }

  ghost predicate Ascending(result: seq<StatisticsData>) {
    forall i, j | 0 <= i < j < |result| :: result[i].device <= result[j].device
  }

  lemma JoinFaithful(result: seq<StatisticsData>, stats: seq<StatisticsData>, d: DeviceID,
                     log: seq<Sample>, now: int, span: int)
    requires Faithful(result, log, now, span) && Faithful(stats, log, now, span) && Ascending(result)
    requires forall i | 0 <= i < |result| :: result[i].device < d
    requires forall i | 0 <= i < |stats| :: stats[i].device == d
    ensures Faithful(result + stats, log, now, span) && Ascending(result + stats)
  {
  }

  lemma JoinReports(result: seq<StatisticsData>, stats: seq<StatisticsData>, d: DeviceID,
                    log: seq<Sample>, rest: set<DeviceID>)
    requires forall i | 0 <= i < |stats| :: stats[i].device == d
    requires forall i | 0 <= i < |result| :: result[i].device != d
    requires forall m :: Reports(stats, d, m) <==> Has(log, d, m)
    requires forall e, m | e !in rest :: Reports(result, e, m) <==> Has(log, e, m)
    ensures forall e, m | e !in rest - {d} :: Reports(result + stats, e, m) <==> Has(log, e, m)
  {
    var all := result + stats;
    forall e, m | e !in rest - {d}
      ensures Reports(all, e, m) <==> Has(log, e, m)
    {
      if Reports(result, e, m) {
        var i :| 0 <= i < |result| && result[i].device == e && result[i].id == m;
        assert all[i] == result[i];
      }
      if Reports(stats, e, m) {
        var i :| 0 <= i < |stats| && stats[i].device == e && stats[i].id == m;
        assert all[|result| + i] == stats[i];
      }
    }
  }

  ghost predicate IsLeast(d: DeviceID, s: set<DeviceID>) { d in s && forall e | e in s :: d <= e }

  /** Where the iteration of a std::map begins. */
  method Least(s: set<DeviceID>) returns (d: DeviceID)
    requires s != {}
    ensures IsLeast(d, s)
  {
    d :| d in s;
    var rest := s - {d};
    ghost var seen := {d};
    while rest != {}
      invariant s == seen + rest && IsLeast(d, seen)
      decreases rest
    {
      var x :| x in rest;
      if x < d { d := x; }
      rest, seen := rest - {x}, seen + {x};
    }
  }

  lemma JoinBelow(result: seq<StatisticsData>, stats: seq<StatisticsData>, d: DeviceID, rest: set<DeviceID>)
    requires IsLeast(d, rest)
    requires forall i, e | 0 <= i < |result| && e in rest :: result[i].device < e
    requires forall i | 0 <= i < |stats| :: stats[i].device == d
    ensures forall i, e | 0 <= i < |result + stats| && e in rest - {d} :: (result + stats)[i].device < e
  {
  }
}
