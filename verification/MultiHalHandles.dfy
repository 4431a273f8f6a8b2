/** Sensor handles of the multi-HAL: the two maps between global handles and pairs of module and local
    handle, the list of all sensors, and the way a handle takes to a device. */
module MultiHalHandles {
  import opened Options

  datatype FullHandle = FullHandle(moduleIndex: nat, localHandle: int)

  /** A sensor as its module lists it; info stands for the fields that are copied as they are. */
  datatype Sensor = Sensor(handle: int, minDelay: int, maxDelay: int, info: int)

  datatype Tables = Tables(globalToFull: map<int, FullHandle>, fullToGlobal: map<FullHandle, int>, next: int)

  /** The sensors of all modules, in the order in which they are given their global handles. */
  function Flattened(modules: seq<seq<Sensor>>): seq<FullHandle> {
    if modules == [] then []
    else
      Flattened(modules[..|modules| - 1]) + FullHandles(|modules| - 1, modules[|modules| - 1])
  }

  function FullHandles(moduleIndex: nat, sensors: seq<Sensor>): seq<FullHandle> {
    seq(|sensors|, i requires 0 <= i < |sensors| => FullHandle(moduleIndex, sensors[i].handle))
  }

  function AllSensors(modules: seq<seq<Sensor>>): (all: seq<Sensor>)
    ensures |all| == |Flattened(modules)|
  {
    if modules == [] then [] else AllSensors(modules[..|modules| - 1]) + modules[|modules| - 1]
  }

  /** How many sensors the first modules list. */
  function Count(modules: seq<seq<Sensor>>): nat {
    if modules == [] then 0 else Count(modules[..|modules| - 1]) + |modules[|modules| - 1]|
  }

  /** Sensor k of module m stands behind all sensors of the modules before it. */
  lemma {:induction false} SensorPlace(modules: seq<seq<Sensor>>, m: nat, k: nat)
    requires m < |modules| && k < |modules[m]|
    ensures var p := Count(modules[..m]) + k;
      && |AllSensors(modules)| == Count(modules) && p < |AllSensors(modules)|
      && AllSensors(modules)[p] == modules[m][k]
      && Flattened(modules)[p] == FullHandle(m, modules[m][k].handle)
  {
    var n := |modules| - 1;
    SensorCount(modules);
    SensorCount(modules[..n]);
    if m < n {
      SensorPlace(modules[..n], m, k);
      assert modules[..n][..m] == modules[..m];
    }
  }

  lemma {:induction false} SensorCount(modules: seq<seq<Sensor>>)
    ensures |AllSensors(modules)| == Count(modules)
  {
    if modules != [] { SensorCount(modules[..|modules| - 1]); }
  }

  /** Sensors with global handles in place of their local ones, from offset + 1 on. */
  function Numbered(sensors: seq<Sensor>, offset: nat): (list: seq<Sensor>)
    ensures |list| == |sensors|
  {
    seq(|sensors|, i requires 0 <= i < |sensors| => sensors[i].(handle := offset + i + 1))
  }

  lemma NumberedConcat(s: seq<Sensor>, t: seq<Sensor>, offset: nat)
    ensures Numbered(s + t, offset) == Numbered(s, offset) + Numbered(t, offset + |s|)
  {
  }

  /** One more sensor, in the list and among those that have a handle. */
  lemma OneMore(moduleIndex: nat, sensors: seq<Sensor>, i: nat, list: seq<Sensor>, before: seq<FullHandle>)
    requires i < |sensors|
    ensures var fulls := FullHandles(moduleIndex, sensors);
      && |fulls| == |sensors|
      && before + fulls[..i + 1] == before + fulls[..i] + [FullHandle(moduleIndex, sensors[i].handle)]
    ensures list + Numbered(sensors[..i + 1], |list|) ==
      list + Numbered(sensors[..i], |list|) + [sensors[i].(handle := |list| + i + 1)]
  {
    var fulls := FullHandles(moduleIndex, sensors);
    assert fulls[..i + 1] == fulls[..i] + [FullHandle(moduleIndex, sensors[i].handle)];
    assert Numbered(sensors[..i + 1], |list|) == Numbered(sensors[..i], |list|) + [sensors[i].(handle := |list| + i + 1)];
  }

  function Assigned(t: Tables, full: FullHandle): Tables {
    Tables(t.globalToFull[t.next := full], t.fullToGlobal[full := t.next], t.next + 1)
  }

  function TablesOf(all: seq<FullHandle>): Tables {
    if all == [] then Tables(map[], map[], 1) else Assigned(TablesOf(all[..|all| - 1]), all[|all| - 1])
  }

  ghost predicate Distinct<T>(s: seq<T>) {
    forall i, j :: 0 <= i < j < |s| ==> s[i] != s[j]
  }

  /** Global handle i + 1 stands for the sensor of list entry i, and for no other. */
  lemma {:induction false} GlobalHandles(all: seq<FullHandle>)
    ensures TablesOf(all).next == |all| + 1
    ensures forall g :: g in TablesOf(all).globalToFull <==> 1 <= g <= |all|
    ensures forall g :: 1 <= g <= |all| ==> TablesOf(all).globalToFull[g] == all[g - 1]
  {
    if all != [] { GlobalHandles(all[..|all| - 1]); }
  }

  /** A pair of module and local handle stands for the last of the sensors that have it. */
  lemma {:induction false} LocalHandles(all: seq<FullHandle>, full: FullHandle)
    ensures full in TablesOf(all).fullToGlobal <==> full in all
    ensures full in all ==>
      var g := TablesOf(all).fullToGlobal[full];
      && 1 <= g <= |all| && all[g - 1] == full
      && forall i :: g <= i < |all| ==> all[i] != full
  {
    if all != [] {
      var front := all[..|all| - 1];
      LocalHandles(front, full);
      GlobalHandles(front);
      assert all == front + [all[|all| - 1]];
    }
  }

  /** From a local handle to a global one and back there is always a way. */
  lemma LocalRoundTrip(all: seq<FullHandle>, full: FullHandle)
    requires full in all
    ensures var t := TablesOf(all);
      full in t.fullToGlobal && t.fullToGlobal[full] in t.globalToFull && t.globalToFull[t.fullToGlobal[full]] == full
  {
    LocalHandles(all, full);
    GlobalHandles(all);
  }

  /** The maps are inverse to each other exactly when no module lists a handle twice. */
  lemma MapsInverse(all: seq<FullHandle>)
    ensures (forall g :: g in TablesOf(all).globalToFull ==>
        && TablesOf(all).globalToFull[g] in TablesOf(all).fullToGlobal
        && TablesOf(all).fullToGlobal[TablesOf(all).globalToFull[g]] == g)
      <==> Distinct(all)
  {
    var t := TablesOf(all);
    GlobalHandles(all);
    forall i | 0 <= i < |all| ensures t.globalToFull[i + 1] == all[i] && all[i] in t.fullToGlobal {
      LocalHandles(all, all[i]);
    }
    if Distinct(all) {
      forall g | g in t.globalToFull ensures t.fullToGlobal[t.globalToFull[g]] == g {
        LocalHandles(all, all[g - 1]);
      }
    } else {
      var i, j :| 0 <= i < j < |all| && all[i] == all[j];
      assert t.globalToFull[i + 1] == t.globalToFull[j + 1];
      assert i + 1 in t.globalToFull && j + 1 in t.globalToFull;
    }
  }

  /** The list of all sensors: sensor k of module m is entry p, which has handle p + 1 and is otherwise
      what the module lists, and the handle stands for the pair of m and the module's own handle. */
  lemma SensorListed(modules: seq<seq<Sensor>>, m: nat, k: nat)
    requires m < |modules| && k < |modules[m]|
    ensures var list, t, p := Numbered(AllSensors(modules), 0), TablesOf(Flattened(modules)), Count(modules[..m]) + k;
      && |list| == Count(modules) && p < |list|
      && list[p].handle == p + 1 && list[p].(handle := modules[m][k].handle) == modules[m][k]
      && p + 1 in t.globalToFull && t.globalToFull[p + 1] == FullHandle(m, modules[m][k].handle)
  {
    SensorPlace(modules, m, k);
    GlobalHandles(Flattened(modules));
  }

  // ----- from handles to devices

  /** open_sensors: the modules whose devices were opened, in the order of the device list. */
  function Opened(opens: seq<bool>): (devices: seq<nat>)
    ensures |devices| <= |opens|
    ensures forall m :: m in devices ==> m < |opens| && opens[m]
  {
    if opens == [] then []
    else if opens[|opens| - 1] then Opened(opens[..|opens| - 1]) + [|opens| - 1]
    else Opened(opens[..|opens| - 1])
  }

  /** The device list holds exactly the modules that opened, in the order of the module list. */
  lemma OpenedExactly(opens: seq<bool>, m: nat)
    ensures m in Opened(opens) <==> m < |opens| && opens[m]
    ensures forall i, j :: 0 <= i < j < |Opened(opens)| ==> Opened(opens)[i] < Opened(opens)[j]
  {
    OpenedAscending(opens);
    if m < |opens| && opens[m] { OpenedMember(opens, m); }
  }

  lemma {:induction false} OpenedMember(opens: seq<bool>, m: nat)
    requires m < |opens| && opens[m]
    ensures m in Opened(opens)
  {
    if m < |opens| - 1 { OpenedMember(opens[..|opens| - 1], m); }
  }

  /** No module that opened comes behind one that did not. */
  predicate OpenedFirst(opens: seq<bool>) {
    forall i, j :: 0 <= i < j < |opens| && opens[j] ==> opens[i]
  }

  /** The device list is parallel to the module list exactly when every module before the last one
      opened was opened as well. */
  lemma {:induction false} DevicesParallel(opens: seq<bool>)
    ensures (forall i :: 0 <= i < |Opened(opens)| ==> Opened(opens)[i] == i) <==> OpenedFirst(opens)
    ensures OpenedFirst(opens) ==> forall m :: 0 <= m < |opens| && opens[m] ==> m < |Opened(opens)|
    ensures (|Opened(opens)| == |opens|) <==> (forall m :: 0 <= m < |opens| ==> opens[m])
  {
    if opens != [] {
      var n := |opens| - 1;
      var front := opens[..n];
      DevicesParallel(front);
      var d := Opened(front);
      assert forall i :: 0 <= i < n ==> front[i] == opens[i];
      if opens[n] {
        assert Opened(opens)[|d|] == n;
        assert forall i :: 0 <= i < |d| ==> Opened(opens)[i] == d[i];
        if |d| < n {
          var i :| 0 <= i < n && !front[i];
          assert !OpenedFirst(opens);
        }
      } else {
        assert Opened(opens) == d;
        if OpenedFirst(front) {
          forall i, j | 0 <= i < j < |opens| && opens[j] ensures opens[i] {
            assert front[j] && front[i];
          }
        }
      }
    }
  }

  /** Where activate, setDelay and batch send a call: a device, by the module it belongs to, and a
      local handle.  None is the error -EINVAL. */
  function Route(t: Tables, devices: seq<nat>, global: int): Option<(nat, int)> {
    if global in t.globalToFull && t.globalToFull[global].localHandle >= 0 && t.globalToFull[global].moduleIndex < |devices|
    then Some((devices[t.globalToFull[global].moduleIndex], t.globalToFull[global].localHandle))
    else None
  }

  /** The global handle written into an event of queue number queue; -1 when there is none. */
  function GlobalHandle(t: Tables, queue: nat, local: int): int {
    if FullHandle(queue, local) in t.fullToGlobal then t.fullToGlobal[FullHandle(queue, local)] else -1
  }

  /** The round trip of list entry `entry`.  The events of its module come out of the queue that stands
      where the module's device does.  They carry the entry's handle exactly when the module and all
      modules before it were opened and the module lists the local handle no second time behind it.
      Calls with the handle reach the entry's own device exactly when the local handle is no error code
      and, again, the module and all modules before it were opened. */
  lemma HandleRoundTrip(modules: seq<seq<Sensor>>, opens: seq<bool>, entry: nat)
    requires |opens| == |modules| && entry < |Flattened(modules)|
    ensures var all, devices := Flattened(modules), Opened(opens);
      var t, full := TablesOf(all), all[entry];
      && full.moduleIndex < |modules|
      && (forall queue :: 0 <= queue < |devices| && devices[queue] == full.moduleIndex ==>
            (GlobalHandle(t, queue, full.localHandle) == entry + 1 <==>
              && (forall i :: 0 <= i <= full.moduleIndex ==> opens[i])
              && (forall j :: entry < j < |all| ==> all[j] != full)))
      && (Route(t, devices, entry + 1) == Some((full.moduleIndex, full.localHandle)) <==>
            full.localHandle >= 0 && forall i :: 0 <= i <= full.moduleIndex ==> opens[i])
  {
    var all, devices := Flattened(modules), Opened(opens);
    GlobalHandles(all);
    ModuleExists(modules, entry);
    OpenedAt(opens, all[entry].moduleIndex);
    hide Flattened, TablesOf, Opened, GlobalHandle;
    forall queue | 0 <= queue < |devices| && devices[queue] == all[entry].moduleIndex
      ensures GlobalHandle(TablesOf(all), queue, all[entry].localHandle) == entry + 1 <==>
        && (forall i :: 0 <= i <= all[entry].moduleIndex ==> opens[i])
        && (forall j :: entry < j < |all| ==> all[j] != all[entry])
    {
      QueueHandle(all, queue, entry);
      QueuePlace(opens, queue);
    }
  }

  /** The handle that events of a queue carry is that of an entry exactly when the queue has the number
      of the entry's module, and the entry is the last of its kind. */
  lemma QueueHandle(all: seq<FullHandle>, queue: nat, entry: nat)
    requires entry < |all|
    ensures GlobalHandle(TablesOf(all), queue, all[entry].localHandle) == entry + 1 <==>
      queue == all[entry].moduleIndex && forall j :: entry < j < |all| ==> all[j] != all[entry]
  {
    LocalHandles(all, FullHandle(queue, all[entry].localHandle));
  }

  /** A queue has the number of its module exactly when all modules up to it were opened. */
  lemma QueuePlace(opens: seq<bool>, queue: nat)
    requires queue < |Opened(opens)|
    ensures Opened(opens)[queue] < |opens|
    ensures queue == Opened(opens)[queue] <==> forall i :: 0 <= i <= Opened(opens)[queue] ==> opens[i]
  {
    assert Opened(opens)[queue] in Opened(opens);
    var m := Opened(opens)[queue];
    OpenedAt(opens, m);
    OpenedAscending(opens);
    hide Opened;
  }

  /** Whatever was opened, an event can be answered: calls with the handle it carries reach the device
      it came from, exactly when it carries one and its local handle is no error code. */
  lemma EventAnswered(all: seq<FullHandle>, devices: seq<nat>, queue: nat, local: int)
    requires queue < |devices|
    ensures var t := TablesOf(all);
      Route(t, devices, GlobalHandle(t, queue, local)) == Some((devices[queue], local)) <==>
        FullHandle(queue, local) in all && local >= 0
  {
    GlobalHandles(all);
    LocalHandles(all, FullHandle(queue, local));
  }

  /** Where calls go, for every handle and every list of devices. */
  lemma RouteExactly(all: seq<FullHandle>, devices: seq<nat>, global: int, device: nat, local: int)
    ensures Route(TablesOf(all), devices, global) == Some((device, local)) <==>
      && 1 <= global <= |all| && local == all[global - 1].localHandle >= 0
      && all[global - 1].moduleIndex < |devices| && device == devices[all[global - 1].moduleIndex]
  {
    GlobalHandles(all);
  }

  /** An input on which the round trip fails.  The first module does not open, so queue 0 and device 0
      are the second module's.  Calls for the first sensor go to the second module's device, calls for
      the others nowhere.  The second module's events carry no handle, and would carry the first sensor's
      if they had its local handle.  Even if both modules open, events of the second sensor carry the
      handle of the third, which the same module lists under the same local handle. */
  lemma Misrouted()
    ensures var modules := [[Sensor(7, 0, 0, 0)], [Sensor(8, 0, 0, 0), Sensor(8, 0, 0, 1)]];
      var t, devices := TablesOf(Flattened(modules)), Opened([false, true]);
      && Flattened(modules) == [FullHandle(0, 7), FullHandle(1, 8), FullHandle(1, 8)] && devices == [1]
      && Route(t, devices, 1) == Some((1, 7)) && Route(t, devices, 2) == Route(t, devices, 3) == None
      && GlobalHandle(t, 0, 8) == -1 && GlobalHandle(t, 0, 7) == 1
      && Opened([true, true]) == [0, 1] && GlobalHandle(t, 1, 8) == 3
  {
    FlattenedOfTwo();
    var all := [FullHandle(0, 7), FullHandle(1, 8), FullHandle(1, 8)];
    hide Flattened, FullHandles, TablesOf, Opened;
    GlobalHandles(all);
    LocalHandles(all, FullHandle(1, 8));
    LocalHandles(all, FullHandle(0, 8));
    LocalHandles(all, FullHandle(0, 7));
    OpenedOfTwo();
  }

  lemma FlattenedOfTwo()
    ensures Flattened([[Sensor(7, 0, 0, 0)], [Sensor(8, 0, 0, 0), Sensor(8, 0, 0, 1)]]) ==
      [FullHandle(0, 7), FullHandle(1, 8), FullHandle(1, 8)]
  {
    var modules := [[Sensor(7, 0, 0, 0)], [Sensor(8, 0, 0, 0), Sensor(8, 0, 0, 1)]];
    assert modules[..1] == [modules[0]] && [modules[0]][..0] == [];
    assert FullHandles(0, modules[0]) == [FullHandle(0, 7)];
    assert FullHandles(1, modules[1]) == [FullHandle(1, 8), FullHandle(1, 8)];
    hide FullHandles;
    assert Flattened(modules[..1]) == [FullHandle(0, 7)];
  }

  lemma OpenedOfTwo()
    ensures Opened([false, true]) == [1] && Opened([true, true]) == [0, 1]
  {
    assert [false, true][..1] == [false] && [false][..0] == [] && Opened([false]) == [];
    assert [true, true][..1] == [true] && [true][..0] == [] && Opened([true]) == [0];
  }

  /** A module's device stands at the module's place exactly when all modules up to it were opened. */
  lemma {:induction false} OpenedAt(opens: seq<bool>, m: nat)
    requires m < |opens|
    ensures m < |Opened(opens)| && Opened(opens)[m] == m <==> forall i :: 0 <= i <= m ==> opens[i]
  {
    if i :| 0 <= i < m && !opens[i] {
      OpenedBelow(opens, i, m);
    } else if opens[m] {
      var n := |opens| - 1;
      if m < n { OpenedAt(opens[..n], m); } else { DevicesParallel(opens[..n]); }
    } else if m < |Opened(opens)| {
      assert Opened(opens)[m] in Opened(opens);
    }
  }

  lemma {:induction false} ModuleExists(modules: seq<seq<Sensor>>, entry: nat)
    requires entry < |Flattened(modules)|
    ensures Flattened(modules)[entry].moduleIndex < |modules|
  {
    if modules != [] {
      var m := |modules| - 1;
      if entry < |Flattened(modules[..m])| { ModuleExists(modules[..m], entry); }
    }
  }

  /** A gap moves every later device up. */
  lemma {:induction false} OpenedBelow(opens: seq<bool>, gap: nat, m: nat)
    requires gap < m < |opens| && !opens[gap]
    ensures m >= |Opened(opens)| || Opened(opens)[m] != m
  {
    OpenedAscending(opens);
    OpenedCount(opens, gap);
  }

  lemma {:induction false} OpenedAscending(opens: seq<bool>)
    ensures forall i, j :: 0 <= i < j < |Opened(opens)| ==> Opened(opens)[i] < Opened(opens)[j]
  {
    if opens != [] {
      var d := Opened(opens[..|opens| - 1]);
      OpenedAscending(opens[..|opens| - 1]);
      assert forall i :: 0 <= i < |d| ==> d[i] in d;
    }
  }

  /** Behind a gap, a device's module number exceeds its position. */
  lemma {:induction false} OpenedCount(opens: seq<bool>, gap: nat)
    requires gap < |opens| && !opens[gap]
    ensures forall i :: 0 <= i < |Opened(opens)| && Opened(opens)[i] > gap ==> Opened(opens)[i] > i
    ensures |Opened(opens)| < |opens|
  {
    var n := |opens| - 1;
    if gap < n {
      OpenedCount(opens[..n], gap);
    } else {
      assert !opens[n];
    }
  }

  // ----- batch

  /** The period batch passes on to a device of the oldest API level, in nanoseconds.  The limits are
      in microseconds; one that is not positive is no limit. */
  function ClampedPeriod(s: Sensor, period: int): int {
    if s.minDelay > 0 && period < s.minDelay * 1000 then s.minDelay * 1000
    else if s.maxDelay > 0 && period > s.maxDelay * 1000 then s.maxDelay * 1000
    else period
  }

  /** Limits that make sense are kept, and no limit turns a rate into none. */
  lemma ClampedPeriodInRange(s: Sensor, period: int)
    ensures s.minDelay > 0 && (s.maxDelay <= 0 || s.minDelay <= s.maxDelay) ==> ClampedPeriod(s, period) >= s.minDelay * 1000
    ensures s.maxDelay > 0 && (s.minDelay <= 0 || s.minDelay <= s.maxDelay) ==> ClampedPeriod(s, period) <= s.maxDelay * 1000
    ensures (s.minDelay <= 0 || period >= s.minDelay * 1000) && (s.maxDelay <= 0 || period <= s.maxDelay * 1000)
      ==> ClampedPeriod(s, period) == period
    ensures period > 0 ==> ClampedPeriod(s, period) > 0
  {
  }

  /** No rate within the limits is nearer to the one asked for; when the limits contradict each other,
      a rate that is not too fast is taken for too slow. */
  lemma ClampedPeriodNearest(s: Sensor, period: int, other: int)
    requires (s.minDelay <= 0 || other >= s.minDelay * 1000) && (s.maxDelay <= 0 || other <= s.maxDelay * 1000)
    ensures var c := ClampedPeriod(s, period);
      && (s.minDelay <= 0 || c >= s.minDelay * 1000) && (s.maxDelay <= 0 || c <= s.maxDelay * 1000)
      && (if c >= period then c - period else period - c) <= (if other >= period then other - period else period - other)
  {
  }

  lemma ClampedPeriodContradictory(s: Sensor, period: int)
    requires 0 < s.maxDelay < s.minDelay
    ensures ClampedPeriod(s, period) == (if period < s.minDelay * 1000 then s.minDelay else s.maxDelay) * 1000
  {
  }

  /** batch's search of the sensor list, and the period it arrives at. */
  method BatchPeriod(list: seq<Sensor>, all: seq<Sensor>, handle: int, period: int) returns (clamped: int)
    requires list == Numbered(all, 0)
    ensures clamped == if 1 <= handle <= |all| then ClampedPeriod(all[handle - 1], period) else period
  {
    var minDelay, maxDelay := 0, 0;
    var i := 0;
    while i < |list|
      invariant 0 <= i <= |list|
      invariant minDelay == maxDelay == 0 && (1 <= handle <= |list| ==> i < handle)
    {
      if list[i].handle == handle {
        minDelay := list[i].minDelay * 1000;
        maxDelay := list[i].maxDelay * 1000;
        break;
      }
      i := i + 1;
    }
    clamped := period;
    if minDelay > 0 && period < minDelay {
      clamped := minDelay;
    } else if maxDelay > 0 && period > maxDelay {
      clamped := maxDelay;
    }
  }

  class HandleMaps {
    var global_to_full: map<int, FullHandle>
    var full_to_global: map<FullHandle, int>
    var next_global_handle: int

    function View(): Tables
      reads this
    {
      Tables(global_to_full, full_to_global, next_global_handle)
    }

    constructor ()
      ensures View() == TablesOf([])
    {
      global_to_full, full_to_global, next_global_handle := map[], map[], 1;
    }

    /** assign_global_handle, when the sensors of `all` have their handles.  The handle is new, it and
        the sensor now stand for each other, and the handles given before keep their sensors. */
    method AssignGlobalHandle(moduleIndex: nat, localHandle: int, ghost all: seq<FullHandle>)
      returns (globalHandle: int)
      requires View() == TablesOf(all)
      modifies this
      ensures View() == TablesOf(all + [FullHandle(moduleIndex, localHandle)])
      ensures globalHandle == |all| + 1 && globalHandle !in old(global_to_full)
      ensures global_to_full == old(global_to_full)[globalHandle := FullHandle(moduleIndex, localHandle)]
      ensures full_to_global == old(full_to_global)[FullHandle(moduleIndex, localHandle) := globalHandle]
    {
      GlobalHandles(all);
      assert (all + [FullHandle(moduleIndex, localHandle)])[..|all|] == all;
      globalHandle := next_global_handle;
      next_global_handle := next_global_handle + 1;
      var full_handle := FullHandle(moduleIndex, localHandle);
      full_to_global := full_to_global[full_handle := globalHandle];
      global_to_full := global_to_full[globalHandle := full_handle];
    }

    /** The inner loop of lazy_init_sensors_list: one module's sensors join the list. */
    method ListModule(moduleIndex: nat, sensors: seq<Sensor>, list: seq<Sensor>, ghost before: seq<FullHandle>)
      returns (longer: seq<Sensor>)
      requires View() == TablesOf(before) && |list| == |before|
      modifies this
      ensures View() == TablesOf(before + FullHandles(moduleIndex, sensors))
      ensures longer == list + Numbered(sensors, |list|)
    {
      ghost var fulls := FullHandles(moduleIndex, sensors);
      longer := list;
      var i := 0;
      assert |fulls| == |sensors|;
      assert before + fulls[..0] == before && list + Numbered(sensors[..0], |list|) == list;
      hide TablesOf, Numbered, FullHandles;
      while i < |sensors|
        invariant 0 <= i <= |sensors|
        invariant View() == TablesOf(before + fulls[..i])
        invariant longer == list + Numbered(sensors[..i], |list|)
      {
        OneMore(moduleIndex, sensors, i, list, before);
        var global_handle := AssignGlobalHandle(moduleIndex, sensors[i].handle, before + fulls[..i]);
        longer := longer + [sensors[i].(handle := global_handle)];
        i := i + 1;
      }
      assert fulls[..|sensors|] == fulls && sensors[..|sensors|] == sensors;
    }

    /** The loops of lazy_init_sensors_list: the list of all sensors, each with its global handle. */
    method ListSensors(modules: seq<seq<Sensor>>) returns (list: seq<Sensor>)
      requires View() == TablesOf([])
      modifies this
      ensures View() == TablesOf(Flattened(modules))
      ensures list == Numbered(AllSensors(modules), 0)
    {
      assert Numbered([], 0) == [];
      hide TablesOf, Numbered, FullHandles;
      list := [];
      var moduleIndex := 0;
      while moduleIndex < |modules|
        invariant 0 <= moduleIndex <= |modules|
        invariant View() == TablesOf(Flattened(modules[..moduleIndex]))
        invariant list == Numbered(AllSensors(modules[..moduleIndex]), 0)
      {
        NumberedConcat(AllSensors(modules[..moduleIndex]), modules[moduleIndex], 0);
        list := ListModule(moduleIndex, modules[moduleIndex], list, Flattened(modules[..moduleIndex]));
        assert modules[..moduleIndex + 1][..moduleIndex] == modules[..moduleIndex];
        moduleIndex := moduleIndex + 1;
      }
      assert modules[..|modules|] == modules;
    }

    method GetLocalHandle(globalHandle: int) returns (localHandle: int)
      ensures localHandle == if globalHandle in global_to_full then global_to_full[globalHandle].localHandle else -1
    {
      if globalHandle !in global_to_full {
        return -1;
      }
      localHandle := global_to_full[globalHandle].localHandle;
    }

    method GetModuleIndex(globalHandle: int) returns (moduleIndex: int)
      ensures moduleIndex == if globalHandle in global_to_full then global_to_full[globalHandle].moduleIndex else -1
    {
      if globalHandle !in global_to_full {
        return -1;
      }
      moduleIndex := global_to_full[globalHandle].moduleIndex;
    }

    /** What activate does before it calls the device. */
    method Activate(devices: seq<nat>, handle: int) returns (target: Option<(nat, int)>)
      ensures target == Route(View(), devices, handle)
    {
      var localHandle := GetLocalHandle(handle);
      var subIndex := GetModuleIndex(handle);
      if localHandle >= 0 && 0 <= subIndex < |devices| {
        target := Some((devices[subIndex], localHandle));
      } else {
        target := None;
      }
    }
  }
}
