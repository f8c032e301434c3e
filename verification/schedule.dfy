/** HostTimeAssigner: spreads the maintenance slots of every host evenly over
    a daily time window and hands each group its slots one at a time. Times
    are minutes since midnight; HH:MM parsing and formatting are not modelled. */
module MaintenanceSlots {
  import opened Results

  /** One entry of the group-to-host-count dictionary. */
  datatype GroupCount = GroupCount(name: string, count: int)

  datatype ScheduleError =
    | EndNotAfterStart   // ValueError: the window is empty or reversed
    | NoHosts            // ValueError: the host counts sum to zero
    | WindowTooShort     // ValueError: more hosts than minutes in the window
    | UnknownGroup       // ValueError: no slots were laid out for the group
    | SlotsExhausted     // ValueError: the group's slots are all handed out

  // ---------------------------------------------------------------------
  // The group dictionary, in insertion order

  function Names(gs: seq<GroupCount>): (ns: seq<string>)
    ensures |ns| == |gs|
    ensures forall i :: 0 <= i < |gs| ==> ns[i] == gs[i].name
  {
    if |gs| == 0 then [] else [gs[0].name] + Names(gs[1..])
  }

  /** Dictionary keys are distinct. */
  ghost predicate DistinctNames(gs: seq<GroupCount>) {
    forall i, j :: 0 <= i < j < |gs| ==> gs[i].name != gs[j].name
  }

  /** `sum(groups.values())`. */
  function Total(gs: seq<GroupCount>): int {
    if |gs| == 0 then 0 else gs[0].count + Total(gs[1..])
  }

  ghost predicate AllPositive(gs: seq<GroupCount>) {
    forall i :: 0 <= i < |gs| ==> gs[i].count >= 1
  }

  /** The host count recorded for `name`, 0 for a group that is absent. */
  function CountOf(gs: seq<GroupCount>, name: string): int {
    if |gs| == 0 then 0
    else if gs[0].name == name then gs[0].count
    else CountOf(gs[1..], name)
  }

  lemma {:induction false} TotalPositive(gs: seq<GroupCount>)
    requires AllPositive(gs)
    ensures Total(gs) >= |gs|
  {
    if |gs| > 0 { TotalPositive(gs[1..]); }
  }

  // ---------------------------------------------------------------------
  // Round-robin interleaving

  /** One pass of the interleaving loop over the remaining groups: every
      count goes down by one, and groups that reach zero are deleted. */
  function Decrement(gs: seq<GroupCount>): (r: seq<GroupCount>)
    requires AllPositive(gs)
    ensures AllPositive(r)
    ensures Total(r) == Total(gs) - |gs|
  {
    if |gs| == 0 then []
    else
      var rest := Decrement(gs[1..]);
      if gs[0].count == 1 then rest
      else [GroupCount(gs[0].name, gs[0].count - 1)] + rest
  }

  /** `_interleave_groups`: repeat passes over the groups still in the
      dictionary, naming each once per pass, until none is left. The loop
      only stops when every count is at least one: a count of zero goes to
      -1 and is never deleted. */
  function Interleave(gs: seq<GroupCount>): seq<string>
    requires AllPositive(gs)
    decreases Total(gs)
  {
    if |gs| == 0 then []
    else
      TotalPositive(gs);
      Names(gs) + Interleave(Decrement(gs))
  }

  /** Number of occurrences of `x` in `s`. */
  function Occurrences(s: seq<string>, x: string): nat {
    if |s| == 0 then 0 else (if s[0] == x then 1 else 0) + Occurrences(s[1..], x)
  }

  lemma {:induction false} OccurrencesAppend(a: seq<string>, b: seq<string>, x: string)
    ensures Occurrences(a + b, x) == Occurrences(a, x) + Occurrences(b, x)
    decreases |a|
  {
    if |a| > 0 {
      assert (a + b)[1..] == a[1..] + b;
      OccurrencesAppend(a[1..], b, x);
    } else {
      assert a + b == b;
    }
  }

  lemma {:induction false} InterleaveLength(gs: seq<GroupCount>)
    requires AllPositive(gs)
    ensures |Interleave(gs)| == Total(gs)
    decreases Total(gs)
  {
    if |gs| > 0 {
      TotalPositive(gs);
      InterleaveLength(Decrement(gs));
    }
  }

  lemma {:induction false} CountOfAbsent(gs: seq<GroupCount>, x: string)
    requires x !in Names(gs)
    ensures CountOf(gs, x) == 0
    decreases |gs|
  {
    if |gs| > 0 {
      assert Names(gs) == [gs[0].name] + Names(gs[1..]);
      CountOfAbsent(gs[1..], x);
    }
  }

  /** Putting a group with a new name in front keeps names distinct. */
  lemma DistinctCons(g: GroupCount, rest: seq<GroupCount>)
    requires DistinctNames(rest) && g.name !in Names(rest)
    ensures DistinctNames([g] + rest)
    ensures Names([g] + rest) == [g.name] + Names(rest)
  {
    var d := [g] + rest;
    assert forall j :: 0 < j < |d| ==> d[j] == rest[j - 1];
    assert forall j :: 0 < j < |d| ==> d[j].name in Names(rest);
  }

  /** Decrementing keeps names distinct and only ever drops groups. */
  lemma {:induction false} DecrementNames(gs: seq<GroupCount>)
    requires AllPositive(gs) && DistinctNames(gs)
    ensures DistinctNames(Decrement(gs))
    ensures forall y :: y in Names(Decrement(gs)) ==> y in Names(gs)
    decreases |gs|
  {
    if |gs| > 0 {
      var tail := gs[1..];
      assert forall j :: 0 <= j < |tail| ==> tail[j] == gs[j + 1];
      assert Names(gs) == [gs[0].name] + Names(tail);
      DecrementNames(tail);
      var rest := Decrement(tail);
      assert gs[0].name !in Names(rest);
      if gs[0].count != 1 {
        DistinctCons(GroupCount(gs[0].name, gs[0].count - 1), rest);
      }
    }
  }

  /** Under distinct names, a pass names each group once. */
  lemma {:induction false} NamesOnce(gs: seq<GroupCount>, x: string)
    requires DistinctNames(gs)
    ensures Occurrences(Names(gs), x) == if x in Names(gs) then 1 else 0
    decreases |gs|
  {
    if |gs| > 0 {
      assert Names(gs) == [gs[0].name] + Names(gs[1..]);
      NamesOnce(gs[1..], x);
    }
  }

  /** Under distinct names, a pass removes one host from each group. */
  lemma {:induction false} CountOfDecrement(gs: seq<GroupCount>, x: string)
    requires AllPositive(gs) && DistinctNames(gs)
    ensures CountOf(Decrement(gs), x) == if x in Names(gs) then CountOf(gs, x) - 1 else 0
    decreases |gs|
  {
    if |gs| > 0 {
      var tail := gs[1..];
      assert Names(gs) == [gs[0].name] + Names(tail);
      CountOfDecrement(tail, x);
      if gs[0].name == x {
        DecrementNames(tail);
        CountOfAbsent(Decrement(tail), x);
      }
    } else {
      CountOfAbsent(gs, x);
    }
  }

  /** One pass names each remaining group once, and removes one host from it. */
  lemma PassCounts(gs: seq<GroupCount>, x: string)
    requires AllPositive(gs) && DistinctNames(gs)
    ensures DistinctNames(Decrement(gs))
    ensures Occurrences(Names(gs), x) + CountOf(Decrement(gs), x) == CountOf(gs, x)
  {
    DecrementNames(gs);
    NamesOnce(gs, x);
    CountOfDecrement(gs, x);
    if x !in Names(gs) { CountOfAbsent(gs, x); }
  }

  /** With every count at least one, `_interleave_groups` names each group
      exactly as often as its count, and nothing else. */
  lemma {:induction false} InterleaveCounts(gs: seq<GroupCount>, x: string)
    requires AllPositive(gs) && DistinctNames(gs)
    ensures Occurrences(Interleave(gs), x) == CountOf(gs, x)
    decreases Total(gs)
  {
    if |gs| > 0 {
      TotalPositive(gs);
      PassCounts(gs, x);
      InterleaveCounts(Decrement(gs), x);
      OccurrencesAppend(Names(gs), Interleave(Decrement(gs)), x);
    }
  }

  /** Independent description of the interleaving: pass `k` names, in
      dictionary order, the groups with more than `k` hosts. */
  function Round(gs: seq<GroupCount>, k: int): seq<string> {
    if |gs| == 0 then []
    else (if gs[0].count > k then [gs[0].name] else []) + Round(gs[1..], k)
  }

  function MaxCount(gs: seq<GroupCount>): (m: int)
    ensures m >= 0
    ensures forall i :: 0 <= i < |gs| ==> gs[i].count <= m
  {
    if |gs| == 0 then 0
    else if gs[0].count > MaxCount(gs[1..]) then gs[0].count
    else MaxCount(gs[1..])
  }

  /** Passes `k`, `k + 1`, ... up to the largest count, concatenated. */
  function RoundRobin(gs: seq<GroupCount>, k: nat): seq<string>
    decreases MaxCount(gs) - k
  {
    if k >= MaxCount(gs) then [] else Round(gs, k) + RoundRobin(gs, k + 1)
  }

  lemma {:induction false} RoundOfDecrement(gs: seq<GroupCount>, k: nat)
    requires AllPositive(gs)
    ensures Round(Decrement(gs), k) == Round(gs, k + 1)
    ensures MaxCount(Decrement(gs)) == if |gs| == 0 then 0 else MaxCount(gs) - 1
    decreases |gs|
  {
    if |gs| > 0 {
      RoundOfDecrement(gs[1..], k);
      if gs[0].count != 1 {
        var d := Decrement(gs);
        assert d[1..] == Decrement(gs[1..]);
      }
    }
  }

  lemma {:induction false} RoundAllPositive(gs: seq<GroupCount>)
    requires AllPositive(gs)
    ensures Round(gs, 0) == Names(gs)
    ensures |gs| > 0 ==> MaxCount(gs) >= 1
    decreases |gs|
  {
    if |gs| > 0 { RoundAllPositive(gs[1..]); }
  }

  lemma {:induction false} RoundRobinOfDecrement(gs: seq<GroupCount>, k: nat)
    requires AllPositive(gs)
    ensures RoundRobin(Decrement(gs), k) == RoundRobin(gs, k + 1)
    decreases MaxCount(gs) - k
  {
    RoundOfDecrement(gs, k);
    if k + 1 < MaxCount(gs) {
      RoundRobinOfDecrement(gs, k + 1);
    }
  }

  /** `_interleave_groups` produces the passes of the round robin one after
      the other: first every group, then those with more than one host, and
      so on. */
  lemma {:induction false} InterleaveIsRoundRobin(gs: seq<GroupCount>)
    requires AllPositive(gs)
    ensures Interleave(gs) == RoundRobin(gs, 0)
    decreases Total(gs)
  {
    if |gs| > 0 {
      TotalPositive(gs);
      RoundAllPositive(gs);
      InterleaveIsRoundRobin(Decrement(gs));
      RoundRobinOfDecrement(gs, 0);
    }
  }

  /** One pass of the interleaving: the names, then the rest. */
  lemma InterleaveCons(gs: seq<GroupCount>)
    requires AllPositive(gs) && |gs| > 0
    ensures Interleave(gs) == Names(gs) + Interleave(Decrement(gs))
  {
  }

  lemma DecrementExample()
    ensures Decrement([GroupCount("control", 3), GroupCount("worker_small", 2), GroupCount("worker_big", 1)])
            == [GroupCount("control", 2), GroupCount("worker_small", 1)]
    ensures Decrement([GroupCount("control", 2), GroupCount("worker_small", 1)]) == [GroupCount("control", 1)]
    ensures Decrement([GroupCount("control", 1)]) == []
  {
    var gs := [GroupCount("control", 3), GroupCount("worker_small", 2), GroupCount("worker_big", 1)];
    assert gs[1..][1..][1..] == [];
  }

  /** The documented interleaving of groups of 3, 2 and 1 hosts. */
  lemma InterleaveExample()
    ensures Interleave([GroupCount("control", 3), GroupCount("worker_small", 2), GroupCount("worker_big", 1)])
            == ["control", "worker_small", "worker_big", "control", "worker_small", "control"]
  {
    var gs := [GroupCount("control", 3), GroupCount("worker_small", 2), GroupCount("worker_big", 1)];
    var d1 := [GroupCount("control", 2), GroupCount("worker_small", 1)];
    var d2 := [GroupCount("control", 1)];
    DecrementExample();
    assert Interleave(d2) == ["control"] by {
      InterleaveCons(d2);
      assert Names(d2) == ["control"];
    }
    assert Interleave(d1) == ["control", "worker_small", "control"] by {
      InterleaveCons(d1);
      assert Names(d1) == ["control", "worker_small"];
    }
    InterleaveCons(gs);
    assert Names(gs) == ["control", "worker_small", "worker_big"];
  }

  // ---------------------------------------------------------------------
  // Slot layout

  lemma StepBounds(minutes: int, n: int, i: int)
    requires n >= 2 && minutes >= n && 0 <= i < n
    ensures minutes / (n - 1) >= 1
    ensures 0 <= i * (minutes / (n - 1)) <= minutes
    ensures minutes - (n - 1) * (minutes / (n - 1)) < n - 1
  {
    var d, step := n - 1, minutes / (n - 1);
    var rem := minutes % d;
    assert minutes == d * step + rem && 0 <= rem < d;
    assert step >= 1 by {
      if step <= 0 {
        MulLe(step, 0, d);
      }
    }
    MulLe(i, d, step);
  }

  /** Multiplying by a non-negative number keeps order. */
  lemma MulLe(a: int, b: int, c: int)
    requires a <= b && c >= 0
    ensures a * c <= b * c
  {
    assert b * c - a * c == (b - a) * c;
  }

  lemma StepIncreases(minutes: int, n: int, i: int, j: int)
    requires n >= 2 && minutes >= n && 0 <= i < j < n
    ensures i * (minutes / (n - 1)) < j * (minutes / (n - 1))
  {
    StepBounds(minutes, n, i);
    var step := minutes / (n - 1);
    assert j * step == i * step + (j - i) * step;
  }

  lemma SlotTimesFacts(start: int, minutes: int, n: int, slots: seq<int>)
    requires 2 <= n <= minutes
    requires slots == seq(n, i requires 0 <= i < n => start + i * (minutes / (n - 1)))
    ensures forall i :: 0 <= i < n ==> start <= slots[i] <= start + minutes
    ensures forall i, j :: 0 <= i < j < n ==> slots[i] < slots[j]
    ensures start + minutes - slots[n - 1] < n - 1
    ensures forall i :: 0 < i < n ==> slots[i] - slots[i - 1] == minutes / (n - 1)
  {
    var step := minutes / (n - 1);
    forall i | 0 <= i < n
      ensures start <= slots[i] <= start + minutes
    {
      StepBounds(minutes, n, i);
    }
    forall i, j | 0 <= i < j < n
      ensures slots[i] < slots[j]
    {
      StepIncreases(minutes, n, i, j);
    }
    forall i | 0 < i < n
      ensures slots[i] - slots[i - 1] == step
    {
      assert i * step == (i - 1) * step + step;
    }
    StepBounds(minutes, n, n - 1);
  }

  /** The slot start times of `n` hosts in a window of `minutes` minutes
      from `start`: the first at the start, then a fixed step of
      `minutes // (n - 1)`. They are distinct, ordered, stay inside the
      window, and the last one falls less than `n - 1` minutes before its
      end. */
  function SlotTimes(start: int, minutes: int, n: int): (slots: seq<int>)
    requires 1 <= n <= minutes
    ensures |slots| == n && slots[0] == start
    ensures forall i :: 0 <= i < n ==> start <= slots[i] <= start + minutes
    ensures forall i, j :: 0 <= i < j < n ==> slots[i] < slots[j]
    ensures n >= 2 ==> start + minutes - slots[n - 1] < n - 1
    ensures n >= 2 ==> forall i :: 0 < i < n ==> slots[i] - slots[i - 1] == minutes / (n - 1)
  {
    if n <= 1 then [start]
    else
      var step := minutes / (n - 1);
      var slots := seq(n, i requires 0 <= i < n => start + i * step);
      SlotTimesFacts(start, minutes, n, slots);
      slots
  }

  /** The slots the zip of slot times and interleaved names gives `group`,
      in time order. */
  function Pick(times: seq<int>, order: seq<string>, group: string): seq<int>
    decreases |times|
  {
    if |times| == 0 || |order| == 0 then []
    else (if order[0] == group then [times[0]] else []) + Pick(times[1..], order[1..], group)
  }

  lemma {:induction false} PickLength(times: seq<int>, order: seq<string>, group: string)
    requires |times| == |order|
    ensures |Pick(times, order, group)| == Occurrences(order, group)
    decreases |times|
  {
    if |times| > 0 { PickLength(times[1..], order[1..], group); }
  }

  ghost predicate Increasing(s: seq<int>) {
    forall i, j :: 0 <= i < j < |s| ==> s[i] < s[j]
  }

  /** Picking only ever selects given times. */
  lemma {:induction false} PickMembers(times: seq<int>, order: seq<string>, group: string)
    ensures forall x :: x in Pick(times, order, group) ==> x in times
    decreases |times|
  {
    if |times| > 0 && |order| > 0 {
      PickMembers(times[1..], order[1..], group);
    }
  }

  /** Picking from increasing times keeps them increasing. */
  lemma {:induction false} PickIncreasing(times: seq<int>, order: seq<string>, group: string)
    requires Increasing(times)
    ensures Increasing(Pick(times, order, group))
    decreases |times|
  {
    if |times| > 0 && |order| > 0 {
      var rest := Pick(times[1..], order[1..], group);
      PickIncreasing(times[1..], order[1..], group);
      PickMembers(times[1..], order[1..], group);
      assert forall x :: x in times[1..] ==> times[0] < x;
      var p := Pick(times, order, group);
      if order[0] == group {
        assert p == [times[0]] + rest;
        forall i, j | 0 <= i < j < |p|
          ensures p[i] < p[j]
        {
          assert p[j] == rest[j - 1] && rest[j - 1] in rest;
          if i > 0 { assert p[i] == rest[i - 1]; }
        }
      } else {
        assert p == rest;
      }
    }
  }

  /** The assigner's state: each group's slot times, and how many of them
      were handed out. */
  datatype Assigner = Assigner(slots: map<string, seq<int>>, next: map<string, nat>)

  ghost predicate ValidAssigner(a: Assigner) {
    && a.next.Keys == a.slots.Keys
    && forall g :: g in a.next ==> a.next[g] <= |a.slots[g]|
  }

  /** The constructor's loop `_interleave_groups` ends: the constructor
      raises before reaching it, or every count is at least one. */
  ghost predicate Terminates(gs: seq<GroupCount>, start: int, end: int) {
    end <= start || Total(gs) == 0 || Total(gs) > end - start || AllPositive(gs)
  }

  /** `HostTimeAssigner(groups, start, end)` with both times in minutes. */
  function NewAssigner(gs: seq<GroupCount>, start: int, end: int): (r: Result<Assigner, ScheduleError>)
    requires DistinctNames(gs)
    requires Terminates(gs, start, end)
    ensures r == Err(EndNotAfterStart) <==> end <= start
    ensures r == Err(NoHosts) <==> start < end && Total(gs) == 0
    ensures r == Err(WindowTooShort) <==> start < end && Total(gs) != 0 && Total(gs) > end - start
    ensures r.Ok? <==> start < end && Total(gs) != 0 && Total(gs) <= end - start
    ensures r.Ok? ==> ValidAssigner(r.value)
    ensures r.Ok? ==> forall g :: g in r.value.slots <==> g in Names(gs)
    ensures r.Ok? ==> forall g :: g in r.value.next ==> r.value.next[g] == 0
  {
    if end <= start then Err(EndNotAfterStart)
    else if Total(gs) == 0 then Err(NoHosts)
    else if Total(gs) > end - start then Err(WindowTooShort)
    else
      TotalPositive(gs);
      var times := SlotTimes(start, end - start, Total(gs));
      var order := Interleave(gs);
      var slots := map g | g in Names(gs) :: Pick(times, order, g);
      var next := map g | g in Names(gs) :: 0;
      Ok(Assigner(slots, next))
  }

  /** The layout the constructor builds: every group gets exactly its host
      count of slots, in increasing time order, all inside the window. */
  lemma AssignerLayout(gs: seq<GroupCount>, start: int, end: int, i: nat)
    requires DistinctNames(gs) && Terminates(gs, start, end)
    requires NewAssigner(gs, start, end).Ok?
    requires i < |gs|
    ensures var slots := NewAssigner(gs, start, end).value.slots[gs[i].name];
            && |slots| == gs[i].count
            && Increasing(slots)
            && (forall j :: 0 <= j < |slots| ==> start <= slots[j] <= end)
  {
    var g := gs[i].name;
    NewAssignerSlots(gs, start, end, g);
    var times := SlotTimes(start, end - start, Total(gs));
    InterleaveLength(gs);
    InterleaveCounts(gs, g);
    CountOfFound(gs, i);
    PickLayout(times, Interleave(gs), g, start, end);
  }

  /** What the constructor stores for a group. */
  lemma NewAssignerSlots(gs: seq<GroupCount>, start: int, end: int, g: string)
    requires DistinctNames(gs) && Terminates(gs, start, end)
    requires NewAssigner(gs, start, end).Ok?
    requires g in Names(gs)
    ensures AllPositive(gs) && 1 <= Total(gs) <= end - start
    ensures NewAssigner(gs, start, end).value.slots[g]
            == Pick(SlotTimes(start, end - start, Total(gs)), Interleave(gs), g)
  {
    TotalPositive(gs);
  }

  lemma PickLayout(times: seq<int>, order: seq<string>, g: string, lo: int, hi: int)
    requires |times| == |order| && Increasing(times)
    requires forall j :: 0 <= j < |times| ==> lo <= times[j] <= hi
    ensures var p := Pick(times, order, g);
            |p| == Occurrences(order, g) && Increasing(p) && forall j :: 0 <= j < |p| ==> lo <= p[j] <= hi
  {
    PickLength(times, order, g);
    PickIncreasing(times, order, g);
    PickMembers(times, order, g);
  }

  lemma {:induction false} CountOfFound(gs: seq<GroupCount>, i: nat)
    requires DistinctNames(gs) && i < |gs|
    ensures CountOf(gs, gs[i].name) == gs[i].count
    decreases |gs|
  {
    if i > 0 { CountOfFound(gs[1..], i - 1); }
  }

  // ---------------------------------------------------------------------
  // Handing out slots

  /** `get_next_slot(group)`: the group's next slot in time order. */
  function GetNextSlot(a: Assigner, group: string): (r: Result<(int, Assigner), ScheduleError>)
    requires ValidAssigner(a)
    ensures r == Err(UnknownGroup) <==> group !in a.slots
    ensures r == Err(SlotsExhausted) <==> group in a.slots && a.next[group] == |a.slots[group]|
    ensures r.Ok? <==> group in a.slots && a.next[group] < |a.slots[group]|
    ensures r.Ok? ==> var b := r.value.1;
              && r.value.0 == a.slots[group][a.next[group]]
              && ValidAssigner(b) && b.slots == a.slots
              && b.next == a.next[group := a.next[group] + 1]
  {
    if group !in a.slots then Err(UnknownGroup)
    else
      var idx := a.next[group];
      if idx >= |a.slots[group]| then Err(SlotsExhausted)
      else Ok((a.slots[group][idx], a.(next := a.next[group := idx + 1])))
  }

  /** `get_all_slots(group)`. */
  function GetAllSlots(a: Assigner, group: string): (r: Result<seq<int>, ScheduleError>)
    ensures r.Err? <==> group !in a.slots
    ensures r.Err? ==> r.error == UnknownGroup
    ensures r.Ok? ==> r.value == a.slots[group]
  {
    if group !in a.slots then Err(UnknownGroup) else Ok(a.slots[group])
  }

  /** `k` calls of `get_next_slot(group)` in a row, collecting the slots. */
  function TakeSlots(a: Assigner, group: string, k: nat): Result<(seq<int>, Assigner), ScheduleError>
    requires ValidAssigner(a)
    decreases k
  {
    if k == 0 then Ok(([], a))
    else
      match GetNextSlot(a, group)
      case Err(e) => Err(e)
      case Ok(step) =>
        match TakeSlots(step.1, group, k - 1)
        case Err(e) => Err(e)
        case Ok(more) => Ok(([step.0] + more.0, more.1))
  }

  /** A non-empty slice is its first element followed by the rest. */
  lemma SliceCons(s: seq<int>, i: nat, j: nat)
    requires i < j <= |s|
    ensures s[i..j] == [s[i]] + s[i + 1..j]
  {
  }

  /** Setting a cursor to where it is changes nothing. */
  lemma UpdateSame(m: map<string, nat>, key: string)
    requires key in m
    ensures m[key := m[key]] == m
  {
  }

  /** Moving a cursor twice is moving it once to the second place. */
  lemma UpdateTwice(m: map<string, nat>, key: string, x: nat, y: nat)
    ensures m[key := x][key := y] == m[key := y]
  {
  }

  /** What `k` calls in a row on a group with `k` slots left give: the
      slots in order, that group's position moved by `k`, all else
      unchanged. */
  ghost predicate Fitted(a: Assigner, group: string, k: nat)
    requires ValidAssigner(a) && group in a.slots
    requires a.next[group] + k <= |a.slots[group]|
  {
    var r := TakeSlots(a, group, k);
    && r.Ok?
    && r.value.0 == a.slots[group][a.next[group]..a.next[group] + k]
    && r.value.1.slots == a.slots
    && r.value.1.next == a.next[group := a.next[group] + k]
  }

  /** One call followed by `k - 1` more that fit is `k` calls that fit. */
  lemma FittedCons(a: Assigner, group: string, k: nat)
    requires ValidAssigner(a) && group in a.slots
    requires 0 < k && a.next[group] + k <= |a.slots[group]|
    requires var b := a.(next := a.next[group := a.next[group] + 1]);
             ValidAssigner(b) && Fitted(b, group, k - 1)
    ensures Fitted(a, group, k)
  {
    var n := a.next[group];
    var all := a.slots[group];
    var step := GetNextSlot(a, group);
    var b := step.value.1;
    assert b == a.(next := a.next[group := n + 1]);
    var more := TakeSlots(b, group, k - 1).value;
    assert TakeSlots(a, group, k) == Ok(([all[n]] + more.0, more.1));
    assert more.1.next == a.next[group := n + k] by {
      assert b.next[group] + (k - 1) == n + k;
      assert more.1.next == b.next[group := n + k];
      UpdateTwice(a.next, group, n + 1, n + k);
    }
    assert [all[n]] + more.0 == all[n..n + k] by {
      assert more.0 == all[n + 1..n + k];
      SliceCons(all, n, n + k);
    }
  }

  /** `k` calls in a row on a group with `k` slots left all succeed. */
  lemma {:induction false} TakeSlotsFits(a: Assigner, group: string, k: nat)
    requires ValidAssigner(a) && group in a.slots
    requires a.next[group] + k <= |a.slots[group]|
    ensures Fitted(a, group, k)
    decreases k
  {
    var n := a.next[group];
    if k == 0 {
      UpdateSame(a.next, group);
      assert a.slots[group][n..n] == [];
    } else {
      var b := GetNextSlot(a, group).value.1;
      assert b == a.(next := a.next[group := n + 1]);
      TakeSlotsFits(b, group, k - 1);
      FittedCons(a, group, k);
    }
  }

  /** More calls than the group has slots left: the last one raises. */
  lemma {:induction false} TakeSlotsExhausts(a: Assigner, group: string, k: nat)
    requires ValidAssigner(a) && group in a.slots
    requires a.next[group] + k > |a.slots[group]|
    ensures TakeSlots(a, group, k) == Err(SlotsExhausted)
    decreases k
  {
    var n := a.next[group];
    var step := GetNextSlot(a, group);
    if n == |a.slots[group]| {
      assert step == Err(SlotsExhausted);
    } else {
      var b := step.value.1;
      assert b.next[group] == n + 1 && b.slots == a.slots;
      TakeSlotsExhausts(b, group, k - 1);
    }
  }

  /** Successive `get_next_slot` calls for a group hand out its slots in
      order, one per call, and move only that group's position; once they
      are all out, the next call raises. */
  lemma TakeSlotsInOrder(a: Assigner, group: string, k: nat)
    requires ValidAssigner(a) && group in a.slots
    ensures a.next[group] + k <= |a.slots[group]| ==>
              TakeSlots(a, group, k) ==
                Ok((a.slots[group][a.next[group]..a.next[group] + k],
                    a.(next := a.next[group := a.next[group] + k])))
    ensures a.next[group] + k > |a.slots[group]| ==> TakeSlots(a, group, k) == Err(SlotsExhausted)
  {
    if a.next[group] + k <= |a.slots[group]| {
      TakeSlotsFits(a, group, k);
    } else {
      TakeSlotsExhausts(a, group, k);
    }
  }

  lemma ExampleTimes()
    ensures SlotTimes(120, 60, 6) == [120, 132, 144, 156, 168, 180]
  {
    var t := SlotTimes(120, 60, 6);
    assert 60 / 5 == 12;
    assert t[1] == 132 && t[2] == 144 && t[3] == 156 && t[4] == 168 && t[5] == 180;
  }

  /** The slot times and group order of the documented example. */
  const ExampleTimeList: seq<int> := [120, 132, 144, 156, 168, 180]
  const ExampleOrder: seq<string> :=
    ["control", "worker_small", "worker_big", "control", "worker_small", "control"]

  /** Picking from a list with a known head looks at the head, then the
      rest. */
  lemma PickPrepend(t: int, ts: seq<int>, o: string, os: seq<string>, group: string)
    ensures Pick([t] + ts, [o] + os, group) == (if o == group then [t] else []) + Pick(ts, os, group)
  {
    assert ([t] + ts)[1..] == ts && ([o] + os)[1..] == os;
  }

  /** The example lists, built one position at a time. */
  lemma ExampleListsCons()
    ensures ExampleTimeList == [120] + ([132] + ([144] + ([156] + ([168] + [180]))))
    ensures ExampleOrder == ["control"] + (["worker_small"] + (["worker_big"]
                            + (["control"] + (["worker_small"] + ["control"]))))
  {
  }

  /** The documented picks of one group, peeled off position by position:
      `rk` is what the group picks from position `k` on. */
  lemma ExamplePickOf(group: string, r0: seq<int>, r1: seq<int>, r2: seq<int>, r3: seq<int>, r4: seq<int>, r5: seq<int>)
    requires r5 == (if "control" == group then [180] else [])
    requires r4 == (if "worker_small" == group then [168] else []) + r5
    requires r3 == (if "control" == group then [156] else []) + r4
    requires r2 == (if "worker_big" == group then [144] else []) + r3
    requires r1 == (if "worker_small" == group then [132] else []) + r2
    requires r0 == (if "control" == group then [120] else []) + r1
    ensures Pick(ExampleTimeList, ExampleOrder, group) == r0
  {
    var t4, o4 := [168] + [180], ["worker_small"] + ["control"];
    var t3, o3 := [156] + t4, ["control"] + o4;
    var t2, o2 := [144] + t3, ["worker_big"] + o3;
    var t1, o1 := [132] + t2, ["worker_small"] + o2;
    ExampleListsCons();
    assert Pick([180], ["control"], group) == r5 by {
      PickPrepend(180, [], "control", [], group);
      assert [180] + [] == [180] && ["control"] + [] == ["control"];
    }
    assert Pick(t4, o4, group) == r4 by { PickPrepend(168, [180], "worker_small", ["control"], group); }
    assert Pick(t3, o3, group) == r3 by { PickPrepend(156, t4, "control", o4, group); }
    assert Pick(t2, o2, group) == r2 by { PickPrepend(144, t3, "worker_big", o3, group); }
    assert Pick(t1, o1, group) == r1 by { PickPrepend(132, t2, "worker_small", o2, group); }
    PickPrepend(120, t1, "control", o1, group);
  }

  lemma ExamplePickControl()
    ensures Pick(ExampleTimeList, ExampleOrder, "control") == [120, 156, 180]
  {
    ExamplePickOf("control", [120, 156, 180], [156, 180], [156, 180], [156, 180], [180], [180]);
  }

  lemma ExamplePickSmall()
    ensures Pick(ExampleTimeList, ExampleOrder, "worker_small") == [132, 168]
  {
    ExamplePickOf("worker_small", [132, 168], [132, 168], [168], [168], [168], []);
  }

  lemma ExamplePickBig()
    ensures Pick(ExampleTimeList, ExampleOrder, "worker_big") == [144]
  {
    ExamplePickOf("worker_big", [144], [144], [144], [], [], []);
  }

  /** The groups of the documented example. */
  const ExampleGroups: seq<GroupCount> :=
    [GroupCount("control", 3), GroupCount("worker_small", 2), GroupCount("worker_big", 1)]

  lemma ExampleGroupFacts()
    ensures DistinctNames(ExampleGroups) && AllPositive(ExampleGroups)
    ensures Total(ExampleGroups) == 6
    ensures Names(ExampleGroups) == ["control", "worker_small", "worker_big"]
    ensures Interleave(ExampleGroups) == ExampleOrder
  {
    InterleaveExample();
  }

  lemma ExampleSlots(g: string)
    requires g in ["control", "worker_small", "worker_big"]
    ensures NewAssigner(ExampleGroups, 120, 180).Ok?
    ensures NewAssigner(ExampleGroups, 120, 180).value.slots[g]
            == Pick(ExampleTimeList, ExampleOrder, g)
  {
    ExampleGroupFacts();
    ExampleTimes();
    NewAssignerSlots(ExampleGroups, 120, 180, g);
  }

  /** The documented layout of a 02:00-03:00 window (minutes 120 to 180)
      over three groups of 3, 2 and 1 hosts. */
  lemma AssignerExample()
    ensures var r := NewAssigner(ExampleGroups, 120, 180);
            && r.Ok?
            && GetAllSlots(r.value, "control") == Ok([120, 156, 180])
            && GetAllSlots(r.value, "worker_small") == Ok([132, 168])
            && GetAllSlots(r.value, "worker_big") == Ok([144])
  {
    ExampleGroupFacts();
    ExamplePickControl();
    ExamplePickSmall();
    ExamplePickBig();
    ExampleSlots("control");
    ExampleSlots("worker_small");
    ExampleSlots("worker_big");
  }
}
