/** ValueManager: hands out the least-used of a list of values (server
    locations) and records uses observed elsewhere, so that hosts spread
    evenly over the values. */
module LeastUsed {
  import opened Results

  datatype ValueError =
    | NoValues      // min() over an empty counter
    | UnknownItem   // increment() of a value that is not managed

  /** The managed values in their given order, and how often each was used.
      The counter's keys are the distinct values; iterating it visits them
      in order of first appearance in the list. */
  datatype Manager = Manager(values: seq<string>, counts: map<string, nat>)

  ghost predicate Valid(m: Manager) {
    forall v :: v in m.counts <==> v in m.values
  }

  /** `ValueManager(values)`: every value unused. */
  function NewManager(values: seq<string>): (m: Manager)
    ensures Valid(m) && m.values == values
    ensures forall v :: v in values ==> m.counts[v] == 0
  {
    Manager(values, map v | v in values :: 0)
  }

  /** Scan from index `i`, where `best` is the first index of a least count
      among the first `i` values. */
  function FirstLeastFrom(values: seq<string>, counts: map<string, nat>, i: nat, best: nat): (k: nat)
    requires forall j :: 0 <= j < |values| ==> values[j] in counts
    requires best < i <= |values|
    requires forall j :: 0 <= j < i ==> counts[values[best]] <= counts[values[j]]
    requires forall j :: 0 <= j < best ==> counts[values[best]] < counts[values[j]]
    ensures k < |values|
    ensures forall j :: 0 <= j < |values| ==> counts[values[k]] <= counts[values[j]]
    ensures forall j :: 0 <= j < k ==> counts[values[k]] < counts[values[j]]
    decreases |values| - i
  {
    if i == |values| then best
    else if counts[values[i]] < counts[values[best]] then FirstLeastFrom(values, counts, i + 1, i)
    else FirstLeastFrom(values, counts, i + 1, best)
  }

  /** Index of the first value, in list order, whose count is least. */
  function FirstLeast(m: Manager): (k: nat)
    requires Valid(m) && |m.values| > 0
    ensures k < |m.values|
    ensures forall j :: 0 <= j < |m.values| ==> m.counts[m.values[k]] <= m.counts[m.values[j]]
    ensures forall j :: 0 <= j < k ==> m.counts[m.values[k]] < m.counts[m.values[j]]
  {
    FirstLeastFrom(m.values, m.counts, 1, 0)
  }

  /** `get_next`: the least-used value (ties to the earliest in list order),
      whose count alone goes up by one. */
  function GetNext(m: Manager): (r: Result<(string, Manager), ValueError>)
    requires Valid(m)
    ensures r.Err? <==> |m.values| == 0
    ensures r.Err? ==> r.error == NoValues
    ensures r.Ok? ==> r.value.0 in m.values
    ensures r.Ok? ==> forall w :: w in m.values ==> m.counts[r.value.0] <= m.counts[w]
    ensures r.Ok? ==> exists k :: 0 <= k < |m.values| && m.values[k] == r.value.0 &&
                        forall j :: 0 <= j < k ==> m.counts[m.values[j]] > m.counts[r.value.0]
    ensures r.Ok? ==> var m' := r.value.1;
              && Valid(m') && m'.values == m.values
              && m'.counts[r.value.0] == m.counts[r.value.0] + 1
              && forall w :: w in m.counts && w != r.value.0 ==> m'.counts[w] == m.counts[w]
  {
    if |m.values| == 0 then Err(NoValues)
    else
      var k := FirstLeast(m);
      var v := m.values[k];
      Ok((v, Manager(m.values, m.counts[v := m.counts[v] + 1])))
  }

  /** `increment(item)`: record one outside use of a managed value. */
  function Increment(m: Manager, item: string): (r: Result<Manager, ValueError>)
    requires Valid(m)
    ensures r.Err? <==> item !in m.values
    ensures r.Err? ==> r.error == UnknownItem
    ensures r.Ok? ==> var m' := r.value;
              && Valid(m') && m'.values == m.values
              && m'.counts[item] == m.counts[item] + 1
              && forall w :: w in m.counts && w != item ==> m'.counts[w] == m.counts[w]
  {
    if item !in m.values then Err(UnknownItem)
    else Ok(Manager(m.values, m.counts[item := m.counts[item] + 1]))
  }

  /** No two managed values' counts differ by more than one. */
  ghost predicate Balanced(m: Manager)
    requires Valid(m)
  {
    forall v, w :: v in m.values && w in m.values ==> m.counts[v] <= m.counts[w] + 1
  }

  /** A fresh manager is balanced, and handing out values with `get_next`
      keeps it balanced: the distribution stays fair. */
  lemma GetNextKeepsBalance(m: Manager)
    requires Valid(m) && Balanced(m) && |m.values| > 0
    ensures GetNext(m).Ok? && Balanced(GetNext(m).value.1)
  {
    var (v, m') := GetNext(m).value;
    forall x, y | x in m'.values && y in m'.values
      ensures m'.counts[x] <= m'.counts[y] + 1
    {
      if x == v && y != v {
        assert m.counts[v] <= m.counts[y];
      }
    }
  }

  lemma NewManagerBalanced(values: seq<string>)
    ensures Balanced(NewManager(values))
  {
  }

  /** A manager over the three default locations with the given counts. */
  function Locations(fsn: nat, nbg: nat, hel: nat): Manager {
    Manager(["fsn1", "nbg1", "hel1"], map["fsn1" := fsn, "nbg1" := nbg, "hel1" := hel])
  }

  lemma NewLocations()
    ensures NewManager(["fsn1", "nbg1", "hel1"]) == Locations(0, 0, 0)
  {
    var m := NewManager(["fsn1", "nbg1", "hel1"]);
    assert m.counts.Keys == Locations(0, 0, 0).counts.Keys;
  }

  lemma ExampleFirst()
    ensures GetNext(Locations(0, 0, 0)) == Ok(("fsn1", Locations(1, 0, 0)))
  {
    var m := Locations(0, 0, 0);
    assert FirstLeast(m) == 0;
    assert m.counts["fsn1" := 1] == Locations(1, 0, 0).counts;
  }

  lemma ExampleSecond()
    ensures GetNext(Locations(1, 0, 0)) == Ok(("nbg1", Locations(1, 1, 0)))
  {
    var m := Locations(1, 0, 0);
    assert FirstLeast(m) == 1;
    assert m.counts["nbg1" := 1] == Locations(1, 1, 0).counts;
  }

  lemma ExampleThird()
    ensures GetNext(Locations(1, 1, 0)) == Ok(("hel1", Locations(1, 1, 1)))
  {
    var m := Locations(1, 1, 0);
    assert FirstLeast(m) == 2;
    assert m.counts["hel1" := 1] == Locations(1, 1, 1).counts;
  }

  lemma ExampleFourth()
    ensures GetNext(Locations(1, 1, 1)) == Ok(("fsn1", Locations(2, 1, 1)))
  {
    var m := Locations(1, 1, 1);
    assert FirstLeast(m) == 0;
    assert m.counts["fsn1" := 2] == Locations(2, 1, 1).counts;
  }

  /** The documented run: three locations are handed out in list order, then
      the first again. */
  lemma GetNextExample()
    ensures var m0 := NewManager(["fsn1", "nbg1", "hel1"]);
            var r1 := GetNext(m0);
            r1.Ok? && r1.value.0 == "fsn1" &&
            var r2 := GetNext(r1.value.1);
            r2.Ok? && r2.value.0 == "nbg1" &&
            var r3 := GetNext(r2.value.1);
            r3.Ok? && r3.value.0 == "hel1" &&
            var r4 := GetNext(r3.value.1);
            r4.Ok? && r4.value.0 == "fsn1"
  {
    NewLocations();
    ExampleFirst();
    ExampleSecond();
    ExampleThird();
    ExampleFourth();
  }

  /** The documented `increment` calls: a known value counts one more use,
      an unknown one is refused. */
  lemma IncrementExample()
    ensures var m0 := NewManager(["fsn1", "nbg1"]);
            var r := Increment(m0, "fsn1");
            r.Ok? && r.value.counts["fsn1"] == 1 && r.value.counts["nbg1"] == 0 &&
            Increment(m0, "unknown") == Err(UnknownItem)
  {
  }
}
