/** `_validate_config_structure`: the checks the cluster file must pass
    before any cloud data is loaded. */
module ConfigValidation {
  import opened Results
  import opened Text
  import opened ConfigLookup

  datatype ConfigError =
    | LookupFailed          // a lookup raised TypeError
    | NodesMissing          // `nodes` is missing or empty
    | TokenMissing          // `hetzner.token.cloud` is missing or empty
    | WindowMissing         // a maintenance window bound is missing or empty
    | NodesNotMapping       // `nodes` is set but is not a mapping of groups
    | NoRole(group: string)
    | BadNum(group: string) // `int(num)` fails for a control group
    | MissingType(group: string)
    | MissingNum(group: string)
    | NoControlGroup
    | NoWorkerGroup
    | TwoControlNodes       // etcd cannot run on exactly two members
    | VolumeNotMapping
    | VolumeNameMissing
    | VolumeSizeMissing
    | VolumesNotIterable    // iterating an int or a bool raises TypeError

  /** The errors the loop over node groups can raise. */
  predicate GroupError(e: ConfigError) {
    e.LookupFailed? || e.NoRole? || e.BadNum? || e.MissingType? || e.MissingNum?
  }

  /** The errors the loop over volumes can raise. */
  predicate VolumeError(e: ConfigError) {
    e.VolumeNotMapping? || e.VolumeNameMissing? || e.VolumeSizeMissing? || e.VolumesNotIterable?
  }

  /** `int(value)` for the values a YAML `num` can hold. */
  function ToInt(v: Value): Option<int> {
    match v
    case Int(i) => Some(i)
    case Bool(b) => Some(if b then 1 else 0)
    case Str(s) => ParseInt(s)
    case _ => None
  }

  /** The four settings the loop reads for one group, as lookup results. */
  datatype GroupSettings = GroupSettings(isControl: Result<Value, LookupError>,
                                         isWorker: Result<Value, LookupError>,
                                         typ: Result<Value, LookupError>,
                                         num: Result<Value, LookupError>)

  function Settings(reading: Reading, c: Value, g: string): GroupSettings {
    GroupSettings(GroupConfig(reading, c, g, "is_control", Null), GroupConfig(reading, c, g, "is_worker", Null),
                  GroupConfig(reading, c, g, "type", Null), GroupConfig(reading, c, g, "num", Null))
  }

  /** Each group name paired with its settings, in mapping order. */
  function GroupTable(reading: Reading, c: Value, groups: seq<string>): (t: seq<(string, GroupSettings)>)
    ensures |t| == |groups|
    ensures forall i :: 0 <= i < |t| ==> t[i] == (groups[i], Settings(reading, c, groups[i]))
  {
    if |groups| == 0 then []
    else [(groups[0], Settings(reading, c, groups[0]))] + GroupTable(reading, c, groups[1..])
  }

  /** What one group contributes: its roles and, for a control group, its
      host count. */
  datatype GroupInfo = GroupInfo(control: bool, worker: bool, controlHosts: int)

  /** The body of the loop over node groups, in the order of its checks:
      `num` of a control group is converted before `type` is looked at. */
  function GroupStep(g: string, s: GroupSettings): (r: Result<GroupInfo, ConfigError>)
    ensures r.Err? ==> GroupError(r.error)
    ensures r.Err? && r.error.NoRole? ==> r.error.group == g && !Flag(s.isControl) && !Flag(s.isWorker)
    ensures r.Ok? ==> r.value.control || r.value.worker
  {
    match s.isControl
    case Err(_) => Err(LookupFailed)
    case Ok(ctl) =>
      match s.isWorker
      case Err(_) => Err(LookupFailed)
      case Ok(wrk) =>
        if !(Truthy(ctl) || Truthy(wrk)) then Err(NoRole(g))
        else
          var counted: Result<int, ConfigError> :=
            if !Truthy(ctl) then Ok(0)
            else match s.num
                 case Err(_) => Err(LookupFailed)
                 case Ok(num) =>
                   if num.Null? then Ok(0)
                   else match ToInt(num)
                        case None => Err(BadNum(g))
                        case Some(n) => Ok(n);
          match counted
          case Err(e) => Err(e)
          case Ok(n) =>
            match s.typ
            case Err(_) => Err(LookupFailed)
            case Ok(typ) =>
              if !Truthy(typ) then Err(MissingType(g))
              else match s.num
                   case Err(_) => Err(LookupFailed)
                   case Ok(num) =>
                     if num.Null? then Err(MissingNum(g))
                     else Ok(GroupInfo(Truthy(ctl), Truthy(wrk), n))
  }

  /** The loop over node groups, accumulating roles and control hosts. */
  function CheckGroups(table: seq<(string, GroupSettings)>, acc: GroupInfo): (r: Result<GroupInfo, ConfigError>)
    ensures r.Err? ==> GroupError(r.error)
    ensures r.Ok? && |table| > 0 ==> r.value.control || r.value.worker
    decreases |table|
  {
    if |table| == 0 then Ok(acc)
    else
      match GroupStep(table[0].0, table[0].1)
      case Err(e) => Err(e)
      case Ok(info) =>
        CheckGroups(table[1..],
                    GroupInfo(acc.control || info.control, acc.worker || info.worker,
                              acc.controlHosts + info.controlHosts))
  }

  /** The checks of one `volumes` entry. */
  function CheckVolume(v: Value): (r: Outcome<ConfigError>)
    ensures r.Fail? ==> VolumeError(r.reason)
  {
    if !v.Dict? then Fail(VolumeNotMapping)
    else if Find(v.entries, "name").None? || !Truthy(Find(v.entries, "name").value) then Fail(VolumeNameMissing)
    else if Find(v.entries, "size").None? || !Truthy(Find(v.entries, "size").value) then Fail(VolumeSizeMissing)
    else Pass
  }

  function CheckVolumeItems(items: seq<Value>): (r: Outcome<ConfigError>)
    ensures r.Fail? ==> VolumeError(r.reason)
  {
    if |items| == 0 then Pass
    else if CheckVolume(items[0]).Fail? then CheckVolume(items[0])
    else CheckVolumeItems(items[1..])
  }

  /** The loop over `volumes`: iterating a mapping yields its keys and
      iterating a string its characters, none of which is a mapping. */
  function CheckVolumes(vs: Value): (r: Outcome<ConfigError>)
    ensures r.Fail? ==> VolumeError(r.reason)
  {
    match vs
    case List(items) => CheckVolumeItems(items)
    case Dict(entries) => if |entries| == 0 then Pass else Fail(VolumeNotMapping)
    case Str(s) => if s == "" then Pass else Fail(VolumeNotMapping)
    case _ => Fail(VolumesNotIterable)
  }

  /** Every setting `_validate_config_structure` reads, looked up in `c`;
      the groups are those of `nodes` when it is a mapping. */
  datatype Snapshot = Snapshot(nodes: Result<Value, LookupError>,
                               token: Result<Value, LookupError>,
                               start: Result<Value, LookupError>,
                               end: Result<Value, LookupError>,
                               groups: seq<(string, GroupSettings)>,
                               volumes: Result<Value, LookupError>)

  function TakeSnapshot(reading: Reading, c: Value): Snapshot {
    var nodes := Lookup(reading, "nodes", Null, c);
    Snapshot(nodes,
             Lookup(reading, "hetzner.token.cloud", Null, c),
             Lookup(reading, "unattended_upgrades.start_time", Null, c),
             Lookup(reading, "unattended_upgrades.end_time", Null, c),
             if nodes.Ok? && nodes.value.Dict? then GroupTable(reading, c, Keys(nodes.value.entries)) else [],
             Lookup(reading, "volumes", List([]), c))
  }

  /** The checks of `_validate_config_structure`, in the source's order. A
      `nodes` value that is set but is not a mapping always fails in the
      source: iterating it raises, or its first element names a group
      without a role. */
  function CheckSnapshot(s: Snapshot): Outcome<ConfigError> {
    match s.nodes
    case Err(_) => Fail(LookupFailed)
    case Ok(nodes) =>
      if !Truthy(nodes) then Fail(NodesMissing)
      else match s.token
      case Err(_) => Fail(LookupFailed)
      case Ok(token) =>
        if !Truthy(token) then Fail(TokenMissing)
        else match s.start
        case Err(_) => Fail(LookupFailed)
        case Ok(start) =>
          if !Truthy(start) then Fail(WindowMissing)
          else match s.end
          case Err(_) => Fail(LookupFailed)
          case Ok(end) =>
            if !Truthy(end) then Fail(WindowMissing)
            else if !nodes.Dict? then Fail(NodesNotMapping)
            else match CheckGroups(s.groups, GroupInfo(false, false, 0))
            case Err(e) => Fail(e)
            case Ok(acc) =>
              if !acc.control then Fail(NoControlGroup)
              else if !acc.worker then Fail(NoWorkerGroup)
              else if acc.controlHosts == 2 then Fail(TwoControlNodes)
              else match s.volumes
              case Err(_) => Fail(LookupFailed)
              case Ok(vs) => CheckVolumes(vs)
  }

  /** `_validate_config_structure(config)`: with `AsWritten`, what the
      source computes; with `AsIntended`, the same checks over the corrected
      lookup. */
  function Validate(reading: Reading, c: Value): Outcome<ConfigError> {
    CheckSnapshot(TakeSnapshot(reading, c))
  }

  // ---------------------------------------------------------------------
  // Declarative description of an accepted file

  /** A setting looked up without error and truthy. */
  predicate Flag(r: Result<Value, LookupError>) {
    r.Ok? && Truthy(r.value)
  }

  /** The group's host count as an integer, 0 when it has none. */
  function NumOf(s: GroupSettings): int {
    if s.num.Ok? && ToInt(s.num.value).Some? then ToInt(s.num.value).value else 0
  }

  /** A group is acceptable when its settings can be read, it has a role,
      a type and a host count, and a control group's count is an integer. */
  predicate GroupOk(s: GroupSettings) {
    && s.isControl.Ok? && s.isWorker.Ok? && s.typ.Ok? && s.num.Ok?
    && (Truthy(s.isControl.value) || Truthy(s.isWorker.value))
    && Truthy(s.typ.value)
    && !s.num.value.Null?
    && (Truthy(s.isControl.value) ==> ToInt(s.num.value).Some?)
  }

  /** Control hosts summed over the control groups. */
  function ControlHosts(table: seq<(string, GroupSettings)>): int
    decreases |table|
  {
    if |table| == 0 then 0
    else (if Flag(table[0].1.isControl) then NumOf(table[0].1) else 0) + ControlHosts(table[1..])
  }

  ghost predicate VolumeOk(v: Value) {
    && v.Dict?
    && Find(v.entries, "name").Some? && Truthy(Find(v.entries, "name").value)
    && Find(v.entries, "size").Some? && Truthy(Find(v.entries, "size").value)
  }

  ghost predicate VolumesOk(vs: Value) {
    || (vs.List? && forall i :: 0 <= i < |vs.items| ==> VolumeOk(vs.items[i]))
    || (vs.Dict? && vs.entries == [])
    || (vs.Str? && vs.s == "")
  }

  /** An accepted snapshot: the required settings are present, every group
      is acceptable, there is a control group and a worker group, the
      control plane does not have exactly two hosts, and every volume has a
      name and a size. */
  ghost predicate SnapshotOk(s: Snapshot) {
    && s.nodes.Ok? && s.token.Ok? && s.start.Ok? && s.end.Ok? && s.volumes.Ok?
    && s.nodes.value.Dict? && s.nodes.value.entries != []
    && Truthy(s.token.value) && Truthy(s.start.value) && Truthy(s.end.value)
    && (forall i :: 0 <= i < |s.groups| ==> GroupOk(s.groups[i].1))
    && (exists i :: 0 <= i < |s.groups| && Flag(s.groups[i].1.isControl))
    && (exists i :: 0 <= i < |s.groups| && Flag(s.groups[i].1.isWorker))
    && ControlHosts(s.groups) != 2
    && VolumesOk(s.volumes.value)
  }

  ghost predicate WellFormed(reading: Reading, c: Value) {
    SnapshotOk(TakeSnapshot(reading, c))
  }

  lemma GroupStepSpec(g: string, s: GroupSettings)
    ensures GroupStep(g, s).Ok? <==> GroupOk(s)
    ensures GroupStep(g, s).Ok? ==>
              GroupStep(g, s).value ==
                GroupInfo(Flag(s.isControl), Flag(s.isWorker), if Flag(s.isControl) then NumOf(s) else 0)
  {
  }

  lemma {:induction false} CheckGroupsSpec(table: seq<(string, GroupSettings)>, acc: GroupInfo)
    ensures CheckGroups(table, acc).Ok? <==> forall i :: 0 <= i < |table| ==> GroupOk(table[i].1)
    ensures CheckGroups(table, acc).Ok? ==>
              var r := CheckGroups(table, acc).value;
              && r.control == (acc.control || exists i :: 0 <= i < |table| && Flag(table[i].1.isControl))
              && r.worker == (acc.worker || exists i :: 0 <= i < |table| && Flag(table[i].1.isWorker))
              && r.controlHosts == acc.controlHosts + ControlHosts(table)
    decreases |table|
  {
    if |table| > 0 {
      GroupStepSpec(table[0].0, table[0].1);
      var step := GroupStep(table[0].0, table[0].1);
      var rest := table[1..];
      assert forall i :: 1 <= i < |table| ==> table[i] == rest[i - 1];
      if step.Ok? {
        var info := step.value;
        var acc' := GroupInfo(acc.control || info.control, acc.worker || info.worker,
                              acc.controlHosts + info.controlHosts);
        CheckGroupsSpec(rest, acc');
        assert (exists i :: 0 <= i < |table| && Flag(table[i].1.isControl)) <==>
               Flag(table[0].1.isControl) || exists i :: 0 <= i < |rest| && Flag(rest[i].1.isControl);
        assert (exists i :: 0 <= i < |table| && Flag(table[i].1.isWorker)) <==>
               Flag(table[0].1.isWorker) || exists i :: 0 <= i < |rest| && Flag(rest[i].1.isWorker);
      }
    }
  }

  lemma {:induction false} CheckVolumeItemsSpec(items: seq<Value>)
    ensures CheckVolumeItems(items).Pass? <==> forall i :: 0 <= i < |items| ==> VolumeOk(items[i])
    decreases |items|
  {
    if |items| > 0 {
      CheckVolumeItemsSpec(items[1..]);
      assert forall i :: 1 <= i < |items| ==> items[i] == items[1..][i - 1];
    }
  }

  lemma CheckVolumesSpec(vs: Value)
    ensures CheckVolumes(vs).Pass? <==> VolumesOk(vs)
  {
    if vs.List? { CheckVolumeItemsSpec(vs.items); }
  }

  lemma CheckSnapshotSpec(s: Snapshot)
    ensures CheckSnapshot(s).Pass? <==> SnapshotOk(s)
  {
    CheckGroupsSpec(s.groups, GroupInfo(false, false, 0));
    if s.volumes.Ok? { CheckVolumesSpec(s.volumes.value); }
  }

  /** `_validate_config_structure` accepts exactly the well-formed files,
      under either reading of the lookup. */
  lemma ValidateAcceptsWellFormed(reading: Reading, c: Value)
    ensures Validate(reading, c).Pass? <==> WellFormed(reading, c)
  {
    CheckSnapshotSpec(TakeSnapshot(reading, c));
  }

  /** A node group whose body is null: as written, the loop reads the four
      settings at the root of the file. */
  lemma NullGroupReadsRootSettings(root: Value, g: string)
    requires root.Dict? && '.' !in g
    requires Find(root.entries, "nodes").Some? && Find(root.entries, "nodes").value.Dict?
    requires Find(Find(root.entries, "nodes").value.entries, g) == Some(Null)
    ensures Settings(AsWritten, root, g)
            == GroupSettings(Lookup(AsWritten, "is_control", Null, root), Lookup(AsWritten, "is_worker", Null, root),
                             Lookup(AsWritten, "type", Null, root), Lookup(AsWritten, "num", Null, root))
  {
    NullGroupReadsRoot(root, g, "is_control", Null);
    NullGroupReadsRoot(root, g, "is_worker", Null);
    NullGroupReadsRoot(root, g, "type", Null);
    NullGroupReadsRoot(root, g, "num", Null);
  }

  /** A group with neither role set is refused, naming the group. */
  lemma UnsetRolesRefused(g: string, s: GroupSettings)
    requires s.isControl == Ok(Null) && s.isWorker == Ok(Null)
    ensures GroupStep(g, s) == Err(NoRole(g))
  {
  }

  /** As intended, a node group whose body is null has neither role and is
      refused for having no role. */
  lemma NullGroupHasNoRole(root: Value, g: string)
    requires root.Dict? && '.' !in g
    requires Find(root.entries, "nodes").Some? && Find(root.entries, "nodes").value.Dict?
    requires Find(Find(root.entries, "nodes").value.entries, g) == Some(Null)
    ensures GroupStep(g, Settings(AsIntended, root, g)) == Err(NoRole(g))
  {
    var s := Settings(AsIntended, root, g);
    assert s.isControl == Ok(Null) by { NullGroupReadsRoot(root, g, "is_control", Null); }
    assert s.isWorker == Ok(Null) by { NullGroupReadsRoot(root, g, "is_worker", Null); }
    UnsetRolesRefused(g, s);
  }

  /** A file is refused for its control plane exactly when everything
      checked before is in order and the control groups hold two hosts. */
  lemma TwoControlHostsRefused(s: Snapshot)
    requires CheckSnapshot(s) == Fail(TwoControlNodes)
    ensures ControlHosts(s.groups) == 2
    ensures forall i :: 0 <= i < |s.groups| ==> GroupOk(s.groups[i].1)
  {
    var r := CheckGroups(s.groups, GroupInfo(false, false, 0));
    assert r.Ok? && r.value.controlHosts == 2;
    CheckGroupsSpec(s.groups, GroupInfo(false, false, 0));
  }
}
