/** The per-host rules of the inventory: reusing an existing server, host
    and volume names, retiring unmanaged servers, the volume plan and the
    orphan list. */
module InventoryRules {
  import opened Results
  import opened Text
  import opened ConfigLookup

  // ---------------------------------------------------------------------
  // Reusing an existing server

  /** A cloud server as the inventory sees it: its id, name and labels. */
  datatype Server = Server(id: nat, name: string, labels: map<string, string>)

  /** What a host of a group asks for. */
  datatype Query = Query(name: string, serverType: string, image: string, isControl: bool, isWorker: bool)

  /** `server.labels.get(key)`. */
  function Label(s: Server, key: string): Option<string> {
    if key in s.labels then Some(s.labels[key]) else None
  }

  /** A server a host may take over: same name, image and type, an internal
      address already recorded, and no role it would lose. */
  predicate Fits(s: Server, q: Query) {
    && s.name == q.name
    && Label(s, "image") == Some(q.image)
    && Label(s, "server_type") == Some(q.serverType)
    && !(Label(s, "is_control") == Some("true") && !q.isControl)
    && !(Label(s, "is_worker") == Some("true") && !q.isWorker)
    && Label(s, "internal_ip").Some? && Label(s, "internal_ip").value != ""
  }

  /** `_search_fitting_server`: the first server that fits, if any. */
  method SearchFittingServer(servers: seq<Server>, q: Query) returns (r: Option<Server>)
    ensures r.None? <==> forall i :: 0 <= i < |servers| ==> !Fits(servers[i], q)
    ensures r.Some? ==> exists k :: 0 <= k < |servers| && servers[k] == r.value && Fits(servers[k], q)
                                    && forall j :: 0 <= j < k ==> !Fits(servers[j], q)
  {
    var i := 0;
    while i < |servers|
      invariant i <= |servers|
      invariant forall j :: 0 <= j < i ==> !Fits(servers[j], q)
    {
      if Fits(servers[i], q) {
        return Some(servers[i]);
      }
      i := i + 1;
    }
    return None;
  }

  /** A server labelled as a control node is never reused for a group
      without the control role, and likewise for workers. */
  lemma NoRoleDemotion(s: Server, q: Query)
    requires Fits(s, q)
    ensures Label(s, "is_control") == Some("true") ==> q.isControl
    ensures Label(s, "is_worker") == Some("true") ==> q.isWorker
  {
  }

  /** A group with both roles may reuse any server of the right name, image
      and type that has an internal address, whatever its role labels. */
  lemma BothRolesIgnoreRoleLabels(s: Server, q: Query)
    requires q.isControl && q.isWorker
    ensures Fits(s, q) <==> s.name == q.name && Label(s, "image") == Some(q.image)
                            && Label(s, "server_type") == Some(q.serverType)
                            && Label(s, "internal_ip").Some? && Label(s, "internal_ip").value != ""
  {
  }

  // ---------------------------------------------------------------------
  // Host names

  /** `f"{group.replace('_', '-')}-{host}"`. */
  function HostName(group: string, n: nat): (h: string)
    ensures '_' !in h
  {
    var base := ReplaceChar(group, '_', '-');
    assert forall i :: 0 <= i < |base| ==> base[i] != '_';
    var digits := NatToString(n);
    assert forall i :: 0 <= i < |digits| ==> IsDigit(digits[i]);
    base + "-" + digits
  }

  /** The digits after the last dash of a host name are its number, so two
      host names agree exactly when the group names agree once underscores
      become dashes and the numbers agree. */
  lemma HostNameEquality(g1: string, n1: nat, g2: string, n2: nat)
    ensures HostName(g1, n1) == HostName(g2, n2) <==>
            ReplaceChar(g1, '_', '-') == ReplaceChar(g2, '_', '-') && n1 == n2
  {
    var a1, d1 := ReplaceChar(g1, '_', '-') + "-", NatToString(n1);
    var a2, d2 := ReplaceChar(g2, '_', '-') + "-", NatToString(n2);
    var s := HostName(g1, n1);
    assert s == a1 + d1;
    if HostName(g1, n1) == HostName(g2, n2) {
      assert s == a2 + d2;
      DigitsAfterDash(a1, d1, a2, d2);
      DigitsAfterDash(a2, d2, a1, d1);
      assert d1 == s[|a1|..] && d2 == s[|a2|..];
      assert a1 == s[..|a1|] && a2 == s[..|a2|];
      assert a1[..|a1| - 1] == ReplaceChar(g1, '_', '-');
      assert a2[..|a2| - 1] == ReplaceChar(g2, '_', '-');
      NatToStringInjective(n1, n2);
    }
  }

  /** When a string is a dash-terminated prefix followed by some text, and
      also some prefix followed by a run of digits, that run is no longer
      than the text after the dash. */
  lemma DigitsAfterDash(a1: string, d1: string, a2: string, d2: string)
    requires |a1| > 0 && a1[|a1| - 1] == '-'
    requires IsDigits(d2)
    requires a1 + d1 == a2 + d2
    ensures |d2| <= |d1|
  {
    var s := a1 + d1;
    var p := |a1| - 1;
    assert s[p] == '-' && !IsDigit(s[p]);
    assert forall j :: |a2| <= j < |s| ==> s[j] == d2[j - |a2|];
  }

  /** Hosts of one group get different names. */
  lemma HostNameInjective(group: string, m: nat, n: nat)
    requires HostName(group, m) == HostName(group, n)
    ensures m == n
  {
    HostNameEquality(group, m, group, n);
  }

  /** Groups whose names differ only in underscores and dashes share their
      host names. */
  lemma UnderscoreGroupsShareNames(n: nat)
    ensures HostName("db_main", n) == HostName("db-main", n)
  {
    assert ReplaceChar("db_main", '_', '-') == "db-main";
    assert ReplaceChar("db-main", '_', '-') == "db-main";
    HostNameEquality("db_main", n, "db-main", n);
  }

  // ---------------------------------------------------------------------
  // Retiring unmanaged servers

  const RemovePrefix: string := "remove-"

  /** The name an unmanaged server is listed under. */
  function RemovalName(name: string): (r: string)
    ensures StartsWith(r, RemovePrefix)
    ensures StartsWith(name, RemovePrefix) <==> r == name
    ensures !StartsWith(name, RemovePrefix) ==> r == RemovePrefix + name
  {
    if StartsWith(name, RemovePrefix) then name
    else
      assert (RemovePrefix + name)[..|RemovePrefix|] == RemovePrefix;
      RemovePrefix + name
  }

  /** Retiring a server twice gives the name it got the first time. */
  lemma RemovalNameIdempotent(name: string)
    ensures RemovalName(RemovalName(name)) == RemovalName(name)
  {
  }

  /** The original name can be read back from the removal name unless it
      already carried the prefix. */
  lemma RemovalNameRecoverable(name: string)
    requires !StartsWith(name, RemovePrefix)
    ensures RemovalName(name)[|RemovePrefix|..] == name
  {
  }

  /** An unmanaged server: the name it is listed under and its old name. */
  datatype Retired = Retired(newName: string, oldName: string)

  function Retire(s: Server): Retired {
    Retired(RemovalName(s.name), s.name)
  }

  /** `_clean_hetzner_server`: every server whose id no host claimed,
      listed for removal in server order. */
  function Unmanaged(servers: seq<Server>, configured: set<nat>): (r: seq<Retired>)
    ensures |r| <= |servers|
    ensures forall x :: x in r <==> exists i :: 0 <= i < |servers| && servers[i].id !in configured && x == Retire(servers[i])
    ensures forall i :: 0 <= i < |r| ==> StartsWith(r[i].newName, RemovePrefix)
  {
    if |servers| == 0 then []
    else
      var rest := Unmanaged(servers[1..], configured);
      assert forall i :: 1 <= i < |servers| ==> servers[i] == servers[1..][i - 1];
      if servers[0].id in configured then rest else [Retire(servers[0])] + rest
  }
  /** Retired servers come out in the order of the server listing. */
  lemma {:induction false} UnmanagedAppend(a: seq<Server>, b: seq<Server>, configured: set<nat>)
    ensures Unmanaged(a + b, configured) == Unmanaged(a, configured) + Unmanaged(b, configured)
    decreases |a|
  {
    if |a| == 0 {
      assert a + b == b;
    } else {
      assert (a + b)[0] == a[0];
      assert (a + b)[1..] == a[1..] + b;
      UnmanagedAppend(a[1..], b, configured);
    }
  }


  // ---------------------------------------------------------------------
  // Volumes

  /** A `volumes` entry of the cluster file. */
  datatype VolumeSpec = VolumeSpec(name: string, size: Value)

  /** A volume in the cloud, its size in GB. */
  datatype CloudVolume = CloudVolume(id: nat, name: string, size: int)

  /** One `cluster_volumes` entry of a host. */
  datatype VolumeEntry = VolumeEntry(name: string, size: Value, id: Option<nat>, needsCreate: bool, needsResize: bool)

  datatype VolumeError = BadSize(volume: string) | Shrink(volume: string, configured: int, current: int)

  const Units: set<char> := {'G', 'g'}

  /** `int(str(size).rstrip("Gg"))`; the text of a null, a boolean, a list
      or a mapping is never a decimal literal. */
  function ConfigGb(size: Value): Option<int> {
    match size
    case Int(i) => ParseInt(RStrip(IntToString(i), Units))
    case Str(s) => ParseInt(RStrip(s, Units))
    case _ => None
  }

  /** A size given as a number is read as that number of GB. */
  lemma ConfigGbOfInt(i: int)
    ensures ConfigGb(Int(i)) == Some(i)
  {
    var s := IntToString(i);
    assert IsDigit(s[|s| - 1]);
    ParseIntOfIntToString(i);
  }

  /** The documented `'10G'` form: digits and one unit letter. */
  lemma ConfigGbOfUnits(n: nat, unit: char)
    requires unit in Units
    ensures ConfigGb(Str(NatToString(n) + [unit])) == Some(n)
  {
    RStripSuffix(NatToString(n), unit, Units);
    ParseIntOfNatToString(n);
  }

  /** `f"{hostname}_{vol_name}"`. */
  function VolumeName(hostname: string, volume: string): string {
    hostname + "_" + volume
  }

  /** The index of the first cloud volume with the given name. */
  function FindVolume(vols: seq<CloudVolume>, name: string): (r: Option<nat>)
    ensures r.None? <==> forall i :: 0 <= i < |vols| ==> vols[i].name != name
    ensures r.Some? ==> r.value < |vols| && vols[r.value].name == name
                        && forall j :: 0 <= j < r.value ==> vols[j].name != name
  {
    if |vols| == 0 then None
    else if vols[0].name == name then Some(0)
    else
      var rest := FindVolume(vols[1..], name);
      assert forall i :: 1 <= i < |vols| ==> vols[i] == vols[1..][i - 1];
      if rest.None? then None else Some(rest.value + 1)
  }

  /** The `cluster_volumes` entry for one configured volume of a host: a
      volume with no cloud counterpart must be created, and one whose cloud
      size differs from the configured size must be resized. */
  function PlanVolume(hostname: string, spec: VolumeSpec, vols: seq<CloudVolume>): (r: Result<VolumeEntry, VolumeError>)
    ensures var found := FindVolume(vols, VolumeName(hostname, spec.name));
            && (r.Err? <==> found.Some? && ConfigGb(spec.size).None?)
            && (r.Ok? ==> r.value.name == spec.name && r.value.size == spec.size
                          && (r.value.needsCreate <==> forall i :: 0 <= i < |vols| ==> vols[i].name != VolumeName(hostname, spec.name))
                          && (r.value.id.Some? <==> !r.value.needsCreate)
                          && (r.value.id.Some? ==> vols[found.value].id == r.value.id.value
                                                   && vols[found.value].name == VolumeName(hostname, spec.name))
                          && (r.value.needsResize <==> found.Some? && ConfigGb(spec.size) != Some(vols[found.value].size)))
  {
    match FindVolume(vols, VolumeName(hostname, spec.name))
    case None => Ok(VolumeEntry(spec.name, spec.size, None, true, false))
    case Some(k) =>
      match ConfigGb(spec.size)
      case None => Err(BadSize(VolumeName(hostname, spec.name)))
      case Some(gb) => Ok(VolumeEntry(spec.name, spec.size, Some(vols[k].id), false, vols[k].size != gb))
  }

  /** A configured volume that would be smaller than its cloud volume. */
  predicate Shrinks(hostname: string, spec: VolumeSpec, vols: seq<CloudVolume>) {
    var found := FindVolume(vols, VolumeName(hostname, spec.name));
    found.Some? && ConfigGb(spec.size).Some? && ConfigGb(spec.size).value < vols[found.value].size
  }

  /** The shrink check of `_validate_config_logic` for one host. */
  function CheckNoShrink(hostname: string, specs: seq<VolumeSpec>, vols: seq<CloudVolume>): Outcome<VolumeError>
    decreases |specs|
  {
    if |specs| == 0 then Pass
    else
      var name := VolumeName(hostname, specs[0].name);
      match FindVolume(vols, name)
      case None => CheckNoShrink(hostname, specs[1..], vols)
      case Some(k) =>
        match ConfigGb(specs[0].size)
        case None => Fail(BadSize(name))
        case Some(gb) =>
          if gb < vols[k].size then Fail(Shrink(name, gb, vols[k].size))
          else CheckNoShrink(hostname, specs[1..], vols)
  }

  /** The shrink check passes exactly when every volume can be planned and
      none would shrink. */
  lemma {:induction false} CheckNoShrinkSpec(hostname: string, specs: seq<VolumeSpec>, vols: seq<CloudVolume>)
    ensures CheckNoShrink(hostname, specs, vols).Pass? <==>
            forall i :: 0 <= i < |specs| ==> PlanVolume(hostname, specs[i], vols).Ok? && !Shrinks(hostname, specs[i], vols)
    decreases |specs|
  {
    if |specs| > 0 {
      CheckNoShrinkSpec(hostname, specs[1..], vols);
      assert forall i :: 1 <= i < |specs| ==> specs[i] == specs[1..][i - 1];
    }
  }

  /** Once the shrink check has passed, every resize the plan asks for
      grows the volume. */
  lemma ResizeOnlyGrows(hostname: string, specs: seq<VolumeSpec>, vols: seq<CloudVolume>, i: nat)
    requires CheckNoShrink(hostname, specs, vols).Pass?
    requires i < |specs|
    ensures PlanVolume(hostname, specs[i], vols).Ok?
    ensures var e := PlanVolume(hostname, specs[i], vols).value;
            var k := FindVolume(vols, VolumeName(hostname, specs[i].name));
            e.needsResize ==> k.Some? && ConfigGb(specs[i].size).value > vols[k.value].size
  {
    CheckNoShrinkSpec(hostname, specs, vols);
  }

  /** A group as the logic check sees it: whether it holds storage and how
      many hosts it has. */
  datatype StorageGroup = StorageGroup(name: string, storage: bool, hosts: int)

  /** The shrink check of host `m` of a storage group. */
  function HostCheck(g: StorageGroup, m: nat, specs: seq<VolumeSpec>, vols: seq<CloudVolume>): Outcome<VolumeError> {
    CheckNoShrink(HostName(g.name, m), specs, vols)
  }

  /** `for host in range(n, last + 1)`, stopping at the first failing
      check. */
  function CheckRange(check: nat -> Outcome<VolumeError>, n: nat, last: int): Outcome<VolumeError>
    decreases last - n
  {
    if n > last then Pass
    else match check(n)
      case Fail(e) => Fail(e)
      case Pass => CheckRange(check, n + 1, last)
  }

  /** `_validate_config_logic`: every host of every storage group passes the
      shrink check. */
  function CheckLogic(groups: seq<StorageGroup>, specs: seq<VolumeSpec>, vols: seq<CloudVolume>): Outcome<VolumeError>
    decreases |groups|
  {
    if |groups| == 0 then Pass
    else if !groups[0].storage then CheckLogic(groups[1..], specs, vols)
    else match CheckRange((m: nat) => HostCheck(groups[0], m, specs, vols), 1, groups[0].hosts)
      case Fail(e) => Fail(e)
      case Pass => CheckLogic(groups[1..], specs, vols)
  }

  lemma {:induction false} CheckRangeSpec(check: nat -> Outcome<VolumeError>, n: nat, last: int)
    ensures CheckRange(check, n, last).Pass? <==> forall m: nat :: n <= m <= last ==> check(m).Pass?
    decreases last - n
  {
    if n <= last {
      CheckRangeSpec(check, n + 1, last);
    }
  }

  /** Every host of the group passes the shrink check. */
  ghost predicate GroupPasses(g: StorageGroup, specs: seq<VolumeSpec>, vols: seq<CloudVolume>) {
    forall m: nat :: 1 <= m <= g.hosts ==> HostCheck(g, m, specs, vols).Pass?
  }

  /** The logic check passes exactly when no host of a storage group would
      shrink one of its volumes, and every matched size can be read. */
  lemma {:induction false} CheckLogicSpec(groups: seq<StorageGroup>, specs: seq<VolumeSpec>, vols: seq<CloudVolume>)
    ensures CheckLogic(groups, specs, vols).Pass? <==>
            forall i :: 0 <= i < |groups| && groups[i].storage ==> GroupPasses(groups[i], specs, vols)
    decreases |groups|
  {
    if |groups| > 0 {
      var rest := groups[1..];
      CheckLogicSpec(rest, specs, vols);
      var check := (m: nat) => HostCheck(groups[0], m, specs, vols);
      CheckRangeSpec(check, 1, groups[0].hosts);
      assert forall m: nat :: check(m) == HostCheck(groups[0], m, specs, vols);
      assert CheckRange(check, 1, groups[0].hosts).Pass? <==> GroupPasses(groups[0], specs, vols);
      assert CheckLogic(groups, specs, vols).Pass? <==>
             (groups[0].storage ==> CheckRange(check, 1, groups[0].hosts).Pass?) && CheckLogic(rest, specs, vols).Pass?;
      assert forall i :: 1 <= i < |groups| ==> groups[i] == rest[i - 1];
    }
  }

  /** `_set_orphan_volumes_for_cleanup`: the cloud volumes whose names no
      host claimed, in cloud order. */
  function Orphans(vols: seq<CloudVolume>, managed: set<string>): (r: seq<CloudVolume>)
    ensures |r| <= |vols|
    ensures forall v :: v in r <==> v in vols && v.name !in managed
  {
    if |vols| == 0 then []
    else
      var rest := Orphans(vols[1..], managed);
      assert forall v :: v in vols <==> v == vols[0] || v in vols[1..];
      if vols[0].name in managed then rest else [vols[0]] + rest
  }
  /** The orphan list keeps the order of the volume listing: filtering a
      concatenation filters each part in turn. */
  lemma {:induction false} OrphansAppend(a: seq<CloudVolume>, b: seq<CloudVolume>, managed: set<string>)
    ensures Orphans(a + b, managed) == Orphans(a, managed) + Orphans(b, managed)
    decreases |a|
  {
    if |a| == 0 {
      assert a + b == b;
    } else {
      assert (a + b)[0] == a[0];
      assert (a + b)[1..] == a[1..] + b;
      OrphansAppend(a[1..], b, managed);
    }
  }


  /** With nothing managed, every volume is an orphan, in order. */
  lemma {:induction false} NothingManagedAllOrphans(vols: seq<CloudVolume>)
    ensures Orphans(vols, {}) == vols
  {
    if |vols| > 0 {
      NothingManagedAllOrphans(vols[1..]);
      assert vols == [vols[0]] + vols[1..];
    }
  }

  /** Listing the orphans of the orphans changes nothing. */
  lemma {:induction false} OrphansIdempotent(vols: seq<CloudVolume>, managed: set<string>)
    ensures Orphans(Orphans(vols, managed), managed) == Orphans(vols, managed)
  {
    if |vols| > 0 {
      OrphansIdempotent(vols[1..], managed);
    }
  }

  /** The cloud volume a host's plan took over is not an orphan once its
      name is recorded as managed. */
  lemma PlannedVolumeNotOrphan(hostname: string, spec: VolumeSpec, vols: seq<CloudVolume>, managed: set<string>)
    requires VolumeName(hostname, spec.name) in managed
    requires FindVolume(vols, VolumeName(hostname, spec.name)).Some?
    ensures vols[FindVolume(vols, VolumeName(hostname, spec.name)).value] !in Orphans(vols, managed)
  {
  }
}
