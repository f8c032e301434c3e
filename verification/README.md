# Cluster inventory helpers, modelled in Dafny

The `cluster` Ansible inventory plugin reads a YAML cluster file, looks up
the cloud servers and volumes, and builds an inventory from them. It gives
each host a name, a location, a private IPv4 address and a maintenance slot,
and plans that host's volumes. This project models the deterministic helpers
the plugin builds that layout from, and proves what each of them promises:

- `IpAllocator` (network.dfy) is `NetworkManager`. It hands out host
  addresses of one IPv4 network in order, and it reserves addresses that
  existing servers already carry.
- `LeastUsed` (values.dfy) is `ValueManager`. It returns the least-used
  location, ties going to the first in list order, and it records uses seen
  elsewhere.
- `MaintenanceSlots` (schedule.dfy) is `HostTimeAssigner`:
  - `_interleave_groups` builds the round-robin order of groups;
  - the constructor spreads the slots evenly over the window;
  - `get_next_slot` and `get_all_slots` read them back.
- `ConfigLookup` (config.dfy) is `_get_config`, the dotted-path lookup with
  a default, and `_get_group_config`. Both the lookup as written and the
  lookup as evidently intended are modelled (see Findings). A `Reading`
  value says which of the two a caller runs.
- `ConfigValidation` (validate.dfy) is `_validate_config_structure`. It
  states the shape of every cluster file the validator accepts, under
  either reading of the lookup. `Validate(AsWritten, c)` is what the source
  computes on a file whose mappings have no repeated key.
- `InventoryRules` (inventory.dfy) holds the per-host rules:
  - `_search_fitting_server`;
  - the host name `group.replace('_', '-')-N`;
  - the `remove-` name of unmanaged servers;
  - the `needs_create`/`needs_resize` plan of a host's volumes;
  - the no-shrink check of `_validate_config_logic`;
  - the orphan-volume list.
- `Text` (text.dfy) holds the Python string operations these rely on:
  `split`, `join`, `replace`, `startswith`, `rstrip`, `str(int)` and `int(str)`.
- `Results` (results.dfy) holds `Option`, `Result` and `Outcome`.

Every operation is a pure function over immutable values. A Python
exception becomes an `Err` or a `Fail` carrying the reason. A mutating
method becomes a function that returns the new state. Times are minutes
since midnight. IPv4 addresses are naturals below 2^32. A YAML document is
a `Value`, whose mappings keep their keys in file order and have string keys.

## Model

| member | source | states |
|---|---|---|
| IpAllocator.NewAllocator | plugins/inventory/cluster.py:30-44 | Construction fails exactly for a network that is not in strict CIDR form. Otherwise the manager covers that network and nothing is reserved. |
| IpAllocator.FirstFreeFrom | plugins/inventory/cluster.py:46-52 | The host generator resumed at a position yields the first host there or later that is not recorded. Every host it skips is recorded. It yields nothing only when every remaining host is recorded. |
| IpAllocator.GetNextIp | plugins/inventory/cluster.py:54-71 | Raises exactly when every host address is recorded. Otherwise it returns a host address that nobody holds, the lowest such, and records that one address and nothing else. |
| IpAllocator.ReserveIp | plugins/inventory/cluster.py:73-88 | Succeeds exactly for a host address not yet recorded, and then records exactly that address. A non-host is refused as not a host; a recorded host is refused as already reserved. |
| IpAllocator.ReserveAll | plugins/inventory/cluster.py:750-758 | Reserving the `internal_ip` labels one after the other records exactly those addresses on top of the ones already held. |
| IpAllocator.ReserveAllSucceeds | plugins/inventory/cluster.py:750-758 | The reservations all succeed exactly when the labels are distinct host addresses that nobody held before. |
| IpAllocator.ExhaustedIffFull | plugins/inventory/cluster.py:54-71 | The manager never records more addresses than the network has hosts. `get_next_ip` raises exactly when every host is recorded. |
| IpAllocator.AllocateHosts | plugins/inventory/cluster.py:888-889 | One `get_next_ip` per new host. This succeeds exactly when enough hosts are free. The addresses are then distinct host addresses that were free before, and exactly they are added. |
| LeastUsed.NewManager | plugins/inventory/cluster.py:103-118 | Every managed value starts with a count of zero. |
| LeastUsed.FirstLeast | plugins/inventory/cluster.py:158 | The chosen index holds a count no larger than any other. Every earlier value has a strictly larger count. |
| LeastUsed.GetNext | plugins/inventory/cluster.py:136-160 | Raises exactly for an empty list. Otherwise it returns a managed value whose count is minimal and that comes first among the minimal ones in list order. Its count goes up by one and no other count changes. |
| LeastUsed.Increment | plugins/inventory/cluster.py:162-186 | Raises exactly for a value that is not managed, and then there is no new state. Otherwise that value's count goes up by one and no other count changes. |
| LeastUsed.GetNextKeepsBalance | plugins/inventory/cluster.py:136-160 | Starting from counts within one of each other, `get_next` keeps them within one of each other. |
| LeastUsed.NewManagerBalanced | plugins/inventory/cluster.py:117-118 | A fresh manager's counts are within one of each other. |
| LeastUsed.NewLocations | plugins/inventory/cluster.py:110-115 | The documented fresh manager over fsn1, nbg1 and hel1 counts zero for each. |
| LeastUsed.ExampleFirst | plugins/inventory/cluster.py:148-150 | From the documented fresh manager, `get_next` returns fsn1. |
| LeastUsed.ExampleSecond | plugins/inventory/cluster.py:151-152 | The documented second call returns nbg1. |
| LeastUsed.ExampleThird | plugins/inventory/cluster.py:153-154 | The documented third call returns hel1. |
| LeastUsed.ExampleFourth | plugins/inventory/cluster.py:155-156 | The documented fourth call returns to fsn1. |
| LeastUsed.GetNextExample | plugins/inventory/cluster.py:147-156 | The documented sequence of four calls: fsn1, nbg1, hel1, then fsn1 again. |
| LeastUsed.IncrementExample | plugins/inventory/cluster.py:175-181 | The documented `increment`: a known value then counts one use, and an unknown value is refused. |
| MaintenanceSlots.Decrement | plugins/inventory/cluster.py:307-311 | One pass lowers every remaining count by one and deletes the groups that reach zero. All counts stay positive, and the total drops by the number of groups. |
| MaintenanceSlots.InterleaveLength | plugins/inventory/cluster.py:282-312 | With every count at least one, the interleaving is as long as the sum of the counts. |
| MaintenanceSlots.InterleaveCounts | plugins/inventory/cluster.py:282-312 | With every count at least one and distinct group names, each group appears exactly its count times. A name that is not a group never appears. |
| MaintenanceSlots.DecrementNames | plugins/inventory/cluster.py:307-311 | A pass keeps the group names distinct and never introduces a new name. |
| MaintenanceSlots.PassCounts | plugins/inventory/cluster.py:307-311 | A pass names each remaining group once and removes one host from it. |
| MaintenanceSlots.InterleaveIsRoundRobin | plugins/inventory/cluster.py:282-312 | The interleaving equals the independent round-robin description. Pass k names, in dictionary order, every group with more than k hosts, and the passes follow one another. |
| MaintenanceSlots.RoundOfDecrement | plugins/inventory/cluster.py:307-311 | After one pass, pass k of what remains is pass k + 1 of the original, and the largest count drops by one. |
| MaintenanceSlots.RoundRobinOfDecrement | plugins/inventory/cluster.py:306-311 | The passes after the first one are the round robin of what the first pass leaves. |
| MaintenanceSlots.DecrementExample | plugins/inventory/cluster.py:302-303 | The documented 3/2/1 groups shrink to 2/1, then to 1, then to nothing. |
| MaintenanceSlots.InterleaveExample | plugins/inventory/cluster.py:296-303 | The documented interleaving of 3/2/1 hosts: control, worker_small, worker_big, control, worker_small, control. |
| MaintenanceSlots.SlotTimes | plugins/inventory/cluster.py:257-269 | One host gets the start of the window. With n hosts there are n slots: the first at the start, each later one `minutes // (n - 1)` after the one before. They are strictly increasing and inside the window, and the last lies less than n - 1 minutes before the end. |
| MaintenanceSlots.NewAssigner | plugins/inventory/cluster.py:239-280 | Fails for an empty or reversed window, then for a zero host total, then for more hosts than minutes, in that order and only then. Otherwise every group, and nothing else, has slots and a cursor at zero. |
| MaintenanceSlots.AssignerLayout | plugins/inventory/cluster.py:261-280 | Each group receives exactly its host count of slots, in increasing time order, all inside the window. |
| MaintenanceSlots.NewAssignerSlots | plugins/inventory/cluster.py:271-280 | A group's slots are the times that the zip of slot times and interleaved names pairs with it, in time order. |
| MaintenanceSlots.PickLength | plugins/inventory/cluster.py:279-280 | Zipping picks one slot per occurrence of the group in the interleaving. |
| MaintenanceSlots.PickMembers | plugins/inventory/cluster.py:279-280 | Every picked slot is one of the slot times. |
| MaintenanceSlots.PickIncreasing | plugins/inventory/cluster.py:279-280 | Picking from increasing times yields increasing slots. |
| MaintenanceSlots.PickLayout | plugins/inventory/cluster.py:279-280 | A group's picked slots number its occurrences, increase, and stay within the bounds of the times. |
| MaintenanceSlots.CountOfFound | plugins/inventory/cluster.py:249 | With distinct names, the count read for a group is the one it was given. |
| MaintenanceSlots.GetNextSlot | plugins/inventory/cluster.py:314-355 | Raises for an unknown group, and for a known group whose slots are all handed out. Otherwise it returns the group's slot at its cursor and advances that cursor by one, leaving every other cursor and all slots as they were. |
| MaintenanceSlots.GetAllSlots | plugins/inventory/cluster.py:357-386 | Raises exactly for an unknown group. Otherwise it returns all of the group's slots. |
| MaintenanceSlots.TakeSlotsFits | plugins/inventory/cluster.py:346-355 | k successive calls for a group with at least k slots left return the next k slots in order and advance only that group's cursor, by k. |
| MaintenanceSlots.TakeSlotsExhausts | plugins/inventory/cluster.py:349-351 | More successive calls than the group has slots left end with the "all slots assigned" error. |
| MaintenanceSlots.TakeSlotsInOrder | plugins/inventory/cluster.py:314-355 | k successive `get_next_slot` calls yield the next k slots in order and move only that group's cursor, exactly when k slots remain. Otherwise they raise. |
| MaintenanceSlots.ExampleTimes | plugins/inventory/cluster.py:204-215 | Six hosts in 02:00-03:00 are spaced twelve minutes apart, from 02:00 to 03:00. |
| MaintenanceSlots.ExampleGroupFacts | plugins/inventory/cluster.py:204-209 | The documented groups have distinct names and positive counts, six hosts in all, and the documented interleaving. |
| MaintenanceSlots.ExamplePickControl | plugins/inventory/cluster.py:210-211 | control gets 02:00, 02:36 and 03:00. |
| MaintenanceSlots.ExamplePickSmall | plugins/inventory/cluster.py:212-213 | worker_small gets 02:12 and 02:48. |
| MaintenanceSlots.ExamplePickBig | plugins/inventory/cluster.py:214-215 | worker_big gets 02:24. |
| MaintenanceSlots.ExampleSlots | plugins/inventory/cluster.py:204-215 | The documented assigner is built, and each group's slots are its picks from the documented times and order. |
| MaintenanceSlots.AssignerExample | plugins/inventory/cluster.py:204-215 | The documented `get_all_slots` results of the three groups. |
| ConfigLookup.Find | plugins/inventory/cluster.py:470-476 | `key in config` is false exactly when no entry has the key. Otherwise `config[key]` is a value stored under that key. |
| ConfigLookup.Keys | plugins/inventory/cluster.py:663 | Iterating a mapping yields its keys in file order, one per entry. |
| ConfigLookup.HeadTailSplit | plugins/inventory/cluster.py:466-474 | `key.split(".")`, then `pop(0)`, then `".".join` of the rest: this is the key's first segment, and the key after its first dot. |
| ConfigLookup.GetConfigResolves | plugins/inventory/cluster.py:462-476 | Over nested mappings, the lookup yields the default when a segment is missing or the final value is null. Otherwise it yields the value found by descending one segment at a time. |
| ConfigLookup.NullResolvesNowhere | plugins/inventory/cluster.py:470-471 | Nothing is found below a null value. |
| ConfigLookup.ScalarContainerRaises | plugins/inventory/cluster.py:470 | A lookup inside a number or a boolean raises TypeError, both as written and as intended. |
| ConfigLookup.DottedKey | plugins/inventory/cluster.py:466-468 | A key built as `a.b` with a dot-free `a` has head `a` and tail `b`. |
| ConfigLookup.LookupStep | plugins/inventory/cluster.py:466-474 | A mapping whose entry matches the key's first segment passes the rest of the key to that entry's value. |
| ConfigLookup.LookupLeaf | plugins/inventory/cluster.py:475-476 | The last segment found yields its value, or the default when that value is null. |
| ConfigLookup.LookupMissing | plugins/inventory/cluster.py:470-471 | A first segment the mapping lacks yields the default. |
| ConfigLookup.GetConfigFound | plugins/inventory/cluster.py:456-458 | The documented lookup of `nodes.control.type` yields `cx21`. |
| ConfigLookup.GetConfigDefault | plugins/inventory/cluster.py:459-460 | The documented lookup of `nodes.worker.type` with default `cx11` yields `cx11`. |
| ConfigLookup.NullSubtreeRestartsAtRoot | plugins/inventory/cluster.py:462-474 | As written, a group with an empty body makes `nodes.web.num` read the root's `num`. As intended, the same lookup yields the default. |
| ConfigLookup.ReadingStep | plugins/inventory/cluster.py:466-474 | Under both readings, a mapping holding the key's first segment passes the rest of the key to the value stored there. |
| ConfigLookup.NullRestarts | plugins/inventory/cluster.py:462 | As written, a lookup in a null container is the same lookup at the root of the file. |
| ConfigLookup.ReadingsAgree | plugins/inventory/cluster.py:462-476 | When no segment but the last leads to a null value, the lookup as written and the lookup as intended give the same result. |
| ConfigLookup.NullGroupReadsRoot | plugins/inventory/cluster.py:478-499 | For a group whose body is null, `_get_group_config(group, key)` as written reads `key` at the root of the file. As intended, it yields the default. |
| ConfigLookup.ControlPathNullFree | plugins/inventory/cluster.py:493-495 | No null value lies on the path of `nodes.control.type` in the documented file. |
| ConfigLookup.WorkerPathNullFree | plugins/inventory/cluster.py:496-497 | No null value lies on the path of `nodes.worker.type` in the documented file. |
| ConfigLookup.GroupConfigExample | plugins/inventory/cluster.py:492-499 | Under either reading, `get_group_config("control", "type")` yields `cx21` on the documented file, and `get_group_config("worker", "type", "cx11")` yields `cx11`. |
| ConfigValidation.GroupTable | plugins/inventory/cluster.py:663-677 | Every group of `nodes`, in mapping order, is paired with the four settings the loop reads for it, through the chosen reading of the lookup. With `AsWritten` these are the values the source's loop reads. |
| ConfigValidation.GroupStep | plugins/inventory/cluster.py:664-678 | One group's checks. Every failure is a group error. A missing role names the group and means that neither role is set. A group that passes has at least one role. |
| ConfigValidation.CheckGroups | plugins/inventory/cluster.py:661-678 | The group loop fails only with group errors. A non-empty list of groups that passes yields at least one role. |
| ConfigValidation.CheckVolume | plugins/inventory/cluster.py:690-696 | One volume's checks fail only with volume errors. |
| ConfigValidation.CheckVolumeItems | plugins/inventory/cluster.py:690-696 | The volume loop fails only with volume errors. |
| ConfigValidation.CheckVolumes | plugins/inventory/cluster.py:689-696 | Iterating `volumes` fails only with volume errors. |
| ConfigValidation.GroupStepSpec | plugins/inventory/cluster.py:664-678 | A group passes exactly when its settings can be read and it has a role, a truthy `type` and a non-null `num`, and a control group's `num` converts with `int()`. It then contributes its roles and, for a control group, its host count. |
| ConfigValidation.CheckGroupsSpec | plugins/inventory/cluster.py:661-678 | The group loop passes exactly when every group passes. It then reports a control group, resp. a worker group, exactly when one exists, and the sum of the control groups' host counts. |
| ConfigValidation.CheckVolumeItemsSpec | plugins/inventory/cluster.py:690-696 | The volume loop passes exactly when every entry is a mapping with a truthy `name` and a truthy `size`. |
| ConfigValidation.CheckVolumesSpec | plugins/inventory/cluster.py:689-696 | `volumes` passes exactly when it is a list of good entries, or an empty mapping or empty string, which iterate to nothing. |
| ConfigValidation.CheckSnapshotSpec | plugins/inventory/cluster.py:654-696 | The checks pass exactly when all of the following hold. `nodes`, the token and both window bounds are present and truthy, and `nodes` is a mapping. Every group passes. A control group and a worker group exist. The control groups do not hold exactly two hosts. Every volume has a name and a size. |
| ConfigValidation.ValidateAcceptsWellFormed | plugins/inventory/cluster.py:649-696 | Under either reading, the validator accepts a cluster file exactly when it is well formed in the sense above. With `AsWritten` this is what `_validate_config_structure` computes on a file whose mappings have no repeated key; with `AsIntended`, the same checks over the corrected lookup. |
| ConfigValidation.NullGroupReadsRootSettings | plugins/inventory/cluster.py:663-677 | As written, the loop reads the four settings of a group whose body is null at the root of the file. |
| ConfigValidation.UnsetRolesRefused | plugins/inventory/cluster.py:664-667 | A group with neither `is_control` nor `is_worker` set is refused, naming the group. |
| ConfigValidation.NullGroupHasNoRole | plugins/inventory/cluster.py:664-667 | As intended, a group whose body is null has no role and is refused, naming the group. |
| ConfigValidation.TwoControlHostsRefused | plugins/inventory/cluster.py:684-686 | The two-control-node refusal comes only when every group passes and the control groups hold exactly two hosts. |
| InventoryRules.SearchFittingServer | plugins/inventory/cluster.py:613-647 | Returns None exactly when no server fits. Otherwise it returns the first server in list order that fits: same name, image label and type label, a non-empty `internal_ip` label, and no role label "true" that the group lacks. |
| InventoryRules.NoRoleDemotion | plugins/inventory/cluster.py:638-644 | A server labelled as a control node, resp. worker, is reused only by a group with that role. |
| InventoryRules.BothRolesIgnoreRoleLabels | plugins/inventory/cluster.py:638-645 | For a group with both roles, the role labels play no part in the match. |
| InventoryRules.HostName | plugins/inventory/cluster.py:869 | A host name never contains an underscore. |
| InventoryRules.HostNameEquality | plugins/inventory/cluster.py:869 | Two host names are equal exactly when their group names agree once underscores become dashes and their numbers agree. |
| InventoryRules.DigitsAfterDash | plugins/inventory/cluster.py:869 | The digit run that ends a host name lies after its last dash. |
| InventoryRules.HostNameInjective | plugins/inventory/cluster.py:849-850 | The hosts of one group get pairwise different names. |
| InventoryRules.UnderscoreGroupsShareNames | plugins/inventory/cluster.py:869 | Groups `db_main` and `db-main` give their hosts the same names. |
| InventoryRules.RemovalName | plugins/inventory/cluster.py:805 | The name always starts with `remove-`. It equals the old name exactly when that already starts with `remove-`, and is otherwise `remove-` plus the old name. |
| InventoryRules.RemovalNameIdempotent | plugins/inventory/cluster.py:805 | Retiring a retired name again changes nothing. |
| InventoryRules.RemovalNameRecoverable | plugins/inventory/cluster.py:805-808 | The old name can be read back from a newly prefixed name. |
| InventoryRules.Unmanaged | plugins/inventory/cluster.py:802-808 | Exactly the servers whose id no host claimed are listed, each under its `remove-` name with its old name. |
| InventoryRules.UnmanagedAppend | plugins/inventory/cluster.py:802-808 | Servers are retired in the order of the server listing: the list for two listings one after the other is the two lists one after the other. |
| InventoryRules.ConfigGbOfInt | plugins/inventory/cluster.py:936 | A size given as a number is that many GB. |
| InventoryRules.ConfigGbOfUnits | plugins/inventory/cluster.py:934-936 | A size written as digits and one `G` or `g` is that many GB. |
| InventoryRules.FindVolume | plugins/inventory/cluster.py:919-923 | Finds nothing exactly when no cloud volume has the name. Otherwise it finds the first volume with that name. |
| InventoryRules.PlanVolume | plugins/inventory/cluster.py:915-939 | Fails exactly when a volume is matched and its configured size does not read as an integer. A volume needs creating exactly when no cloud volume has its name, and it carries the matched volume's id otherwise. It needs resizing exactly when it is matched and the sizes differ. |
| InventoryRules.CheckNoShrinkSpec | plugins/inventory/cluster.py:709-721 | One host's shrink check passes exactly when every volume can be planned and none is configured smaller than its cloud volume. |
| InventoryRules.ResizeOnlyGrows | plugins/inventory/cluster.py:719-721 | Once the shrink check has passed, every resize the plan asks for grows the volume. |
| InventoryRules.CheckRangeSpec | plugins/inventory/cluster.py:707 | The loop over host numbers passes exactly when the check passes for every number in the range. |
| InventoryRules.CheckLogicSpec | plugins/inventory/cluster.py:698-721 | `_validate_config_logic` passes exactly when no host of a storage group would shrink one of its volumes and every matched size reads as an integer. |
| InventoryRules.Orphans | plugins/inventory/cluster.py:947-955 | Exactly the cloud volumes whose names are not managed are listed. |
| InventoryRules.OrphansAppend | plugins/inventory/cluster.py:947-955 | Orphans keep the order of the volume listing: the orphans of two listings one after the other are the two orphan lists one after the other. |
| InventoryRules.NothingManagedAllOrphans | plugins/inventory/cluster.py:947-955 | With nothing managed, every cloud volume is an orphan, in order. |
| InventoryRules.OrphansIdempotent | plugins/inventory/cluster.py:947-955 | Listing the orphans of the orphans changes nothing. |
| InventoryRules.PlannedVolumeNotOrphan | plugins/inventory/cluster.py:925 | The cloud volume a host's plan matched is not an orphan once its name is recorded as managed. |
| Text.IndexOf | plugins/inventory/cluster.py:466-468 | The first occurrence of the separator. |
| Text.Split | plugins/inventory/cluster.py:467 | `split` yields at least one piece, and no piece contains the separator. |
| Text.SplitJoin | plugins/inventory/cluster.py:467-474 | Splitting a join of separator-free pieces gives the pieces back. |
| Text.JoinSplit | plugins/inventory/cluster.py:467-474 | Joining the pieces of a split gives the key back. |
| Text.IndexOfPrefix | plugins/inventory/cluster.py:466-468 | The first separator of `a + b`, for an `a` without one, lies in `b`. |
| Text.ReplaceChar | plugins/inventory/cluster.py:869 | `replace('_', '-')` keeps the length and swaps exactly the underscores. |
| Text.RStrip | plugins/inventory/cluster.py:936 | `rstrip("Gg")` removes exactly the trailing run of unit letters. |
| Text.NatToString | plugins/inventory/cluster.py:869 | `str(n)` is a run of digits without leading zeros. |
| Text.NatToStringRoundTrip | plugins/inventory/cluster.py:869 | The digits of `str(n)` denote `n`. |
| Text.NatToStringInjective | plugins/inventory/cluster.py:869 | Different numbers are written differently. |
| Text.ParseInt | plugins/inventory/cluster.py:672 | `int(s)` succeeds exactly for an optionally signed, non-empty run of ASCII digits. |
| Text.ParseIntOfNatToString | plugins/inventory/cluster.py:936 | `int(str(n)) == n` for a natural n. |
| Text.IntToString | plugins/inventory/cluster.py:936 | `str(i)` is digits, with a leading minus sign for a negative i. |
| Text.ParseIntOfIntToString | plugins/inventory/cluster.py:936 | `int(str(i)) == i` for every integer. |
| Text.RStripSuffix | plugins/inventory/cluster.py:936 | Stripping the unit letter from digits followed by one unit letter leaves the digits. |

## Left out

- Cloud access is left out: loading servers and volumes and `_get_current_ip`. Cloud servers and volumes are parameters of the model instead.
- Ansible integration is left out: `add_group`, `add_host`, `set_variable`, `add_child`, `parse`, reading and verifying the file, and `__repr__`. These are calls into a framework, not logic.
- `strptime`/`strftime` are left out. Times are minutes since midnight, so malformed `HH:MM` text and the text form of the slots are not modelled.
- The text forms of IPv4 networks and addresses are left out. A network is an address and a prefix, and the CIDR-text error of the constructor is `ValidNetwork` failing. `reserve_ip` of text that is no address is not modelled.
- `_initialize_inventory`, `_prepare_group`, `_add_host` and `_init_host_time_assigner` are modelled only through their pieces. Those pieces are the host name, server search, location choice, address choice, slot choice, volume plan and orphan list. The loop that strings them together per host is not modelled, and neither is the second `reserve_ip` whose error is ignored.
- MaintenanceSlots.NewAssigner requires that the interleaving loop terminates: the constructor must raise before reaching it, or every count must be at least one. In the source, a count of zero or below never reaches zero again, so the loop never ends. `_init_host_time_assigner` defaults `num` to 0, so such a count can reach the constructor.
- MaintenanceSlots.NewAssigner requires distinct group names, because the groups come from a dictionary.
- InventoryRules.CheckLogicSpec takes each group's storage flag and host count as given. The lookups that feed them are not modelled, and neither is `range()` raising on a count that is not an integer.
- Text.ParseInt refuses `int()` of text with surrounding whitespace, digit-group underscores or non-ASCII decimal digits (`int("１０")` is 10), where Python accepts it. `Value` has no floats, so a float `num` (which `int()` truncates) or a float `size` cannot be expressed.
- A volume's `name` is a string in the model. Python would also format a non-string name into the volume name.
- ConfigLookup.Find: a mapping with a repeated key is not excluded. The model reads the first entry; a YAML loader keeps the last.
- ConfigLookup.Find: mapping keys are strings. YAML keys that load as an int, a bool or null (a group `1:`, or `on:` under YAML 1.1) cannot be expressed. The source looks groups up with string paths, so it finds none of their settings and refuses such a group as having no role; the model can only write the key as the string `"1"`, which it accepts.
- ConfigLookup.Keys: a repeated key is listed once per entry, where a loaded Python dict holds it once. So on such a `nodes` mapping the validator checks that group once per entry and counts its hosts once per entry: a control group of one host written twice counts two hosts and is refused as `TwoControlNodes`, which the source accepts. The validator is faithful only for files whose mappings have no repeated key.
- A `nodes` value that is set but is not a mapping always fails the source's validator: iterating it raises, or its first element makes a lookup raise or names a group without a role. The model reports all of these as `NodesNotMapping`.

## Findings

| source | as written | input that shows it | evidently intended | confidence | as-written member | corrected member |
|---|---|---|---|---|---|---|
| plugins/inventory/cluster.py:462 | `config = self._config if config is None else config` also runs in the recursive call of line 474. So a null value met half way down a dotted key restarts the lookup of the remaining segments at the root of the file. | A group with an empty body: `{nodes: {web: null}, num: 3}`. Looking up `nodes.web.num` yields 3, the root's `num`, instead of the default. | A null subtree is a missing subtree, and the lookup returns the default. | not executed | ConfigLookup.GetConfigAsWritten, shown by ConfigLookup.NullSubtreeRestartsAtRoot | ConfigLookup.GetConfig, with ConfigLookup.GetConfigResolves proved about it. The group lookups and the validator take a `Reading`, and ConfigValidation.ValidateAcceptsWellFormed holds for both; ConfigValidation.NullGroupHasNoRole shows the corrected validator refusing the group the source reads from the root |
