/** NetworkManager: sequential allocation of IPv4 host addresses inside one
    private network, with explicit reservation of addresses that existing
    servers already carry. Addresses are naturals below 2^32. */
module IpAllocator {
  import opened Results

  const AddressSpace: nat := 0x1_0000_0000

  /** An IPv4 network in CIDR form: network address and prefix length. */
  datatype Network = Network(base: nat, prefix: nat)

  datatype AllocError =
    | InvalidNetwork    // IPv4Network(...) refuses the CIDR text
    | NoAddressLeft     // RuntimeError: the host iterator is exhausted
    | NotHostAddress    // ValueError: not one of the network's hosts
    | AlreadyReserved   // ValueError: the address was reserved or handed out before

  function Pow2(k: nat): (r: nat)
    ensures r >= 1
    ensures k >= 2 ==> r >= 4
  {
    if k == 0 then 1 else 2 * Pow2(k - 1)
  }

  /** Number of addresses a prefix covers. */
  function BlockSize(prefix: nat): nat
    requires prefix <= 32
  {
    Pow2(32 - prefix)
  }

  /** A network in strict CIDR form: no host bits set in the network address. */
  predicate ValidNetwork(n: Network) {
    n.prefix <= 32 && n.base < AddressSpace && n.base % BlockSize(n.prefix) == 0
  }

  /** First address `hosts()` yields: past the network address, except for
      /31 and /32, whose every address counts as a host. */
  function FirstHost(n: Network): nat
    requires ValidNetwork(n)
  {
    if n.prefix >= 31 then n.base else n.base + 1
  }

  /** Last address `hosts()` yields: before the broadcast address, except
      for /31 and /32. */
  function LastHost(n: Network): (last: nat)
    requires ValidNetwork(n)
    ensures FirstHost(n) <= last
  {
    if n.prefix == 32 then n.base
    else if n.prefix == 31 then n.base + 1
    else n.base + BlockSize(n.prefix) - 2
  }

  predicate IsHost(n: Network, ip: nat)
    requires ValidNetwork(n)
  {
    FirstHost(n) <= ip <= LastHost(n)
  }

  function HostCount(n: Network): (c: nat)
    requires ValidNetwork(n)
    ensures c >= 1
  {
    LastHost(n) - FirstHost(n) + 1
  }

  /** The manager's state: the network, every address reserved or handed
      out so far, and the position of the host iterator. */
  datatype Allocator = Allocator(net: Network, taken: set<nat>, cursor: nat)

  /** What every reachable manager satisfies: only host addresses are
      recorded, and every host the iterator has passed is recorded. */
  predicate Valid(a: Allocator) {
    && ValidNetwork(a.net)
    && (forall ip :: ip in a.taken ==> IsHost(a.net, ip))
    && FirstHost(a.net) <= a.cursor <= LastHost(a.net) + 1
    && (forall ip: nat :: FirstHost(a.net) <= ip < a.cursor ==> ip in a.taken)
  }

  /** `NetworkManager(cidr)`: a fresh manager with nothing reserved. */
  function NewAllocator(n: Network): (r: Result<Allocator, AllocError>)
    ensures r.Err? <==> !ValidNetwork(n)
    ensures r.Err? ==> r.error == InvalidNetwork
    ensures r.Ok? ==> Valid(r.value) && r.value.net == n && r.value.taken == {}
  {
    if !ValidNetwork(n) then Err(InvalidNetwork)
    else Ok(Allocator(n, {}, FirstHost(n)))
  }

  /** The host iterator resumed at `p`: the first host at or after `p`
      that is not recorded, if any. */
  function FirstFreeFrom(n: Network, taken: set<nat>, p: nat): (r: Option<nat>)
    requires ValidNetwork(n)
    ensures r.Some? ==> p <= r.value <= LastHost(n) && r.value !in taken
    ensures r.Some? ==> forall q: nat :: p <= q < r.value ==> q in taken
    ensures r.None? ==> forall q: nat :: p <= q <= LastHost(n) ==> q in taken
    decreases LastHost(n) + 1 - p
  {
    if p > LastHost(n) then None
    else if p !in taken then Some(p)
    else FirstFreeFrom(n, taken, p + 1)
  }

  /** `get_next_ip`: the lowest host address nobody holds, now recorded. */
  function GetNextIp(a: Allocator): (r: Result<(nat, Allocator), AllocError>)
    requires Valid(a)
    ensures r.Err? <==> forall ip: nat :: IsHost(a.net, ip) ==> ip in a.taken
    ensures r.Err? ==> r.error == NoAddressLeft
    ensures r.Ok? ==> IsHost(a.net, r.value.0) && r.value.0 !in a.taken
    ensures r.Ok? ==> forall q: nat :: IsHost(a.net, q) && q < r.value.0 ==> q in a.taken
    ensures r.Ok? ==> r.value.1.net == a.net && r.value.1.taken == a.taken + {r.value.0}
    ensures r.Ok? ==> Valid(r.value.1)
  {
    match FirstFreeFrom(a.net, a.taken, a.cursor)
    case None => Err(NoAddressLeft)
    case Some(ip) =>
      var b := Allocator(a.net, a.taken + {ip}, ip + 1);
      assert Valid(b) by {
        forall q: nat | FirstHost(a.net) <= q < ip + 1
          ensures q in b.taken
        {
          if q < a.cursor { assert q in a.taken; }
        }
      }
      Ok((ip, b))
  }

  /** `reserve_ip`: record one given address, refusing non-hosts and
      addresses that are already recorded. */
  function ReserveIp(a: Allocator, ip: nat): (r: Result<Allocator, AllocError>)
    requires Valid(a)
    ensures r.Ok? <==> IsHost(a.net, ip) && ip !in a.taken
    ensures !IsHost(a.net, ip) ==> r == Err(NotHostAddress)
    ensures IsHost(a.net, ip) && ip in a.taken ==> r == Err(AlreadyReserved)
    ensures r.Ok? ==> r.value.net == a.net && r.value.taken == a.taken + {ip} && Valid(r.value)
  {
    if !IsHost(a.net, ip) then Err(NotHostAddress)
    else if ip in a.taken then Err(AlreadyReserved)
    else Ok(a.(taken := a.taken + {ip}))
  }

  /** Reserving the `internal_ip` labels of existing servers one after the
      other; the first refusal aborts. */
  function ReserveAll(a: Allocator, ips: seq<nat>): (r: Result<Allocator, AllocError>)
    requires Valid(a)
    ensures r.Ok? ==> Valid(r.value) && r.value.net == a.net
    ensures r.Ok? ==> r.value.taken == a.taken + (set x | x in ips)
    decreases |ips|
  {
    if |ips| == 0 then Ok(a)
    else
      match ReserveIp(a, ips[0])
      case Err(e) => Err(e)
      case Ok(b) =>
        assert (set x | x in ips) == {ips[0]} + (set x | x in ips[1..]);
        ReserveAll(b, ips[1..])
  }

  /** `reserve_all` succeeds exactly when the labels are distinct host
      addresses that nobody holds yet. */
  lemma {:induction false} ReserveAllSucceeds(a: Allocator, ips: seq<nat>)
    requires Valid(a)
    ensures ReserveAll(a, ips).Ok? <==>
              && (forall i :: 0 <= i < |ips| ==> IsHost(a.net, ips[i]) && ips[i] !in a.taken)
              && (forall i, j :: 0 <= i < j < |ips| ==> ips[i] != ips[j])
    decreases |ips|
  {
    if |ips| > 0 {
      match ReserveIp(a, ips[0])
      case Err(e) =>
      case Ok(b) =>
        ReserveAllSucceeds(b, ips[1..]);
        assert forall i :: 1 <= i < |ips| ==> ips[i] == ips[1..][i - 1];
    }
  }

  // ---------------------------------------------------------------------
  // Capacity

  /** The integers from `lo` to `hi` inclusive. */
  function Range(lo: nat, hi: nat): (s: set<nat>)
    ensures forall x: nat :: x in s <==> lo <= x <= hi
    decreases hi + 1 - lo
  {
    if lo > hi then {} else {lo} + Range(lo + 1, hi)
  }

  /** The host addresses of a network, as a set. */
  function Hosts(n: Network): set<nat>
    requires ValidNetwork(n)
  {
    Range(FirstHost(n), LastHost(n))
  }

  lemma {:induction false} RangeSize(lo: nat, hi: nat)
    requires lo <= hi + 1
    ensures |Range(lo, hi)| == hi + 1 - lo
    decreases hi + 1 - lo
  {
    if lo <= hi {
      RangeSize(lo + 1, hi);
      assert lo !in Range(lo + 1, hi);
    }
  }

  lemma SubsetSize<T>(small: set<T>, big: set<T>)
    requires small <= big
    ensures |small| <= |big|
    ensures small < big ==> |small| < |big|
  {
    assert big == small + (big - small);
    assert small * (big - small) == {};
    if small < big {
      var x :| x in big - small;
    }
  }

  /** The manager never records more addresses than the network has hosts,
      and `get_next_ip` raises exactly when every host is recorded. */
  lemma ExhaustedIffFull(a: Allocator)
    requires Valid(a)
    ensures |a.taken| <= HostCount(a.net)
    ensures GetNextIp(a).Err? <==> |a.taken| == HostCount(a.net)
  {
    var hosts := Hosts(a.net);
    RangeSize(FirstHost(a.net), LastHost(a.net));
    assert |hosts| == HostCount(a.net);
    assert a.taken <= hosts;
    SubsetSize(a.taken, hosts);
    if GetNextIp(a).Err? {
      assert a.taken == hosts;
    } else {
      var ip := GetNextIp(a).value.0;
      assert ip in hosts - a.taken;
      assert a.taken < hosts;
    }
  }

  /** What the host loop below keeps: `cur` is `a` plus the distinct new
      addresses `ips`. */
  predicate Progress(a: Allocator, cur: Allocator, ips: seq<nat>)
    requires Valid(a)
  {
    && Valid(cur) && cur.net == a.net
    && cur.taken == a.taken + (set x | x in ips)
    && |cur.taken| == |a.taken| + |ips|
    && (forall i :: 0 <= i < |ips| ==> IsHost(a.net, ips[i]) && ips[i] !in a.taken)
    && (forall i, j :: 0 <= i < j < |ips| ==> ips[i] != ips[j])
  }

  /** Adding a fresh address to the recorded set and to the list of new
      addresses keeps them in step. */
  lemma AppendFresh(base: set<nat>, taken: set<nat>, ips: seq<nat>, ip: nat)
    requires taken == base + (set x | x in ips) && ip !in taken
    ensures taken + {ip} == base + (set x | x in ips + [ip])
    ensures |taken + {ip}| == |taken| + 1
    ensures forall i :: 0 <= i < |ips| ==> (ips + [ip])[i] == ips[i] != ip
  {
    assert (set x | x in ips + [ip]) == (set x | x in ips) + {ip};
    assert forall i :: 0 <= i < |ips| ==> ips[i] in taken;
  }

  lemma ProgressStep(a: Allocator, cur: Allocator, ips: seq<nat>)
    requires Valid(a) && Progress(a, cur, ips)
    requires GetNextIp(cur).Ok?
    ensures Progress(a, GetNextIp(cur).value.1, ips + [GetNextIp(cur).value.0])
  {
    var ip := GetNextIp(cur).value.0;
    var next := GetNextIp(cur).value.1;
    AppendFresh(a.taken, cur.taken, ips, ip);
    assert next.taken == cur.taken + {ip};
  }

  /** The host loop of a group whose servers all have to be created: one
      `get_next_ip` per new host. The addresses are distinct, new, and fit
      exactly when enough hosts are free. */
  method AllocateHosts(a: Allocator, k: nat) returns (r: Result<(seq<nat>, Allocator), AllocError>)
    requires Valid(a)
    ensures r.Ok? <==> |a.taken| + k <= HostCount(a.net)
    ensures r.Err? ==> r.error == NoAddressLeft
    ensures r.Ok? ==> |r.value.0| == k
    ensures r.Ok? ==> forall i :: 0 <= i < k ==> IsHost(a.net, r.value.0[i]) && r.value.0[i] !in a.taken
    ensures r.Ok? ==> forall i, j :: 0 <= i < j < k ==> r.value.0[i] != r.value.0[j]
    ensures r.Ok? ==> Valid(r.value.1) && r.value.1.net == a.net
    ensures r.Ok? ==> r.value.1.taken == a.taken + (set x | x in r.value.0)
  {
    var cur := a;
    var ips: seq<nat> := [];
    while |ips| < k
      invariant Progress(a, cur, ips)
      invariant |ips| <= k
    {
      ExhaustedIffFull(cur);
      var step := GetNextIp(cur);
      if step.Err? {
        return Err(step.error);
      }
      ProgressStep(a, cur, ips);
      ips := ips + [step.value.0];
      cur := step.value.1;
    }
    ExhaustedIffFull(cur);
    return Ok((ips, cur));
  }
}
