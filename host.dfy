/** The host-name resolution layer of host.c: address lists with their
    faulty prefix and reference count, the process-wide cache from host
    names to address lists, lookup_host, and sufmatch.

    The resolver is not modelled: what inet_addr, gethostbyname and
    getaddrinfo answer for a host name is a `Resolver` value passed in.
    Freeing memory is modelled by the ghost flag `deleted`; the ghost
    counters `holders` (callers holding the list) and `cached` (whether
    the cache holds it) account for every reference. */
module Host {
  import opened Common
  import Numbers
  import Paths
  import Strings

  /** An Internet address: four bytes of IPv4, or sixteen bytes of IPv6
      with the interface scope. */
  datatype IpAddress = Ipv4(v4: seq<byte>) | Ipv6(v6: seq<byte>, scope: int)

  /** The comparison of address_list_find: the family must agree, then
      the address bytes, and for IPv6 the scope. */
  predicate SameAddress(cur: IpAddress, ip: IpAddress)
  {
    match ip
    case Ipv4(b) => cur.Ipv4? && cur.v4 == b
    case Ipv6(b, sc) => cur.Ipv6? && cur.scope == sc && cur.v6 == b
  }

  /** Where the faulty prefix ends after a failure at its end: one
      further, wrapping to zero once every address has failed. */
  function NextFaulty(faulty: int, count: int): int
  {
    if faulty + 1 >= count then 0 else faulty + 1
  }

  /** The faulty count after `n` consecutive failures of a fresh list. */
  function FaultyAfter(count: int, n: nat): int
    requires count >= 1
  {
    if n == 0 then 0 else NextFaulty(FaultyAfter(count, n - 1), count)
  }

  /** Consecutive failures cycle through the list: after `n` of them the
      faulty prefix has length `n mod count`, so the list never becomes
      permanently unusable. */
  lemma {:induction false} FaultyAfterIsRemainder(count: int, n: nat)
    requires count >= 1
    ensures FaultyAfter(count, n) == n % count
    ensures 0 <= FaultyAfter(count, n) < count
  {
    if n > 0 {
      FaultyAfterIsRemainder(count, n - 1);
      var q, r := (n - 1) / count, (n - 1) % count;
      if r + 1 == count {
        assert n == count * (q + 1) + 0;
        Numbers.DivModUnique(n, count, q + 1, 0);
      } else {
        assert n == count * q + (r + 1);
        Numbers.DivModUnique(n, count, q, r + 1);
      }
    }
  }

  /** struct address_list. The addresses never change after creation;
      `faulty` counts the leading addresses known not to work. */
  class AddressList {
    const addresses: seq<IpAddress>
    const count: int
    var faulty: int
    var connected: bool
    var refcount: int
    ghost var holders: nat
    ghost var cached: bool
    ghost var deleted: bool

    /** A live list: at least one address, a faulty prefix that leaves
        one address to try, and a reference count equal to the number of
        callers holding it plus one while the cache holds it. */
    ghost predicate Valid()
      reads this
    {
      count == |addresses| && count >= 1 && 0 <= faulty < count && !deleted &&
      refcount == holders + (if cached then 1 else 0)
    }

    /** A new list as the constructors leave it: no faulty address, not
        connected, one reference held by the caller. */
    constructor (addrs: seq<IpAddress>)
      requires |addrs| >= 1
      ensures addresses == addrs && faulty == 0 && !connected
      ensures refcount == 1 && holders == 1 && !cached && Valid()
    {
      addresses := addrs;
      count := |addrs|;
      faulty := 0;
      connected := false;
      refcount := 1;
      holders := 1;
      cached := false;
      deleted := false;
    }

    /** address_list_get_bounds: the positions still worth trying. */
    function GetBounds(): (bounds: (int, int))
      reads this
      requires Valid()
      ensures 0 <= bounds.0 < bounds.1 == |addresses|
    {
      (faulty, count)
    }

    /** address_list_address_at: the address at `pos`, which must lie
        within the bounds. */
    function AddressAt(pos: int): (ip: IpAddress)
      reads this
      requires Valid() && faulty <= pos < count
      ensures ip == addresses[pos]
    {
      addresses[pos]
    }

    /** address_list_find: whether `ip` is one of the addresses, the
        faulty ones included. */
    method Find(ip: IpAddress) returns (found: bool)
      requires Valid()
      ensures found <==> exists i :: 0 <= i < count && SameAddress(addresses[i], ip)
      ensures found <==> ip in addresses
    {
      var i := 0;
      while i < count
        invariant 0 <= i <= count
        invariant forall k :: 0 <= k < i ==> !SameAddress(addresses[k], ip)
      {
        if SameAddress(addresses[i], ip) {
          assert addresses[i] == ip;
          return true;
        }
        i := i + 1;
      }
      assert forall k :: 0 <= k < count ==> addresses[k] != ip;
      return false;
    }

    /** address_list_set_faulty: the address at `index`, which must be
        the first one not yet known faulty, failed. */
    method SetFaulty(index: int)
      requires Valid() && index == faulty
      modifies this
      ensures faulty == NextFaulty(old(faulty), count)
      ensures connected == old(connected) && refcount == old(refcount)
      ensures holders == old(holders) && cached == old(cached)
      ensures Valid()
    {
      faulty := faulty + 1;
      if faulty >= count {
        faulty := 0;
      }
    }

    /** address_list_set_connected. */
    method SetConnected()
      requires Valid()
      modifies this
      ensures connected && faulty == old(faulty) && refcount == old(refcount)
      ensures holders == old(holders) && cached == old(cached)
      ensures Valid()
    {
      connected := true;
    }

    /** address_list_connected_p: whether a connection to one of the
        addresses ever succeeded. */
    function ConnectedP(): (r: bool)
      reads this
      ensures r == connected
    {
      connected
    }

    /** One more caller holds the list (lookup_host on a cache hit). */
    method Retain()
      requires Valid()
      modifies this
      ensures refcount == old(refcount) + 1 && holders == old(holders) + 1
      ensures cached == old(cached) && faulty == old(faulty) && connected == old(connected)
      ensures Valid()
    {
      refcount := refcount + 1;
      holders := holders + 1;
    }

    /** address_list_release, by a caller (`byCache` false) or by the
        cache: one reference fewer, and the list is freed once its count
        drops to zero or below. */
    method Release(ghost byCache: bool)
      requires Valid()
      requires if byCache then cached else holders >= 1
      modifies this
      ensures refcount == old(refcount) - 1
      ensures byCache ==> !cached && holders == old(holders)
      ensures !byCache ==> cached == old(cached) && holders == old(holders) - 1
      ensures deleted <==> refcount <= 0
      ensures deleted <==> holders == 0 && !cached
      ensures !deleted ==> Valid()
      ensures faulty == old(faulty) && connected == old(connected)
    {
      refcount := refcount - 1;
      if byCache {
        cached := false;
      } else {
        holders := holders - 1;
      }
      if refcount <= 0 {
        deleted := true;
      }
    }
  }

  /** The IPv4 addresses of a gethostbyname answer, four bytes each. */
  function Ipv4List(vec: seq<seq<byte>>): (addrs: seq<IpAddress>)
    requires forall i :: 0 <= i < |vec| ==> |vec[i]| >= 4
    ensures |addrs| == |vec|
  {
    seq(|vec|, i requires 0 <= i < |vec| => Ipv4(vec[i][..4]))
  }

  /** address_list_from_ipv4_addresses: a list of the addresses of a
      non-empty vector, in order. */
  method FromIpv4Addresses(vec: seq<seq<byte>>) returns (al: AddressList)
    requires |vec| > 0
    requires forall i :: 0 <= i < |vec| ==> |vec[i]| >= 4
    ensures fresh(al) && al.addresses == Ipv4List(vec)
    ensures al.faulty == 0 && !al.connected && al.refcount == 1
    ensures al.holders == 1 && !al.cached && al.Valid()
  {
    var addrs: seq<IpAddress> := [];
    var i := 0;
    while i < |vec|
      invariant 0 <= i <= |vec| && |addrs| == i
      invariant forall k :: 0 <= k < i ==> addrs[k] == Ipv4(vec[k][..4])
    {
      addrs := addrs + [Ipv4(vec[i][..4])];
      i := i + 1;
    }
    al := new AddressList(addrs);
  }

  /** Address families an addrinfo entry can carry. */
  datatype Family = AfInet | AfInet6 | AfOther

  /** One entry of a getaddrinfo answer. */
  datatype AddrInfo = AddrInfo(family: Family, addr: seq<byte>, scope: int)

  /** The address an entry contributes, if its family is IPv4 or IPv6. */
  function Convert(ai: AddrInfo): Option<IpAddress>
  {
    match ai.family
    case AfInet6 => Some(Ipv6(ai.addr, ai.scope))
    case AfInet => Some(Ipv4(ai.addr))
    case AfOther => None
  }

  /** address_list_from_addrinfo: the IPv4 and IPv6 addresses of the
      answer in order, other families skipped; no list when there are
      none. */
  method FromAddrinfo(ai: seq<AddrInfo>) returns (al: AddressList?)
    ensures al == null <==> Collect(ai, Convert) == []
    ensures al != null ==>
      fresh(al) && al.addresses == Collect(ai, Convert) &&
      al.faulty == 0 && !al.connected && al.refcount == 1 &&
      al.holders == 1 && !al.cached && al.Valid()
  {
    var cnt := 0;
    var i := 0;
    while i < |ai|
      invariant 0 <= i <= |ai| && cnt == |Collect(ai[..i], Convert)|
    {
      assert ai[..i + 1] == ai[..i] + [ai[i]];
      CollectSnoc(ai[..i], ai[i], Convert);
      if ai[i].family == AfInet || ai[i].family == AfInet6 {
        cnt := cnt + 1;
      }
      i := i + 1;
    }
    assert ai[..|ai|] == ai;
    if cnt == 0 {
      return null;
    }
    var addrs: seq<IpAddress> := [];
    i := 0;
    while i < |ai|
      invariant 0 <= i <= |ai| && addrs == Collect(ai[..i], Convert)
    {
      assert ai[..i + 1] == ai[..i] + [ai[i]];
      CollectSnoc(ai[..i], ai[i], Convert);
      if ai[i].family == AfInet6 {
        addrs := addrs + [Ipv6(ai[i].addr, ai[i].scope)];
      } else if ai[i].family == AfInet {
        addrs := addrs + [Ipv4(ai[i].addr)];
      }
      i := i + 1;
    }
    al := new AddressList(addrs);
  }

  /** What the resolver says about one host name, in either build.
      Without IPv6 support: the value of inet_addr when the name is a
      dotted-quad address, and the address vector of gethostbyname
      (None when it fails or times out). With IPv6 support: the answer
      of getaddrinfo (None when it reports an error; an empty answer is
      a null result). */
  datatype Resolver =
    | Ipv4Build(numeric: Option<seq<byte>>, hostent: Option<seq<seq<byte>>>)
    | Ipv6Build(answer: Option<seq<AddrInfo>>)
  {
    /** What inet_addr and gethostbyname guarantee: four bytes per
        address and at least one address in a successful answer. */
    predicate WellFormed()
    {
      Ipv4Build? ==>
        (numeric.Some? ==> |numeric.value| == 4) &&
        (hostent.Some? ==>
           |hostent.value| > 0 &&
           forall i :: 0 <= i < |hostent.value| ==> |hostent.value[i]| >= 4)
    }

    /** The addresses a successful name lookup yields; empty when it
        fails. */
    function Resolved(): (addrs: seq<IpAddress>)
      requires WellFormed()
    {
      match this
      case Ipv4Build(_, h) => if h.None? then [] else Ipv4List(h.value)
      case Ipv6Build(a) => if a.None? then [] else Collect(a.value, Convert)
    }

    /** Whether lookup_host answers from inet_addr without touching the
        cache. */
    predicate IsNumeric()
    {
      Ipv4Build? && numeric.Some?
    }
  }

  /** The resolution step of lookup_host on a cache miss: the
      resolver's addresses in a fresh list, or null when it failed or
      found no IPv4 or IPv6 address. */
  method Resolve(resolver: Resolver) returns (al: AddressList?)
    requires resolver.WellFormed() && !resolver.IsNumeric()
    ensures al == null <==> resolver.Resolved() == []
    ensures al != null ==>
      fresh(al) && al.addresses == resolver.Resolved() &&
      al.faulty == 0 && !al.connected && al.refcount == 1 &&
      al.holders == 1 && !al.cached && al.Valid()
  {
    match resolver {
      case Ipv6Build(answer) =>
        if answer.None? {
          return null;
        }
        al := FromAddrinfo(answer.value);
      case Ipv4Build(_, hostent) =>
        if hostent.None? {
          return null;
        }
        al := FromIpv4Addresses(hostent.value);
    }
  }

  /** The table after `host` is cached as `al`: created if absent, the
      key lowered. */
  function Put(table: Option<map<string, AddressList>>, host: string, al: AddressList): (t: Option<map<string, AddressList>>)
    ensures t.Some? && Lower(host) in t.value && t.value[Lower(host)] == al
    ensures t.Some? && t.value.Keys == (if table.Some? then table.value.Keys else {}) + {Lower(host)}
    ensures table.Some? ==> forall h :: h in table.value && h != Lower(host) ==> h in t.value && t.value[h] == table.value[h]
  {
    var m: map<string, AddressList> := if table.None? then map[] else table.value;
    Some(m[Lower(host) := al])
  }

  /** host_name_addresses_map: host names (lowered) to the address
      lists resolved for them; None until the first entry is cached. */
  class HostCache {
    var table: Option<map<string, AddressList>>

    constructor ()
      ensures table.None? && Valid()
    {
      table := None;
    }

    /** The address lists the cache holds. */
    ghost function Lists(): set<AddressList>
      reads this
    {
      if table.None? then {} else set h | h in table.value :: table.value[h]
    }

    /** Keys are lower case, every cached list is live and counts the
        cache's reference, and no list is cached under two names. */
    ghost predicate Valid()
      reads this, Lists()
    {
      table.Some? ==>
        (forall h :: h in table.value ==>
           Lower(h) == h && table.value[h].Valid() && table.value[h].cached) &&
        (forall h1, h2 :: h1 in table.value && h2 in table.value && h1 != h2 ==>
           table.value[h1] != table.value[h2])
    }

    /** hash_table_get on the case-insensitive table. */
    ghost function Lookup(host: string): (r: Option<AddressList>)
      reads this
      ensures r.Some? <==> table.Some? && Lower(host) in table.value
      ensures r.Some? ==> r.value in Lists()
    {
      if table.Some? && Lower(host) in table.value then Some(table.value[Lower(host)]) else None
    }

    /** cache_host_lookup: the cache takes a reference to `al` and files
        it under the lowered host name. lookup_host calls it only after
        a miss. */
    method CacheHostLookup(host: string, al: AddressList)
      requires Valid() && al.Valid() && !al.cached && al !in Lists()
      requires Lookup(host).None?
      modifies this, al
      ensures table == Put(old(table), host, al)
      ensures al.refcount == old(al.refcount) + 1 && al.cached
      ensures al.holders == old(al.holders) && al.faulty == old(al.faulty)
      ensures al.connected == old(al.connected)
      ensures Valid() && al.Valid()
    {
      var m: map<string, AddressList> := if table.None? then map[] else table.value;
      al.refcount := al.refcount + 1;
      al.cached := true;
      var key := Strings.XstrdupLower(host);
      LowerIdempotent(host);
      table := Some(m[key[..] := al]);
    }

    /** forget_host_lookup: drop the cache's reference to the list of
        `host`, if any, and remove the entry. The table must exist: the
        source reads it without a null check. */
    method ForgetHostLookup(host: string)
      requires Valid() && table.Some?
      modifies this, if Lookup(host).Some? then {Lookup(host).value} else {}
      ensures Valid()
      ensures old(Lookup(host)).None? ==> table == old(table)
      ensures old(Lookup(host)).Some? ==>
        var al := old(Lookup(host)).value;
        table == Some(old(table.value) - {Lower(host)}) &&
        al.refcount == old(al.refcount) - 1 && !al.cached &&
        al.holders == old(al.holders) && (al.deleted <==> al.holders == 0) &&
        al.faulty == old(al.faulty) && al.connected == old(al.connected)
    {
      if Lower(host) in table.value {
        var al := table.value[Lower(host)];
        al.Release(true);
        table := Some(table.value - {Lower(host)});
      }
    }

    /** lookup_host. Without IPv6 support a dotted-quad name yields a
        fresh list that is never cached. Otherwise a cached list is
        returned with one more reference; on a miss the resolver's
        addresses are returned in a fresh list, cached when `dnsCache`
        is set; a failed resolution returns null. */
    method LookupHost(host: string, dnsCache: bool, resolver: Resolver) returns (al: AddressList?)
      requires Valid() && resolver.WellFormed()
      modifies this, if Lookup(host).Some? then {Lookup(host).value} else {}
      ensures Valid()
      ensures al != null ==> al.Valid()
      ensures resolver.IsNumeric() ==>
        fresh(al) && al.addresses == [Ipv4(resolver.numeric.value)] &&
        al.refcount == 1 && al.holders == 1 && table == old(table)
      ensures !resolver.IsNumeric() && old(Lookup(host)).Some? ==>
        al == old(Lookup(host)).value && al.refcount == old(al.refcount) + 1 &&
        al.holders == old(al.holders) + 1 && table == old(table)
      ensures !resolver.IsNumeric() && old(Lookup(host)).None? && resolver.Resolved() == [] ==>
        al == null && table == old(table)
      ensures !resolver.IsNumeric() && old(Lookup(host)).None? && resolver.Resolved() != [] ==>
        fresh(al) && al.addresses == resolver.Resolved() && al.faulty == 0 && !al.connected &&
        al.refcount == (if dnsCache then 2 else 1) && al.holders == 1 &&
        table == (if dnsCache then Put(old(table), host, al) else old(table))
    ensures old(Lookup(host)).Some? ==>
      var c := old(Lookup(host)).value;
      c.faulty == old(c.faulty) && c.connected == old(c.connected) &&
      (resolver.IsNumeric() ==> c.refcount == old(c.refcount) && c.holders == old(c.holders))
    {
      if resolver.IsNumeric() {
        al := FromIpv4Addresses([resolver.numeric.value]);
        assert resolver.numeric.value[..4] == resolver.numeric.value;
        return;
      }
      if table.Some? && Lower(host) in table.value {
        al := table.value[Lower(host)];
        al.Retain();
        return;
      }
      al := Resolve(resolver);
      if al != null && dnsCache {
        CacheHostLookup(host, al);
      }
    }

    /** host_cleanup: free every cached list and drop the table. Each
        list must be held by the cache alone (the mapper asserts a
        reference count of one). */
    method HostCleanup()
      requires Valid()
      requires table.Some? ==> forall h :: h in table.value ==> table.value[h].refcount == 1
      modifies this, Lists()
      ensures table.None?
      ensures forall l :: l in old(Lists()) ==> l.deleted && l.holders == 0
    {
      if table.Some? {
        ghost var all := Lists();
        assert forall l :: l in all ==> l.holders == 0 by {
          forall l | l in all ensures l.holders == 0 {
            var h :| h in table.value && table.value[h] == l;
            assert l.Valid() && l.cached && l.refcount == 1;
          }
        }
        DeleteAll(all);
        table := None;
      }
    }
  }

  /** The mapper of host_cleanup, over every cached list: each one is
      deleted. */
  ghost method DeleteAll(lists: set<AddressList>)
    modifies lists
    ensures forall l :: l in lists ==> l.deleted && l.holders == old(l.holders)
  {
    var pending := lists;
    while pending != {}
      invariant pending <= lists
      invariant forall l :: l in lists ==> l.holders == old(l.holders)
      invariant forall l :: l in lists - pending ==> l.deleted
      decreases |pending|
    {
      var l :| l in pending;
      l.deleted := true;
      pending := pending - {l};
    }
  }

  /** sufmatch: whether some pattern of `list` ends `what`, compared
      case-insensitively from the terminating zeros backwards. */
  method Sufmatch(list: seq<string>, what: string) returns (r: bool)
    ensures r <==> exists i :: 0 <= i < |list| && IsSuffixFold(list[i], what)
  {
    var lw := |what|;
    var i := 0;
    while i < |list|
      invariant 0 <= i <= |list|
      invariant forall n :: 0 <= n < i ==> !IsSuffixFold(list[n], what)
    {
      var pat := list[i];
      var j, k := |pat|, lw;
      while j >= 0 && k >= 0
        invariant -1 <= j <= |pat| && -1 <= k <= lw && k - j == lw - |pat|
        invariant Paths.TailScan(what, pat, k, j, true) == Paths.TailScan(what, pat, lw, |pat|, true)
      {
        if Common.LowerChar(Paths.At(pat, j)) != Common.LowerChar(Paths.At(what, k)) {
          break;
        }
        j, k := j - 1, k - 1;
      }
      if j == -1 {
        assert Paths.MatchTail(what, pat, true);
        return true;
      }
      assert !Paths.MatchTail(what, pat, true);
      i := i + 1;
    }
    return false;
  }

  /** sufmatch compares characters, not domain labels: "ample.com"
      matches "example.com", and case does not matter. */
  lemma SufmatchIgnoresLabels()
    ensures IsSuffixFold("ample.com", "example.com")
    ensures IsSuffixFold("Example.COM", "www.example.com")
  {
    assert "example.com"[2..] == "ample.com";
    assert "www.example.com"[4..] == "example.com";
  }
}
