/** What each DHCP message does to the set of leases. */
module DhcpLeases {
  import opened Bytes
  import opened Options
  import opened DhcpPool

  lemma SameNode(pool: seq<Lease>, config: Config, k: nat, l: Lease)
    requires Sound(pool, config) && k < |pool| && l in pool
    ensures l.mac == pool[k].mac || l.ip == pool[k].ip ==> l == pool[k]
  {
    hide InRange;
    var i :| 0 <= i < |pool| && pool[i] == l;
  }

  lemma RemovedAt(pool: seq<Lease>, k: nat, i: nat)
    requires k < |pool| && i < |pool| - 1
    ensures RemoveAt(pool, k)[i] == if i < k then pool[i] else pool[i + 1]
  {
  }

  lemma RemovedExactly(pool: seq<Lease>, config: Config, k: nat, l: Lease)
    requires Sound(pool, config) && k < |pool|
    ensures l in RemoveAt(pool, k) <==> l in pool && l.mac != pool[k].mac
  {
    hide RemoveAt;
    hide InRange;
    if l in RemoveAt(pool, k) {
      var i :| 0 <= i < |pool| - 1 && RemoveAt(pool, k)[i] == l;
      RemovedAt(pool, k, i);
      DifferentNodes(pool, config, k, if i < k then i else i + 1);
    }
    if l in pool && l.mac != pool[k].mac {
      var i :| 0 <= i < |pool| && pool[i] == l;
      NotRemoved(pool, k, i);
    }
  }

  lemma ReplacedExactly(pool: seq<Lease>, config: Config, k: nat, now: Lease, l: Lease)
    requires Sound(pool, config) && k < |pool|
    ensures l in pool[k := now] <==> l == now || (l in pool && l.mac != pool[k].mac)
  {
    hide InRange;
    assert pool[k := now][k] == now;
    if l in pool && l.mac != pool[k].mac {
      var i :| 0 <= i < |pool| && pool[i] == l;
      assert pool[k := now][i] == l;
    }
  }

  /** The station has a lease on the address. */
  ghost predicate Has(pool: seq<Lease>, mac: Mac, ip: word) {
    exists l :: l in pool && l.ip == ip && l.mac == mac
  }

  /** Another station that is online has a lease on the address. */
  ghost predicate InUse(pool: seq<Lease>, mac: Mac, ip: word) {
    exists l :: l in pool && l.ip == ip && l.mac != mac && l.status == Online
  }

  /** The leases of `now` are the one granted and those of `pool` on other addresses for other stations. */
  ghost predicate Grants(now: seq<Lease>, pool: seq<Lease>, granted: Lease) {
    forall l :: l in now <==> l == granted || (l in pool && l.mac != granted.mac && l.ip != granted.ip)
  }

  /** A station that asks for an address of the range, by the nodes it and the address have. */
  lemma OwnNode(pool: seq<Lease>, config: Config, mac: Mac, ip: word, p: nat)
    requires Sound(pool, config) && p < |pool| && pool[p].mac == mac && pool[p].ip == ip
    ensures Grants(pool[p := Lease(ip, mac, config.leaseTime, Dynamic, Online)], pool,
                   Lease(ip, mac, config.leaseTime, Dynamic, Online))
  {
    hide Sound;
    var lease := Lease(ip, mac, config.leaseTime, Dynamic, Online);
    forall l
      ensures l in pool[p := lease] <==> l == lease || (l in pool && l.mac != mac && l.ip != ip)
    {
      ReplacedExactly(pool, config, p, lease, l);
      if l in pool {
        SameNode(pool, config, p, l);
      }
    }
  }

  lemma FreeNode(pool: seq<Lease>, config: Config, p: nat, lease: Lease)
    requires Sound(pool, config) && p < |pool| && pool[p].ip == lease.ip
    requires forall i :: 0 <= i < |pool| ==> pool[i].mac != lease.mac
    ensures Grants(pool[p := lease], pool, lease)
  {
    hide Sound;
    forall l
      ensures l in pool[p := lease] <==> l == lease || (l in pool && l.mac != lease.mac && l.ip != lease.ip)
    {
      ReplacedExactly(pool, config, p, lease, l);
      if l in pool {
        SameNode(pool, config, p, l);
        assert l.mac != lease.mac;
      }
    }
  }

  lemma MovedNode(pool: seq<Lease>, config: Config, m: nat, lease: Lease)
    requires Sound(pool, config) && m < |pool| && pool[m].mac == lease.mac
    requires forall i :: 0 <= i < |pool| ==> pool[i].ip == lease.ip ==> i == m
    ensures Grants(Insert(RemoveAt(pool, m), lease), pool, lease)
  {
    hide Sound;
    hide RemoveAt;
    hide Insert;
    Inserted(RemoveAt(pool, m), lease);
    forall l
      ensures l in Insert(RemoveAt(pool, m), lease) <==>
                l == lease || (l in pool && l.mac != lease.mac && l.ip != lease.ip)
    {
      RemovedExactly(pool, config, m, l);
    }
  }

  lemma NewNode(pool: seq<Lease>, lease: Lease)
    requires forall i :: 0 <= i < |pool| ==> pool[i].ip != lease.ip && pool[i].mac != lease.mac
    ensures Grants(Insert(pool, lease), pool, lease)
  {
    hide Insert;
    Inserted(pool, lease);
  }

  lemma TakenNode(pool: seq<Lease>, config: Config, m: nat, p: nat, lease: Lease)
    requires Sound(pool, config) && m < |pool| && p < |pool| && m != p
    requires pool[m].mac == lease.mac && pool[p].ip == lease.ip
    ensures Grants(RemoveAt(pool[p := lease], m), pool, lease)
  {
    hide Sound;
    hide RemoveAt;
    var others, k := RemoveAt(pool, m), if p < m then p else p - 1;
    OthersOf(pool, config, m, p, lease);
    FreeNode(others, config, k, lease);
    forall l
      ensures l in others[k := lease] <==> l == lease || (l in pool && l.mac != lease.mac && l.ip != lease.ip)
    {
      RemovedExactly(pool, config, m, l);
    }
  }

  lemma OthersOf(pool: seq<Lease>, config: Config, m: nat, p: nat, lease: Lease)
    requires Sound(pool, config) && m < |pool| && p < |pool| && m != p
    requires pool[m].mac == lease.mac && pool[p].ip == lease.ip
    ensures var others, k := RemoveAt(pool, m), if p < m then p else p - 1;
            && Sound(others, config) && others[k].ip == lease.ip
            && (forall i :: 0 <= i < |others| ==> others[i].mac != lease.mac)
            && RemoveAt(pool[p := lease], m) == others[k := lease]
  {
    hide InRange;
    RemoveKeeps(pool, config, m);
    var others := RemoveAt(pool, m);
    forall i | 0 <= i < |others|
      ensures others[i].mac != lease.mac
    {
      assert others[i] == pool[if i < m then i else i + 1];
    }
  }

  /**
    What is answered to a station that asks for an address of the range. It is granted if and only if no other station
    has it online. A refusal changes nothing; a grant is a renewal exactly if the station had that address, and is
    recorded online for the whole time, static unless it is a renewal. An offline lease on the address, and the
    station's lease on another, are gone.
  */
  ghost predicate AnswersWanted(u: Update, pool: seq<Lease>, config: Config, mac: Mac, ip: word) {
    if InUse(pool, mac, ip) then u == Update(pool, ANY, false) else
    && u.ip == ip && (u.renew <==> Has(pool, mac, ip))
    && Grants(u.pool, pool, Lease(ip, mac, config.leaseTime, if u.renew then Dynamic else Static, Online))
  }

  lemma WantedExactly(pool: seq<Lease>, config: Config, mac: Mac, ip: word)
    requires Sound(pool, config) && InRange(config, ip)
    ensures AnswersWanted(UpdateWanted(pool, config, mac, ip), pool, config, mac, ip)
  {
    hide Insert;
    hide RemoveAt;
    hide Sound;
    hide Grants;
    var m, p := LastMac(pool, mac), LastIp(pool, ip);
    var taken := Lease(ip, mac, config.leaseTime, Static, Online);
    NodeOf(pool, config, mac, ip, p);
    if p >= 0 && p == m {
      OwnNode(pool, config, mac, ip, p);
    } else if p >= 0 && pool[p].status != Offline {
    } else if p >= 0 && m >= 0 {
      TakenNode(pool, config, m, p, taken);
    } else if p >= 0 {
      FreeNode(pool, config, p, taken);
    } else if m >= 0 {
      MovedNode(pool, config, m, taken);
    } else {
      NewNode(pool, taken);
    }
  }

  /** The node with the address tells whether it is in use and whether the station has it. */
  lemma NodeOf(pool: seq<Lease>, config: Config, mac: Mac, ip: word, p: int)
    requires Sound(pool, config) && p == LastIp(pool, ip)
    ensures InUse(pool, mac, ip) <==> p >= 0 && pool[p].mac != mac && pool[p].status == Online
    ensures Has(pool, mac, ip) <==> p >= 0 && p == LastMac(pool, mac)
  {
    hide Sound;
    forall l | l in pool && l.ip == ip
      ensures p >= 0 && l == pool[p]
    {
      var i :| 0 <= i < |pool| && pool[i] == l;
      SameNode(pool, config, p, l);
    }
    if p >= 0 && LastMac(pool, mac) >= 0 {
      SameNode(pool, config, p, pool[LastMac(pool, mac)]);
      if p != LastMac(pool, mac) {
        DifferentNodes(pool, config, p, LastMac(pool, mac));
      }
    }
  }

  lemma DifferentNodes(pool: seq<Lease>, config: Config, i: nat, j: nat)
    requires Sound(pool, config) && i < |pool| && j < |pool| && i != j
    ensures pool[i].mac != pool[j].mac && pool[i].ip != pool[j].ip
  {
    hide InRange;
  }

  /**
    What is answered to a station that asks for no address: the lowest one of the range that no other station has,
    online or not, and a refusal exactly if there is none; a refusal changes nothing, and a grant is never a renewal.
  */
  ghost predicate AnswersAny(u: Update, pool: seq<Lease>, config: Config, mac: Mac) {
    && !u.renew && (u.ip == ANY <==> FullFor(pool, config, mac)) && (u.ip == ANY ==> u.pool == pool)
    && (u.ip != ANY ==>
          && InRange(config, u.ip) && !HeldByOther(pool, mac, u.ip)
          && (forall a: word :: InRange(config, a) && a < u.ip ==> HeldByOther(pool, mac, a))
          && Grants(u.pool, pool, Lease(u.ip, mac, config.leaseTime, Dynamic, Online)))
  }

  lemma AnyExactly(pool: seq<Lease>, config: Config, mac: Mac)
    requires Ranged(config) && Sound(pool, config) && (Host(config.end) < 255 || !FullFor(pool, config, mac))
    ensures AnswersAny(UpdateAny(pool, config, mac), pool, config, mac)
  {
    hide Insert;
    hide RemoveAt;
    hide Sound;
    hide ScanFree;
    hide Grants;
    hide InRange;
    var u, s := UpdateAny(pool, config, mac), ScanFree(pool, mac, config.start);
    LowestFreeAddress(pool, config, mac);
    if u.ip == ANY {
      StartIsNotAny(pool, config, mac);
    } else {
      var lease := Lease(s.free, mac, config.leaseTime, Dynamic, Online);
      forall i | 0 <= i < |pool| && pool[i].ip == s.free
        ensures s.at >= 0 && i == s.at
      {
        assert pool[i].mac == mac;
        if i != s.at {
          DifferentNodes(pool, config, i, s.at);
        }
      }
      if s.at >= 0 {
        MovedNode(pool, config, s.at, lease);
      } else {
        NewNode(pool, lease);
      }
    }
  }

  lemma StartIsNotAny(pool: seq<Lease>, config: Config, mac: Mac)
    requires Ranged(config) && Sound(pool, config) && UpdateAny(pool, config, mac).ip == ANY
    requires Host(config.end) < 255 || !FullFor(pool, config, mac)
    ensures UpdateAny(pool, config, mac) == Update(pool, ANY, false)
  {
    hide ScanFree;
    hide Insert;
    hide Sound;
    LowestFreeAddress(pool, config, mac);
    SoundIsTail(pool, config);
    ScanFindsLowest(pool, config, mac, config.start);
  }

  /** What is answered to any request the pool can take; a broadcast address is refused without a look at the pool. */
  ghost predicate Answers(u: Update, pool: seq<Lease>, config: Config, renew: bool, mac: Mac, ip: Option<word>) {
    if ip == Some(BROADCAST) then u == Update(pool, ANY, renew) else
    if ip == None || ip == Some(ANY) then
      Host(config.end) < 255 || !FullFor(pool, config, mac) ==> AnswersAny(u, pool, config, mac)
    else InRange(config, ip.value) ==> AnswersWanted(u, pool, config, mac, ip.value)
  }

  lemma AnswersExactly(pool: seq<Lease>, config: Config, renew: bool, mac: Mac, ip: Option<word>)
    requires Ranged(config) && Sound(pool, config)
    ensures Answers(ClientUpdate(pool, config, renew, mac, ip), pool, config, renew, mac, ip)
  {
    hide AnswersAny;
    hide AnswersWanted;
    hide UpdateAny;
    hide UpdateWanted;
    hide Sound;
    hide InRange;
    if ip == None || ip == Some(ANY) {
      if Host(config.end) < 255 || !FullFor(pool, config, mac) {
        AnyExactly(pool, config, mac);
      }
    } else if InRange(config, ip.value) {
      WantedExactly(pool, config, mac, ip.value);
    }
  }

  ghost predicate Own(l: Lease, mac: Mac, ip: word) {
    l.mac == mac && l.ip == ip
  }

  /**
    What becomes of the leases when a station leaves an address: its own lease on it is gone if it is static or the
    leave is forced, and offline otherwise; nothing else changes.
  */
  ghost predicate GivesUp(now: seq<Lease>, pool: seq<Lease>, mac: Mac, ip: word, force: bool) {
    forall l ::
      l in now <==>
        || (l in pool && !Own(l, mac, ip))
        || (l.status == Offline && !force &&
            exists o :: o in pool && Own(o, mac, ip) && o.kind == Dynamic && l == o.(status := Offline))
  }

  lemma LeaveExactly(pool: seq<Lease>, config: Config, mac: Mac, ip: word, force: bool)
    requires Sound(pool, config)
    ensures GivesUp(ClientLeave(pool, mac, ip, force), pool, mac, ip, force)
  {
    hide ClientLeave;
    hide Sound;
    forall l
      ensures l in ClientLeave(pool, mac, ip, force) <==>
                || (l in pool && !Own(l, mac, ip))
                || (l.status == Offline && !force &&
                    exists o :: o in pool && Own(o, mac, ip) && o.kind == Dynamic && l == o.(status := Offline))
    {
      LeavesOne(pool, config, mac, ip, force, l);
    }
  }

  lemma LeavesOne(pool: seq<Lease>, config: Config, mac: Mac, ip: word, force: bool, l: Lease)
    requires Sound(pool, config)
    ensures l in ClientLeave(pool, mac, ip, force) <==>
              || (l in pool && !Own(l, mac, ip))
              || (l.status == Offline && !force &&
                  exists o :: o in pool && Own(o, mac, ip) && o.kind == Dynamic && l == o.(status := Offline))
  {
    hide RemoveAt;
    hide Sound;
    var k := FirstBoth(pool, mac, ip);
    if k < 0 {
      forall o
        ensures o in pool ==> !Own(o, mac, ip)
      {
        NoneHasBoth(pool, mac, ip, o);
      }
    } else {
      RemovedExactly(pool, config, k, l);
      ReplacedExactly(pool, config, k, pool[k].(status := Offline), l);
      forall o | o in pool && (Own(o, mac, ip) || o.mac == mac)
        ensures o == pool[k]
      {
        SameNode(pool, config, k, o);
      }
    }
  }

  lemma {:induction false} NoneHasBoth(pool: seq<Lease>, mac: Mac, ip: word, l: Lease)
    requires FirstBoth(pool, mac, ip) < 0
    ensures l in pool ==> !Own(l, mac, ip)
  {
    if pool != [] {
      NoneHasBoth(pool[1..], mac, ip, l);
      assert pool == [pool[0]] + pool[1..];
    }
  }

  /** A sound pool is determined by its leases. */
  lemma {:induction false} LeasesDetermine(a: seq<Lease>, b: seq<Lease>, config: Config)
    requires Sound(a, config) && Sound(b, config) && forall l :: l in a <==> l in b
    ensures a == b
    decreases |a|
  {
    hide InRange;
    hide Sound;
    if a != [] {
      assert a[0] in a;
    }
    if b != [] {
      assert b[0] in b;
    }
    if a != [] && b != [] {
      var m, n := |a| - 1, |b| - 1;
      SameGreatest(a, b, config);
      forall l
        ensures l in a[..m] <==> l in b[..n]
      {
        AllButLast(a, config, l);
        AllButLast(b, config, l);
      }
      AllButLast(a, config, a[m]);
      AllButLast(b, config, b[n]);
      LeasesDetermine(a[..m], b[..n], config);
      assert a == a[..m] + [a[m]] && b == b[..n] + [b[n]];
    }
  }

  lemma SameGreatest(a: seq<Lease>, b: seq<Lease>, config: Config)
    requires Sound(a, config) && Sound(b, config) && a != [] && b != []
    requires forall l :: l in a <==> l in b
    ensures a[|a| - 1] == b[|b| - 1]
  {
    hide InRange;
    var m, n := |a| - 1, |b| - 1;
    assert a[m] in b && b[n] in a;
    var i :| 0 <= i < |b| && b[i] == a[m];
    var j :| 0 <= j < |a| && a[j] == b[n];
  }

  lemma AllButLast(pool: seq<Lease>, config: Config, l: Lease)
    requires Sound(pool, config) && pool != []
    ensures Sound(pool[..|pool| - 1], config)
    ensures l in pool[..|pool| - 1] <==> l in pool && l != pool[|pool| - 1]
  {
    hide InRange;
    var n := |pool| - 1;
    assert forall i :: 0 <= i < n ==> pool[..n][i] == pool[i] && pool[i].ip < pool[n].ip;
    if l in pool && l != pool[n] {
      var i :| 0 <= i < |pool| && pool[i] == l;
      assert pool[..n][i] == l;
    }
  }
}
