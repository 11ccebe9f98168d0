/** The pool as `LwipDhcpServer.cpp` keeps it: singly linked nodes, relinked and overwritten in place. */
module DhcpServer {
  import opened Bytes
  import opened Options
  import opened Chain
  import opened DhcpPool
  import opened DhcpLeases

  /** An item put in where its address belongs is its lease inserted. */
  lemma LeasesWith(nodes: seq<Item<Lease>>, n: Item<Lease>, k: nat)
    requires k == Position(Values(nodes), n.value.ip)
    ensures k <= |nodes| && Values(With(nodes, k, n)) == Insert(Values(nodes), n.value)
  {
    hide Values;
    hide Position;
    hide With;
    ValuesOfWith(nodes, k, n);
  }

  lemma LeasesWithout(nodes: seq<Item<Lease>>, k: nat)
    requires k < |nodes|
    ensures Values(Without(nodes, k)) == RemoveAt(Values(nodes), k)
  {
    hide Values;
    hide Without;
    ValuesOfWithout(nodes, k);
  }

  lemma PositionIs(pool: seq<Lease>, ip: word, k: nat)
    requires k <= |pool| && (forall i :: 0 <= i < k ==> pool[i].ip <= ip) && (k < |pool| ==> ip < pool[k].ip)
    ensures Position(pool, ip) == k
  {
  }

  lemma {:induction false} FirstBothIs(pool: seq<Lease>, mac: Mac, ip: word, k: nat)
    requires k <= |pool| && forall i :: 0 <= i < k ==> !(pool[i].mac == mac && pool[i].ip == ip)
    requires k < |pool| ==> pool[k].mac == mac && pool[k].ip == ip
    ensures FirstBoth(pool, mac, ip) == if k < |pool| then k else -1
  {
    if k > 0 {
      FirstBothIs(pool[1..], mac, ip, k - 1);
    }
  }

  /** The scan for any address, `k` nodes in: what is left decides as the whole does. */
  ghost predicate Scanned(pool: seq<Lease>, mac: Mac, from: word, k: nat, start: word, flag: bool) {
    && k <= |pool| && (forall i :: 0 <= i < k ==> pool[i].mac != mac)
    && var whole := ScanFree(pool, mac, from);
       if flag then whole == Scan(FirstMac(pool, mac), start, true) else
       var rest := ScanFree(pool[k..], mac, start);
       whole.free == rest.free && whole.settled == rest.settled
  }

  lemma StartScan(pool: seq<Lease>, mac: Mac, from: word)
    ensures Scanned(pool, mac, from, 0, from, false)
  {
    assert pool[0..] == pool;
  }

  lemma ScanStep(pool: seq<Lease>, mac: Mac, from: word, k: nat, start: word, flag: bool)
    requires Scanned(pool, mac, from, k, start, flag) && k < |pool| && pool[k].mac != mac
    ensures if flag || pool[k].ip != start then Scanned(pool, mac, from, k + 1, start, true)
            else Scanned(pool, mac, from, k + 1, Next(start), false)
  {
    hide Next;
    assert pool[k..][0] == pool[k] && pool[k..][1..] == pool[k + 1..];
  }

  lemma ScanFound(pool: seq<Lease>, mac: Mac, from: word, k: nat, start: word, flag: bool)
    requires Scanned(pool, mac, from, k, start, flag) && k < |pool| && pool[k].mac == mac
    ensures ScanFree(pool, mac, from) == Scan(k, start, true)
  {
    hide Next;
    assert pool[k..][0] == pool[k];
    assert FirstMac(pool, mac) == k;
  }

  lemma ScanEnd(pool: seq<Lease>, mac: Mac, from: word, start: word, flag: bool)
    requires Scanned(pool, mac, from, |pool|, start, flag)
    ensures ScanFree(pool, mac, from) == Scan(-1, start, flag)
  {
    hide Next;
    assert pool[|pool|..] == [];
  }

  lemma LastStep(pool: seq<Lease>, mac: Mac, ip: word, k: nat)
    requires k < |pool|
    ensures LastMac(pool[..k + 1], mac) == if pool[k].mac == mac then k else LastMac(pool[..k], mac)
    ensures LastIp(pool[..k + 1], ip) == if pool[k].ip == ip then k else LastIp(pool[..k], ip)
  {
    assert pool[..k + 1][..k] == pool[..k];
  }

  /** What the loop of `dhcps_client_update` finds. */
  ghost predicate Found(pool: seq<Lease>, mac: Mac, from: word, ip: Option<word>, m: int, p: int, start: word,
                        flag: bool) {
    && -1 <= m < |pool| && -1 <= p < |pool|
    && if ip == None then p == -1 && ScanFree(pool, mac, from) == Scan(m, start, flag)
       else !flag && m == LastMac(pool, mac) && p == LastIp(pool, ip.value)
  }

  /** The same after `k` nodes. */
  ghost predicate Looking(pool: seq<Lease>, mac: Mac, from: word, ip: Option<word>, k: nat, m: int, p: int, start: word,
                          flag: bool) {
    && k <= |pool| && -1 <= m < k && -1 <= p < k
    && if ip == None then m == -1 && p == -1 && Scanned(pool, mac, from, k, start, flag)
       else !flag && m == LastMac(pool[..k], mac) && p == LastIp(pool[..k], ip.value)
  }

  lemma LookStart(pool: seq<Lease>, mac: Mac, from: word, ip: Option<word>)
    ensures Looking(pool, mac, from, ip, 0, -1, -1, from, false)
  {
    StartScan(pool, mac, from);
  }

  lemma LookStep(pool: seq<Lease>, mac: Mac, from: word, ip: Option<word>, k: nat, m: int, p: int, start: word,
                 flag: bool)
    requires k < |pool| && Looking(pool, mac, from, ip, k, m, p, start, flag)
    ensures ip == None && pool[k].mac == mac ==> Found(pool, mac, from, ip, k, p, start, true)
    ensures ip == None && pool[k].mac != mac && (flag || pool[k].ip != start) ==>
              Looking(pool, mac, from, ip, k + 1, m, p, start, true)
    ensures ip == None && pool[k].mac != mac && !flag && pool[k].ip == start ==>
              Looking(pool, mac, from, ip, k + 1, m, p, Next(start), false)
    ensures ip.Some? ==>
              Looking(pool, mac, from, ip, k + 1, if pool[k].mac == mac then k else m,
                      if pool[k].ip == ip.value then k else p, start, flag)
  {
    hide Scanned;
    hide Next;
    hide ScanFree;
    hide LastMac;
    hide LastIp;
    if ip.Some? {
      LastStep(pool, mac, ip.value, k);
    } else if pool[k].mac == mac {
      ScanFound(pool, mac, from, k, start, flag);
    } else {
      ScanStep(pool, mac, from, k, start, flag);
    }
  }

  lemma LookEnd(pool: seq<Lease>, mac: Mac, from: word, ip: Option<word>, m: int, p: int, start: word, flag: bool)
    requires Looking(pool, mac, from, ip, |pool|, m, p, start, flag)
    ensures Found(pool, mac, from, ip, m, p, start, flag)
  {
    assert pool[..|pool|] == pool;
    if ip == None {
      ScanEnd(pool, mac, from, start, flag);
    }
  }

  /** What `dhcps_client_update` does behind its loop, for the station's node `m` and the address's node `p`. */
  ghost function Assigned(pool: seq<Lease>, end: word, m: int, p: int, lease: Lease): Update
    requires -1 <= m < |pool| && -1 <= p < |pool|
  {
    if p >= 0 && p == m then Update(pool[p := lease.(kind := Dynamic)], lease.ip, true) else
    if p >= 0 && pool[p].status != Offline then Update(pool, ANY, false) else
    if p >= 0 && m >= 0 then Update(RemoveAt(pool[p := lease], m), lease.ip, false) else
    if p >= 0 then Update(pool[p := lease], lease.ip, false) else
    if m >= 0 then Update(Insert(RemoveAt(pool, m), lease), lease.ip, false) else
    if lease.ip > end then Update(pool, ANY, false) else Update(Insert(pool, lease), lease.ip, false)
  }

  lemma AssignedIsUpdate(pool: seq<Lease>, config: Config, renew: bool, mac: Mac, ip: Option<word>, m: int, p: int,
                         start: word, flag: bool)
    requires ip != Some(ANY) && ip != Some(BROADCAST)
    requires Found(pool, mac, config.start, ip, m, p, start, flag)
    ensures -1 <= m < |pool| && -1 <= p < |pool|
    ensures ClientUpdate(pool, config, renew, mac, ip) ==
            if ip.Some? then Assigned(pool, config.end, m, p, Lease(ip.value, mac, config.leaseTime, Static, Online))
            else if !flag && start > config.end then Update(pool, ANY, false)
            else Assigned(pool, config.end, m, p, Lease(start, mac, config.leaseTime, Dynamic, Online))
  {
    hide ScanFree;
    hide Insert;
    hide RemoveAt;
    hide LastMac;
    hide LastIp;
  }

  class DhcpServer {
    var plist: Item?<Lease>
    var config: Config
    var renew: bool
    ghost var nodes: seq<Item<Lease>>

    /** The nodes form one chain without cycles. */
    ghost predicate Valid()
      reads this, nodes
    {
      Chained(nodes, plist) && Distinct(nodes)
    }

    ghost function Contents(): (pool: seq<Lease>)
      reads this, nodes`value
      ensures |pool| == |nodes|
    {
      Values(nodes)
    }

    /** The `k`th node is linked to the one behind it and holds the `k`th lease. */
    lemma NodeAt(k: nat)
      requires Valid() && k < |nodes|
      ensures nodes[k].next == At(nodes, k + 1) && At(nodes, k) == nodes[k]
      ensures nodes[k].value == Contents()[k]
    {
    }

    lemma ListEnds()
      requires Valid()
      ensures plist == At(nodes, 0) && At(nodes, |nodes|) == null && At(nodes, -1) == null
    {
    }

    lemma AtEnd(k: nat)
      requires Valid() && k <= |nodes| && At(nodes, k) == null
      ensures k == |nodes|
    {
    }

    constructor (config: Config)
      ensures Valid() && Contents() == [] && this.config == config && !renew
    {
      plist, nodes := null, [];
      this.config, renew := config, false;
    }

    /** Link `pinsert` behind `prev`, or at the head. */
    method LinkAt(prev: Item?<Lease>, pinsert: Item<Lease>, ghost k: nat)
      requires Valid() && pinsert !in nodes && pinsert.next == null && k <= |nodes| && prev == At(nodes, k - 1)
      modifies `plist, `nodes, pinsert`next, nodes`next
      ensures Valid() && nodes == With(old(nodes), k, pinsert)
      ensures forall n :: n in nodes ==> n in old(nodes) || n == pinsert
    {
      hide Chained;
      hide Distinct;
      hide With;
      WithDistinct(nodes, k, pinsert);
      plist := Link(plist, prev, pinsert, nodes, k);
      nodes := With(nodes, k, pinsert);
    }

    /** The search in `node_insert_to_list`: the last node that is not greater, or none. */
    method FindPlace(ip: word) returns (p: Item?<Lease>, ghost k: nat)
      requires Valid()
      ensures k == Position(Contents(), ip) && p == At(nodes, k - 1)
    {
      hide Values;
      hide Position;
      hide Distinct;
      ghost var pool := Contents();
      p, k := null, 0;
      if plist != null && !(ip < plist.value.ip) {
        p, k := plist, 1;
        while p.next != null && !(ip < p.next.value.ip)
          invariant 1 <= k <= |nodes| && p == nodes[k - 1]
          invariant forall i :: 0 <= i < k ==> pool[i].ip <= ip
          decreases |nodes| - k
        {
          p := p.next;
          k := k + 1;
        }
      }
      PositionIs(pool, ip, k);
    }

    /** `node_insert_to_list`. */
    method NodeInsert(pinsert: Item<Lease>)
      requires Valid() && pinsert !in nodes && pinsert.next == null
      modifies `plist, `nodes, pinsert`next, nodes`next
      ensures Valid() && Contents() == Insert(old(Contents()), pinsert.value)
      ensures forall n :: n in nodes ==> n in old(nodes) || n == pinsert
    {
      hide Position;
      hide Values;
      hide With;
      hide Insert;
      hide Valid;
      ghost var before := nodes;
      var p, k := FindPlace(pinsert.value.ip);
      LinkAt(p, pinsert, k);
      LeasesWith(before, pinsert, k);
    }

    /** The search in `node_remove_from_list`. */
    method FindPrevious(pdelete: Item<Lease>, ghost k: nat) returns (p: Item?<Lease>)
      requires Valid() && k < |nodes| && nodes[k] == pdelete
      ensures p == At(nodes, k - 1)
    {
      if plist == pdelete {
        return null;
      }
      p := plist;
      ghost var j := 0;
      while p.next != pdelete
        invariant 0 <= j < k && p == nodes[j]
        decreases k - j
      {
        p := p.next;
        j := j + 1;
      }
    }

    /** Unlink the node behind `prev`, or the head. */
    method UnlinkAt(prev: Item?<Lease>, pdelete: Item<Lease>, ghost k: nat)
      requires Valid() && k < |nodes| && nodes[k] == pdelete && prev == At(nodes, k - 1)
      modifies `plist, `nodes, nodes`next
      ensures Valid() && nodes == Without(old(nodes), k) && pdelete.next == null
      ensures pdelete !in nodes && forall n :: n in nodes ==> n in old(nodes)
    {
      hide Chained;
      hide Distinct;
      hide Without;
      WithoutDistinct(nodes, k);
      var head, _ := Unlink(plist, prev, pdelete, nodes, k);
      plist := head;
      nodes := Without(nodes, k);
      pdelete.next := null;
    }

    /** `node_remove_from_list`, for a node of the list. */
    method NodeRemove(pdelete: Item<Lease>, ghost k: nat)
      requires Valid() && k < |nodes| && nodes[k] == pdelete
      modifies `plist, `nodes, nodes`next
      ensures Valid() && nodes == Without(old(nodes), k) && pdelete.next == null
      ensures pdelete !in nodes && forall n :: n in nodes ==> n in old(nodes)
      ensures Contents() == RemoveAt(old(Contents()), k)
    {
      hide Values;
      hide RemoveAt;
      hide Without;
      hide Valid;
      ghost var before := nodes;
      var p := FindPrevious(pdelete, k);
      UnlinkAt(p, pdelete, k);
      LeasesWithout(before, k);
    }

    /** The loop of `dhcps_client_update`: the station's node, the wanted address's node, and a free address. */
    method ScanList(mac: Mac, ip: Option<word>)
      returns (pmac: Item?<Lease>, pip: Item?<Lease>, start: word, flag: bool, ghost m: int, ghost p: int)
      requires Valid()
      ensures pmac == At(nodes, m) && pip == At(nodes, p)
      ensures Found(Contents(), mac, config.start, ip, m, p, start, flag)
    {
      hide *;
      ghost var pool, k := Contents(), 0;
      pmac, pip, start, flag, m, p := null, null, config.start, false, -1, -1;
      var pback := plist;
      ListEnds();
      LookStart(pool, mac, config.start, ip);
      while pback != null
        invariant 0 <= k <= |nodes| && pback == At(nodes, k)
        invariant pmac == At(nodes, m) && pip == At(nodes, p)
        invariant Looking(pool, mac, config.start, ip, k, m, p, start, flag)
        decreases |nodes| - k
      {
        NodeAt(k);
        LookStep(pool, mac, config.start, ip, k, m, p, start, flag);
        if pback.value.mac == mac {
          pmac, m := pback, k;
          if ip == None {
            flag := true;
            return;
          }
        }
        if ip.Some? {
          if pback.value.ip == ip.value {
            pip, p := pback, k;
          }
        } else if !flag {
          if pback.value.ip != start {
            flag := true;
          } else {
            start := Next(start);
          }
        }
        pback := pback.next;
        k := k + 1;
      }
      AtEnd(k);
      LookEnd(pool, mac, config.start, ip, m, p, start, flag);
    }

    /** Overwrite the lease of the `k`th node. */
    method Overwrite(node: Item<Lease>, lease: Lease, ghost k: nat)
      requires Valid() && k < |nodes| && nodes[k] == node
      modifies node`value
      ensures Valid() && Contents() == old(Contents())[k := lease]
    {
      hide Values;
      node.value := lease;
    }

    /** Give the `k`th node another lease and put it where the address belongs. */
    method Move(node: Item<Lease>, lease: Lease, ghost k: nat)
      requires Valid() && k < |nodes| && nodes[k] == node
      modifies `plist, `nodes, nodes
      ensures Valid() && Contents() == Insert(RemoveAt(old(Contents()), k), lease)
      ensures forall n :: n in nodes ==> n in old(nodes)
    {
      hide Values;
      hide Insert;
      hide RemoveAt;
      hide Chained;
      hide Distinct;
      NodeRemove(node, k);
      node.value := lease;
      NodeInsert(node);
    }

    method Add(lease: Lease)
      requires Valid()
      modifies `plist, `nodes, nodes`next
      ensures Valid() && Contents() == Insert(old(Contents()), lease)
      ensures forall n :: n in nodes ==> n in old(nodes) || fresh(n)
    {
      hide Values;
      hide Insert;
      hide Chained;
      hide Distinct;
      var node := new Item(lease);
      NodeInsert(node);
    }

    /** What follows the loop of `dhcps_client_update` when the address has a node. */
    method TakeOver(pmac: Item?<Lease>, pip: Item<Lease>, lease: Lease, ghost m: int, ghost p: nat)
      returns (answer: word)
      requires Valid() && -1 <= m < |nodes| && p < |nodes| && pmac == At(nodes, m) && pip == nodes[p] && !renew
      modifies `plist, `nodes, `renew, nodes
      ensures Valid() && forall n :: n in nodes ==> n in old(nodes)
      ensures Update(Contents(), answer, renew) == Assigned(old(Contents()), config.end, m, p, lease)
    {
      hide Values;
      hide Insert;
      hide RemoveAt;
      hide Without;
      hide Chained;
      if m >= 0 && m != p {
        Apart(nodes, m, p);
      }
      hide Distinct;
      answer := lease.ip;
      if pip == pmac {
        renew := true;
        Overwrite(pip, lease.(kind := Dynamic), p);
      } else if pip.value.status != Offline {
        return ANY;
      } else {
        Overwrite(pip, lease, p);
        if pmac != null {
          NodeRemove(pmac, m);
        }
      }
    }

    /** What follows the loop of `dhcps_client_update`. */
    method Assign(pmac: Item?<Lease>, pip: Item?<Lease>, lease: Lease, ghost m: int, ghost p: int)
      returns (answer: word)
      requires Valid() && -1 <= m < |nodes| && -1 <= p < |nodes| && pmac == At(nodes, m) && pip == At(nodes, p) &&
               !renew
      modifies `plist, `nodes, `renew, nodes
      ensures Valid() && forall n :: n in nodes ==> n in old(nodes) || fresh(n)
      ensures Update(Contents(), answer, renew) == Assigned(old(Contents()), config.end, m, p, lease)
    {
      hide Values;
      hide Insert;
      hide RemoveAt;
      answer := lease.ip;
      if pip != null {
        answer := TakeOver(pmac, pip, lease, m, p);
      } else if pmac != null {
        Move(pmac, lease, m);
      } else if answer > config.end {
        return ANY;
      } else {
        Add(lease);
      }
    }

    /** `dhcps_client_update`, once the station and what it asks for are known. */
    method Serve(mac: Mac, wanted: Option<word>) returns (answer: word)
      requires Valid() && wanted != Some(ANY) && wanted != Some(BROADCAST)
      modifies `plist, `nodes, `renew, nodes
      ensures Valid() && forall n :: n in nodes ==> n in old(nodes) || fresh(n)
      ensures Update(Contents(), answer, renew) ==
              DhcpPool.ClientUpdate(old(Contents()), config, old(renew), mac, wanted)
    {
      hide Values;
      hide Assigned;
      hide Found;
      hide UpdateAny;
      hide UpdateWanted;
      renew := false;
      var pmac, pip, start, flag, m, p := ScanList(mac, wanted);
      AssignedIsUpdate(Contents(), config, renew, mac, wanted, m, p, start, flag);
      if wanted == None {
        if !flag && start > config.end {
          return ANY;
        }
        answer := Assign(pmac, pip, Lease(start, mac, config.leaseTime, Dynamic, Online), m, p);
      } else {
        answer := Assign(pmac, pip, Lease(wanted.value, mac, config.leaseTime, Static, Online), m, p);
      }
    }

    /** `dhcps_client_update`. */
    method ClientUpdate(bssid: Option<Mac>, ip: Option<word>) returns (answer: word)
      requires Valid()
      modifies `plist, `nodes, `renew, nodes
      ensures Valid() && forall n :: n in nodes ==> n in old(nodes) || fresh(n)
      ensures bssid == None ==> Contents() == old(Contents()) && answer == ANY && renew == old(renew)
      ensures bssid.Some? ==>
        Update(Contents(), answer, renew) == DhcpPool.ClientUpdate(old(Contents()), config, old(renew), bssid.value, ip)
      ensures bssid.Some? && Ranged(config) && old(Sound(Contents(), config)) ==>
        Answers(Update(Contents(), answer, renew), old(Contents()), config, old(renew), bssid.value, ip)
    {
      hide Answers;
      hide Sound;
      hide Ranged;
      hide Values;
      hide UpdateAny;
      hide UpdateWanted;
      if bssid.Some? && Ranged(config) && Sound(Contents(), config) {
        AnswersExactly(Contents(), config, renew, bssid.value, ip);
      }
      if bssid == None || ip == Some(BROADCAST) {
        return ANY;
      }
      answer := Serve(bssid.value, if ip == Some(ANY) then None else ip);
    }

    /** The search in `dhcps_client_leave`. */
    method FindLease(mac: Mac, ip: word) returns (pback: Item?<Lease>, ghost k: int)
      requires Valid()
      ensures k == FirstBoth(Contents(), mac, ip) && pback == At(nodes, k)
    {
      hide Values;
      ghost var pool := Contents();
      pback, k := plist, 0;
      while pback != null && !(pback.value.mac == mac && pback.value.ip == ip)
        invariant 0 <= k <= |nodes| && pback == At(nodes, k)
        invariant forall i :: 0 <= i < k ==> !(pool[i].mac == mac && pool[i].ip == ip)
        decreases |nodes| - k
      {
        pback := pback.next;
        k := k + 1;
      }
      FirstBothIs(pool, mac, ip, k);
      k := if k == |nodes| then -1 else k;
    }

    /** The search of `dhcps_client_leave`, and what becomes of the lease found. */
    method Leave(mac: Mac, ip: word, force: bool)
      requires Valid()
      modifies `plist, `nodes, nodes
      ensures Valid() && forall n :: n in nodes ==> n in old(nodes)
      ensures Contents() == DhcpPool.ClientLeave(old(Contents()), mac, ip, force)
    {
      hide Values;
      hide RemoveAt;
      var pback, k := FindLease(mac, ip);
      if pback == null {
        return;
      }
      if pback.value.kind == Static || force {
        NodeRemove(pback, k);
      } else {
        Overwrite(pback, pback.value.(status := Offline), k);
      }
    }

    /** `dhcps_client_leave`. */
    method ClientLeave(bssid: Option<Mac>, ip: Option<word>, force: bool)
      requires Valid()
      modifies `plist, `nodes, nodes
      ensures Valid() && forall n :: n in nodes ==> n in old(nodes)
      ensures bssid == None || ip == None ==> Contents() == old(Contents())
      ensures bssid.Some? && ip.Some? ==>
                Contents() == DhcpPool.ClientLeave(old(Contents()), bssid.value, ip.value, force)
      ensures bssid.Some? && ip.Some? && old(Sound(Contents(), config)) ==>
                GivesUp(Contents(), old(Contents()), bssid.value, ip.value, force)
    {
      hide GivesUp;
      hide Sound;
      hide Values;
      hide DhcpPool.ClientLeave;
      if bssid == None || ip == None {
        return;
      }
      if Sound(Contents(), config) {
        LeaveExactly(Contents(), config, bssid.value, ip.value, force);
      }
      Leave(bssid.value, ip.value, force);
    }
  }
}
