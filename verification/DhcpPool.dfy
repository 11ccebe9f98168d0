/**
  The lease pool of the DHCP server, as a list of values. Addresses are kept the way the server keeps them: as the
  32-bit words a little-endian machine reads from network byte order, so the last octet is the most significant.
*/
module DhcpPool {
  import opened Bytes
  import opened Options

  type Mac = seq<byte>

  datatype Kind = Dynamic | Static
  datatype Status = Online | Offline
  datatype Lease = Lease(ip: word, mac: Mac, timer: word, kind: Kind, status: Status)

  const ANY: word := 0
  const BROADCAST: word := 0xffff_ffff

  /** `htonl`, which is its own inverse. */
  function Swap(w: word): word {
    var b := WordBytes(w);
    BytesWord([b[3], b[2], b[1], b[0]])
  }

  /** The following address: `htonl(ntohl(w) + 1)`. */
  function Next(w: word): word {
    Swap((Swap(w) + 1) % 0x1_0000_0000)
  }

  function Host(w: word): nat {
    w / 0x100_0000
  }

  function Net(w: word): nat {
    w % 0x100_0000
  }

  lemma SwapOfBytes(s: seq<byte>)
    requires |s| == 4
    ensures Swap(BytesWord(s)) == BytesWord([s[3], s[2], s[1], s[0]])
  {
    hide BytesWord;
    hide WordBytes;
    BytesWordInverse(s);
  }

  lemma SwapIsItsOwnInverse(w: word)
    ensures Swap(Swap(w)) == w
  {
    hide BytesWord;
    hide WordBytes;
    var b := WordBytes(w);
    SwapOfBytes([b[3], b[2], b[1], b[0]]);
    assert [b[0], b[1], b[2], b[3]] == b;
    WordBytesInverse(w);
  }

  lemma LastOctet(w: word)
    ensures WordBytes(w)[3] == Host(w)
  {
  }

  lemma AddToFirst(s: seq<byte>)
    requires |s| == 4 && s[0] < 255
    ensures BytesWord(s) + 1 == BytesWord([s[0] + 1, s[1], s[2], s[3]])
    ensures BytesWord([s[3], s[2], s[1], s[0] + 1]) == BytesWord([s[3], s[2], s[1], s[0]]) + 0x100_0000
  {
  }

  /** Below host 255 the next address is the next host of the same network. */
  lemma NextHost(w: word)
    requires Host(w) < 255
    ensures Next(w) == w + 0x100_0000
  {
    hide BytesWord;
    hide WordBytes;
    var b := WordBytes(w);
    LastOctet(w);
    var s := [b[3], b[2], b[1], b[0]];
    AddToFirst(s);
    SwapOfBytes([b[3] + 1, b[2], b[1], b[0]]);
    assert [b[0], b[1], b[2], b[3]] == b;
    WordBytesInverse(w);
  }

  lemma CarryFromFirst(s: seq<byte>)
    requires |s| == 4 && s[0] == 255
    ensures (BytesWord(s) + 1) % 0x1_0000_0000 % 256 == 0
  {
    var b1: int, b2: int, b3: int := s[1], s[2], s[3];
    var k := 1 + b1 + 256 * b2 + 0x1_0000 * b3;
    assert BytesWord(s) + 1 == 256 * k;
    hide BytesWord;
    assert (BytesWord(s) + 1) % 0x1_0000_0000 == if k == 0x100_0000 then 0 else 256 * k;
  }

  /** At host 255 it is host 0 of another network. */
  lemma NextBeyond(w: word)
    requires Host(w) == 255
    ensures Host(Next(w)) == 0
  {
    hide BytesWord;
    var b := WordBytes(w);
    LastOctet(w);
    CarryFromFirst([b[3], b[2], b[1], b[0]]);
    var v := (Swap(w) + 1) % 0x1_0000_0000;
    var c := WordBytes(v);
    assert c[0] == 0;
    SmallTop(c);
  }

  lemma SmallTop(c: seq<byte>)
    requires |c| == 4 && c[0] == 0
    ensures Host(BytesWord([c[3], c[2], c[1], c[0]])) == 0
  {
  }

  // ----- the pool as a list of leases

  function FirstMac(pool: seq<Lease>, mac: Mac): (k: int)
    ensures -1 <= k < |pool|
    ensures k >= 0 ==> pool[k].mac == mac
    ensures forall i :: 0 <= i < (if k < 0 then |pool| else k) ==> pool[i].mac != mac
  {
    if pool == [] then -1 else
    if pool[0].mac == mac then 0 else
    var k := FirstMac(pool[1..], mac);
    if k < 0 then -1 else k + 1
  }

  function LastMac(pool: seq<Lease>, mac: Mac): (k: int)
    ensures -1 <= k < |pool|
    ensures k >= 0 ==> pool[k].mac == mac
    ensures forall i :: k < i < |pool| ==> pool[i].mac != mac
  {
    if pool == [] then -1 else
    if pool[|pool| - 1].mac == mac then |pool| - 1 else LastMac(pool[..|pool| - 1], mac)
  }

  function LastIp(pool: seq<Lease>, ip: word): (k: int)
    ensures -1 <= k < |pool|
    ensures k >= 0 ==> pool[k].ip == ip
    ensures forall i :: k < i < |pool| ==> pool[i].ip != ip
  {
    if pool == [] then -1 else
    if pool[|pool| - 1].ip == ip then |pool| - 1 else LastIp(pool[..|pool| - 1], ip)
  }

  /** Where `node_insert_to_list` puts an address: before the first greater one. */
  function Position(pool: seq<Lease>, ip: word): (k: nat)
    ensures k <= |pool|
    ensures forall i :: 0 <= i < k ==> pool[i].ip <= ip
    ensures k < |pool| ==> ip < pool[k].ip
  {
    if pool == [] || ip < pool[0].ip then 0 else 1 + Position(pool[1..], ip)
  }

  function Insert(pool: seq<Lease>, lease: Lease): (r: seq<Lease>)
    ensures |r| == |pool| + 1
  {
    var k := Position(pool, lease.ip);
    pool[..k] + [lease] + pool[k..]
  }

  function RemoveAt(pool: seq<Lease>, k: nat): (r: seq<Lease>)
    requires k < |pool|
    ensures |r| == |pool| - 1
  {
    pool[..k] + pool[k + 1..]
  }

  // ----- dhcps_client_update and dhcps_client_leave

  /**
    The scan for a station that asks for no address: where it is (or -1), the candidate address, and whether it is
    settled.
  */
  datatype Scan = Scan(at: int, free: word, settled: bool)

  function ScanFree(pool: seq<Lease>, mac: Mac, from: word): (s: Scan)
    ensures -1 <= s.at < |pool| && s.at == FirstMac(pool, mac)
    ensures s.at >= 0 ==> s.settled
    decreases |pool|
  {
    if pool == [] then Scan(-1, from, false) else
    if pool[0].mac == mac then Scan(0, from, true) else
    if pool[0].ip != from then Scan(FirstMac(pool, mac), from, true) else
    var s := ScanFree(pool[1..], mac, Next(from));
    Scan(if s.at < 0 then -1 else s.at + 1, s.free, s.settled)
  }

  datatype Config = Config(start: word, end: word, leaseTime: word)
  datatype Update = Update(pool: seq<Lease>, ip: word, renew: bool)

  /** A station that asks for no address. */
  function UpdateAny(pool: seq<Lease>, config: Config, mac: Mac): Update {
    var s := ScanFree(pool, mac, config.start);
    if !s.settled && s.free > config.end then Update(pool, ANY, false) else
    if s.at >= 0 then
      Update(Insert(RemoveAt(pool, s.at), Lease(s.free, mac, config.leaseTime, Dynamic, Online)), s.free, false)
    else if s.free > config.end then Update(pool, ANY, false)
    else Update(Insert(pool, Lease(s.free, mac, config.leaseTime, Dynamic, Online)), s.free, false)
  }

  /** A station that asks for `ip`. */
  function UpdateWanted(pool: seq<Lease>, config: Config, mac: Mac, ip: word): Update {
    var m, p := LastMac(pool, mac), LastIp(pool, ip);
    var taken := Lease(ip, mac, config.leaseTime, Static, Online);
    if p >= 0 && p == m then Update(pool[p := taken.(kind := Dynamic)], ip, true) else
    if p >= 0 && pool[p].status != Offline then Update(pool, ANY, false) else
    if p >= 0 && m >= 0 then Update(RemoveAt(pool[p := taken], m), ip, false) else
    if p >= 0 then Update(pool[p := taken], ip, false) else
    if m >= 0 then Update(Insert(RemoveAt(pool, m), taken), ip, false) else
    if ip > config.end then Update(pool, ANY, false) else Update(Insert(pool, taken), ip, false)
  }

  /** `dhcps_client_update`; no address and address 0 both ask for any. */
  function ClientUpdate(pool: seq<Lease>, config: Config, renew: bool, mac: Mac, ip: Option<word>): Update {
    if ip == Some(BROADCAST) then Update(pool, ANY, renew) else
    if ip == None || ip == Some(ANY) then UpdateAny(pool, config, mac) else UpdateWanted(pool, config, mac, ip.value)
  }

  function FirstBoth(pool: seq<Lease>, mac: Mac, ip: word): (k: int)
    ensures -1 <= k < |pool|
    ensures k >= 0 ==> pool[k].mac == mac && pool[k].ip == ip
  {
    if pool == [] then -1 else
    if pool[0].mac == mac && pool[0].ip == ip then 0 else
    var k := FirstBoth(pool[1..], mac, ip);
    if k < 0 then -1 else k + 1
  }

  /** `dhcps_client_leave`. */
  function ClientLeave(pool: seq<Lease>, mac: Mac, ip: word, force: bool): seq<Lease> {
    var k := FirstBoth(pool, mac, ip);
    if k < 0 then pool else
    if pool[k].kind == Static || force then RemoveAt(pool, k) else pool[k := pool[k].(status := Offline)]
  }

  // ----- what every message keeps

  predicate InRange(config: Config, ip: word) {
    config.start <= ip <= config.end && Net(ip) == Net(config.start)
  }

  /** A range of one /24 network, not empty, whose last host is not 255. */
  predicate Proper(config: Config) {
    Ranged(config) && Host(config.end) < 255
  }

  /** A range of one /24 network, not empty. */
  predicate Ranged(config: Config) {
    0 < config.start <= config.end && Net(config.end) == Net(config.start)
  }

  ghost predicate Ascending(pool: seq<Lease>) {
    forall i, j :: 0 <= i < j < |pool| ==> pool[i].ip < pool[j].ip
  }

  ghost predicate OneNodePerMac(pool: seq<Lease>) {
    forall i, j :: 0 <= i < j < |pool| ==> pool[i].mac != pool[j].mac
  }

  ghost predicate AllInRange(pool: seq<Lease>, config: Config) {
    forall i :: 0 <= i < |pool| ==> InRange(config, pool[i].ip)
  }

  ghost predicate Sound(pool: seq<Lease>, config: Config) {
    Ascending(pool) && OneNodePerMac(pool) && AllInRange(pool, config)
  }

  lemma InsertKeeps(pool: seq<Lease>, config: Config, lease: Lease)
    requires Sound(pool, config) && InRange(config, lease.ip)
    requires forall i :: 0 <= i < |pool| ==> pool[i].ip != lease.ip && pool[i].mac != lease.mac
    ensures Sound(Insert(pool, lease), config)
  {
    hide InRange;
    hide Insert;
    var k, r := Position(pool, lease.ip), Insert(pool, lease);
    forall i, j | 0 <= i < j < |r|
      ensures r[i].ip < r[j].ip && r[i].mac != r[j].mac
    {
      InsertAt(pool, lease, i);
      InsertAt(pool, lease, j);
      assert k < j ==> pool[k].ip <= pool[j - 1].ip;
    }
    forall i | 0 <= i < |r|
      ensures InRange(config, r[i].ip)
    {
      InsertAt(pool, lease, i);
    }
  }

  lemma InsertAt(pool: seq<Lease>, lease: Lease, i: nat)
    requires i < |pool| + 1
    ensures var k := Position(pool, lease.ip);
            Insert(pool, lease)[i] == if i < k then pool[i] else if i == k then lease else pool[i - 1]
  {
  }

  lemma RemoveKeeps(pool: seq<Lease>, config: Config, k: nat)
    requires Sound(pool, config) && k < |pool|
    ensures Sound(RemoveAt(pool, k), config)
    ensures forall i :: 0 <= i < |pool| - 1 ==> RemoveAt(pool, k)[i] == if i < k then pool[i] else pool[i + 1]
  {
    hide InRange;
  }

  /** Taking over a node keeps its address, so only the station must be new to the rest. */
  lemma TakeOverKeeps(pool: seq<Lease>, config: Config, k: nat, lease: Lease)
    requires Sound(pool, config) && k < |pool| && lease.ip == pool[k].ip
    requires forall i :: 0 <= i < |pool| && i != k ==> pool[i].mac != lease.mac
    ensures Sound(pool[k := lease], config)
  {
    hide InRange;
  }

  // ----- the lowest free address

  lemma NextInNet(a: word, b: word)
    requires Net(a) == Net(b) && a < b
    ensures a + 0x100_0000 <= b && Host(a) < Host(b)
  {
  }

  /** The address is held by another station. */
  ghost predicate HeldByOther(pool: seq<Lease>, mac: Mac, ip: word) {
    exists i :: 0 <= i < |pool| && pool[i].ip == ip && pool[i].mac != mac
  }

  /** The rest of a sound pool, all of it from `from` on. */
  ghost predicate Tail(pool: seq<Lease>, config: Config, from: word) {
    && Sound(pool, config) && Net(from) == Net(config.start)
    && (forall i :: 0 <= i < |pool| ==> from <= pool[i].ip)
  }

  lemma TailStep(pool: seq<Lease>, config: Config, from: word)
    requires Host(from) < 255 && Tail(pool, config, from) && pool != [] && pool[0].ip == from
    ensures Next(from) == from + 0x100_0000 && Tail(pool[1..], config, Next(from))
  {
    hide Next;
    NextHost(from);
    var rest := pool[1..];
    TailIsSound(pool, config);
    hide Sound;
    forall i | 0 <= i < |rest|
      ensures from + 0x100_0000 <= rest[i].ip
    {
      Later(pool, config, i + 1);
      NextInNet(from, pool[i + 1].ip);
    }
    NetOfNext(from);
  }

  lemma TailIsSound(pool: seq<Lease>, config: Config)
    requires Sound(pool, config) && pool != []
    ensures Sound(pool[1..], config)
  {
    hide InRange;
  }

  lemma Later(pool: seq<Lease>, config: Config, i: nat)
    requires Sound(pool, config) && 0 < i < |pool|
    ensures pool[0].ip < pool[i].ip && Net(pool[i].ip) == Net(config.start)
  {
    hide Net;
    assert InRange(config, pool[i].ip);
  }

  lemma NetOfNext(w: word)
    ensures w + 0x100_0000 < 0x1_0000_0000 ==> Net(w + 0x100_0000) == Net(w)
  {
  }

  lemma NetOrder(a: word, b: word)
    requires Net(a) == Net(b) && a <= b
    ensures Host(a) <= Host(b)
  {
  }

  /** Some address of the range from `from` on is not held by another station. */
  ghost predicate Vacant(pool: seq<Lease>, config: Config, mac: Mac, from: word) {
    exists a: word :: from <= a <= config.end && Net(a) == Net(config.start) && !HeldByOther(pool, mac, a)
  }

  /** The scan stops at the lowest address from `from` on that no other station holds. */
  lemma {:induction false} ScanFindsLowest(pool: seq<Lease>, config: Config, mac: Mac, from: word)
    requires Ranged(config) && Tail(pool, config, from) && (Host(config.end) < 255 || Vacant(pool, config, mac, from))
    ensures var s := ScanFree(pool, mac, from);
            && from <= s.free && Net(s.free) == Net(config.start)
            && !HeldByOther(pool, mac, s.free)
            && (forall a: word :: from <= a < s.free && Net(a) == Net(config.start) ==> HeldByOther(pool, mac, a))
            && (s.settled ==> s.free <= config.end)
    decreases |pool|
  {
    hide InRange;
    hide Sound;
    hide Net;
    if pool == [] {
    } else if pool[0].mac == mac || pool[0].ip != from {
      ScanStops(pool, config, mac, from);
    } else {
      var rest, next := pool[1..], Next(from);
      ScanHasNext(pool, config, mac, from);
      TailStep(pool, config, from);
      if Vacant(pool, config, mac, from) {
        StillVacant(pool, config, mac, from);
      }
      ScanFindsLowest(rest, config, mac, next);
      ScanContinues(pool, config, mac, from, ScanFree(rest, mac, next).free);
    }
  }

  /** The scan does not leave host 255 if there is still a vacant address. */
  lemma ScanHasNext(pool: seq<Lease>, config: Config, mac: Mac, from: word)
    requires Ranged(config) && Tail(pool, config, from) && (Host(config.end) < 255 || Vacant(pool, config, mac, from))
    requires pool != [] && pool[0].mac != mac && pool[0].ip == from
    ensures Host(from) < 255
  {
    assert HeldByOther(pool, mac, from);
    assert InRange(config, pool[0].ip);
    hide Sound;
    if Host(config.end) < 255 {
      NetOrder(from, config.end);
    } else {
      var a: word :| from <= a <= config.end && Net(a) == Net(config.start) && !HeldByOther(pool, mac, a);
      NextInNet(from, a);
    }
  }

  lemma StillVacant(pool: seq<Lease>, config: Config, mac: Mac, from: word)
    requires Vacant(pool, config, mac, from) && pool != [] && pool[0].mac != mac && pool[0].ip == from
    requires Net(from) == Net(config.start) && Next(from) == from + 0x100_0000
    ensures Vacant(pool[1..], config, mac, Next(from))
  {
    hide Next;
    hide Net;
    assert HeldByOther(pool, mac, from);
    var a: word :| from <= a <= config.end && Net(a) == Net(config.start) && !HeldByOther(pool, mac, a);
    NextInNet(from, a);
    forall i | 0 <= i < |pool[1..]| && pool[1..][i].ip == a
      ensures pool[1..][i].mac == mac
    {
      assert pool[i + 1] == pool[1..][i];
    }
    assert !HeldByOther(pool[1..], mac, a);
  }

  lemma ScanStops(pool: seq<Lease>, config: Config, mac: Mac, from: word)
    requires Tail(pool, config, from) && pool != [] && (pool[0].mac == mac || pool[0].ip != from)
    ensures from <= config.end && !HeldByOther(pool, mac, from)
  {
    assert InRange(config, pool[0].ip);
    assert forall i :: 0 < i < |pool| ==> from < pool[i].ip;
  }

  lemma ScanContinues(pool: seq<Lease>, config: Config, mac: Mac, from: word, free: word)
    requires Tail(pool, config, from) && pool != [] && pool[0].mac != mac && pool[0].ip == from
    requires Next(from) == from + 0x100_0000 && from < free && Net(free) == Net(config.start)
    requires !HeldByOther(pool[1..], mac, free)
    requires forall a: word :: Next(from) <= a < free && Net(a) == Net(config.start) ==> HeldByOther(pool[1..], mac, a)
    ensures !HeldByOther(pool, mac, free)
    ensures forall a: word :: from <= a < free && Net(a) == Net(config.start) ==> HeldByOther(pool, mac, a)
  {
    hide Sound;
    hide Net;
    hide InRange;
    forall i | 0 <= i < |pool| && pool[i].ip == free
      ensures pool[i].mac == mac
    {
      assert pool[1..][i - 1] == pool[i];
    }
    forall a: word | from <= a < free && Net(a) == Net(config.start)
      ensures HeldByOther(pool, mac, a)
    {
      if a == from {
        assert pool[0].ip == a;
      } else {
        NextInNet(from, a);
        var i :| 0 <= i < |pool[1..]| && pool[1..][i].ip == a && pool[1..][i].mac != mac;
        assert pool[i + 1] == pool[1..][i];
      }
    }
  }

  /** All addresses of the range are held by other stations. */
  ghost predicate FullFor(pool: seq<Lease>, config: Config, mac: Mac) {
    forall a: word :: InRange(config, a) ==> HeldByOther(pool, mac, a)
  }

  /**
    A station that asks for no address gets the lowest one no other station holds, and none exactly when there is none.
  */
  lemma LowestFreeAddress(pool: seq<Lease>, config: Config, mac: Mac)
    requires Ranged(config) && Sound(pool, config) && (Host(config.end) < 255 || !FullFor(pool, config, mac))
    ensures var ip := UpdateAny(pool, config, mac).ip;
            if ip == ANY then FullFor(pool, config, mac) else
            && InRange(config, ip) && !HeldByOther(pool, mac, ip)
            && forall a: word :: InRange(config, a) && a < ip ==> HeldByOther(pool, mac, a)
  {
    hide Sound;
    hide ScanFree;
    hide Insert;
    SoundIsTail(pool, config);
    if !FullFor(pool, config, mac) {
      var a: word :| InRange(config, a) && !HeldByOther(pool, mac, a);
      assert Vacant(pool, config, mac, config.start);
    }
    ScanFindsLowest(pool, config, mac, config.start);
  }

  lemma SoundIsTail(pool: seq<Lease>, config: Config)
    requires Sound(pool, config)
    ensures Tail(pool, config, config.start)
  {
    assert forall i :: 0 <= i < |pool| ==> InRange(config, pool[i].ip);
  }

  // ----- soundness of every message

  lemma UpdateAnyKeepsSound(pool: seq<Lease>, config: Config, mac: Mac)
    requires Proper(config) && Sound(pool, config)
    ensures Sound(UpdateAny(pool, config, mac).pool, config)
  {
    hide ScanFree;
    hide Insert;
    hide RemoveAt;
    hide InRange;
    hide Sound;
    var u, s := UpdateAny(pool, config, mac), ScanFree(pool, mac, config.start);
    LowestFreeAddress(pool, config, mac);
    SoundIsTail(pool, config);
    ScanFindsLowest(pool, config, mac, config.start);
    if u.ip != ANY {
      var lease := Lease(s.free, mac, config.leaseTime, Dynamic, Online);
      forall i | 0 <= i < |pool| && pool[i].mac != mac
        ensures pool[i].ip != s.free
      {
        assert !HeldByOther(pool, mac, s.free);
      }
      if s.at >= 0 {
        RemoveKeeps(pool, config, s.at);
        RemoveExcludes(pool, config, s.at, s.free);
        InsertKeeps(RemoveAt(pool, s.at), config, lease);
      } else {
        InsertKeeps(pool, config, lease);
      }
    }
  }

  /** Once a station's node is gone, neither it nor an address no other station holds is left. */
  lemma RemoveExcludes(pool: seq<Lease>, config: Config, m: nat, ip: word)
    requires Sound(pool, config) && m < |pool|
    requires forall i :: 0 <= i < |pool| && pool[i].mac != pool[m].mac ==> pool[i].ip != ip
    ensures forall i :: 0 <= i < |pool| - 1 ==> RemoveAt(pool, m)[i].ip != ip && RemoveAt(pool, m)[i].mac != pool[m].mac
  {
    hide InRange;
    var others := RemoveAt(pool, m);
    forall i | 0 <= i < |others|
      ensures others[i].ip != ip && others[i].mac != pool[m].mac
    {
      var k := if i < m then i else i + 1;
      assert others[i] == pool[k];
      assert k != m ==> pool[k].mac != pool[m].mac;
    }
  }

  lemma UpdateWantedKeepsSound(pool: seq<Lease>, config: Config, mac: Mac, ip: word)
    requires Proper(config) && Sound(pool, config) && InRange(config, ip)
    ensures Sound(UpdateWanted(pool, config, mac, ip).pool, config)
  {
    hide InRange;
    hide Insert;
    hide RemoveAt;
    var m, p := LastMac(pool, mac), LastIp(pool, ip);
    var taken := Lease(ip, mac, config.leaseTime, Static, Online);
    if p >= 0 && p == m {
      TakeOverKeeps(pool, config, p, taken.(kind := Dynamic));
    } else if p >= 0 && pool[p].status != Offline {
    } else if p >= 0 && m >= 0 {
      RemoveThenTake(pool, config, m, p, taken);
    } else if p >= 0 {
      TakeOverKeeps(pool, config, p, taken);
    } else if m >= 0 {
      RemoveKeeps(pool, config, m);
      RemoveExcludes(pool, config, m, ip);
      InsertKeeps(RemoveAt(pool, m), config, taken);
    } else if ip <= config.end {
      InsertKeeps(pool, config, taken);
    }
  }

  /** The station's own node goes and it takes over the node with the wanted address. */
  lemma RemoveThenTake(pool: seq<Lease>, config: Config, m: nat, p: nat, lease: Lease)
    requires Sound(pool, config) && m < |pool| && p < |pool| && m != p
    requires pool[m].mac == lease.mac && pool[p].ip == lease.ip
    ensures Sound(RemoveAt(pool[p := lease], m), config)
  {
    hide InRange;
    RemoveKeeps(pool, config, m);
    var others := RemoveAt(pool, m);
    var k := if p < m then p else p - 1;
    assert others[k] == pool[p];
    forall i | 0 <= i < |others| && i != k
      ensures others[i].mac != lease.mac
    {
      assert others[i] == pool[if i < m then i else i + 1];
    }
    TakeOverKeeps(others, config, k, lease);
    assert RemoveAt(pool[p := lease], m) == others[k := lease];
  }

  lemma LeaveKeepsSound(pool: seq<Lease>, config: Config, mac: Mac, ip: word, force: bool)
    requires Sound(pool, config)
    ensures Sound(ClientLeave(pool, mac, ip, force), config)
  {
    hide InRange;
    hide RemoveAt;
    var k := FirstBoth(pool, mac, ip);
    if k >= 0 {
      RemoveKeeps(pool, config, k);
      TakeOverKeeps(pool, config, k, pool[k].(status := Offline));
    }
  }

  datatype Message = Asks(asker: Mac, wanted: Option<word>) | Leaves(leaver: Mac, left: word, force: bool)

  /** Requests the pool can take: none, 0, broadcast, or inside the range. */
  predicate Acceptable(config: Config, msg: Message) {
    msg.Asks? && msg.wanted.Some? ==> msg.wanted.value in {ANY, BROADCAST} || InRange(config, msg.wanted.value)
  }

  datatype Server = Server(pool: seq<Lease>, renew: bool)

  function Receive(s: Server, config: Config, msg: Message): Server {
    match msg
    case Asks(mac, ip) => var u := ClientUpdate(s.pool, config, s.renew, mac, ip); Server(u.pool, u.renew)
    case Leaves(mac, ip, force) => s.(pool := ClientLeave(s.pool, mac, ip, force))
  }

  function ReceiveAll(s: Server, config: Config, msgs: seq<Message>): Server
    decreases |msgs|
  {
    if msgs == [] then s else Receive(ReceiveAll(s, config, msgs[..|msgs| - 1]), config, msgs[|msgs| - 1])
  }

  /** Over every run of acceptable messages the pool stays ascending, in range, one node per station and per address. */
  lemma {:induction false} EveryRunIsSound(config: Config, msgs: seq<Message>, renew: bool)
    requires Proper(config) && forall i :: 0 <= i < |msgs| ==> Acceptable(config, msgs[i])
    ensures Sound(ReceiveAll(Server([], renew), config, msgs).pool, config)
    decreases |msgs|
  {
    hide Sound;
    hide InRange;
    hide UpdateAny;
    hide UpdateWanted;
    hide ClientLeave;
    if msgs == [] {
      EmptyIsSound(config);
    } else {
      var n := |msgs| - 1;
      EveryRunIsSound(config, msgs[..n], renew);
      var pool := ReceiveAll(Server([], renew), config, msgs[..n]).pool;
      match msgs[n] {
        case Asks(mac, ip) =>
          UpdateAnyKeepsSound(pool, config, mac);
          if ip.Some? && ip.value !in {ANY, BROADCAST} {
            UpdateWantedKeepsSound(pool, config, mac, ip.value);
          }
        case Leaves(mac, ip, force) =>
          LeaveKeepsSound(pool, config, mac, ip, force);
      }
    }
  }

  lemma EmptyIsSound(config: Config)
    ensures Sound([], config)
  {
  }

  /** The address a station is told is the address its node holds. */
  ghost predicate Holds(pool: seq<Lease>, mac: Mac, ip: word) {
    exists i :: 0 <= i < |pool| && pool[i].mac == mac && pool[i].ip == ip && pool[i].status == Online
  }

  lemma InsertHolds(pool: seq<Lease>, lease: Lease)
    requires lease.status == Online
    ensures Holds(Insert(pool, lease), lease.mac, lease.ip)
  {
    assert Insert(pool, lease)[Position(pool, lease.ip)] == lease;
  }

  lemma AnswerIsRecorded(pool: seq<Lease>, config: Config, renew: bool, mac: Mac, ip: Option<word>)
    ensures var u := ClientUpdate(pool, config, renew, mac, ip); u.ip != ANY ==> Holds(u.pool, mac, u.ip)
  {
    hide ScanFree;
    hide Insert;
    hide RemoveAt;
    var u := ClientUpdate(pool, config, renew, mac, ip);
    if u.ip == ANY {
    } else if ip == None || ip == Some(ANY) {
      var s := ScanFree(pool, mac, config.start);
      InsertHolds(if s.at >= 0 then RemoveAt(pool, s.at) else pool,
                  Lease(s.free, mac, config.leaseTime, Dynamic, Online));
    } else {
      WantedIsRecorded(pool, config, mac, ip.value);
    }
  }

  lemma WantedIsRecorded(pool: seq<Lease>, config: Config, mac: Mac, ip: word)
    ensures var u := UpdateWanted(pool, config, mac, ip); u.ip != ANY ==> Holds(u.pool, mac, u.ip)
  {
    hide Insert;
    var m, p, u := LastMac(pool, mac), LastIp(pool, ip), UpdateWanted(pool, config, mac, ip);
    if u.ip != ANY {
      if p >= 0 {
        var k := if p == m || m < 0 || p < m then p else p - 1;
        assert u.pool[k].mac == mac && u.pool[k].ip == ip && u.pool[k].status == Online;
      } else {
        InsertHolds(if m >= 0 then RemoveAt(pool, m) else pool, Lease(ip, mac, config.leaseTime, Static, Online));
      }
    }
  }

  /** What is granted is recorded in full: online, for the whole time, static only if asked for and not just renewed. */
  lemma GrantedLease(pool: seq<Lease>, config: Config, renew: bool, mac: Mac, ip: Option<word>)
    ensures var u := ClientUpdate(pool, config, renew, mac, ip);
            var asked := ip.Some? && ip.value != ANY;
            u.ip != ANY ==>
              && (asked ==> u.ip == ip.value)
              && Lease(u.ip, mac, config.leaseTime, if asked && !u.renew then Static else Dynamic, Online) in u.pool
  {
    hide ScanFree;
    hide Insert;
    hide LastMac;
    hide LastIp;
    hide RemoveAt;
    if ip == None || ip == Some(ANY) {
      var s := ScanFree(pool, mac, config.start);
      Inserted(if s.at >= 0 then RemoveAt(pool, s.at) else pool, Lease(s.free, mac, config.leaseTime, Dynamic, Online));
    } else {
      WantedIsGranted(pool, config, mac, ip.value);
      hide UpdateWanted;
    }
  }

  lemma WantedIsGranted(pool: seq<Lease>, config: Config, mac: Mac, ip: word)
    ensures var u := UpdateWanted(pool, config, mac, ip);
            u.ip != ANY ==>
              u.ip == ip && Lease(ip, mac, config.leaseTime, if u.renew then Dynamic else Static, Online) in u.pool
  {
    hide Insert;
    hide LastMac;
    hide LastIp;
    hide RemoveAt;
    var m, p := LastMac(pool, mac), LastIp(pool, ip);
    var taken := Lease(ip, mac, config.leaseTime, Static, Online);
    if p < 0 {
      Inserted(if m >= 0 then RemoveAt(pool, m) else pool, taken);
    } else if m >= 0 && p != m {
      NotRemoved(pool[p := taken], m, p);
    } else {
      assert pool[p := taken][p] == taken && pool[p := taken.(kind := Dynamic)][p] == taken.(kind := Dynamic);
    }
  }

  lemma Inserted(pool: seq<Lease>, lease: Lease)
    ensures lease in Insert(pool, lease) && (forall l :: l in Insert(pool, lease) <==> l == lease || l in pool)
  {
    var k, r := Position(pool, lease.ip), Insert(pool, lease);
    assert r[k] == lease && r == pool[..k] + [lease] + pool[k..] && pool == pool[..k] + pool[k..];
  }

  lemma NotRemoved(pool: seq<Lease>, k: nat, i: nat)
    requires k < |pool| && i < |pool| && i != k
    ensures pool[i] in RemoveAt(pool, k)
  {
    assert RemoveAt(pool, k)[if i < k then i else i - 1] == pool[i];
  }

  lemma OnlyRemoved(pool: seq<Lease>, k: nat, l: Lease)
    requires k < |pool| && l != pool[k]
    ensures l in RemoveAt(pool, k) <==> l in pool
  {
    assert pool == pool[..k] + [pool[k]] + pool[k + 1..];
  }

  /**
    One station's request leaves the leases of all others alone, but for an offline lease on the very address that is
    granted.
  */
  lemma OthersKeepTheirLeases(pool: seq<Lease>, config: Config, renew: bool, mac: Mac, ip: Option<word>, l: Lease)
    requires l.mac != mac
    ensures var u := ClientUpdate(pool, config, renew, mac, ip);
            && (l in u.pool ==> l in pool)
            && (l in pool ==> l in u.pool || (l.status == Offline && l.ip == u.ip))
  {
    hide ScanFree;
    hide Insert;
    hide LastMac;
    hide LastIp;
    hide RemoveAt;
    if ip == None || ip == Some(ANY) {
      var s := ScanFree(pool, mac, config.start);
      if s.at >= 0 {
        OnlyRemoved(pool, s.at, l);
      }
      Inserted(if s.at >= 0 then RemoveAt(pool, s.at) else pool, Lease(s.free, mac, config.leaseTime, Dynamic, Online));
    } else {
      var m, p := LastMac(pool, mac), LastIp(pool, ip.value);
      var taken := Lease(ip.value, mac, config.leaseTime, Static, Online);
      if p >= 0 {
        Exchanged(pool, p, taken, l);
        Exchanged(pool, p, taken.(kind := Dynamic), l);
        if m >= 0 && m != p {
          OnlyRemoved(pool[p := taken], m, l);
        }
      } else {
        if m >= 0 {
          OnlyRemoved(pool, m, l);
        }
        Inserted(if m >= 0 then RemoveAt(pool, m) else pool, taken);
      }
    }
  }

  lemma Exchanged(pool: seq<Lease>, k: nat, lease: Lease, l: Lease)
    requires k < |pool| && l != lease
    ensures l in pool[k := lease] ==> l in pool
    ensures l in pool ==> l in pool[k := lease] || l == pool[k]
  {
    if l in pool && l != pool[k] {
      var i :| 0 <= i < |pool| && pool[i] == l;
      assert pool[k := lease][i] == l;
    }
  }

  /** A station that leaves changes its own lease only. */
  lemma LeavingIsLocal(pool: seq<Lease>, mac: Mac, ip: word, force: bool, l: Lease)
    requires l.mac != mac
    ensures l in ClientLeave(pool, mac, ip, force) <==> l in pool
  {
    hide RemoveAt;
    var k := FirstBoth(pool, mac, ip);
    if k >= 0 {
      OnlyRemoved(pool, k, l);
      Exchanged(pool, k, pool[k].(status := Offline), l);
    }
  }

  // ----- requests outside the range

  lemma InsertContains(pool: seq<Lease>, lease: Lease, i: nat)
    requires i < |pool|
    ensures exists k :: 0 <= k < |pool| + 1 && Insert(pool, lease)[k] == lease
    ensures exists k :: 0 <= k < |pool| + 1 && Insert(pool, lease)[k] == pool[i]
  {
    var at := Position(pool, lease.ip);
    assert Insert(pool, lease)[at] == lease;
    assert Insert(pool, lease)[if i < at then i else i + 1] == pool[i];
  }

  lemma InsertedOutOfRange(pool: seq<Lease>, config: Config, lease: Lease)
    requires !InRange(config, lease.ip)
    ensures !Sound(Insert(pool, lease), config)
  {
    var at := Position(pool, lease.ip);
    assert Insert(pool, lease)[at] == lease;
  }

  /**
    There is no check against the lower end of the range, and none at all for a station that has a node. A request
    for a particular address keeps the pool sound exactly when the address is in range, or is above the range and the
    station is new.
  */
  lemma WantedKeepsSoundExactly(pool: seq<Lease>, config: Config, mac: Mac, ip: word)
    requires Proper(config) && Sound(pool, config)
    ensures Sound(UpdateWanted(pool, config, mac, ip).pool, config) <==>
            InRange(config, ip) || (ip > config.end && forall i :: 0 <= i < |pool| ==> pool[i].mac != mac)
  {
    hide Insert;
    hide RemoveAt;
    if InRange(config, ip) {
      UpdateWantedKeepsSound(pool, config, mac, ip);
    } else {
      var m, p := LastMac(pool, mac), LastIp(pool, ip);
      assert forall i :: 0 <= i < |pool| ==> InRange(config, pool[i].ip);
      InsertedOutOfRange(if m >= 0 then RemoveAt(pool, m) else pool, config,
                         Lease(ip, mac, config.leaseTime, Static, Online));
    }
  }

  /** One request below the range is enough for the next newcomer to be given an address that is in use. */
  lemma LowRequestMakesDuplicates(pool: seq<Lease>, config: Config, x: Mac, y: Mac, low: word)
    requires Proper(config) && Sound(pool, config) && pool != [] && pool[0].ip == config.start
    requires x != y && forall i :: 0 <= i < |pool| ==> pool[i].mac != x && pool[i].mac != y
    requires ANY < low < config.start
    ensures var u := UpdateAny(UpdateWanted(pool, config, x, low).pool, config, y);
            u.ip == config.start && Holds(u.pool, y, config.start) && HeldByOther(u.pool, y, config.start)
  {
    assert LastIp(pool, low) == -1 && LastMac(pool, x) == -1;
    var first := Lease(low, x, config.leaseTime, Static, Online);
    assert Position(pool, low) == 0;
    var pool1 := UpdateWanted(pool, config, x, low).pool;
    assert pool1 == [first] + pool;
    var s := ScanFree(pool1, y, config.start);
    assert s.free == config.start && s.settled;
    assert FirstMac(pool1, y) == -1;
    var second := Lease(config.start, y, config.leaseTime, Dynamic, Online);
    var u := UpdateAny(pool1, config, y);
    assert u.pool == Insert(pool1, second);
    InsertContains(pool1, second, 1);
    var k :| 0 <= k < |pool1| + 1 && Insert(pool1, second)[k] == second;
    var k' :| 0 <= k' < |pool1| + 1 && Insert(pool1, second)[k'] == pool1[1];
    assert u.pool[k].mac == y && u.pool[k'].mac != y;
  }

  // ----- ranges that end at host 255

  lemma {:induction false} ScanOfFullPool(pool: seq<Lease>, config: Config, mac: Mac, from: word)
    requires Ranged(config)
    requires Tail(pool, config, from) && from <= config.end
    requires forall i :: 0 <= i < |pool| ==> pool[i].mac != mac
    requires forall a: word :: from <= a <= config.end && Net(a) == Net(config.start) ==> HeldByOther(pool, mac, a)
    ensures ScanFree(pool, mac, from) == Scan(-1, Next(config.end), false)
    decreases |pool|
  {
    hide Next;
    assert HeldByOther(pool, mac, from);
    var i :| 0 <= i < |pool| && pool[i].ip == from;
    assert pool[0].ip <= pool[i].ip;
    var rest := pool[1..];
    if from == config.end {
      var last := pool[|pool| - 1];
      assert InRange(config, last.ip) && pool[0].ip <= last.ip;
      assert ScanFree(rest, mac, Next(from)) == Scan(-1, Next(from), false);
    } else {
      FullTail(pool, config, mac, from);
      ScanOfFullPool(rest, config, mac, Next(from));
    }
  }

  lemma FullTail(pool: seq<Lease>, config: Config, mac: Mac, from: word)
    requires Ranged(config)
    requires Tail(pool, config, from) && from < config.end && pool != [] && pool[0].ip == from
    requires forall a: word :: from <= a <= config.end && Net(a) == Net(config.start) ==> HeldByOther(pool, mac, a)
    ensures Next(from) == from + 0x100_0000 <= config.end && Tail(pool[1..], config, Next(from))
    ensures forall a: word :: Next(from) <= a <= config.end && Net(a) == Net(config.start) ==>
              HeldByOther(pool[1..], mac, a)
  {
    hide Next;
    NextInNet(from, config.end);
    NextHost(from);
    TailIsSound(pool, config);
    NetOfNext(from);
    forall i | 0 <= i < |pool[1..]|
      ensures from + 0x100_0000 <= pool[1..][i].ip
    {
      Later(pool, config, i + 1);
      NextInNet(from, pool[i + 1].ip);
    }
    forall a: word | from + 0x100_0000 <= a <= config.end && Net(a) == Net(config.start)
      ensures HeldByOther(pool[1..], mac, a)
    {
      assert HeldByOther(pool, mac, a);
      var i :| 0 <= i < |pool| && pool[i].ip == a && pool[i].mac != mac;
      assert i > 0;
      assert pool[1..][i - 1] == pool[i];
    }
  }

  /**
    With host 255 at its end, a full range does not answer a newcomer with 0: it hands out host 0 of the next network.
  */
  lemma FullRangeUpTo255(pool: seq<Lease>, config: Config, mac: Mac)
    requires Ranged(config) && Host(config.end) == 255
    requires Sound(pool, config) && FullFor(pool, config, mac)
    requires forall i :: 0 <= i < |pool| ==> pool[i].mac != mac
    ensures UpdateAny(pool, config, mac).ip == Next(config.end) && Host(Next(config.end)) == 0
  {
    hide Next;
    hide Sound;
    hide Insert;
    SoundIsTail(pool, config);
    forall a: word | config.start <= a <= config.end && Net(a) == Net(config.start)
      ensures HeldByOther(pool, mac, a)
    {
      assert InRange(config, a);
    }
    ScanOfFullPool(pool, config, mac, config.start);
    NextBeyond(config.end);
    assert Next(config.end) < config.end;
  }

  /** A newcomer, or a station that gives up its address, is answered as it should be. */
  ghost predicate RightAnswer(pool: seq<Lease>, config: Config, mac: Mac) {
    var u := UpdateAny(pool, config, mac);
    if FullFor(pool, config, mac) then u.ip == ANY && u.pool == pool else
    && InRange(config, u.ip) && !HeldByOther(pool, mac, u.ip)
    && forall a: word :: InRange(config, a) && a < u.ip ==> HeldByOther(pool, mac, a)
  }

  /** The answer to a request for any address is right exactly if the range ends below host 255 or is not full. */
  lemma AnswerRightExactly(pool: seq<Lease>, config: Config, mac: Mac)
    requires Ranged(config) && Sound(pool, config)
    ensures RightAnswer(pool, config, mac) <==> Host(config.end) < 255 || !FullFor(pool, config, mac)
  {
    hide ScanFree;
    hide Insert;
    hide Next;
    if Host(config.end) < 255 || !FullFor(pool, config, mac) {
      LowestFreeAddress(pool, config, mac);
      LowIsNotAny(pool, config, mac);
    } else {
      FullMeansNew(pool, config, mac);
      FullRangeUpTo255(pool, config, mac);
      FullRangeGrows(pool, config, mac);
    }
  }

  lemma LowIsNotAny(pool: seq<Lease>, config: Config, mac: Mac)
    requires Ranged(config)
    ensures UpdateAny(pool, config, mac).ip == ANY && Host(config.end) < 255 && Sound(pool, config) ==>
              UpdateAny(pool, config, mac).pool == pool
  {
    hide ScanFree;
    hide Insert;
    hide Sound;
    if Host(config.end) < 255 && Sound(pool, config) {
      SoundIsTail(pool, config);
      ScanFindsLowest(pool, config, mac, config.start);
    }
  }

  /** In a full range the station that asks has no address. */
  lemma FullMeansNew(pool: seq<Lease>, config: Config, mac: Mac)
    requires Sound(pool, config) && FullFor(pool, config, mac)
    ensures forall i :: 0 <= i < |pool| ==> pool[i].mac != mac
  {
    forall i | 0 <= i < |pool|
      ensures pool[i].mac != mac
    {
      assert InRange(config, pool[i].ip);
      assert HeldByOther(pool, mac, pool[i].ip);
      var j :| 0 <= j < |pool| && pool[j].ip == pool[i].ip && pool[j].mac != mac;
      assert i == j;
    }
  }

  lemma FullRangeGrows(pool: seq<Lease>, config: Config, mac: Mac)
    requires Ranged(config) && Host(config.end) == 255 && Sound(pool, config) && FullFor(pool, config, mac)
    requires forall i :: 0 <= i < |pool| ==> pool[i].mac != mac
    ensures |UpdateAny(pool, config, mac).pool| == |pool| + 1
  {
    hide Next;
    hide Sound;
    hide Insert;
    SoundIsTail(pool, config);
    forall a: word | config.start <= a <= config.end && Net(a) == Net(config.start)
      ensures HeldByOther(pool, mac, a)
    {
      assert InRange(config, a);
    }
    ScanOfFullPool(pool, config, mac, config.start);
    NextBeyond(config.end);
    assert Next(config.end) < config.end;
  }

  // ----- init_dhcps_lease

  /** What `init_dhcps_lease` starts from: a range, if one was configured. */
  datatype Configured = Configured(enable: bool, start: word, end: word)

  /** The tests a configured range must pass, in host byte order. */
  predicate FitsServer(server: word, start: word, end: word) {
    && !(start <= server <= end) && start / 256 == server / 256 == end / 256
    && (end - start) % 0x1_0000_0000 <= 100
  }

  /** The first of the 100 addresses next to the server, in host byte order. */
  function Beside(server: word): (start: word)
    ensures start / 256 == server / 256 && start % 256 <= 155
    ensures start <= 0xffff_ff9b
    ensures start + 99 < server || server < start
  {
    var net, last := server / 256, server % 256;
    256 * net + if last >= 0x80 then last - 100 else last + 1
  }

  /**
    `init_dhcps_lease`: a configured range that fits the server's network is kept, else 100 addresses next to the
    server.
  */
  function InitLease(lease: Configured, ip: word): Configured {
    var server := Swap(ip);
    if lease.enable && FitsServer(server, Swap(lease.start), Swap(lease.end)) then lease
    else Configured(false, Swap(Beside(server)), Swap(Beside(server) + 99))
  }

  datatype Setting = Setting(ok: bool, lease: Configured)

  /** `set_dhcps_lease`; `noServer` is a mode without a server, and disabling keeps the old range. */
  function SetLease(lease: Configured, ip: word, please: Option<Configured>, noServer: bool, running: bool): Setting {
    if noServer || please == None || running then Setting(false, lease) else
    if !please.value.enable then Setting(true, lease.(enable := false)) else
    if FitsServer(Swap(ip), Swap(please.value.start), Swap(please.value.end)) then Setting(true, please.value)
    else Setting(false, lease)
  }

  /**
    With a server that is not running, a range is accepted exactly if its start keeps it, and a refusal changes
    nothing.
  */
  lemma SetAcceptsWhatInitKeeps(lease: Configured, ip: word, please: Configured, noServer: bool, running: bool)
    requires please.enable
    ensures var r := SetLease(lease, ip, Some(please), noServer, running);
            && (r.ok <==> !noServer && !running && InitLease(please, ip) == please)
            && (r.ok ==> r.lease == please && InitLease(r.lease, ip) == r.lease)
            && (!r.ok ==> r.lease == lease)
  {
    hide Swap;
    hide Beside;
    hide FitsServer;
  }

  lemma TopByte(s: seq<byte>)
    requires |s| == 4
    ensures Host(BytesWord(s)) == s[3] && Net(BytesWord(s)) == BytesWord([s[0], s[1], s[2], 0])
  {
  }

  lemma ClearLow(w: word)
    ensures WordBytes(w - w % 256) == [0, WordBytes(w)[1], WordBytes(w)[2], WordBytes(w)[3]]
  {
    var b := WordBytes(w);
    var s := [0, b[1], b[2], b[3]];
    WordBytesInverse(w);
    assert BytesWord(s) == w - w % 256;
    BytesWordInverse(s);
  }

  lemma HostOrder(w: word)
    ensures Host(Swap(w)) == w % 256
    ensures Net(Swap(w)) == Swap(w - w % 256)
  {
    hide BytesWord;
    hide Host;
    hide Net;
    var b := WordBytes(w);
    assert b[0] == w % 256;
    hide WordBytes;
    TopByte([b[3], b[2], b[1], b[0]]);
    ClearLow(w);
  }

  /** The same network in both byte orders. */
  lemma SameNet(v: word, w: word)
    ensures v / 256 == w / 256 <==> Net(Swap(v)) == Net(Swap(w))
  {
    hide Swap;
    HostOrder(v);
    HostOrder(w);
    SwapIsItsOwnInverse(v - v % 256);
    SwapIsItsOwnInverse(w - w % 256);
  }

  lemma OrderInNet(v: word, w: word)
    requires v / 256 == w / 256
    ensures Swap(v) <= Swap(w) <==> v <= w
  {
    hide Swap;
    HostOrder(v);
    HostOrder(w);
    assert v - v % 256 == w - w % 256;
    assert Swap(v) == Net(Swap(v)) + 0x100_0000 * Host(Swap(v)) && Swap(w) == Net(Swap(w)) + 0x100_0000 * Host(Swap(w));
    hide Host;
    hide Net;
    assert v == 256 * (v / 256) + v % 256 && w == 256 * (w / 256) + w % 256;
  }

  /** After `init_dhcps_lease` the range is not empty, lies in the server's /24 network and leaves the server out. */
  lemma RangeAfterInit(lease: Configured, ip: word)
    ensures var r := InitLease(lease, ip);
            && r.start <= r.end && Net(r.start) == Net(ip) == Net(r.end)
            && !(r.start <= ip <= r.end)
            && (Host(r.end) < 255 || (r == lease && lease.enable))
  {
    hide Swap;
    hide Net;
    var r, server := InitLease(lease, ip), Swap(ip);
    SwapIsItsOwnInverse(ip);
    if r == lease && lease.enable {
      SwapIsItsOwnInverse(lease.start);
      SwapIsItsOwnInverse(lease.end);
      RangeInNet(server, Swap(lease.start), Swap(lease.end));
    } else {
      hide Beside;
      var start := Beside(server);
      assert (start + 99) / 256 == start / 256;
      RangeInNet(server, start, start + 99);
      HostOrder(start + 99);
    }
  }

  /**
    A configured range is kept exactly if it is in the server's network, is not empty, has at most 101 addresses and
    leaves the server out. Otherwise there are the 100 addresses above a server below host 128, or below any other.
  */
  lemma InitExactly(lease: Configured, ip: word)
    ensures lease.enable ==>
              (InitLease(lease, ip) == lease <==>
                 && Net(lease.start) == Net(ip) == Net(lease.end)
                 && Host(lease.start) <= Host(lease.end) <= Host(lease.start) + 100
                 && !(Host(lease.start) <= Host(ip) <= Host(lease.end)))
    ensures var r := InitLease(lease, ip);
            || (r == lease && lease.enable)
            || (&& !r.enable && Net(r.start) == Net(ip) == Net(r.end) && Host(r.end) == Host(r.start) + 99
                && (if Host(ip) < 128 then Host(r.start) == Host(ip) + 1 else Host(r.end) == Host(ip) - 1))
  {
    hide Swap;
    hide Net;
    hide Host;
    hide FitsServer;
    hide Beside;
    SwapIsItsOwnInverse(ip);
    SwapIsItsOwnInverse(lease.start);
    SwapIsItsOwnInverse(lease.end);
    FitsExactly(Swap(ip), Swap(lease.start), Swap(lease.end));
    BesideExactly(Swap(ip));
  }

  lemma FitsExactly(server: word, start: word, end: word)
    ensures FitsServer(server, start, end) <==>
              && Net(Swap(start)) == Net(Swap(server)) == Net(Swap(end))
              && Host(Swap(start)) <= Host(Swap(end)) <= Host(Swap(start)) + 100
              && !(Host(Swap(start)) <= Host(Swap(server)) <= Host(Swap(end)))
  {
    hide Swap;
    hide Net;
    hide Host;
    SameNet(start, server);
    SameNet(server, end);
    HostOrder(start);
    HostOrder(end);
    HostOrder(server);
    HostsInNet(server, start, end);
  }

  lemma HostsInNet(server: word, start: word, end: word)
    ensures FitsServer(server, start, end) <==>
              && start / 256 == server / 256 == end / 256
              && start % 256 <= end % 256 <= start % 256 + 100
              && !(start % 256 <= server % 256 <= end % 256)
  {
    assert start == 256 * (start / 256) + start % 256 && end == 256 * (end / 256) + end % 256;
    assert server == 256 * (server / 256) + server % 256;
  }

  lemma BesideExactly(server: word)
    ensures var start, host := Beside(server), Host(Swap(server));
            && Net(Swap(start)) == Net(Swap(server)) == Net(Swap(start + 99))
            && Host(Swap(start + 99)) == Host(Swap(start)) + 99
            && (if host < 128 then Host(Swap(start)) == host + 1 else Host(Swap(start + 99)) == host - 1)
  {
    BesideIs(server);
    var start := Beside(server);
    hide Beside;
    hide Swap;
    hide Net;
    hide Host;
    SameNet(start, server);
    SameNet(start + 99, server);
    HostOrder(start);
    HostOrder(start + 99);
    HostOrder(server);
  }

  lemma BesideIs(server: word)
    ensures var start := Beside(server);
            && (start + 99) / 256 == start / 256 == server / 256 && (start + 99) % 256 == start % 256 + 99
            && start % 256 == if server % 256 < 128 then server % 256 + 1 else server % 256 - 100
  {
  }

  lemma RangeInNet(server: word, start: word, end: word)
    requires start / 256 == server / 256 == end / 256 && start <= end && !(start <= server <= end)
    ensures Swap(start) <= Swap(end) && Net(Swap(start)) == Net(Swap(server)) == Net(Swap(end))
    ensures !(Swap(start) <= Swap(server) <= Swap(end))
  {
    hide Swap;
    hide Net;
    SameNet(start, server);
    SameNet(server, end);
    OrderInNet(start, end);
    OrderInNet(start, server);
    OrderInNet(server, end);
  }
}
