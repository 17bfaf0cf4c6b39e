/**
 * A path: a remote endpoint paired with a local socket and interface, with
 * the activity timestamps that drive keepalives and liveness, and the table
 * of packets being reassembled from fragments that arrived over it.
 *
 * The Mutex around the table, the atomics around the timestamps and the
 * global instance counter are modelled single-threaded: the timestamps are
 * plain fields, the counter an object passed to the constructor.
 */
module Paths {
  import Wrappers
  import opened Buffers
  import opened Vl1
  import Sorting

  // Constants from protocol.rs and util, which are not part of this model; the
  // values stand in for the protocol's and only their signs matter to the proofs.
  const FragmentMaxInboundPacketsPerPath: nat := 64
  const FragmentExpiration: int := 1500
  const PathKeepaliveInterval: int := 20000
  const PathExpirationTime: int := 2 * PathKeepaliveInterval + 10000
  const NeverHappenedTicks: int := -0x8000_0000

  /** SERVICE_INTERVAL_MS: the path is serviced once per keepalive interval. */
  const ServiceIntervalMs: int := PathKeepaliveInterval

  /** A u64 packet id. */
  type PacketId = x: int | 0 <= x < 0x1_0000_0000_0000_0000

  /** One fragment as handed to receive_fragment. */
  datatype Fragment = Fragment(number: Byte, expectingCount: Byte, payload: Bytes)

  /**
   * An in-progress reassembly: the tick it was created at and the fragments
   * added to it. How FragmentedPacket::add_fragment decides that a packet is
   * complete is not part of this model; callers pass that decision in.
   */
  datatype FragmentedPacket = FragmentedPacket(tsTicks: int, fragments: seq<Fragment>)
  {
    function AddFragment(f: Fragment): (r: FragmentedPacket)
      ensures r.tsTicks == tsTicks && r.fragments == fragments + [f]
    {
      this.(fragments := fragments + [f])
    }
  }

  type Table = map<PacketId, FragmentedPacket>

  datatype PathServiceResult = Ok | Dead | NeedsKeepalive

  // ---------------------------------------------------------------------------
  // The instance counter
  // ---------------------------------------------------------------------------

  /** INSTANCE_ID_COUNTER: hands out ids 0, 1, 2, ... */
  class InstanceIdCounter {
    var next: nat

    constructor()
      ensures next == 0
    {
      next := 0;
    }

    /** fetch_add(1): the current value, and one more for the next caller. */
    method FetchAdd() returns (id: nat)
      modifies this
      ensures id == old(next) && next == old(next) + 1
    {
      id := next;
      next := next + 1;
    }
  }

  // ---------------------------------------------------------------------------
  // Liveness classification
  // ---------------------------------------------------------------------------

  /**
   * The decision service makes from the clock and the three timestamps: a
   * keepalive only once nothing was sent for an interval, death only once
   * nothing was received and the path is older than the expiration time.
   */
  function Classify(timeTicks: int, lastReceive: int, lastSend: int, createTime: int): (r: PathServiceResult)
    ensures r == NeedsKeepalive ==> timeTicks - lastSend >= PathKeepaliveInterval
    ensures r == Dead ==> timeTicks - lastReceive >= PathExpirationTime && timeTicks - createTime >= PathExpirationTime
  {
    if timeTicks - lastReceive < PathExpirationTime then
      if timeTicks - lastSend >= PathKeepaliveInterval then NeedsKeepalive else Ok
    else if timeTicks - createTime < PathExpirationTime then Ok
    else Dead
  }

  /** A keepalive is due exactly when something was received recently and nothing sent for an interval. */
  lemma ClassifyNeedsKeepaliveIff(timeTicks: int, lastReceive: int, lastSend: int, createTime: int)
    ensures Classify(timeTicks, lastReceive, lastSend, createTime) == NeedsKeepalive
        <==> timeTicks - lastReceive < PathExpirationTime && timeTicks - lastSend >= PathKeepaliveInterval
  {
  }

  /** A path is dead exactly when it has neither received nor been created within the expiration time. */
  lemma ClassifyDeadIff(timeTicks: int, lastReceive: int, lastSend: int, createTime: int)
    ensures Classify(timeTicks, lastReceive, lastSend, createTime) == Dead
        <==> timeTicks - lastReceive >= PathExpirationTime && timeTicks - createTime >= PathExpirationTime
  {
  }

  /** After a keepalive is reported (and the send time moved to now), none is reported again within the interval. */
  lemma KeepaliveOncePerInterval(timeTicks: int, later: int, lastReceive: int, lastSend: int, createTime: int)
    requires Classify(timeTicks, lastReceive, lastSend, createTime) == NeedsKeepalive
    requires timeTicks <= later < timeTicks + PathKeepaliveInterval
    ensures Classify(later, lastReceive, timeTicks, createTime) != NeedsKeepalive
  {
  }

  /**
   * Serviced every SERVICE_INTERVAL_MS, a path that keeps receiving is sent a
   * keepalive at every service call: the last one is exactly an interval old.
   */
  lemma KeepaliveAtEveryServiceCall(timeTicks: int, lastReceive: int, createTime: int)
    requires timeTicks + ServiceIntervalMs - lastReceive < PathExpirationTime
    ensures Classify(timeTicks + ServiceIntervalMs, lastReceive, timeTicks, createTime) == NeedsKeepalive
  {
  }

  /** A path that has never sent nor received is alive for the expiration time after its creation, then dead. */
  lemma FreshPathLifetime(timeTicks: int, createTime: int)
    requires 0 <= createTime <= timeTicks
    ensures Classify(timeTicks, NeverHappenedTicks, NeverHappenedTicks, createTime)
         == if timeTicks - createTime < PathExpirationTime then Ok else Dead
  {
  }

  // ---------------------------------------------------------------------------
  // Expiry of reassemblies
  // ---------------------------------------------------------------------------

  /** The records service keeps: those created less than FragmentExpiration ago. */
  function Unexpired(table: Table, timeTicks: int): (r: Table)
    ensures r.Keys <= table.Keys
  {
    map id | id in table && timeTicks - table[id].tsTicks < FragmentExpiration :: table[id]
  }

  /** Pruning keeps exactly the young records, unchanged, and drops every other. */
  lemma UnexpiredKeepsExactlyYoung(table: Table, timeTicks: int)
    ensures forall id :: (id in Unexpired(table, timeTicks)
        <==> id in table && timeTicks - table[id].tsTicks < FragmentExpiration)
    ensures forall id :: id in Unexpired(table, timeTicks) ==> Unexpired(table, timeTicks)[id] == table[id]
  {
  }

  /** Pruning at one tick and then at a later one is the same as pruning at the later tick. */
  lemma UnexpiredMonotone(table: Table, t1: int, t2: int)
    requires t1 <= t2
    ensures Unexpired(Unexpired(table, t1), t2) == Unexpired(table, t2)
  {
    var a := Unexpired(Unexpired(table, t1), t2);
    var b := Unexpired(table, t2);
    assert a.Keys == b.Keys;
  }

  // ---------------------------------------------------------------------------
  // Eviction and admission of fragments
  // ---------------------------------------------------------------------------

  /**
   * The flood defence of receive_fragment: past the sanity bound, the `n / 3`
   * oldest records go (none younger than a record that stays) and every other
   * record stays as it was; at or below the bound nothing goes.
   */
  predicate EvictsOldest(before: Table, after: Table) {
    && after.Keys <= before.Keys
    && (forall id :: id in after ==> after[id] == before[id])
    && (|before| <= FragmentMaxInboundPacketsPerPath ==> after == before)
    && (|before| > FragmentMaxInboundPacketsPerPath ==> |after| == |before| - |before| / 3)
    && (forall gone, kept :: gone in before && gone !in after && kept in after
          ==> before[gone].tsTicks <= before[kept].tsTicks)
  }

  /** With the table at most one over the bound, eviction brings it back to the bound. */
  lemma EvictionRestoresBound(before: Table, after: Table)
    requires EvictsOldest(before, after)
    requires |before| <= FragmentMaxInboundPacketsPerPath + 1
    ensures |after| <= FragmentMaxInboundPacketsPerPath
  {
  }

  /**
   * Finding or creating the record for `packetId`, adding the fragment, and
   * taking the record out of the table when `completes` says it is whole.
   */
  function Admit(table: Table, packetId: PacketId, fragment: Fragment, timeTicks: int,
                 completes: FragmentedPacket -> bool): (r: (Table, Wrappers.Option<FragmentedPacket>))
    ensures r.1.Some? <==> packetId !in r.0
    ensures r.0.Keys <= table.Keys + {packetId}
  {
    var record := (if packetId in table then table[packetId] else FragmentedPacket(timeTicks, [])).AddFragment(fragment);
    if completes(record) then (table - {packetId}, Wrappers.Some(record))
    else (table[packetId := record], Wrappers.None)
  }

  /** The record Admit worked on: returned when complete, left in the table otherwise. */
  function AdmittedRecord(table: Table, packetId: PacketId, fragment: Fragment, timeTicks: int,
                          completes: FragmentedPacket -> bool): FragmentedPacket
  {
    var r := Admit(table, packetId, fragment, timeTicks, completes);
    if r.1.Some? then r.1.value else if packetId in r.0 then r.0[packetId] else FragmentedPacket(timeTicks, [])
  }

  /** A fresh record stamped with the current tick is made only when none exists; an existing one is reused. */
  lemma AdmitReusesOrCreates(table: Table, packetId: PacketId, fragment: Fragment, timeTicks: int,
                             completes: FragmentedPacket -> bool)
    ensures var rec := AdmittedRecord(table, packetId, fragment, timeTicks, completes);
      && (packetId in table ==> rec.tsTicks == table[packetId].tsTicks && rec.fragments == table[packetId].fragments + [fragment])
      && (packetId !in table ==> rec.tsTicks == timeTicks && rec.fragments == [fragment])
  {
  }

  /**
   * The record comes back exactly when it is complete, and then its id has
   * left the table; otherwise nothing comes back and the id stays.
   */
  lemma AdmitCompletion(table: Table, packetId: PacketId, fragment: Fragment, timeTicks: int,
                        completes: FragmentedPacket -> bool)
    ensures var r := Admit(table, packetId, fragment, timeTicks, completes);
      var rec := AdmittedRecord(table, packetId, fragment, timeTicks, completes);
      && (r.1.Some? <==> completes(rec))
      && (r.1.Some? ==> r.1.value == rec && packetId !in r.0)
      && (r.1.None? ==> packetId in r.0 && r.0[packetId] == rec)
  {
  }

  /** Every other record is left alone, so the table grows by at most one. */
  lemma AdmitLeavesOthers(table: Table, packetId: PacketId, fragment: Fragment, timeTicks: int,
                          completes: FragmentedPacket -> bool)
    ensures var r := Admit(table, packetId, fragment, timeTicks, completes);
      && (forall id :: id != packetId ==> (id in r.0 <==> id in table))
      && (forall id :: id != packetId && id in r.0 ==> r.0[id] == table[id])
      && |r.0| <= |table| + 1
  {
    var r := Admit(table, packetId, fragment, timeTicks, completes);
    if packetId in r.0 {
      assert r.0.Keys <= table.Keys + {packetId};
      SubsetCard(r.0.Keys, table.Keys + {packetId});
    } else {
      assert r.0.Keys <= table.Keys;
      SubsetCard(r.0.Keys, table.Keys);
    }
  }

  lemma {:induction false} SubsetCard<T>(a: set<T>, b: set<T>)
    requires a <= b
    ensures |a| <= |b|
  {
    if a != {} {
      var x :| x in a;
      SubsetCard(a - {x}, b - {x});
    }
  }

  /** A completed packet is taken once: a later fragment with the same id starts a new record. */
  lemma CompletedIdStartsAfresh(table: Table, packetId: PacketId, fragment: Fragment, timeTicks: int,
                                next: Fragment, laterTicks: int, completes: FragmentedPacket -> bool)
    requires Admit(table, packetId, fragment, timeTicks, completes).1.Some?
    ensures var t := Admit(table, packetId, fragment, timeTicks, completes).0;
      AdmittedRecord(t, packetId, next, laterTicks, completes) == FragmentedPacket(laterTicks, [next])
  {
    var t := Admit(table, packetId, fragment, timeTicks, completes).0;
    AdmitCompletion(table, packetId, fragment, timeTicks, completes);
    AdmitReusesOrCreates(t, packetId, next, laterTicks, completes);
  }

  /** With a bound of at least two, a table at most one over the bound stays so across receive_fragment. */
  lemma ReceiveKeepsTableBounded(before: Table, retained: Table, packetId: PacketId, fragment: Fragment,
                                 timeTicks: int, completes: FragmentedPacket -> bool)
    requires EvictsOldest(before, retained)
    requires |before| <= FragmentMaxInboundPacketsPerPath + 1
    ensures |Admit(retained, packetId, fragment, timeTicks, completes).0| <= FragmentMaxInboundPacketsPerPath + 1
  {
    EvictionRestoresBound(before, retained);
    AdmitLeavesOthers(retained, packetId, fragment, timeTicks, completes);
  }

  // ---------------------------------------------------------------------------
  // Collecting and sorting the records by age
  // ---------------------------------------------------------------------------

  /** The (creation tick, packet id) pairs receive_fragment sorts. */
  type Entry = (int, PacketId)

  function Tick(e: Entry): int { e.0 }

  /** `entries` lists every record of `table` once, each with its creation tick. */
  ghost predicate ListsTable(entries: seq<Entry>, table: Table) {
    && (forall i :: 0 <= i < |entries| ==> entries[i].1 in table && entries[i].0 == table[entries[i].1].tsTicks)
    && (forall id :: id in table ==> (table[id].tsTicks, id) in entries)
    && Sorting.Distinct(entries)
    && |entries| == |table|
  }

  /** Gathers the age and id of every record, in whatever order the map yields them. */
  method CollectEntries(table: Table) returns (entries: seq<Entry>)
    ensures ListsTable(entries, table)
  {
    var pending := table.Keys;
    entries := [];
    while pending != {}
      invariant pending <= table.Keys
      invariant forall i :: 0 <= i < |entries| ==>
        entries[i].1 in table && entries[i].1 !in pending && entries[i].0 == table[entries[i].1].tsTicks
      invariant forall id :: id in table ==> id in pending || (table[id].tsTicks, id) in entries
      invariant Sorting.Distinct(entries)
      invariant |entries| + |pending| == |table|
      decreases |pending|
    {
      var id :| id in pending;
      entries := entries + [(table[id].tsTicks, id)];
      pending := pending - {id};
    }
  }

  /** In a listing of a table, two entries with the same id are the same entry. */
  lemma ListedIdsDistinct(entries: seq<Entry>, table: Table, i: int, j: int)
    requires ListsTable(entries, table)
    requires 0 <= i < |entries| && 0 <= j < |entries| && i != j
    ensures entries[i].1 != entries[j].1
  {
    if i < j {
      assert entries[i] != entries[j];
    } else {
      assert entries[j] != entries[i];
    }
  }

  /** Sorting a listing by age gives a listing of the same table, oldest first. */
  lemma SortedListing(entries: seq<Entry>, table: Table)
    requires ListsTable(entries, table)
    ensures ListsTable(Sorting.InsertionSort(entries, Tick), table)
    ensures Sorting.SortedBy(Sorting.InsertionSort(entries, Tick), Tick)
  {
    var sorted := Sorting.InsertionSort(entries, Tick);
    Sorting.InsertionSortCorrect(entries, Tick);
    Sorting.InsertionSortDistinct(entries, Tick);
    assert |sorted| == |entries| by {
      assert |multiset(sorted)| == |multiset(entries)|;
    }
    forall i | 0 <= i < |sorted|
      ensures sorted[i].1 in table && sorted[i].0 == table[sorted[i].1].tsTicks
    {
      assert sorted[i] in multiset(entries);
    }
    forall id | id in table
      ensures (table[id].tsTicks, id) in sorted
    {
      assert (table[id].tsTicks, id) in multiset(sorted);
    }
  }

  /** The ids of the first `n` entries. */
  function FirstIds(entries: seq<Entry>, n: nat): set<PacketId>
    requires n <= |entries|
  {
    set i | 0 <= i < n :: entries[i].1
  }

  /** Taking the first `n` entries of a sorted listing out of the table is an eviction of the oldest. */
  lemma RemovingFirstEvictsOldest(sorted: seq<Entry>, table: Table, n: nat)
    requires ListsTable(sorted, table) && Sorting.SortedBy(sorted, Tick)
    requires n <= |sorted|
    ensures forall gone, kept :: (gone in table && gone !in (table - FirstIds(sorted, n)) && kept in (table - FirstIds(sorted, n))
      ==> table[gone].tsTicks <= table[kept].tsTicks)
  {
    var after := table - FirstIds(sorted, n);
    forall gone, kept | gone in table && gone !in after && kept in after
      ensures table[gone].tsTicks <= table[kept].tsTicks
    {
      var i :| 0 <= i < n && sorted[i].1 == gone;
      assert (table[kept].tsTicks, kept) in sorted;
      var k :| 0 <= k < |sorted| && sorted[k] == (table[kept].tsTicks, kept);
      assert Tick(sorted[i]) <= Tick(sorted[k]);
    }
  }

  /** The entry after the first `i` names a record that is still there. */
  lemma NextIdRemains(entries: seq<Entry>, table: Table, i: nat)
    requires ListsTable(entries, table) && i < |entries|
    ensures entries[i].1 in table - FirstIds(entries, i)
    ensures FirstIds(entries, i + 1) == FirstIds(entries, i) + {entries[i].1}
  {
    forall j | 0 <= j < i
      ensures entries[j].1 != entries[i].1
    {
      ListedIdsDistinct(entries, table, j, i);
    }
  }

  /** Removing one more id that is still present. */
  lemma RemoveOneMore(table: Table, gone: set<PacketId>, id: PacketId)
    requires id in table - gone
    ensures (table - gone) - {id} == table - (gone + {id})
    ensures |(table - gone) - {id}| == |table - gone| - 1
  {
    var m := table - gone;
    assert (m - {id}).Keys == m.Keys - {id};
  }

  /** Past the bound, removing the first third of a sorted listing is what EvictsOldest asks for. */
  lemma RemovingFirstIsEviction(sorted: seq<Entry>, table: Table, after: Table)
    requires ListsTable(sorted, table) && Sorting.SortedBy(sorted, Tick)
    requires |table| > FragmentMaxInboundPacketsPerPath
    requires after == table - FirstIds(sorted, |table| / 3) && |after| == |table| - |table| / 3
    ensures EvictsOldest(table, after)
  {
    RemovingFirstEvictsOldest(sorted, table, |table| / 3);
  }

  /**
   * The flood defence of receive_fragment on the table itself: past the bound,
   * list the records with their ages, sort the listing oldest first and remove
   * the first third.
   */
  method Evict(table: Table) returns (after: Table)
    ensures EvictsOldest(table, after)
  {
    var fps := |table|;
    after := table;
    if fps > FragmentMaxInboundPacketsPerPath {
      var entries := CollectEntries(table);
      SortedListing(entries, table);
      entries := Sorting.InsertionSort(entries, Tick);
      after := RemoveFirst(table, entries, fps / 3);
      RemovingFirstIsEviction(entries, table, after);
    }
  }

  /** The removal loop: takes the ids of the first `n` entries out of the table, one by one. */
  method RemoveFirst(table: Table, entries: seq<Entry>, n: nat) returns (t: Table)
    requires ListsTable(entries, table) && n <= |entries|
    ensures t == table - FirstIds(entries, n)
    ensures |t| == |table| - n
  {
    t := table;
    var i := 0;
    while i < n
      invariant 0 <= i <= n
      invariant t == table - FirstIds(entries, i)
      invariant |t| == |table| - i
    {
      var id := entries[i].1;
      NextIdRemains(entries, table, i);
      RemoveOneMore(table, FirstIds(entries, i), id);
      t := t - {id};
      i := i + 1;
    }
  }

  // ---------------------------------------------------------------------------
  // The path
  // ---------------------------------------------------------------------------

  class Path<LocalSocket, LocalInterface> {
    const endpoint: Endpoint
    const localSocket: LocalSocket
    const localInterface: LocalInterface
    /** Unique per constructed path. */
    const internalInstanceId: nat
    var lastSendTimeTicks: int
    var lastReceiveTimeTicks: int
    const createTimeTicks: int
    var fragmentedPackets: Table
    /**
     * The random seed the table's hasher is constructed with. The table is
     * modelled as a map, and the hashers the map builds ignore the seed anyway
     * (see PacketIdHasher.BuildHasher).
     */
    const hasherSeed: bv64

    /** Path::new: never sent, never received, created now, empty table, next instance id. */
    constructor(endpoint: Endpoint, localSocket: LocalSocket, localInterface: LocalInterface, timeTicks: int,
                counter: InstanceIdCounter, seed: bv64)
      modifies counter
      ensures this.endpoint == endpoint && this.localSocket == localSocket && this.localInterface == localInterface
      ensures internalInstanceId == old(counter.next) && counter.next == old(counter.next) + 1
      ensures lastSendTimeTicks == NeverHappenedTicks && lastReceiveTimeTicks == NeverHappenedTicks
      ensures createTimeTicks == timeTicks && fragmentedPackets == map[] && hasherSeed == seed
    {
      this.endpoint := endpoint;
      this.localSocket := localSocket;
      this.localInterface := localInterface;
      var id := counter.FetchAdd();
      internalInstanceId := id;
      lastSendTimeTicks := NeverHappenedTicks;
      lastReceiveTimeTicks := NeverHappenedTicks;
      createTimeTicks := timeTicks;
      fragmentedPackets := map[];
      hasherSeed := seed;
    }

    /** The flood defence at the head of receive_fragment, applied to the table. */
    method EvictOldest()
      modifies this
      ensures EvictsOldest(old(fragmentedPackets), fragmentedPackets)
      ensures lastSendTimeTicks == old(lastSendTimeTicks) && lastReceiveTimeTicks == old(lastReceiveTimeTicks)
    {
      fragmentedPackets := Evict(fragmentedPackets);
    }

    /**
     * Path::receive_fragment: makes room if the table is over the bound, then
     * adds the fragment to its packet's record and hands the record back if it
     * is complete. `retained` is the table after the eviction step.
     */
    method ReceiveFragment(packetId: PacketId, fragment: Fragment, timeTicks: int,
                           completes: FragmentedPacket -> bool)
      returns (r: Wrappers.Option<FragmentedPacket>, ghost retained: Table)
      modifies this
      ensures EvictsOldest(old(fragmentedPackets), retained)
      ensures (fragmentedPackets, r) == Admit(retained, packetId, fragment, timeTicks, completes)
      ensures lastSendTimeTicks == old(lastSendTimeTicks) && lastReceiveTimeTicks == old(lastReceiveTimeTicks)
    {
      EvictOldest();
      retained := fragmentedPackets;
      var record := if packetId in fragmentedPackets then fragmentedPackets[packetId] else FragmentedPacket(timeTicks, []);
      record := record.AddFragment(fragment);
      fragmentedPackets := fragmentedPackets[packetId := record];
      if completes(record) {
        r := Wrappers.Some(fragmentedPackets[packetId]);
        fragmentedPackets := fragmentedPackets - {packetId};
        assert fragmentedPackets == retained - {packetId};
      } else {
        r := Wrappers.None;
      }
    }

    /** Path::log_receive_anything. */
    method LogReceiveAnything(timeTicks: int)
      modifies this
      ensures lastReceiveTimeTicks == timeTicks
      ensures lastSendTimeTicks == old(lastSendTimeTicks) && fragmentedPackets == old(fragmentedPackets)
    {
      lastReceiveTimeTicks := timeTicks;
    }

    /** Path::log_send_anything. */
    method LogSendAnything(timeTicks: int)
      modifies this
      ensures lastSendTimeTicks == timeTicks
      ensures lastReceiveTimeTicks == old(lastReceiveTimeTicks) && fragmentedPackets == old(fragmentedPackets)
    {
      lastSendTimeTicks := timeTicks;
    }

    /**
     * Path::service: drops expired reassemblies and classifies the path; when
     * a keepalive is due it counts as sent now.
     */
    method Service(timeTicks: int) returns (r: PathServiceResult)
      modifies this
      ensures fragmentedPackets == Unexpired(old(fragmentedPackets), timeTicks)
      ensures r == Classify(timeTicks, old(lastReceiveTimeTicks), old(lastSendTimeTicks), createTimeTicks)
      ensures lastSendTimeTicks == if r == NeedsKeepalive then timeTicks else old(lastSendTimeTicks)
      ensures lastReceiveTimeTicks == old(lastReceiveTimeTicks)
    {
      fragmentedPackets := map id | id in fragmentedPackets
                                    && timeTicks - fragmentedPackets[id].tsTicks < FragmentExpiration
                                 :: fragmentedPackets[id];
      if timeTicks - lastReceiveTimeTicks < PathExpirationTime {
        if timeTicks - lastSendTimeTicks >= PathKeepaliveInterval {
          lastSendTimeTicks := timeTicks;
          r := NeedsKeepalive;
        } else {
          r := Ok;
        }
      } else if timeTicks - createTimeTicks < PathExpirationTime {
        r := Ok;
      } else {
        r := Dead;
      }
    }
  }

  /** Two paths constructed from the same counter get different instance ids. */
  method NewPathsHaveDistinctIds(endpoint: Endpoint, timeTicks: int, counter: InstanceIdCounter)
    returns (a: Path<nat, nat>, b: Path<nat, nat>)
    modifies counter
    ensures a.internalInstanceId != b.internalInstanceId
  {
    a := new Path(endpoint, 0, 0, timeTicks, counter, 0);
    b := new Path(endpoint, 0, 0, timeTicks, counter, 0);
  }

  /** Servicing twice at the same tick never asks for a second keepalive. */
  method ServiceTwice<S, I>(path: Path<S, I>, timeTicks: int) returns (first: PathServiceResult, second: PathServiceResult)
    modifies path
    ensures first == NeedsKeepalive ==> second != NeedsKeepalive
  {
    first := path.Service(timeTicks);
    second := path.Service(timeTicks);
  }

  // ---------------------------------------------------------------------------
  // The packet id hasher
  // ---------------------------------------------------------------------------

  // The three xorshift steps of write_u64; shifting by less than the width,
  // wrapping_shl and wrapping_shr are plain shifts.
  function XorShl13(x: bv64): bv64 { x ^ (x << 13) }
  function XorShr7(x: bv64): bv64 { x ^ (x >> 7) }
  function XorShl17(x: bv64): bv64 { x ^ (x << 17) }

  /** The mixing write_u64 applies to the running state. */
  function Mix(x: bv64): bv64 {
    XorShl17(XorShr7(XorShl13(x)))
  }

  /**
   * The three steps undone in reverse order give back the input, so the
   * mixing loses nothing. Mix is written out step by step here: the bit-vector
   * reasoning goes through only on the expression itself.
   */
  lemma MixInvertible(x: bv64)
    ensures var a := x ^ (x << 13); var b := a ^ (a >> 7); var c := b ^ (b << 17);
      var b' := c ^ (c << 17) ^ (c << 34) ^ (c << 51);
      var a' := b' ^ (b' >> 7) ^ (b' >> 14) ^ (b' >> 21) ^ (b' >> 28) ^ (b' >> 35) ^ (b' >> 42) ^ (b' >> 49) ^ (b' >> 56) ^ (b' >> 63);
      a' ^ (a' << 13) ^ (a' << 26) ^ (a' << 39) ^ (a' << 52) == x
  {
  }

  /** The hash the fragment table computes for a packet id: a fresh hasher, one write_u64, finish. */
  function PacketIdHash(id: PacketId): bv64 {
    Mix(0 + id as bv64)
  }

  datatype HasherError = U64Only

  class PacketIdHasher {
    var state: bv64

    constructor(seed: bv64)
      ensures state == seed
    {
      state := seed;
    }

    /** Hasher::finish: the state as it stands. */
    method Finish() returns (h: bv64)
      ensures h == state
    {
      h := state;
    }

    /** Hasher::write: this hasher takes only u64 keys; byte input is a fatal misuse. */
    method Write(data: Bytes) returns (r: Wrappers.Result<(), HasherError>)
      ensures r == Wrappers.Err(U64Only)
    {
      r := Wrappers.Err(U64Only);
    }

    /** Hasher::write_u64: adds the key to the state, wrapping, and mixes. */
    method WriteU64(i: bv64)
      modifies this
      ensures state == Mix(old(state) + i)
    {
      var x := state + i;
      x := XorShl13(x);
      x := XorShr7(x);
      x := XorShl17(x);
      state := x;
    }

    /** BuildHasher::build_hasher: a hasher starting from 0, whatever this one's state. */
    method BuildHasher() returns (h: PacketIdHasher)
      ensures fresh(h) && h.state == 0
    {
      h := new PacketIdHasher(0);
    }
  }

  /** How the table hashes a key with the hasher it was given: the seed plays no part. */
  method HashWith(builder: PacketIdHasher, id: PacketId) returns (h: bv64)
    ensures h == PacketIdHash(id)
  {
    var hasher := builder.BuildHasher();
    hasher.WriteU64(id as bv64);
    h := hasher.Finish();
  }
}
