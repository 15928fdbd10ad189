/** The SoftBus replay check (net/distributed_bus.hpp:46-90, 371). */
module ReplayTable {
  import opened CString
  import opened KeyedTable

  const CAPACITY: nat := 16
  const WINDOW: Uint32 := 32
  const INACTIVE: Uint32 := 30000
  const ID_LENGTH: nat := 31

  datatype Last = Last(seqNum: Uint32, tick: Uint32)

  type Devices = map<string, Last>

  predicate Inactive(last: Last, now: Uint32) { Sub32(now, last.tick) > INACTIVE }

  /** Whether a beacon is accepted. */
  predicate Accepts(m: Devices, id: string, seqNum: Uint32, now: Uint32)
  {
    if id in m then
      Inactive(m[id], now) || (m[id].seqNum < seqNum && seqNum <= Add32(m[id].seqNum, WINDOW))
    else
      |m| < CAPACITY
  }

  function After(m: Devices, id: string, seqNum: Uint32, now: Uint32): Devices
  {
    if Accepts(m, id, seqNum, now) then m[id := Last(seqNum, now)] else m
  }

  class ReplayTable {
    const entries: array<Entry<Last>>
    ghost var devices: Devices

    /** The table is one of 16 entries, with one for each device. */
    ghost predicate Valid()
      reads this, entries
    {
      entries.Length == CAPACITY && Represents(entries[..], devices)
    }

    constructor ()
      ensures Valid() && devices == map[] && fresh(entries)
    {
      entries := new Entry<Last>[CAPACITY](_ => Entry("", Last(0, 0), false));
      devices := map[];
    }

    method CheckAndUpdate(deviceId: string, seqNum: Uint32, now: Uint32) returns (ok: bool)
      requires Valid()
      modifies this, entries
      ensures Valid()
      ensures ok == Accepts(old(devices), Truncated(deviceId, ID_LENGTH), seqNum, now)
      ensures devices == After(old(devices), Truncated(deviceId, ID_LENGTH), seqNum, now)
    {
      hide Represents;
      var id := Truncated(deviceId, ID_LENGTH);
      var i := Find(entries, id);
      FoundIff(entries[..], devices, id, i);
      if i >= 0 {
        ok := CheckKnown(id, i, seqNum, now);
      } else {
        ok := Register(id, seqNum, now);
      }
    }

    method CheckKnown(id: string, i: nat, seqNum: Uint32, now: Uint32) returns (ok: bool)
      requires Valid() && FoundAt(entries[..], id, i)
      modifies this, entries
      ensures Valid() && ok == Accepts(old(devices), id, seqNum, now)
      ensures devices == After(old(devices), id, seqNum, now)
    {
      hide Represents;
      FoundIff(entries[..], devices, id, i);
      var last := entries[i].value;
      if Sub32(now, last.tick) > INACTIVE {
        Store(i, Last(seqNum, now));
        return true;
      }
      if seqNum <= last.seqNum { return false; }
      if seqNum > Add32(last.seqNum, WINDOW) { return false; }
      Store(i, Last(seqNum, now));
      return true;
    }

    method Store(i: nat, last: Last)
      requires Valid() && i < |devices| && i < CAPACITY
      modifies this, entries
      ensures Valid() && devices == old(devices)[old(entries[i].key) := last]
    {
      hide Represents;
      Updated(entries[..], devices, i, last);
      devices := devices[entries[i].key := last];
      entries[i] := entries[i].(value := last);
      assert entries[..] == old(entries[..])[i := old(entries[i]).(value := last)];
    }

    method Register(id: string, seqNum: Uint32, now: Uint32) returns (ok: bool)
      requires Valid() && id !in devices
      modifies this, entries
      ensures Valid() && ok == (|old(devices)| < CAPACITY)
      ensures devices == if ok then old(devices)[id := Last(seqNum, now)] else old(devices)
    {
      hide Represents;
      var i := FindEmpty(entries);
      EmptyIff(entries[..], devices, i);
      ok := i >= 0;
      if ok {
        Inserted(entries[..], devices, id, Last(seqNum, now));
        devices := devices[id := Last(seqNum, now)];
        entries[i] := Entry(id, Last(seqNum, now), true);
        assert entries[..] == old(entries[..])[i := Entry(id, Last(seqNum, now), true)];
      }
    }
  }

  // ----- When a known device is accepted

  /** Between accepted beacons without an inactivity gap, the number rises by 1 to 32, and near the end of the
      32-bit range no number at all is accepted. */
  lemma AcceptsIff(m: Devices, id: string, seqNum: Uint32, now: Uint32)
    requires id in m
    ensures Accepts(m, id, seqNum, now) <==>
              Inactive(m[id], now) || (1 <= seqNum - m[id].seqNum <= WINDOW && m[id].seqNum + WINDOW < MOD32)
  {
  }

  // ----- Runs of the listener

  datatype Beacon = Beacon(id: string, seqNum: Uint32, now: Uint32)

  /** The table's content after the first n beacons of a run that starts with an empty table. */
  function Table(bs: seq<Beacon>, n: nat): Devices
    requires n <= |bs|
  {
    if n == 0 then map[] else After(Table(bs, n - 1), bs[n - 1].id, bs[n - 1].seqNum, bs[n - 1].now)
  }

  predicate Accepted(bs: seq<Beacon>, i: nat)
  {
    i < |bs| && Accepts(Table(bs, i), bs[i].id, bs[i].seqNum, bs[i].now)
  }

  /** Beacons i and j of one device are accepted, with none accepted between them. */
  ghost predicate Consecutive(bs: seq<Beacon>, i: nat, j: nat)
  {
    && i < j < |bs| && bs[i].id == bs[j].id && Accepted(bs, i) && Accepted(bs, j)
    && forall k | i < k < j && bs[k].id == bs[i].id :: !Accepted(bs, k)
  }

  ghost predicate Gap(bs: seq<Beacon>, i: nat, j: nat)
    requires i < |bs| && j < |bs|
  {
    Sub32(bs[j].now, bs[i].now) > INACTIVE
  }

  /** The table remembers the last accepted beacon of a device. */
  lemma {:induction false} Remembers(bs: seq<Beacon>, i: nat, n: nat)
    requires i < n <= |bs| && Accepted(bs, i)
    requires forall k | i < k < n && bs[k].id == bs[i].id :: !Accepted(bs, k)
    ensures bs[i].id in Table(bs, n) && Table(bs, n)[bs[i].id] == Last(bs[i].seqNum, bs[i].now)
  {
    if n > i + 1 {
      Remembers(bs, i, n - 1);
      assert bs[n - 1].id == bs[i].id ==> !Accepted(bs, n - 1);
    }
  }

  /** Consecutive accepted beacons of a device are an inactivity gap apart or rise by 1 to 32. */
  lemma Spaced(bs: seq<Beacon>, i: nat, j: nat)
    requires Consecutive(bs, i, j)
    ensures Gap(bs, i, j) || 1 <= bs[j].seqNum - bs[i].seqNum <= WINDOW
  {
    Remembers(bs, i, j);
    AcceptsIff(Table(bs, j), bs[j].id, bs[j].seqNum, bs[j].now);
  }

  /** The accepted beacon of the same device that comes just before j. */
  lemma {:induction false} Previous(bs: seq<Beacon>, i: nat, j: nat, n: nat) returns (k: nat)
    requires i < n <= j < |bs| && bs[i].id == bs[j].id && Accepted(bs, i) && Accepted(bs, j)
    requires forall k | n <= k < j && bs[k].id == bs[j].id :: !Accepted(bs, k)
    ensures i <= k < j && Consecutive(bs, k, j)
  {
    if bs[n - 1].id == bs[j].id && Accepted(bs, n - 1) {
      k := n - 1;
    } else {
      k := Previous(bs, i, j, n - 1);
    }
  }

  /** A number that does not rise implies an inactivity gap between two accepted beacons in between. */
  lemma {:induction false} RepeatNeedsGap(bs: seq<Beacon>, i: nat, j: nat) returns (a: nat, b: nat)
    requires i < j < |bs| && bs[i].id == bs[j].id && Accepted(bs, i) && Accepted(bs, j)
    requires bs[j].seqNum <= bs[i].seqNum
    ensures i <= a < b <= j && bs[a].id == bs[i].id && Consecutive(bs, a, b) && Gap(bs, a, b)
    decreases j
  {
    var k := Previous(bs, i, j, j);
    if Gap(bs, k, j) {
      a, b := k, j;
    } else {
      Spaced(bs, k, j);
      a, b := RepeatNeedsGap(bs, i, k);
    }
  }

  /** The table never holds more than 16 devices, and never forgets one. */
  lemma {:induction false} Bounded(bs: seq<Beacon>, n: nat, k: nat)
    requires n <= k <= |bs|
    ensures |Table(bs, k)| <= CAPACITY && Table(bs, n).Keys <= Table(bs, k).Keys
    decreases k
  {
    if k > 0 {
      Bounded(bs, if n < k then n else k - 1, k - 1);
      var m, b := Table(bs, k - 1), bs[k - 1];
      var m' := After(m, b.id, b.seqNum, b.now);
      assert m'.Keys == m.Keys || m'.Keys == m.Keys + {b.id};
      assert b.id in m ==> m'.Keys == m.Keys;
      assert |m'| == |m'.Keys| && |m| == |m.Keys|;
    }
  }

  // ----- New devices

  /** The devices heard of in the first n beacons. */
  function Heard(bs: seq<Beacon>, n: nat): set<string>
    requires n <= |bs|
  {
    if n == 0 then {} else Heard(bs, n - 1) + {bs[n - 1].id}
  }

  /** The table holds the first 16 devices heard of: all of them, until it is full. */
  lemma {:induction false} FirstSixteen(bs: seq<Beacon>, n: nat)
    requires n <= |bs|
    ensures Table(bs, n).Keys <= Heard(bs, n)
    ensures |Heard(bs, n)| <= CAPACITY ==> Table(bs, n).Keys == Heard(bs, n)
    ensures |Heard(bs, n)| > CAPACITY ==> |Table(bs, n)| == CAPACITY
  {
    if n > 0 {
      FirstSixteen(bs, n - 1);
      var m, b := Table(bs, n - 1), bs[n - 1];
      var m', s, s' := After(m, b.id, b.seqNum, b.now), Heard(bs, n - 1), Heard(bs, n);
      assert |m| == |m.Keys| && |m'| == |m'.Keys|;
      assert b.id in s ==> s' == s;
      assert b.id !in s ==> |s'| == |s| + 1;
      assert m'.Keys == m.Keys || m'.Keys == m.Keys + {b.id};
      assert b.id in m ==> m'.Keys == m.Keys;
    }
  }

  /** The first beacon of a device is accepted exactly if fewer than 16 devices were heard of before. */
  lemma FirstAcceptedIff(bs: seq<Beacon>, n: nat)
    requires n < |bs| && bs[n].id !in Heard(bs, n)
    ensures Accepted(bs, n) <==> |Heard(bs, n)| < CAPACITY
  {
    FirstSixteen(bs, n);
    assert |Table(bs, n)| == |Table(bs, n).Keys|;
  }
}
