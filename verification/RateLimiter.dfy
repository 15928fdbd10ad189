/** The SoftBus per-IP token bucket (net/distributed_bus.hpp:92-134, 346-351). */
module RateLimiter {
  import opened CString
  import opened KeyedTable

  const BUCKETS: nat := 8
  const CAPACITY: Uint32 := 10
  const REFILL: Uint32 := 1000
  const IP_LENGTH: nat := 15

  datatype Bucket = Bucket(tokens: Uint32, refilled: Uint32)

  type Buckets = map<string, Bucket>

  /** A bucket after the tokens that have come due are added. */
  function Refill(b: Bucket, now: Uint32): Bucket
  {
    var added := Sub32(now, b.refilled) / REFILL;
    if added == 0 then b
    else Bucket(if b.tokens + added < CAPACITY then b.tokens + added else CAPACITY, now)
  }

  predicate Passes(m: Buckets, ip: string, now: Uint32)
  {
    if ip in m then Refill(m[ip], now).tokens > 0 else |m| < BUCKETS
  }

  function After(m: Buckets, ip: string, now: Uint32): Buckets
  {
    if ip in m then
      var b := Refill(m[ip], now);
      m[ip := if b.tokens > 0 then b.(tokens := b.tokens - 1) else b]
    else if |m| < BUCKETS then m[ip := Bucket(CAPACITY - 1, now)]
    else m
  }

  ghost predicate Capped(m: Buckets) { forall ip | ip in m :: m[ip].tokens <= CAPACITY }

  class RateLimiter {
    const entries: array<Entry<Bucket>>
    ghost var buckets: Buckets

    /** The table is one of 8 buckets, one for each IP, and no bucket overflows. */
    ghost predicate Valid()
      reads this, entries
    {
      entries.Length == BUCKETS && Represents(entries[..], buckets) && Capped(buckets)
    }

    constructor ()
      ensures Valid() && buckets == map[] && fresh(entries)
    {
      entries := new Entry<Bucket>[BUCKETS](_ => Entry("", Bucket(0, 0), false));
      buckets := map[];
    }

    method Pass(address: string, now: Uint32) returns (ok: bool)
      requires Valid()
      modifies this, entries
      ensures Valid()
      ensures ok == Passes(old(buckets), Truncated(address, IP_LENGTH), now)
      ensures buckets == After(old(buckets), Truncated(address, IP_LENGTH), now)
    {
      hide Represents;
      var ip := Truncated(address, IP_LENGTH);
      var i := Find(entries, ip);
      FoundIff(entries[..], buckets, ip, i);
      if i >= 0 {
        ok := PassKnown(ip, i, now);
      } else {
        ok := Register(ip, now);
      }
    }

    method PassKnown(ip: string, i: nat, now: Uint32) returns (ok: bool)
      requires Valid() && FoundAt(entries[..], ip, i) && ip in buckets
      modifies this, entries
      ensures Valid() && ok == (Refill(old(buckets)[ip], now).tokens > 0)
      ensures buckets == After(old(buckets), ip, now)
    {
      hide Represents;
      FoundIff(entries[..], buckets, ip, i);
      var b := entries[i].value;
      var elapsed := Sub32(now, b.refilled);
      var added := elapsed / REFILL;
      if added > 0 {
        b := Bucket(if b.tokens + added < CAPACITY then b.tokens + added else CAPACITY, now);
      }
      ok := b.tokens != 0;
      if ok {
        b := b.(tokens := b.tokens - 1);
      }
      Updated(entries[..], buckets, i, b);
      buckets := buckets[entries[i].key := b];
      entries[i] := entries[i].(value := b);
      assert entries[..] == old(entries[..])[i := old(entries[i]).(value := b)];
    }

    method Register(ip: string, now: Uint32) returns (ok: bool)
      requires Valid() && ip !in buckets
      modifies this, entries
      ensures Valid() && ok == (|old(buckets)| < BUCKETS)
      ensures buckets == After(old(buckets), ip, now)
    {
      hide Represents;
      var i := FindEmpty(entries);
      EmptyIff(entries[..], buckets, i);
      ok := i >= 0;
      if ok {
        var b := Bucket(CAPACITY - 1, now);
        Inserted(entries[..], buckets, ip, b);
        buckets := buckets[ip := b];
        entries[i] := Entry(ip, b, true);
        assert entries[..] == old(entries[..])[i := Entry(ip, b, true)];
      }
    }
  }

  // ----- Runs of the listener

  datatype Packet = Packet(ip: string, now: Uint32)

  /** Ticks that do not run backwards. */
  ghost predicate Monotone(ps: seq<Packet>) { forall i, j | 0 <= i < j < |ps| :: ps[i].now <= ps[j].now }

  function Table(ps: seq<Packet>, n: nat): Buckets
    requires n <= |ps|
  {
    if n == 0 then map[] else After(Table(ps, n - 1), ps[n - 1].ip, ps[n - 1].now)
  }

  /** The packets of an IP that pass among the first n, at a tick from s to t. */
  function PassCount(ps: seq<Packet>, ip: string, s: Uint32, t: Uint32, n: nat): nat
    requires n <= |ps|
  {
    if n == 0 then 0
    else
      var p := ps[n - 1];
      PassCount(ps, ip, s, t, n - 1)
      + if p.ip == ip && s <= p.now <= t && Passes(Table(ps, n - 1), ip, p.now) then 1 else 0
  }

  /** In any run, ticks running backwards or not, no bucket ever holds more than its capacity. */
  lemma {:induction false} NeverOverfull(ps: seq<Packet>, n: nat)
    requires n <= |ps|
    ensures Capped(Table(ps, n))
  {
    if n > 0 {
      NeverOverfull(ps, n - 1);
    }
  }

  /** The bucket of an IP pays for what has passed since s: what passed and what is left is bounded by the
      capacity and the refills since one period before s. */
  ghost predicate Paid(m: Buckets, ip: string, s: Uint32, passed: nat, upTo: Uint32)
  {
    && (ip in m ==> m[ip].refilled <= upTo && m[ip].tokens <= CAPACITY)
    && (passed > 0 ==> ip in m && REFILL * (passed + m[ip].tokens - CAPACITY) <= m[ip].refilled - s + REFILL - 1)
  }

  function CountAfter(m: Buckets, ip: string, s: Uint32, passed: nat, now: Uint32): nat {
    passed + if s <= now && Passes(m, ip, now) then 1 else 0
  }

  lemma PaidKept(m: Buckets, ip: string, s: Uint32, passed: nat, upTo: Uint32, now: Uint32)
    requires Paid(m, ip, s, passed, upTo) && upTo <= now && (passed > 0 ==> s <= now)
    ensures Paid(After(m, ip, now), ip, s, CountAfter(m, ip, s, passed, now), now)
  {
    if ip in m {
      var added := (now - m[ip].refilled) / REFILL;
      assert REFILL * added <= now - m[ip].refilled < REFILL * added + REFILL;
    }
  }

  /** In every window of ticks at most 10 packets of an IP pass, and one more for each second begun in it. */
  lemma {:induction false} WindowBound(ps: seq<Packet>, ip: string, s: Uint32, t: Uint32, n: nat)
    requires Monotone(ps) && n <= |ps| && s <= t
    ensures PassCount(ps, ip, s, t, n) <= CAPACITY + (t - s + REFILL - 1) / REFILL
    ensures n == 0 || ps[n - 1].now <= t ==>
              Paid(Table(ps, n), ip, s, PassCount(ps, ip, s, t, n), if n == 0 then 0 else ps[n - 1].now)
    ensures n > 0 && ps[n - 1].now < s ==> PassCount(ps, ip, s, t, n) == 0
  {
    if n > 0 {
      WindowBound(ps, ip, s, t, n - 1);
      var m, p := Table(ps, n - 1), ps[n - 1];
      if p.now <= t {
        if p.ip == ip {
          PaidKept(m, ip, s, PassCount(ps, ip, s, t, n - 1), if n == 1 then 0 else ps[n - 2].now, p.now);
        }
      }
    }
  }

  // ----- What is let through

  /** Packet i is of the IP and passes. */
  predicate PassedAt(ps: seq<Packet>, ip: string, i: nat)
  {
    i < |ps| && ps[i].ip == ip && Passes(Table(ps, i), ip, ps[i].now)
  }

  /** A bucket was last refilled when a packet of its IP passed. */
  lemma {:induction false} RefilledByPass(ps: seq<Packet>, ip: string, n: nat) returns (i: nat)
    requires n <= |ps| && ip in Table(ps, n)
    ensures i < n && PassedAt(ps, ip, i) && Table(ps, n)[ip].refilled == ps[i].now
  {
    var m, p := Table(ps, n - 1), ps[n - 1];
    if p.ip == ip && (ip !in m || Sub32(p.now, m[ip].refilled) >= REFILL) {
      i := n - 1;
    } else {
      i := RefilledByPass(ps, ip, n - 1);
    }
  }

  /** A packet of an IP in the table is refused only if another one of that IP has passed less than a second before. */
  lemma RefusedAfterPass(ps: seq<Packet>, n: nat) returns (i: nat)
    requires n < |ps| && ps[n].ip in Table(ps, n) && !Passes(Table(ps, n), ps[n].ip, ps[n].now)
    ensures i < n && PassedAt(ps, ps[n].ip, i) && Sub32(ps[n].now, ps[i].now) < REFILL
  {
    i := RefilledByPass(ps, ps[n].ip, n);
  }

  /** How many packets of an IP have passed among the first n. */
  function PassedBefore(ps: seq<Packet>, ip: string, n: nat): nat
    requires n <= |ps|
  {
    if n == 0 then 0 else PassedBefore(ps, ip, n - 1) + if PassedAt(ps, ip, n - 1) then 1 else 0
  }

  lemma {:induction false} TokensLeft(ps: seq<Packet>, ip: string, n: nat)
    requires n <= |ps|
    ensures ip in Table(ps, n) ==> Table(ps, n)[ip].tokens + PassedBefore(ps, ip, n) >= CAPACITY
    ensures ip !in Table(ps, n) ==> PassedBefore(ps, ip, n) == 0
  {
    if n > 0 { TokensLeft(ps, ip, n - 1); }
  }

  /** The first ten packets of an IP in the table all pass. */
  lemma FirstTenPass(ps: seq<Packet>, n: nat)
    requires n < |ps| && ps[n].ip in Table(ps, n) && PassedBefore(ps, ps[n].ip, n) < CAPACITY
    ensures Passes(Table(ps, n), ps[n].ip, ps[n].now)
  {
    TokensLeft(ps, ps[n].ip, n);
  }

  /** How many of the packets from a up to n are of an IP. */
  function Sent(ps: seq<Packet>, ip: string, a: nat, n: nat): nat
    requires a <= n <= |ps|
  {
    if n == a then 0 else Sent(ps, ip, a, n - 1) + if ps[n - 1].ip == ip then 1 else 0
  }

  /** An IP that has been silent for k seconds, up to ten, then has k packets let through, whenever they come. */
  lemma {:induction false} SilenceIsPaid(ps: seq<Packet>, ip: string, k: nat, a: nat, n: nat)
    requires Monotone(ps) && a <= n < |ps| && ps[a].ip == ip == ps[n].ip && ip in Table(ps, a) && k <= CAPACITY
    requires forall i | 0 <= i < a && ps[i].ip == ip :: ps[i].now + REFILL * k <= ps[a].now
    requires Sent(ps, ip, a, n) < k
    ensures Passes(Table(ps, n), ip, ps[n].now)
  {
    KnownStays(ps, ip, a, n);
    if n == a {
      var i := RefilledByPass(ps, ip, a);
      PeriodsDue(ps[a].now - ps[i].now, k);
    } else {
      TokensAfterSilence(ps, ip, k, a, n);
    }
  }

  lemma PeriodsDue(elapsed: nat, k: nat)
    requires REFILL * k <= elapsed
    ensures elapsed / REFILL >= k
  {
  }

  lemma {:induction false} KnownStays(ps: seq<Packet>, ip: string, a: nat, n: nat)
    requires a <= n <= |ps| && ip in Table(ps, a)
    ensures ip in Table(ps, n)
    decreases n
  {
    if n > a { KnownStays(ps, ip, a, n - 1); }
  }

  lemma {:induction false} TokensAfterSilence(ps: seq<Packet>, ip: string, k: nat, a: nat, n: nat)
    requires Monotone(ps) && a < n <= |ps| && ps[a].ip == ip && ip in Table(ps, a) && k <= CAPACITY
    requires forall i | 0 <= i < a && ps[i].ip == ip :: ps[i].now + REFILL * k <= ps[a].now
    ensures ip in Table(ps, n) && Table(ps, n)[ip].tokens + Sent(ps, ip, a, n) >= k
    decreases n
  {
    if n == a + 1 {
      var i := RefilledByPass(ps, ip, a);
      PeriodsDue(ps[a].now - ps[i].now, k);
      assert Sent(ps, ip, a, a) == 0;
    } else {
      TokensAfterSilence(ps, ip, k, a, n - 1);
    }
  }

  /** The IPs heard of in the first n packets. */
  function Heard(ps: seq<Packet>, n: nat): set<string>
    requires n <= |ps|
  {
    if n == 0 then {} else Heard(ps, n - 1) + {ps[n - 1].ip}
  }

  /** The table holds the first 8 IPs heard of: all of them, until it is full. */
  lemma {:induction false} FirstEight(ps: seq<Packet>, n: nat)
    requires n <= |ps|
    ensures Table(ps, n).Keys <= Heard(ps, n)
    ensures |Heard(ps, n)| <= BUCKETS ==> Table(ps, n).Keys == Heard(ps, n)
    ensures |Heard(ps, n)| > BUCKETS ==> |Table(ps, n)| == BUCKETS
  {
    if n > 0 {
      FirstEight(ps, n - 1);
      var m, p := Table(ps, n - 1), ps[n - 1];
      var m', s, s' := After(m, p.ip, p.now), Heard(ps, n - 1), Heard(ps, n);
      assert |m| == |m.Keys| && |m'| == |m'.Keys|;
      assert p.ip in s ==> s' == s;
      assert p.ip !in s ==> |s'| == |s| + 1;
      assert m'.Keys == m.Keys || m'.Keys == m.Keys + {p.ip};
      assert p.ip in m ==> m'.Keys == m.Keys;
    }
  }

  /** The first packet of an IP passes exactly if fewer than 8 IPs were heard of before. */
  lemma FirstPassIff(ps: seq<Packet>, n: nat)
    requires n < |ps| && ps[n].ip !in Heard(ps, n)
    ensures PassedAt(ps, ps[n].ip, n) <==> |Heard(ps, n)| < BUCKETS
  {
    FirstEight(ps, n);
    assert |Table(ps, n)| == |Table(ps, n).Keys|;
  }
}
