/** The capability nonce cache: pruned entries that must decide like the whole history. */
module NonceCache {
  import opened Octets

  /** Instants and durations are in nanoseconds. */
  datatype Cache = Cache(entries: map<Bytes, nat>, ttl: nat, capacity: nat)

  function New(ttl: nat, capacity: nat): Cache {
    Cache(map[], ttl, if capacity == 0 then 1 else capacity)
  }

  /** `now.saturating_duration_since(seen) < ttl`. */
  predicate Live(ttl: nat, seen: nat, now: nat) {
    (if now < seen then 0 else now - seen) < ttl
  }

  function Prune(entries: map<Bytes, nat>, ttl: nat, now: nat): map<Bytes, nat> {
    map n | n in entries && Live(ttl, entries[n], now) :: entries[n]
  }

  /** `accept`: the cache afterwards, and whether the nonce was taken. */
  function Accept(c: Cache, nonce: Bytes, now: nat): (Cache, bool) {
    var pruned := Prune(c.entries, c.ttl, now);
    if nonce in pruned || |pruned| >= c.capacity then (c.(entries := pruned), false)
    else (c.(entries := pruned[nonce := now]), true)
  }

  class NonceReplayCache {
    var entries: map<Bytes, nat>
    const ttl: nat
    const capacity: nat

    function Contents(): Cache
      reads this
    {
      Cache(entries, ttl, capacity)
    }

    constructor (ttl: nat, capacity: nat)
      ensures Contents() == New(ttl, capacity)
    {
      this.entries := map[];
      this.ttl := ttl;
      this.capacity := if capacity == 0 then 1 else capacity;
    }

    method AcceptNonce(nonce: Bytes, now: nat) returns (ok: bool)
      modifies this
      ensures (Contents(), ok) == Accept(old(Contents()), nonce, now)
    {
      entries := Prune(entries, ttl, now);
      if nonce in entries {
        return false;
      }
      if |entries| >= capacity {
        return false;
      }
      entries := entries[nonce := now];
      ok := true;
    }
  }

  // ---- Against unbounded history -----------------------------------------------------------

  /** A nonce and when it was offered. */
  datatype Entry = Entry(nonce: Bytes, at: nat)

  /** Which of the acceptances are still within the time to live. */
  function LiveAt(history: seq<Entry>, ttl: nat, now: nat): set<nat> {
    set i: nat | i < |history| && Live(ttl, history[i].at, now)
  }

  /** The rule over everything ever accepted: not used within the time to live, and fewer than
      `capacity` acceptances within it. */
  ghost predicate Admissible(history: seq<Entry>, ttl: nat, capacity: nat, nonce: Bytes, now: nat) {
    && (forall i: nat :: i in LiveAt(history, ttl, now) ==> history[i].nonce != nonce)
    && |LiveAt(history, ttl, now)| < capacity
  }

  /** The map holds exactly the chosen acceptances, and those have different nonces. */
  ghost predicate Holds(entries: map<Bytes, nat>, history: seq<Entry>, chosen: set<nat>) {
    && (forall i :: i in chosen ==>
          i < |history| && history[i].nonce in entries && entries[history[i].nonce] == history[i].at)
    && (forall i, j :: i in chosen && j in chosen && i != j ==> history[i].nonce != history[j].nonce)
    && (forall n :: n in entries ==> exists i :: i in chosen && i < |history| && history[i].nonce == n)
  }

  lemma DropOne(entries: map<Bytes, nat>, history: seq<Entry>, chosen: set<nat>, i: nat)
    requires Holds(entries, history, chosen) && i in chosen
    ensures Holds(entries - {history[i].nonce}, history, chosen - {i})
    ensures |entries - {history[i].nonce}| == |entries| - 1
  {
    var rest := entries - {history[i].nonce};
    assert entries == rest[history[i].nonce := history[i].at];
    forall n | n in rest ensures exists j :: j in chosen - {i} && j < |history| && history[j].nonce == n {
      assert n in entries;
      var j :| j in chosen && j < |history| && history[j].nonce == n;
      assert j in chosen - {i};
    }
  }

  lemma {:induction false} HoldsCounts(entries: map<Bytes, nat>, history: seq<Entry>, chosen: set<nat>)
    requires Holds(entries, history, chosen)
    ensures |entries| == |chosen|
    decreases |chosen|
  {
    if chosen == {} {
      assert entries == map[];
    } else {
      var i :| i in chosen;
      DropOne(entries, history, chosen, i);
      HoldsCounts(entries - {history[i].nonce}, history, chosen - {i});
    }
  }

  /** What is live in the cache at time `when` is exactly the acceptances live then. */
  ghost predicate Represents(c: Cache, history: seq<Entry>, when: nat) {
    Holds(Prune(c.entries, c.ttl, when), history, LiveAt(history, c.ttl, when))
  }

  /** As time passes entries only die, so pruning again later loses nothing that still counts. */
  lemma StillRepresents(c: Cache, history: seq<Entry>, when: nat, now: nat)
    requires Represents(c, history, when) && when <= now
    ensures Represents(c, history, now)
  {
    var before, after := LiveAt(history, c.ttl, when), LiveAt(history, c.ttl, now);
    assert after <= before;
    forall n | n in Prune(c.entries, c.ttl, now)
      ensures exists i :: i in after && i < |history| && history[i].nonce == n
    {
      assert n in Prune(c.entries, c.ttl, when);
      var i :| i in before && i < |history| && history[i].nonce == n;
      assert i in after;
    }
  }

  lemma AppendHolds(entries: map<Bytes, nat>, history: seq<Entry>, chosen: set<nat>, nonce: Bytes, now: nat)
    requires Holds(entries, history, chosen) && nonce !in entries
    ensures Holds(entries[nonce := now], history + [Entry(nonce, now)], chosen + {|history|})
  {
    var longer := history + [Entry(nonce, now)];
    var added := entries[nonce := now];
    forall n | n in added ensures exists i :: i in chosen + {|history|} && i < |longer| && longer[i].nonce == n {
      if n == nonce {
        assert longer[|history|].nonce == n;
      } else {
        assert n in entries;
        var i :| i in chosen && i < |history| && history[i].nonce == n;
        assert longer[i].nonce == n;
      }
    }
  }

  function HistoryAfter(c: Cache, history: seq<Entry>, nonce: Bytes, now: nat): seq<Entry> {
    if Accept(c, nonce, now).1 then history + [Entry(nonce, now)] else history
  }

  /** Whatever has been pruned, the cache decides exactly as the unbounded history would. */
  lemma CacheDecidesLikeHistory(c: Cache, history: seq<Entry>, when: nat, nonce: Bytes, now: nat)
    requires Represents(c, history, when) && when <= now
    ensures Accept(c, nonce, now).1 <==> Admissible(history, c.ttl, c.capacity, nonce, now)
    ensures Represents(Accept(c, nonce, now).0, HistoryAfter(c, history, nonce, now), now)
  {
    var live := LiveAt(history, c.ttl, now);
    var pruned := Prune(c.entries, c.ttl, now);
    StillRepresents(c, history, when, now);
    HoldsCounts(pruned, history, live);
    if Accept(c, nonce, now).1 {
      KeptAfterAccept(c, history, nonce, now);
    } else {
      assert Prune(pruned, c.ttl, now) == pruned;
    }
  }

  lemma KeptAfterAccept(c: Cache, history: seq<Entry>, nonce: Bytes, now: nat)
    requires Represents(c, history, now) && Accept(c, nonce, now).1
    ensures Represents(Accept(c, nonce, now).0, history + [Entry(nonce, now)], now)
  {
    var longer := history + [Entry(nonce, now)];
    var live := LiveAt(history, c.ttl, now);
    var pruned := Prune(c.entries, c.ttl, now);
    if c.ttl == 0 {
      assert LiveAt(longer, c.ttl, now) == {};
      assert Prune(pruned[nonce := now], c.ttl, now) == map[];
    } else {
      AppendHolds(pruned, history, live, nonce, now);
      assert LiveAt(longer, c.ttl, now) == live + {|history|};
      assert Prune(pruned[nonce := now], c.ttl, now) == pruned[nonce := now];
    }
  }

  // ---- Whole runs --------------------------------------------------------------------------

  ghost predicate InOrder(calls: seq<Entry>) {
    forall i, j :: 0 <= i < j < |calls| ==> calls[i].at <= calls[j].at
  }

  /** The cache after some calls. */
  function After(ttl: nat, capacity: nat, calls: seq<Entry>): Cache {
    if calls == [] then New(ttl, capacity)
    else
      var call := calls[|calls| - 1];
      Accept(After(ttl, capacity, calls[..|calls| - 1]), call.nonce, call.at).0
  }

  /** What the rule alone admits of the calls, without any cache. */
  ghost function HistoryOf(ttl: nat, capacity: nat, calls: seq<Entry>): seq<Entry> {
    if calls == [] then []
    else
      var call := calls[|calls| - 1];
      var history := HistoryOf(ttl, capacity, calls[..|calls| - 1]);
      if Admissible(history, ttl, if capacity == 0 then 1 else capacity, call.nonce, call.at)
      then history + [call] else history
  }

  function LastCall(calls: seq<Entry>): nat {
    if calls == [] then 0 else calls[|calls| - 1].at
  }

  lemma {:induction false} RunRepresents(ttl: nat, capacity: nat, calls: seq<Entry>)
    requires InOrder(calls)
    ensures After(ttl, capacity, calls).ttl == ttl
    ensures After(ttl, capacity, calls).capacity == if capacity == 0 then 1 else capacity
    ensures Represents(After(ttl, capacity, calls), HistoryOf(ttl, capacity, calls), LastCall(calls))
  {
    if calls != [] {
      var init, call := calls[..|calls| - 1], calls[|calls| - 1];
      RunRepresents(ttl, capacity, init);
      CacheDecidesLikeHistory(
        After(ttl, capacity, init), HistoryOf(ttl, capacity, init), LastCall(init), call.nonce, call.at);
    }
  }

  /** After any calls at nondecreasing times, the next nonce is accepted if and only if the rule over everything the
      rule itself has admitted so far accepts it. */
  lemma RunDecidesLikeHistory(ttl: nat, capacity: nat, calls: seq<Entry>, nonce: Bytes, now: nat)
    requires InOrder(calls) && LastCall(calls) <= now
    ensures Accept(After(ttl, capacity, calls), nonce, now).1 <==>
              Admissible(HistoryOf(ttl, capacity, calls), ttl, if capacity == 0 then 1 else capacity, nonce, now)
  {
    RunRepresents(ttl, capacity, calls);
    CacheDecidesLikeHistory(After(ttl, capacity, calls), HistoryOf(ttl, capacity, calls), LastCall(calls), nonce, now);
  }
}
