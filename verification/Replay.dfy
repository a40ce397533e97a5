/**
 Replay protection (nodex-messenger/src/crypto.rs): the hashes of the signatures accepted
 within the last seven days. The hash is an arbitrary function.
 */
module Replay {
  import opened Bytes
  import opened Sets

  const MAX_REPLAY_WINDOW_SECS: nat := 7 * 86400
  const MAX_REPLAY_CACHE_ENTRIES: nat := 100_000

  type Hash = seq<byte> -> seq<byte>
  type Seen = map<seq<byte>, nat>

  function AbsDiff(a: nat, b: nat): nat {
    if a >= b then a - b else b - a
  }

  /** Whether an entry is kept: it is not older than the window. */
  predicate Recent(timestamp: nat, now: nat) {
    now <= timestamp + MAX_REPLAY_WINDOW_SECS
  }

  function Unexpired(seen: Seen, now: nat): Seen {
    map h | h in seen && Recent(seen[h], now) :: seen[h]
  }

  function Check(seen: Seen, hash: Hash, signature: seq<byte>, timestamp: nat, now: nat): (Seen, bool) {
    if AbsDiff(now, timestamp) > MAX_REPLAY_WINDOW_SECS then (seen, false)
    else
      var kept := Unexpired(seen, now);
      if hash(signature) in kept || |kept| >= MAX_REPLAY_CACHE_ENTRIES then (kept, false)
      else (kept[hash(signature) := timestamp], true)
  }

  class ReplayProtectionCache {
    var seenHashes: Seen

    constructor ()
      ensures seenHashes == map[]
    {
      seenHashes := map[];
    }

    method CheckAndInsert(hash: Hash, signature: seq<byte>, timestamp: nat, now: nat) returns (ok: bool)
      modifies this
      ensures (seenHashes, ok) == Check(old(seenHashes), hash, signature, timestamp, now)
    {
      if AbsDiff(now, timestamp) > MAX_REPLAY_WINDOW_SECS {
        return false;
      }
      var h := hash(signature);
      seenHashes := map k | k in seenHashes && Recent(seenHashes[k], now) :: seenHashes[k];
      if h in seenHashes {
        return false;
      }
      if |seenHashes| >= MAX_REPLAY_CACHE_ENTRIES {
        return false;
      }
      seenHashes := seenHashes[h := timestamp];
      return true;
    }
  }

  // ----- runs -----

  datatype Attempt = Attempt(signature: seq<byte>, timestamp: nat, now: nat)

  function After(seen: Seen, hash: Hash, run: seq<Attempt>): Seen {
    if run == [] then seen
    else
      var a := run[|run| - 1];
      Check(After(seen, hash, run[..|run| - 1]), hash, a.signature, a.timestamp, a.now).0
  }

  /** Whether the `i`-th attempt of the run is let through. */
  predicate Accepted(seen: Seen, hash: Hash, run: seq<Attempt>, i: nat)
    requires i < |run|
  {
    Check(After(seen, hash, run[..i]), hash, run[i].signature, run[i].timestamp, run[i].now).1
  }

  ghost predicate ClockRuns(run: seq<Attempt>) {
    forall i, j :: 0 <= i < j < |run| ==> run[i].now <= run[j].now
  }

  /** What blocks a pair that was accepted: its entry, or the clock having left its window. */
  ghost predicate Blocked(seen: Seen, hash: Hash, a: Attempt, now: nat) {
    (hash(a.signature) in seen && seen[hash(a.signature)] == a.timestamp) || !Recent(a.timestamp, now)
  }

  lemma CheckKeepsBlocked(seen: Seen, hash: Hash, a: Attempt, b: Attempt, now: nat)
    requires Blocked(seen, hash, a, now) && now <= b.now
    ensures Blocked(Check(seen, hash, b.signature, b.timestamp, b.now).0, hash, a, b.now)
    ensures b.signature == a.signature && b.timestamp == a.timestamp ==>
              !Check(seen, hash, b.signature, b.timestamp, b.now).1
  {
  }

  lemma AcceptedBlocks(seen: Seen, hash: Hash, a: Attempt)
    requires Check(seen, hash, a.signature, a.timestamp, a.now).1
    ensures Blocked(Check(seen, hash, a.signature, a.timestamp, a.now).0, hash, a, a.now)
  {
  }

  lemma {:induction false} StaysBlocked(seen: Seen, hash: Hash, run: seq<Attempt>, i: nat, n: nat)
    requires ClockRuns(run) && i < n <= |run| && Accepted(seen, hash, run, i)
    ensures Blocked(After(seen, hash, run[..n]), hash, run[i], run[n - 1].now)
  {
    hide Check, Blocked;
    assert run[..n][..n - 1] == run[..n - 1] && run[..n][n - 1] == run[n - 1];
    if n == i + 1 {
      AcceptedBlocks(After(seen, hash, run[..i]), hash, run[i]);
    } else {
      StaysBlocked(seen, hash, run, i, n - 1);
      CheckKeepsBlocked(After(seen, hash, run[..n - 1]), hash, run[i], run[n - 1], run[n - 2].now);
    }
  }

  /**
   Replay safety: while the clock does not run backwards, no (signature, timestamp) pair is
   accepted twice, whatever the hash and whatever else arrives in between.
   */
  lemma NeverAcceptedTwice(seen: Seen, hash: Hash, run: seq<Attempt>, i: nat, j: nat)
    requires ClockRuns(run) && i < j < |run|
    requires run[i].signature == run[j].signature && run[i].timestamp == run[j].timestamp
    requires Accepted(seen, hash, run, i)
    ensures !Accepted(seen, hash, run, j)
  {
    StaysBlocked(seen, hash, run, i, j);
    CheckKeepsBlocked(After(seen, hash, run[..j]), hash, run[i], run[j], run[j - 1].now);
  }

  /** The cache never exceeds its bound. */
  lemma {:induction false} CacheBounded(seen: Seen, hash: Hash, run: seq<Attempt>)
    requires |seen| <= 100_000
    ensures |After(seen, hash, run)| <= 100_000
  {
    if run != [] {
      var before, now := After(seen, hash, run[..|run| - 1]), run[|run| - 1].now;
      CacheBounded(seen, hash, run[..|run| - 1]);
      SubsetSize(Unexpired(before, now).Keys, before.Keys);
    }
  }

  // ----- exactly when an attempt is accepted -----

  /** The window is seven days either way, an entry is kept for as long, and there are at most 100000. */
  lemma WindowExactly(seen: Seen, hash: Hash, a: Attempt)
    ensures InWindow(a) <==> -604800 <= a.now - a.timestamp <= 604800
    ensures var (r, ok) := Check(seen, hash, a.signature, a.timestamp, a.now);
            var kept := map h | h in seen && a.now <= seen[h] + 604800 :: seen[h];
            if a.now - a.timestamp < -604800 || a.now - a.timestamp > 604800 then r == seen && !ok
            else
              && (ok <==> hash(a.signature) !in kept && |kept| < 100_000)
              && r == if ok then kept[hash(a.signature) := a.timestamp] else kept
  {
    assert Unexpired(seen, a.now) == map h | h in seen && a.now <= seen[h] + 604800 :: seen[h];
  }

  predicate InWindow(a: Attempt) {
    AbsDiff(a.now, a.timestamp) <= MAX_REPLAY_WINDOW_SECS
  }

  /** Some attempt between `i` and `n` found the time stamp expired and so dropped its entry. */
  ghost predicate Swept(run: seq<Attempt>, i: nat, n: nat, timestamp: nat)
    requires n <= |run|
  {
    exists k :: i < k < n && InWindow(run[k]) && !Recent(timestamp, run[k].now)
  }

  /** Attempt `i` was accepted and put the hash into the cache, where it still is before `n`. */
  ghost predicate Holds(hash: Hash, run: seq<Attempt>, n: nat, h: seq<byte>, i: nat)
    requires n <= |run|
  {
    i < n && Accepted(map[], hash, run, i) && hash(run[i].signature) == h && !Swept(run, i, n, run[i].timestamp)
  }

  /** The cache holds exactly the hashes accepted and not swept since, under their time stamps. */
  lemma {:induction false} CacheIs(hash: Hash, run: seq<Attempt>, n: nat, h: seq<byte>)
    requires n <= |run|
    ensures var seen := After(map[], hash, run[..n]);
            && (h in seen <==> exists i: nat :: Holds(hash, run, n, h, i))
            && (forall i: nat :: Holds(hash, run, n, h, i) ==> h in seen && seen[h] == run[i].timestamp)
  {
    if n > 0 {
      hide Swept, Accepted, InWindow;
      var m := n - 1;
      assert run[..n][..m] == run[..m] && run[..n][m] == run[m];
      CacheIs(hash, run, m, h);
      HoldsNext(hash, run, m, h);
      CheckEffect(After(map[], hash, run[..m]), hash, run[m], h);
    }
  }

  /** One more attempt: what it expires is no longer held, and what it enters is. */
  lemma HoldsNext(hash: Hash, run: seq<Attempt>, m: nat, h: seq<byte>)
    requires m < |run|
    ensures forall i: nat :: Holds(hash, run, m + 1, h, i) <==>
              if i == m then Accepted(map[], hash, run, m) && hash(run[m].signature) == h
              else Holds(hash, run, m, h, i) && (InWindow(run[m]) ==> Recent(run[i].timestamp, run[m].now))
  {
    hide Accepted, InWindow, Recent;
    forall i: nat | i < m
      ensures Swept(run, i, m + 1, run[i].timestamp) <==>
                Swept(run, i, m, run[i].timestamp) || (InWindow(run[m]) && !Recent(run[i].timestamp, run[m].now))
    {
    }
  }

  lemma CheckEffect(seen: Seen, hash: Hash, a: Attempt, h: seq<byte>)
    ensures var (after, ok) := Check(seen, hash, a.signature, a.timestamp, a.now);
            var kept := h in seen && (InWindow(a) ==> Recent(seen[h], a.now));
            && (h in after <==> kept || (ok && hash(a.signature) == h))
            && (ok && hash(a.signature) == h ==> !kept && after[h] == a.timestamp)
            && (kept ==> after[h] == seen[h])
            && (ok <==> InWindow(a) && |Unexpired(seen, a.now)| < MAX_REPLAY_CACHE_ENTRIES
                        && !(hash(a.signature) in seen && Recent(seen[hash(a.signature)], a.now)))
  {
  }

  ghost predicate HasRoom(hash: Hash, run: seq<Attempt>, j: nat)
    requires j < |run|
  {
    |Unexpired(After(map[], hash, run[..j]), run[j].now)| < MAX_REPLAY_CACHE_ENTRIES
  }

  /**
   Of any run, whatever its clock does, an attempt is accepted exactly if its time stamp is within
   the window, there is room, and no earlier accepted attempt of the same hash is still held
   unexpired.
   */
  lemma AcceptedExactly(hash: Hash, run: seq<Attempt>, j: nat)
    requires j < |run|
    ensures Accepted(map[], hash, run, j) <==>
              && InWindow(run[j]) && HasRoom(hash, run, j)
              && !exists i: nat :: Holds(hash, run, j, hash(run[j].signature), i)
                         && Recent(run[i].timestamp, run[j].now)
  {
    hide Swept, InWindow, Recent, Holds;
    CacheIs(hash, run, j, hash(run[j].signature));
    CheckEffect(After(map[], hash, run[..j]), hash, run[j], hash(run[j].signature));
  }

  /**
   The exact condition for accepting a pair again after its last acceptance: it is still within
   the window, there is room, and in between some attempt within its own window saw a clock at
   which the pair's time stamp had expired - which a clock that never runs backwards rules out.
   */
  lemma AcceptedAgain(hash: Hash, run: seq<Attempt>, i: nat, j: nat)
    requires i < j < |run| && Accepted(map[], hash, run, i)
    requires run[i].signature == run[j].signature && run[i].timestamp == run[j].timestamp
    requires forall k :: i < k < j && Accepted(map[], hash, run, k) ==> hash(run[k].signature) != hash(run[i].signature)
    ensures Accepted(map[], hash, run, j) <==>
              InWindow(run[j]) && HasRoom(hash, run, j) && Swept(run, i, j, run[i].timestamp)
  {
    hide Accepted, HasRoom, Swept;
    AcceptedExactly(hash, run, j);
    var h := hash(run[i].signature);
    forall e: nat | Holds(hash, run, j, h, e) ensures e == i {
      if e < i {
        HeldBefore(hash, run, e, i, j, h);
        AcceptedExactly(hash, run, i);
        SweptBy(run, e, i, j, run[e].timestamp);
      }
    }
    if InWindow(run[j]) {
      WindowIsRecent(run[j]);
    }
    assert !Swept(run, i, j, run[i].timestamp) ==> Holds(hash, run, j, h, i);
  }

  lemma WindowIsRecent(a: Attempt)
    requires InWindow(a)
    ensures Recent(a.timestamp, a.now)
  {
  }

  lemma HeldBefore(hash: Hash, run: seq<Attempt>, e: nat, i: nat, j: nat, h: seq<byte>)
    requires e < i < j <= |run| && Holds(hash, run, j, h, e)
    ensures Holds(hash, run, i, h, e)
  {
    hide Accepted, InWindow, Recent;
  }

  /** An attempt within its window at which a time stamp has expired sweeps it. */
  lemma SweptBy(run: seq<Attempt>, e: nat, i: nat, j: nat, timestamp: nat)
    requires e < i < j <= |run| && InWindow(run[i]) && !Recent(timestamp, run[i].now)
    ensures Swept(run, e, j, timestamp)
  {
  }

  lemma {:induction false} FewEntries(hash: Hash, run: seq<Attempt>)
    ensures |After(map[], hash, run)| <= |run|
  {
    if run != [] {
      var before, now := After(map[], hash, run[..|run| - 1]), run[|run| - 1].now;
      FewEntries(hash, run[..|run| - 1]);
      SubsetSize(Unexpired(before, now).Keys, before.Keys);
    }
  }

  lemma RoomForFew(hash: Hash, run: seq<Attempt>, j: nat)
    requires j < |run| < MAX_REPLAY_CACHE_ENTRIES
    ensures HasRoom(hash, run, j)
  {
    var seen := After(map[], hash, run[..j]);
    FewEntries(hash, run[..j]);
    SubsetSize(Unexpired(seen, run[j].now).Keys, seen.Keys);
  }

  /** An instance: a clock set back after an expiry, and the pair is accepted again. */
  lemma ClockSetBack(hash: Hash, s: seq<byte>, other: seq<byte>, t: nat)
    requires hash(s) != hash(other)
    ensures var late := t + MAX_REPLAY_WINDOW_SECS + 1;
            var run := [Attempt(s, t, t), Attempt(other, late, late), Attempt(s, t, t)];
            Accepted(map[], hash, run, 0) && Accepted(map[], hash, run, 2)
  {
    hide Accepted, HasRoom;
    var late := t + MAX_REPLAY_WINDOW_SECS + 1;
    var run := [Attempt(s, t, t), Attempt(other, late, late), Attempt(s, t, t)];
    RoomForFew(hash, run, 0);
    RoomForFew(hash, run, 2);
    AcceptedExactly(hash, run, 0);
    SweptBy(run, 0, 1, 2, t);
    AcceptedAgain(hash, run, 0, 2);
  }
}
