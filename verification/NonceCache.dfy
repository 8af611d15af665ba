/**
 Replay protection by a ring of four time buckets
 (subduction_core/src/nonce_cache.rs) as a refinement of an expiring set.
 */
module NonceCache {
  import opened Ids

  const BUCKET_COUNT := 4

  /** A peer and the nonce it presented. */
  datatype Key = Key(peer: seq<Byte>, nonce: nat)

  function SaturatingSub(x: nat, y: nat): nat {
    if x < y then 0 else x - y
  }

  // ----- The expiring set -----

  /**
   Which pairs are remembered, each with the bucket it is filed under, and the
   oldest bucket still remembered.
   */
  datatype Window = Window(live: map<Key, nat>, head: nat)

  const FRESH := Window(map[], 0)

  /** The first bucket from `head` on that shares a slot with bucket `b`. */
  function FiledUnder(b: nat, head: nat): nat {
    if b >= head then b else head + (b - head) % BUCKET_COUNT
  }

  /** Forget everything filed before bucket `b - 3`. */
  function Advance(w: Window, b: nat): Window {
    var oldest := SaturatingSub(b, BUCKET_COUNT - 1);
    if oldest <= w.head then w
    else Window(map k | k in w.live && w.live[k] >= oldest :: w.live[k], oldest)
  }

  function Accepts(w: Window, k: Key, b: nat): bool {
    k !in Advance(w, b).live
  }

  function Claim(w: Window, k: Key, b: nat): Window {
    var w' := Advance(w, b);
    if k in w'.live then w' else w'.(live := w'.live[k := FiledUnder(b, w'.head)])
  }

  /** Everything remembered is filed within the four buckets from the head. */
  ghost predicate InWindow(w: Window) {
    forall k :: k in w.live ==> w.head <= w.live[k] < w.head + BUCKET_COUNT
  }

  lemma ClaimInWindow(w: Window, k: Key, b: nat)
    requires InWindow(w)
    ensures InWindow(Claim(w, k, b))
    ensures b <= Claim(w, k, b).head + BUCKET_COUNT - 1
  {
  }

  // ----- The ring -----

  /** Slot `s` of the ring holds the pairs filed under buckets congruent to `s`. */
  ghost predicate Represents(buckets: seq<set<Key>>, w: Window) {
    && |buckets| == BUCKET_COUNT
    && InWindow(w)
    && (forall k :: k in w.live ==> k in buckets[w.live[k] % BUCKET_COUNT])
    && (forall s, k :: 0 <= s < BUCKET_COUNT && k in buckets[s] ==> k in w.live && w.live[k] % BUCKET_COUNT == s)
  }

  datatype Claimed = Accept | Reused | DividedByZero

  class Cache {
    const bucketDuration: nat
    const buckets: array<set<Key>>
    var head: nat
    ghost var window: Window

    ghost predicate Valid()
      reads this, buckets
    {
      && buckets.Length == BUCKET_COUNT
      && window.head == head
      && Represents(buckets[..], window)
    }

    /** The duration in whole seconds; one below a second counts as zero. */
    constructor (bucketDuration: nat)
      ensures Valid() && fresh(buckets) && window == FRESH && this.bucketDuration == bucketDuration
    {
      this.bucketDuration := bucketDuration;
      buckets := new set<Key>[BUCKET_COUNT](_ => {});
      head := 0;
      window := FRESH;
    }

    function BucketNumber(timestamp: nat): nat
      requires bucketDuration > 0
    {
      timestamp / bucketDuration
    }

    /** Clear the slots that would be reused. */
    method AdvanceHead(current: nat)
      requires Valid()
      modifies this, buckets
      ensures Valid() && window == Advance(old(window), current)
    {
      var oldest := SaturatingSub(current, BUCKET_COUNT - 1);
      while head < oldest
        invariant Valid()
        invariant head == old(head) || head <= oldest
        invariant old(head) <= head
        invariant window == if head == old(head) then old(window)
                            else Window(map k | k in old(window).live && old(window).live[k] >= head ::
                                          old(window).live[k], head)
        decreases oldest - head
      {
        ForgetHead(buckets[..], window);
        var s := head % BUCKET_COUNT;
        ghost var slots := buckets[..];
        buckets[s] := {};
        assert buckets[..] == slots[s := {}];
        head := head + 1;
        window := WithoutHead(window);
      }
    }

    /** Accept the pair and remember it, or report that it was seen; a zero duration panics. */
    method TryClaim(k: Key, timestamp: nat) returns (r: Claimed)
      requires Valid()
      modifies this, buckets
      ensures Valid()
      ensures r == DividedByZero <==> bucketDuration == 0
      ensures bucketDuration == 0 ==> window == old(window)
      ensures bucketDuration > 0 ==> (r == Accept <==> Accepts(old(window), k, BucketNumber(timestamp)))
      ensures bucketDuration > 0 ==> window == Claim(old(window), k, BucketNumber(timestamp))
    {
      if bucketDuration == 0 {
        return DividedByZero;
      }
      var b := BucketNumber(timestamp);
      ClaimInWindow(window, k, b);
      AdvanceHead(b);
      for s := 0 to BUCKET_COUNT
        invariant forall i :: 0 <= i < s ==> k !in buckets[i]
      {
        if k in buckets[s] {
          return Reused;
        }
      }
      assert forall i :: 0 <= i < BUCKET_COUNT ==> buckets[..][i] == buckets[i];
      assert k !in window.live;
      var s := b % BUCKET_COUNT;
      ghost var slots := buckets[..];
      FileClaim(slots, window, k, b);
      buckets[s] := buckets[s] + {k};
      assert buckets[..] == slots[s := slots[s] + {k}];
      window := window.(live := window.live[k := FiledUnder(b, head)]);
      return Accept;
    }
  }

  function WithoutHead(w: Window): Window {
    Window(map k | k in w.live && w.live[k] > w.head :: w.live[k], w.head + 1)
  }

  /** Clearing the slot of the head bucket forgets that bucket and nothing else. */
  lemma ForgetHead(slots: seq<set<Key>>, w: Window)
    requires Represents(slots, w)
    ensures Represents(slots[w.head % BUCKET_COUNT := {}], WithoutHead(w))
  {
    forall k | k in w.live ensures w.live[k] % BUCKET_COUNT == w.head % BUCKET_COUNT <==> w.live[k] == w.head {
      SameSlot(w.live[k], w.head);
    }
  }

  lemma SameSlot(x: nat, head: nat)
    requires head <= x < head + BUCKET_COUNT
    ensures x % BUCKET_COUNT == head % BUCKET_COUNT <==> x == head
  {
  }

  /** An accepted pair goes to the slot of its own bucket, whatever its timestamp. */
  lemma FileClaim(slots: seq<set<Key>>, w: Window, k: Key, b: nat)
    requires Represents(slots, w) && k !in w.live
    requires b < w.head + BUCKET_COUNT
    ensures var s := b % BUCKET_COUNT;
            Represents(slots[s := slots[s] + {k}], w.(live := w.live[k := FiledUnder(b, w.head)]))
  {
    assert FiledUnder(b, w.head) % BUCKET_COUNT == b % BUCKET_COUNT;
  }

  // ----- Every run of claims -----

  datatype Attempt = Attempt(key: Key, timestamp: nat)

  function Bucket(duration: nat, a: Attempt): nat
    requires duration > 0
  {
    a.timestamp / duration
  }

  /** The window after the first `n` attempts. */
  function AfterAttempts(duration: nat, run: seq<Attempt>, n: nat): Window
    requires duration > 0 && n <= |run|
  {
    if n == 0 then FRESH
    else Claim(AfterAttempts(duration, run, n - 1), run[n - 1].key, Bucket(duration, run[n - 1]))
  }

  /** Attempt `i` of the run is accepted. */
  predicate Accepted(duration: nat, run: seq<Attempt>, i: nat)
    requires duration > 0 && i < |run|
  {
    Accepts(AfterAttempts(duration, run, i), run[i].key, Bucket(duration, run[i]))
  }

  /** The bucket an accepted attempt is filed under. */
  function FiledAt(duration: nat, run: seq<Attempt>, i: nat): nat
    requires duration > 0 && i < |run|
  {
    FiledUnder(Bucket(duration, run[i]), Advance(AfterAttempts(duration, run, i), Bucket(duration, run[i])).head)
  }

  lemma {:induction false} RunInWindow(duration: nat, run: seq<Attempt>, n: nat)
    requires duration > 0 && n <= |run|
    ensures InWindow(AfterAttempts(duration, run, n))
  {
    if n > 0 {
      RunInWindow(duration, run, n - 1);
      ClaimInWindow(AfterAttempts(duration, run, n - 1), run[n - 1].key, Bucket(duration, run[n - 1]));
    }
  }

  /** The head trails the newest bucket claimed so far by three. */
  lemma {:induction false} HeadBound(duration: nat, run: seq<Attempt>, n: nat, h: nat)
    requires duration > 0 && n <= |run|
    ensures AfterAttempts(duration, run, n).head <= h <==>
            forall m :: 0 <= m < n ==> Bucket(duration, run[m]) < h + BUCKET_COUNT
  {
    if n > 0 {
      HeadBound(duration, run, n - 1, h);
    }
  }

  /** No attempt after `i` and before `n` reaches four buckets past `filed`. */
  ghost predicate NotReached(duration: nat, run: seq<Attempt>, i: nat, n: nat, filed: nat)
    requires duration > 0 && n <= |run|
  {
    forall m :: i < m < n ==> Bucket(duration, run[m]) < filed + BUCKET_COUNT
  }

  /** Attempt `i` is the last accepted one for its key before `n`. */
  ghost predicate LastAccepted(duration: nat, run: seq<Attempt>, i: nat, n: nat)
    requires duration > 0 && i < n <= |run|
  {
    Accepted(duration, run, i)
    && forall m :: i < m < n && run[m].key == run[i].key ==> !Accepted(duration, run, m)
  }

  /** Until it is accepted again, a pair is remembered exactly as long as no claim has gone four buckets past it. */
  lemma {:induction false} RememberedIff(duration: nat, run: seq<Attempt>, i: nat, n: nat)
    requires duration > 0 && i < n <= |run|
    requires LastAccepted(duration, run, i, n)
    ensures var w, filed := AfterAttempts(duration, run, n), FiledAt(duration, run, i);
            && (run[i].key in w.live <==> NotReached(duration, run, i, n, filed))
            && (run[i].key in w.live ==> w.live[run[i].key] == filed)
    ensures NotReached(duration, run, i, n, FiledAt(duration, run, i)) ==>
              AfterAttempts(duration, run, n).head <= FiledAt(duration, run, i)
  {
    RunInWindow(duration, run, i);
    ClaimInWindow(AfterAttempts(duration, run, i), run[i].key, Bucket(duration, run[i]));
    if n > i + 1 {
      RememberedIff(duration, run, i, n - 1);
    }
  }

  /**
   The exact replay law: a repeated pair is accepted again if and only if, since
   it was last accepted, some claim (this one included) has reached four buckets
   past the bucket it was filed under.
   */
  lemma ReplayIff(duration: nat, run: seq<Attempt>, i: nat, j: nat)
    requires duration > 0 && i < j < |run| && run[i].key == run[j].key
    requires LastAccepted(duration, run, i, j)
    ensures Accepted(duration, run, j) <==> !NotReached(duration, run, i, j + 1, FiledAt(duration, run, i))
  {
    RememberedIff(duration, run, i, j);
  }

  /** A timestamp in the window is filed under its own bucket. */
  lemma FiledUnderOwn(duration: nat, run: seq<Attempt>, i: nat)
    requires duration > 0 && i < |run|
    requires forall m :: 0 <= m < i ==> Bucket(duration, run[m]) < Bucket(duration, run[i]) + BUCKET_COUNT
    ensures FiledAt(duration, run, i) == Bucket(duration, run[i])
  {
    HeadBound(duration, run, i, Bucket(duration, run[i]));
    assert AfterAttempts(duration, run, i).head <= Bucket(duration, run[i]);
  }

  lemma BucketsLater(duration: nat, t: nat, u: nat)
    requires duration > 0 && u <= t + (BUCKET_COUNT - 1) * duration
    ensures u / duration < t / duration + BUCKET_COUNT
  {
    var q := t / duration;
    assert t < q * duration + duration;
    assert u < (q + BUCKET_COUNT) * duration;
    assert u / duration * duration <= u;
    if u / duration >= q + BUCKET_COUNT {
      MulMonotone(q + BUCKET_COUNT, u / duration, duration);
    }
  }

  /**
   The guarantee in time: once accepted at `t`, a pair is rejected as long as no
   claim so far carries a timestamp beyond `t` plus three bucket lengths, in
   whatever order the timestamps come.
   */
  lemma {:induction false} NoReplayWithin(duration: nat, run: seq<Attempt>, i: nat, j: nat)
    requires duration > 0 && i < j < |run| && run[i].key == run[j].key
    requires Accepted(duration, run, i)
    requires forall m :: 0 <= m <= j ==> run[m].timestamp <= run[i].timestamp + 3 * duration
    ensures !Accepted(duration, run, j)
    decreases j
  {
    forall m | i < m < j && run[m].key == run[i].key ensures !Accepted(duration, run, m) {
      NoReplayWithin(duration, run, i, m);
    }
    forall m | 0 <= m <= j ensures Bucket(duration, run[m]) < Bucket(duration, run[i]) + BUCKET_COUNT {
      BucketsLater(duration, run[i].timestamp, run[m].timestamp);
    }
    FiledUnderOwn(duration, run, i);
    ReplayIff(duration, run, i, j);
  }

  /**
   The other side in time: a pair that was in the window when it was accepted at `t`,
   and not since, is accepted again from `t` plus four bucket lengths on.
   */
  lemma AgainAfterFour(duration: nat, run: seq<Attempt>, i: nat, j: nat)
    requires duration > 0 && i < j < |run| && run[i].key == run[j].key
    requires LastAccepted(duration, run, i, j)
    requires forall m :: 0 <= m < i ==> run[m].timestamp <= run[i].timestamp + 3 * duration
    requires run[j].timestamp >= run[i].timestamp + 4 * duration
    ensures Accepted(duration, run, j)
  {
    forall m | 0 <= m < i ensures Bucket(duration, run[m]) < Bucket(duration, run[i]) + BUCKET_COUNT {
      BucketsLater(duration, run[i].timestamp, run[m].timestamp);
    }
    FiledUnderOwn(duration, run, i);
    FourBucketsOn(duration, run[i].timestamp, run[j].timestamp);
    ReplayIff(duration, run, i, j);
  }

  lemma FourBucketsOn(duration: nat, t: nat, u: nat)
    requires duration > 0 && u >= t + 4 * duration
    ensures u / duration >= t / duration + 4
  {
    var q := t / duration;
    assert q * duration <= t;
    assert (q + 4) * duration <= u;
    assert u < (u / duration + 1) * duration;
    if u / duration + 1 <= q + 4 {
      MulMonotone(u / duration + 1, q + 4, duration);
    }
  }

  // ----- The ring over runs -----

  /** A pair sits in at most one slot. */
  lemma OneSlot(slots: seq<set<Key>>, w: Window)
    requires Represents(slots, w)
    ensures |slots| == 4 && forall s, t :: 0 <= s < t < 4 ==> slots[s] !! slots[t]
  {
    forall s, t | 0 <= s < t < 4 ensures slots[s] !! slots[t] {
      forall k | k in slots[s] ensures k !in slots[t] {
        assert k in w.live && w.live[k] % BUCKET_COUNT == s;
      }
    }
  }

  /**
   Any run of claims on a new cache: it answers as the expiring set does.  So a
   repeat within three bucket lengths of an accepted claim is reported, in whatever
   order the timestamps come.
   */
  method ClaimAll(duration: nat, run: seq<Attempt>) returns (cache: Cache, answers: seq<Claimed>)
    ensures fresh(cache) && cache.Valid() && cache.bucketDuration == duration
    ensures |answers| == |run|
    ensures forall s, t :: 0 <= s < t < 4 ==> cache.buckets[s] !! cache.buckets[t]
    ensures duration == 0 ==> forall i :: 0 <= i < |run| ==> answers[i] == DividedByZero
    ensures duration > 0 ==> cache.window == AfterAttempts(duration, run, |run|)
    ensures duration > 0 ==> forall i :: 0 <= i < |run| ==>
              answers[i] == if Accepted(duration, run, i) then Accept else Reused
    ensures duration > 0 ==> forall i, j :: 0 <= i < j < |run| && run[i].key == run[j].key && answers[i] == Accept ==>
              (forall m :: 0 <= m <= j ==> run[m].timestamp <= run[i].timestamp + 3 * duration) ==>
                answers[j] == Reused
  {
    hide Represents, Advance, Claim;
    cache := new Cache(duration);
    answers := [];
    for n := 0 to |run|
      invariant fresh(cache) && fresh(cache.buckets) && cache.Valid() && cache.bucketDuration == duration
      invariant |answers| == n
      invariant duration == 0 ==> forall i :: 0 <= i < n ==> answers[i] == DividedByZero
      invariant duration > 0 ==> cache.window == AfterAttempts(duration, run, n)
      invariant duration > 0 ==> forall i :: 0 <= i < n ==>
                  answers[i] == if Accepted(duration, run, i) then Accept else Reused
    {
      var r := cache.TryClaim(run[n].key, run[n].timestamp);
      answers := answers + [r];
    }
    OneSlot(cache.buckets[..], cache.window);
    if duration > 0 {
      RepeatsReported(duration, run, answers);
    }
  }

  lemma RepeatsReported(duration: nat, run: seq<Attempt>, answers: seq<Claimed>)
    requires duration > 0 && |answers| == |run|
    requires forall i :: 0 <= i < |run| ==> answers[i] == if Accepted(duration, run, i) then Accept else Reused
    ensures forall i, j :: 0 <= i < j < |run| && run[i].key == run[j].key && answers[i] == Accept ==>
              (forall m :: 0 <= m <= j ==> run[m].timestamp <= run[i].timestamp + 3 * duration) ==>
                answers[j] == Reused
  {
    hide Accepted;
    forall i, j | 0 <= i < j < |run| && run[i].key == run[j].key && answers[i] == Accept
        && forall m :: 0 <= m <= j ==> run[m].timestamp <= run[i].timestamp + 3 * duration
      ensures answers[j] == Reused
    {
      NoReplayWithin(duration, run, i, j);
    }
  }

  /** With three-minute buckets the guarantee is nine minutes: a pair can pass again within ten. */
  lemma AcceptedTwiceInTenMinutes(k: Key)
    ensures var run := [Attempt(k, 179), Attempt(k, 720)];
            && Accepted(180, run, 0) && Accepted(180, run, 1)
            && run[1].timestamp - run[0].timestamp < 600
  {
    var run := [Attempt(k, 179), Attempt(k, 720)];
    assert AfterAttempts(180, run, 0) == FRESH;
    assert AfterAttempts(180, run, 1) == Window(map[k := 0], 0);
  }
}
