/** HysteresisLock in src/target_detector.cpp: the tag lock is held by hits and lost by consecutive misses. */
module Hysteresis {

  // The range of a uint32_t counter.
  const WRAP: nat := 0x1_0000_0000

  type Counter = c: nat | c < WRAP

  // ---- Histories: true is a frame with the tag ----

  // The last n frames before position i were all misses.
  ghost predicate ResetAt(history: seq<bool>, n: nat, i: nat) {
    n <= i <= |history| && forall j :: i - n <= j < i ==> !history[j]
  }

  // The last such position, or -1.
  ghost function LastReset(history: seq<bool>, n: nat): int
    decreases |history|
  {
    if ResetAt(history, n, |history|) then |history|
    else if history == [] then -1
    else LastReset(history[..|history| - 1], n)
  }

  function Hits(history: seq<bool>): nat {
    if history == [] then 0
    else Hits(history[..|history| - 1]) + (if history[|history| - 1] then 1 else 0)
  }

  function TrailingMisses(history: seq<bool>): nat {
    if history == [] || history[|history| - 1] then 0 else TrailingMisses(history[..|history| - 1]) + 1
  }

  lemma {:induction false} LastResetIsLast(history: seq<bool>, n: nat)
    ensures -1 <= LastReset(history, n) <= |history|
    ensures LastReset(history, n) >= 0 ==> ResetAt(history, n, LastReset(history, n))
    ensures forall i :: LastReset(history, n) < i <= |history| ==> !ResetAt(history, n, i)
    decreases |history|
  {
    if !ResetAt(history, n, |history|) && history != [] {
      var before := history[..|history| - 1];
      LastResetIsLast(before, n);
      forall i | 0 <= i < |history|
        ensures ResetAt(history, n, i) <==> ResetAt(before, n, i)
      {
      }
    }
  }

  lemma {:induction false} TrailingMissesReset(history: seq<bool>, n: nat)
    ensures TrailingMisses(history) <= |history|
    ensures ResetAt(history, n, |history|) <==> n <= TrailingMisses(history)
  {
    if history != [] {
      var last := |history| - 1;
      if history[last] {
        assert n > 0 && n <= |history| ==> history[|history| - 1];
      } else {
        TrailingMissesReset(history[..last], if n == 0 then 0 else n - 1);
        if n > 0 {
          ResetShorter(history, n);
        }
      }
    }
  }

  lemma ResetShorter(history: seq<bool>, n: nat)
    requires history != [] && !history[|history| - 1] && n > 0
    ensures ResetAt(history, n, |history|) <==> ResetAt(history[..|history| - 1], n - 1, |history| - 1)
  {
    var before := history[..|history| - 1];
    assert forall j :: 0 <= j < |before| ==> before[j] == history[j];
  }

  // The frames with the tag since the last reset; before the first one the counter started from `initial`.
  ghost function Score(history: seq<bool>, n: nat, initial: nat): nat {
    var reset := LastReset(history, n);
    LastResetIsLast(history, n);
    if reset < 0 then initial + Hits(history) else Hits(history[reset..])
  }

  // What one more frame does to the score: a hit adds one, the n-th consecutive miss clears it.
  lemma ScoreStep(history: seq<bool>, n: nat, initial: nat, hit: bool)
    requires n > 0
    ensures Score(history + [hit], n, initial) ==
      if hit then Score(history, n, initial) + 1
      else if TrailingMisses(history) + 1 >= n then 0
      else Score(history, n, initial)
  {
    var longer := history + [hit];
    assert longer[..|history|] == history;
    TrailingMissesReset(longer, n);
    LastResetIsLast(history, n);
    var reset := LastReset(history, n);
    if reset >= 0 {
      assert longer[reset..][..|history| - reset] == history[reset..];
    }
    assert longer[|longer|..] == [];
  }

  lemma OneMore(n: nat)
    ensures (n % WRAP + 1) % WRAP == (n + 1) % WRAP
  {
  }

  // The wrapped miss counter: below the limit it is exact, and where it falls below the limit again the misses are
  // already more than the limit.
  lemma MissCounter(misses: nat, allowed: Counter)
    ensures (misses + 1) % WRAP >= allowed ==> misses + 1 >= allowed
    ensures (misses + 1) % WRAP < allowed ==> misses + 1 < allowed || misses >= allowed
  {
  }

  class HysteresisLock {
    const framesRequiredForLock: Counter
    const allowedMissedFrames: Counter
    var missedConsecutiveFrames: Counter
    var okFrames: Counter
    // All frames so far, and the value the constructor leaves okFrames at.
    ghost var history: seq<bool>
    ghost const initial: Counter

    // A lock that allows no miss is lost at the first one, like a lock that allows one.
    ghost function Limit(): nat {
      if allowedMissedFrames == 0 then 1 else allowedMissedFrames
    }

    ghost predicate Valid()
      reads this
    {
      && missedConsecutiveFrames == TrailingMisses(history) % WRAP
      && okFrames == Score(history, Limit(), initial) % WRAP
    }

    // The constructor does not set okFrames: it has whatever value its storage held, zero in a static object.
    constructor (framesRequiredForLock: Counter, allowedMissedFrames: Counter, storage: Counter)
      ensures Valid() && history == [] && initial == storage
      ensures this.framesRequiredForLock == framesRequiredForLock && this.allowedMissedFrames == allowedMissedFrames
    {
      this.framesRequiredForLock := framesRequiredForLock;
      this.allowedMissedFrames := allowedMissedFrames;
      missedConsecutiveFrames := 0;
      okFrames := storage;
      history := [];
      initial := storage;
    }

    // For every history: locked iff the score, in 32 bits, reaches the required number of frames.
    method Update(tagIdAvailable: bool) returns (locked: bool)
      requires Valid()
      modifies this
      ensures Valid() && history == old(history) + [tagIdAvailable]
      ensures locked <==> Score(history, Limit(), initial) % WRAP >= framesRequiredForLock
    {
      ScoreStep(history, Limit(), initial, tagIdAvailable);
      assert (history + [tagIdAvailable])[..|history|] == history;
      ghost var misses, score := TrailingMisses(history), Score(history, Limit(), initial);
      if tagIdAvailable {
        missedConsecutiveFrames := 0;
        OneMore(score);
        okFrames := (okFrames + 1) % WRAP;
      } else {
        OneMore(misses);
        StaysCleared(history, Limit(), initial);
        MissCounter(misses, allowedMissedFrames);
        missedConsecutiveFrames := (missedConsecutiveFrames + 1) % WRAP;
        if missedConsecutiveFrames >= allowedMissedFrames {
          okFrames := 0;
        }
      }
      history := history + [tagIdAvailable];
      locked := HasLock();
    }

    method HasLock() returns (locked: bool)
      requires Valid()
      ensures locked <==> Score(history, Limit(), initial) % WRAP >= framesRequiredForLock
    {
      locked := okFrames >= framesRequiredForLock;
    }
  }

  // Once cleared, the score stays zero while the misses go on, so a wrapped miss counter does no harm.
  lemma StaysCleared(history: seq<bool>, n: nat, initial: nat)
    requires n > 0
    ensures TrailingMisses(history) >= n ==> Score(history, n, initial) == 0
  {
    TrailingMissesReset(history, n);
    assert history[|history|..] == [];
  }

  // The lock says what it should: enough hits since the last reset.
  ghost predicate SaysRight(history: seq<bool>, n: nat, initial: nat, required: Counter) {
    Score(history, n, initial) % WRAP >= required <==> Score(history, n, initial) >= required
  }

  /** Within so many frames the lock is right whatever they show if and only if no frame is required for it or okFrames
    cannot wrap around, counting from what its storage held. */
  lemma LockIsRightIff(frames: nat, n: nat, initial: Counter, required: Counter)
    requires n > 0
    ensures (forall history: seq<bool> :: |history| <= frames ==> SaysRight(history, n, initial, required))
      <==> (required == 0 || initial + frames < WRAP)
  {
    if required == 0 || initial + frames < WRAP {
      forall history: seq<bool> | |history| <= frames
        ensures SaysRight(history, n, initial, required)
      {
        ScoreBound(history, n, initial);
      }
    } else {
      WrapLosesLock(n, initial, required);
      assert |AllHits(WRAP - initial)| <= frames;
    }
  }

  lemma {:induction false} ScoreBound(history: seq<bool>, n: nat, initial: nat)
    requires n > 0
    ensures Score(history, n, initial) <= initial + |history|
  {
    if history != [] {
      var last := |history| - 1;
      ScoreBound(history[..last], n, initial);
      ScoreStep(history[..last], n, initial, history[last]);
      assert history[..last] + [history[last]] == history;
    }
  }

  // It is lost without a single miss when okFrames wraps.
  lemma {:induction false} WrapLosesLock(n: nat, initial: Counter, required: Counter)
    requires n > 0 && required > 0
    ensures Score(AllHits(WRAP - initial), n, initial) == WRAP && !SaysRight(AllHits(WRAP - initial), n, initial, required)
  {
    AllHitsScore(WRAP - initial, n, initial);
  }

  function AllHits(k: nat): (h: seq<bool>)
    ensures |h| == k && forall i :: 0 <= i < k ==> h[i]
  {
    seq(k, _ => true)
  }

  lemma {:induction false} AllHitsScore(k: nat, n: nat, initial: nat)
    requires n > 0
    ensures Score(AllHits(k), n, initial) == initial + k
  {
    if k > 0 {
      AllHitsScore(k - 1, n, initial);
      assert AllHits(k) == AllHits(k - 1) + [true];
      ScoreStep(AllHits(k - 1), n, initial, true);
    }
  }
}
