/** What the chosen samples are worth: distinct, as many as can be had, and well spread. */
module SamplingTheorems {
  import opened Common
  import opened Sequences
  import opened Hamming
  import opened Sampling

  // ---------- deduplicating ----------

  /** A payload at the end is kept exactly when it is not empty and not seen before. */
  lemma {:induction false} DeduplicatedAppend(frames: seq<Payload>, f: Payload, seen: set<Payload>)
    ensures Deduplicated(frames + [f], seen) ==
            if f == [] || f in seen || f in frames then Deduplicated(frames, seen)
            else Deduplicated(frames, seen) + [f]
    decreases |frames|
  {
    if frames == [] {
      assert frames + [f] == [f] && [f][1..] == [];
    } else {
      var next := if frames[0] == [] || frames[0] in seen then seen else seen + {frames[0]};
      assert (frames + [f])[1..] == frames[1..] + [f];
      DeduplicatedAppend(frames[1..], f, next);
      assert frames == [frames[0]] + frames[1..];
    }
  }

  lemma {:induction false} DeduplicatedIn(frames: seq<Payload>, seen: set<Payload>, f: Payload)
    ensures f in Deduplicated(frames, seen) <==> f in frames && f != [] && f !in seen
    decreases |frames|
  {
    if frames != [] {
      var next := if frames[0] == [] || frames[0] in seen then seen else seen + {frames[0]};
      DeduplicatedIn(frames[1..], next, f);
      assert frames == [frames[0]] + frames[1..];
    }
  }

  lemma {:induction false} DeduplicatedDistinct(frames: seq<Payload>, seen: set<Payload>)
    ensures Distinct(Deduplicated(frames, seen))
    decreases |frames|
  {
    if frames != [] {
      var next := if frames[0] == [] || frames[0] in seen then seen else seen + {frames[0]};
      DeduplicatedDistinct(frames[1..], next);
      DeduplicatedIn(frames[1..], next, frames[0]);
    }
  }

  // ---------- striding ----------

  lemma {:induction false} StepByElement<T>(xs: seq<T>, stride: nat, k: nat)
    requires stride > 0 && k < |StepBy(xs, stride)|
    ensures 0 <= k * stride < |xs| && StepBy(xs, stride)[k] == xs[k * stride]
    decreases k
  {
    if k > 0 {
      StepByElement(xs[stride..], stride, k - 1);
      assert (k - 1) * stride + stride == k * stride;
    }
  }

  /** How many strides fit is how many are taken. */
  lemma {:induction false} StepByLength<T>(xs: seq<T>, stride: nat)
    requires stride > 0
    ensures |xs| <= |StepBy(xs, stride)| * stride
    ensures |xs| > 0 ==> (|StepBy(xs, stride)| - 1) * stride < |xs|
    decreases |xs|
  {
    if |xs| > stride {
      StepByLength(xs[stride..], stride);
      var n := |StepBy(xs[stride..], stride)|;
      OneStrideMore(n, stride);
      OneStrideMore(n - 1, stride);
    } else if xs != [] {
      OneStrideMore(0, stride);
    }
  }

  lemma OneStrideMore(n: int, stride: int)
    ensures (n + 1) * stride == n * stride + stride
  {
  }

  lemma CeilDivBounds(n: nat, d: nat)
    requires d > 0
    ensures n <= CeilDiv(n, d) * d < n + d
  {
    var q := (n + d - 1) / d;
    assert (n + d - 1) == q * d + (n + d - 1) % d;
  }

  lemma TimesMonotone(a: nat, b: nat, c: nat)
    requires a <= b
    ensures a * c <= b * c
  {
  }

  lemma CancelLess(a: int, b: nat, s: nat)
    requires a * s < b * s
    ensures a < b
  {
    if a >= b {
      TimesMonotone(b, a, s);
    }
  }

  lemma CancelAtMost(a: nat, b: nat, s: nat)
    requires s > 0 && a * s <= b * s
    ensures a <= b
  {
    assert (b + 1) * s == b * s + s;
    if a > b {
      TimesMonotone(b + 1, a, s);
    }
  }

  /** The stride leaves no more than the limit, so nothing at the end is cut off. */
  lemma StrideFits(n: nat, limit: nat, count: nat)
    requires limit > 0 && n > 0
    requires var s := AtLeastOne(CeilDiv(n, limit)); n <= count * s && (count - 1) * s < n
    ensures count <= limit
    ensures n >= limit ==> 2 * count >= limit
  {
    CeilDivBounds(n, limit);
    var s := CeilDiv(n, limit);
    assert s > 0;
    CancelLess(count - 1, limit, s);
    if n >= limit {
      HalfTheLimit(n, limit, count, s);
    }
  }

  lemma HalfTheLimit(n: nat, limit: nat, count: nat, s: nat)
    requires 0 < s && limit <= n <= count * s && s * limit < n + limit
    ensures 2 * count >= limit
  {
    if s >= 2 {
      TimesMonotone(2, s, limit);
      assert limit * s == s * limit && 2 * count * s == 2 * (count * s);
      CancelAtMost(limit, 2 * count, s);
    } else {
      assert count * s == count;
    }
  }

  /**
   Strided samples are taken evenly from the first usable frame on, no more than the limit,
   all of them when they fit, and at least half the limit when they do not.
   */
  lemma StridedEvenly(frames: seq<Payload>, limit: nat)
    requires limit > 0
    ensures var usable := NonEmpty(frames);
            var stride := AtLeastOne(CeilDiv(|usable|, limit));
            var samples := StridedSamples(frames, limit);
            && |samples| <= limit
            && (|usable| <= limit ==> samples == usable)
            && (|usable| >= limit ==> 2 * |samples| >= limit)
            && forall k :: 0 <= k < |samples| ==> 0 <= k * stride < |usable| && samples[k] == usable[k * stride]
  {
    hide NonEmpty, CeilDiv, AtLeastOne;
    var usable := NonEmpty(frames);
    StrideIsPositive(|usable|, limit);
    var stride := AtLeastOne(CeilDiv(|usable|, limit));
    StepByLength(usable, stride);
    var all := StepBy(usable, stride);
    if usable != [] {
      StrideFits(|usable|, limit, |all|);
    }
    forall k | 0 <= k < |all| ensures 0 <= k * stride < |usable| && all[k] == usable[k * stride] {
      StepByElement(usable, stride, k);
    }
    if |usable| <= limit {
      StrideOfFew(|usable|, limit);
      assert all == usable;
    }
  }

  lemma StrideIsPositive(n: nat, limit: nat)
    requires limit > 0
    ensures AtLeastOne(CeilDiv(n, limit)) > 0
  {
  }

  lemma StrideOfFew(n: nat, limit: nat)
    requires limit > 0 && n <= limit
    ensures AtLeastOne(CeilDiv(n, limit)) == 1
  {
    CeilDivBounds(n, limit);
    var q := CeilDiv(n, limit);
    if q >= 2 {
      TimesMonotone(2, q, limit);
    }
  }

  // ---------- the greedy choice ----------

  /** How far the `j`-th choice was from the choices before it. */
  function PickDistance(pool: seq<Payload>, chosen: seq<nat>, j: nat): nat
    requires Indices(pool, chosen) && 0 < j < |chosen|
  {
    NearestOf(pool, chosen[..j], pool[chosen[j]])
  }

  /** Each choice after the first was the farthest from those before it, and differed from them. */
  ghost predicate Greedy(pool: seq<Payload>, chosen: seq<nat>) {
    && Indices(pool, chosen)
    && forall j :: 0 < j < |chosen| ==> FarthestAt(pool, chosen, j)
  }

  ghost predicate FarthestAt(pool: seq<Payload>, chosen: seq<nat>, j: nat)
    requires Indices(pool, chosen) && 0 < j < |chosen|
  {
    && PickDistance(pool, chosen, j) > 0
    && forall i :: 0 <= i < |pool| ==> NearestOf(pool, chosen[..j], pool[i]) <= PickDistance(pool, chosen, j)
  }

  lemma GreedyStep(pool: seq<Payload>, chosen: seq<nat>)
    requires Greedy(pool, chosen)
    requires var ds := Nearest(pool, chosen); ds != [] && ds[LastMax(ds)] > 0
    ensures Greedy(pool, chosen + [LastMax(Nearest(pool, chosen))])
  {
    hide NearestOf;
    var ds := Nearest(pool, chosen);
    var more := chosen + [LastMax(ds)];
    forall j | 0 < j < |more| ensures FarthestAt(pool, more, j) {
      if j < |chosen| {
        assert more[..j] == chosen[..j];
        assert FarthestAt(pool, chosen, j);
      } else {
        assert more[..j] == chosen;
        forall i | 0 <= i < |pool| ensures NearestOf(pool, more[..j], pool[i]) <= PickDistance(pool, more, j) {
          assert ds[i] <= ds[LastMax(ds)];
        }
      }
    }
  }

  /** The selection is greedy, starts where it is told, and stops only when full or when nothing differs. */
  lemma {:induction false} SelectedGreedy(pool: seq<Payload>, limit: nat, chosen: seq<nat>)
    requires Greedy(pool, chosen) && |chosen| <= limit
    ensures var r := Selected(pool, limit, chosen);
            && Greedy(pool, r) && chosen <= r && |r| <= limit
            && (|r| < limit ==> forall i :: 0 <= i < |pool| ==> NearestOf(pool, r, pool[i]) == 0)
    decreases limit - |chosen|
  {
    hide NearestOf, Greedy;
    if |chosen| < limit {
      GreedyIndices(pool, chosen);
      assert chosen[0] < |pool|;
      var ds := Nearest(pool, chosen);
      if ds[LastMax(ds)] == 0 {
        forall i | 0 <= i < |pool| ensures NearestOf(pool, chosen, pool[i]) == 0 {
          assert ds[i] <= ds[LastMax(ds)];
        }
      } else {
        GreedyStep(pool, chosen);
        SelectedGreedy(pool, limit, chosen + [LastMax(ds)]);
        assert chosen <= chosen + [LastMax(ds)];
      }
    }
  }

  lemma GreedyIndices(pool: seq<Payload>, chosen: seq<nat>)
    requires Greedy(pool, chosen)
    ensures Indices(pool, chosen)
  {
  }

  // ---------- nearest is a minimum ----------

  lemma {:induction false} NearestAtMost(pool: seq<Payload>, chosen: seq<nat>, f: Payload, j: nat)
    requires Indices(pool, chosen) && j < |chosen|
    ensures NearestOf(pool, chosen, f) <= Distance(f, pool[chosen[j]])
    decreases |chosen|
  {
    hide Distance;
    if j < |chosen| - 1 {
      NearestAtMost(pool, chosen[..|chosen| - 1], f, j);
    }
  }

  lemma {:induction false} NearestReached(pool: seq<Payload>, chosen: seq<nat>, f: Payload) returns (j: nat)
    requires Indices(pool, chosen)
    ensures j < |chosen| && NearestOf(pool, chosen, f) == Distance(f, pool[chosen[j]])
    decreases |chosen|
  {
    hide Distance;
    j := |chosen| - 1;
    if j > 0 && NearestOf(pool, chosen[..j], f) <= Distance(f, pool[chosen[j]]) {
      j := NearestReached(pool, chosen[..j], f);
    }
  }

  /** More choices bring nothing farther away. */
  lemma NearestShrinks(pool: seq<Payload>, chosen: seq<nat>, f: Payload, m: nat)
    requires Indices(pool, chosen) && 0 < m <= |chosen|
    ensures Indices(pool, chosen[..m])
    ensures NearestOf(pool, chosen, f) <= NearestOf(pool, chosen[..m], f)
  {
    hide Distance, NearestOf;
    var j := NearestReached(pool, chosen[..m], f);
    NearestAtMost(pool, chosen, f, j);
  }

  /** Each pick is no farther out than the one before it. */
  lemma PicksDoNotGrow(pool: seq<Payload>, chosen: seq<nat>, j: nat)
    requires Greedy(pool, chosen) && 0 < j && j + 1 < |chosen|
    ensures PickDistance(pool, chosen, j + 1) <= PickDistance(pool, chosen, j)
  {
    hide Distance, NearestOf;
    assert FarthestAt(pool, chosen, j);
    NearestShrinks(pool, chosen[..j + 1], pool[chosen[j + 1]], j);
    assert chosen[..j + 1][..j] == chosen[..j];
  }

  /** Any two choices are at least as far apart as anything still is from the nearest choice. */
  lemma ChoicesApart(pool: seq<Payload>, chosen: seq<nat>, f: nat, i: nat, j: nat)
    requires Greedy(pool, chosen) && i < j < |chosen| && f < |pool|
    ensures Distance(pool[chosen[j]], pool[chosen[i]]) >= NearestOf(pool, chosen, pool[f])
    ensures pool[chosen[i]] != pool[chosen[j]]
  {
    hide Distance, NearestOf;
    assert FarthestAt(pool, chosen, j);
    NearestShrinks(pool, chosen, pool[f], j);
    NearestAtMost(pool, chosen[..j], pool[chosen[j]], i);
    ZeroIff(pool[chosen[j]], pool[chosen[i]]);
  }

  // ---------- pigeonholes ----------

  /** More pigeons than holes: two of them share one. */
  lemma {:induction false} Pigeonhole(holes: seq<nat>, m: nat) returns (i: nat, j: nat)
    requires |holes| > m && forall k :: 0 <= k < |holes| ==> holes[k] < m
    ensures i < j < |holes| && holes[i] == holes[j]
    decreases m
  {
    var last := |holes| - 1;
    if k :| 0 <= k < last && holes[k] == holes[last] {
      i, j := k, last;
    } else {
      // Hole m - 1 goes; whoever is in it moves to the last pigeon's hole, which nobody else is in.
      var front := seq(last, k requires 0 <= k < last => if holes[k] == m - 1 then holes[last] else holes[k]);
      i, j := Pigeonhole(front, m - 1);
    }
  }

  // ---------- how many, and how well spread ----------

  /** When nothing differs from a choice, every payload of a distinct pool has been chosen. */
  lemma AllChosen(pool: seq<Payload>, chosen: seq<nat>)
    requires Distinct(pool) && Indices(pool, chosen)
    requires forall i :: 0 <= i < |pool| ==> NearestOf(pool, chosen, pool[i]) == 0
    ensures |chosen| >= |pool|
  {
    hide Distance, NearestOf;
    if |chosen| < |pool| {
      var holes := ClosestChoices(pool, chosen, 0);
      var i, j := Pigeonhole(holes, |chosen|);
      ZeroIff(pool[i], pool[chosen[holes[i]]]);
      ZeroIff(pool[j], pool[chosen[holes[j]]]);
      assert false;
    }
  }

  /** For each pool entry from `from` on, a choice it is nearest to. */
  lemma {:induction false} ClosestChoices(pool: seq<Payload>, chosen: seq<nat>, from: nat) returns (closest: seq<nat>)
    requires Indices(pool, chosen) && from <= |pool|
    ensures |closest| == |pool| - from
    ensures forall i :: 0 <= i < |closest| ==> closest[i] < |chosen|
    ensures forall i :: 0 <= i < |closest| ==>
              NearestOf(pool, chosen, pool[from + i]) == Distance(pool[from + i], pool[chosen[closest[i]]])
    decreases |pool| - from
  {
    hide Distance, NearestOf;
    if from == |pool| {
      closest := [];
    } else {
      var rest := ClosestChoices(pool, chosen, from + 1);
      var j := NearestReached(pool, chosen, pool[from]);
      closest := [j] + rest;
      forall i | 0 < i < |closest|
        ensures NearestOf(pool, chosen, pool[from + i]) == Distance(pool[from + i], pool[chosen[closest[i]]])
      {
        assert closest[i] == rest[i - 1] && from + 1 + (i - 1) == from + i;
      }
    }
  }

  /** A choice made twice would not have differed, so there are never more than the pool holds. */
  lemma ChoicesFit(pool: seq<Payload>, chosen: seq<nat>)
    requires Greedy(pool, chosen)
    ensures |chosen| <= |pool|
  {
    if |chosen| > |pool| {
      var i, j := Pigeonhole(chosen, |pool|);
      ChoicesApart(pool, chosen, 0, i, j);
      assert false;
    }
  }

  /** Once selection runs, exactly as many samples come back as the limit and the pool allow. */
  lemma SelectedCount(pool: seq<Payload>, limit: nat)
    requires pool != [] && limit > 0 && Distinct(pool)
    ensures Greedy(pool, [0]) && |Selected(pool, limit, [0])| == Min(limit, |pool|)
  {
    hide Distance, NearestOf;
    SelectedGreedy(pool, limit, [0]);
    var r := Selected(pool, limit, [0]);
    ChoicesFit(pool, r);
    if |r| < limit {
      AllChosen(pool, r);
    }
  }

  /** Every pool entry is within `radius` of one of the centres. */
  ghost predicate Covers(pool: seq<Payload>, centres: seq<Payload>, radius: nat) {
    forall i :: 0 <= i < |pool| ==> CoveredBy(centres, pool[i], radius)
  }

  ghost predicate CoveredBy(centres: seq<Payload>, f: Payload, radius: nat) {
    exists c :: 0 <= c < |centres| && Distance(f, centres[c]) <= radius
  }

  /** For each of some pool entries, a centre that covers it. */
  lemma {:induction false} CoveringCentres(pool: seq<Payload>, centres: seq<Payload>, radius: nat, of_: seq<nat>)
    returns (closest: seq<nat>)
    requires Covers(pool, centres, radius) && forall k :: 0 <= k < |of_| ==> of_[k] < |pool|
    ensures |closest| == |of_|
    ensures forall k :: 0 <= k < |of_| ==>
              closest[k] < |centres| && Distance(pool[of_[k]], centres[closest[k]]) <= radius
  {
    hide Distance;
    if of_ == [] {
      closest := [];
    } else {
      assert CoveredBy(centres, pool[of_[0]], radius);
      var c :| 0 <= c < |centres| && Distance(pool[of_[0]], centres[c]) <= radius;
      var rest := CoveringCentres(pool, centres, radius, of_[1..]);
      closest := [c] + rest;
      forall k | 0 < k < |of_| ensures closest[k] < |centres| && Distance(pool[of_[k]], centres[closest[k]]) <= radius {
        assert of_[k] == of_[1..][k - 1] && closest[k] == rest[k - 1];
      }
    }
  }

  /**
   The greedy choice covers the pool at worst twice as far out as any set of that many
   payloads, from the pool or not, could.
   */
  lemma TwiceTheBest(pool: seq<Payload>, limit: nat, centres: seq<Payload>, radius: nat)
    requires pool != [] && limit > 0 && |centres| <= limit && Covers(pool, centres, radius)
    ensures Greedy(pool, [0])
    ensures Covers(pool, Picked(pool, Selected(pool, limit, [0])), 2 * radius)
  {
    hide Distance, NearestOf, Covers, Greedy, CoveredBy;
    StartGreedy(pool);
    SelectedGreedy(pool, limit, [0]);
    var chosen := Selected(pool, limit, [0]);
    GreedyIndices(pool, chosen);
    forall f | 0 <= f < |pool| ensures CoveredBy(Picked(pool, chosen), pool[f], 2 * radius) {
      if |chosen| == limit {
        NearEnough(pool, chosen, f, centres, radius);
      }
      CoveredIfNear(pool, chosen, pool[f], 2 * radius);
    }
    AllCovered(pool, Picked(pool, chosen), 2 * radius);
  }

  lemma StartGreedy(pool: seq<Payload>)
    requires pool != []
    ensures Greedy(pool, [0])
  {
  }

  lemma AllCovered(pool: seq<Payload>, centres: seq<Payload>, radius: nat)
    requires forall f :: 0 <= f < |pool| ==> CoveredBy(centres, pool[f], radius)
    ensures Covers(pool, centres, radius)
  {
    hide CoveredBy;
  }

  lemma CoveredIfNear(pool: seq<Payload>, chosen: seq<nat>, f: Payload, radius: nat)
    requires Indices(pool, chosen) && NearestOf(pool, chosen, f) <= radius
    ensures CoveredBy(Picked(pool, chosen), f, radius)
  {
    hide Distance, NearestOf;
    var j := NearestReached(pool, chosen, f);
    assert Picked(pool, chosen)[j] == pool[chosen[j]];
  }

  /** One payload more than there are centres: two of them share one, and are that far apart at most. */
  lemma NearEnough(pool: seq<Payload>, chosen: seq<nat>, f: nat, centres: seq<Payload>, radius: nat)
    requires Greedy(pool, chosen) && f < |pool| && |centres| <= |chosen| && Covers(pool, centres, radius)
    ensures NearestOf(pool, chosen, pool[f]) <= 2 * radius
  {
    hide Distance, NearestOf, Covers, Greedy;
    GreedyIndices(pool, chosen);
    var all := chosen + [f];
    var closest := CoveringCentres(pool, centres, radius, all);
    var i, j := Pigeonhole(closest, |centres|);
    var a, b, c := pool[all[i]], pool[all[j]], centres[closest[i]];
    Triangle(b, c, a);
    Symmetric(c, a);
    if j < |chosen| {
      ChoicesApart(pool, chosen, f, i, j);
    } else {
      NearestAtMost(pool, chosen, pool[f], i);
    }
  }

  // ---------- the samples a caller gets ----------

  /** The payloads that selection chooses from. */
  function Pool(frames: seq<Payload>): seq<Payload> { StridedSamples(Deduplicated(frames, {}), MAX_POOL) }

  /** One stride never lands twice on the same place. */
  lemma StridedDistinct(frames: seq<Payload>, limit: nat)
    requires limit > 0 && Distinct(NonEmpty(frames))
    ensures Distinct(StridedSamples(frames, limit))
  {
    hide NonEmpty, CeilDiv, AtLeastOne, StridedSamples;
    StridedEvenly(frames, limit);
    var usable, samples := NonEmpty(frames), StridedSamples(frames, limit);
    StrideIsPositive(|usable|, limit);
    var stride := AtLeastOne(CeilDiv(|usable|, limit));
    forall i, j | 0 <= i < j < |samples| ensures samples[i] != samples[j] {
      Farther(i, j, stride);
      assert samples[i] == usable[i * stride] && samples[j] == usable[j * stride];
    }
  }

  lemma Farther(i: nat, j: nat, stride: nat)
    requires i < j && stride > 0
    ensures i * stride < j * stride
  {
    TimesMonotone(i + 1, j, stride);
    assert (i + 1) * stride == i * stride + stride;
  }

  /**
   The pool holds each of its payloads once: all distinct ones up to 2048 of them, and at least 1024 and at most 2048
   of them past that.
   */
  lemma PoolIs(frames: seq<Payload>)
    ensures var distinct := Deduplicated(frames, {});
            var pool := Pool(frames);
            && Distinct(pool)
            && (|distinct| <= 2048 ==> pool == distinct)
            && (|distinct| > 2048 ==> 1024 <= |pool| && |pool| <= 2048)
            && (distinct != [] ==> pool != [] && pool[0] == distinct[0])
            && forall f :: f in pool ==> f in distinct
  {
    hide Deduplicated, NonEmpty, CeilDiv, AtLeastOne, StridedSamples;
    var distinct := Deduplicated(frames, {});
    DeduplicatedUsable(frames, {});
    AllUsable(distinct);
    DeduplicatedDistinct(frames, {});
    StridedDistinct(distinct, MAX_POOL);
    StridedEvenly(distinct, MAX_POOL);
    StrideIsPositive(|distinct|, MAX_POOL);
  }

  lemma PickedDistinct(pool: seq<Payload>, chosen: seq<nat>)
    requires Greedy(pool, chosen)
    ensures Distinct(Picked(pool, chosen))
  {
    hide Distance, NearestOf, Greedy;
    GreedyIndices(pool, chosen);
    var picks := Picked(pool, chosen);
    assert chosen[0] < |pool|;
    forall i, j | 0 <= i < j < |picks| ensures picks[i] != picks[j] {
      ChoicesApart(pool, chosen, 0, i, j);
    }
  }

  /** Selection returns payloads of the pool, none twice and its first one first. */
  lemma SelectionIs(pool: seq<Payload>, limit: nat)
    requires pool != [] && limit > 0 && Distinct(pool)
    ensures Indices(pool, [0])
    ensures var r := Picked(pool, Selected(pool, limit, [0]));
            Distinct(r) && |r| == Min(limit, |pool|) && r[0] == pool[0] && forall f :: f in r ==> f in pool
  {
    hide Distance, NearestOf, Greedy, FarthestAt;
    StartGreedy(pool);
    SelectedGreedy(pool, limit, [0]);
    var chosen := Selected(pool, limit, [0]);
    SelectedCount(pool, limit);
    PickedDistinct(pool, chosen);
    assert chosen[0] == [0][0];
  }

  /**
   Every sample is a frame of the input and not empty, no two are equal, and the first is the first such frame.
   All distinct payloads come back when the limit allows; otherwise as many as the limit and the pool do, which is
   the limit itself up to 1024.
   */
  lemma DiverseSamplesAre(frames: seq<Payload>, limit: nat)
    ensures var distinct := Deduplicated(frames, {});
            var samples := DiverseSamples(frames, limit);
            && Distinct(samples)
            && (forall f :: f in samples ==> f in frames && f != [])
            && |samples| == (if limit == 0 || |distinct| <= limit then |distinct| else Min(limit, |Pool(frames)|))
            && (0 < limit && limit <= 1024 ==> |samples| == Min(limit, |distinct|))
            && (distinct != [] ==> samples != [] && samples[0] == distinct[0])
  {
    hide Deduplicated, StridedSamples, Selected, Picked;
    var distinct := Deduplicated(frames, {});
    forall f ensures f in distinct <==> f in frames && f != [] {
      DeduplicatedIn(frames, {}, f);
    }
    DeduplicatedDistinct(frames, {});
    PoolIs(frames);
    if limit != 0 && |distinct| > limit {
      SelectionIs(Pool(frames), limit);
    }
  }

  /**
   However few payloads cover all distinct frames within some radius, from the input or not: as many samples cover the
   pool within twice that radius, and with it every frame that is not empty when striding did not engage.
   */
  lemma DiverseCovers(frames: seq<Payload>, limit: nat, centres: seq<Payload>, radius: nat)
    requires 0 < |centres| <= limit && Covers(Deduplicated(frames, {}), centres, radius)
    ensures Covers(Pool(frames), DiverseSamples(frames, limit), 2 * radius)
    ensures |Deduplicated(frames, {})| <= 2048 ==>
              forall f :: f in frames && f != [] ==> CoveredBy(DiverseSamples(frames, limit), f, 2 * radius)
  {
    hide Deduplicated, StridedSamples, Selected, Picked, Distance, Greedy, CoveredBy;
    var distinct, pool, samples := Deduplicated(frames, {}), Pool(frames), DiverseSamples(frames, limit);
    PoolIs(frames);
    if |distinct| <= limit {
      forall i | 0 <= i < |pool| ensures CoveredBy(samples, pool[i], 2 * radius) {
        CoversItself(samples, pool[i], 2 * radius);
      }
    } else {
      CoversPart(distinct, pool, centres, radius);
      TwiceTheBest(pool, limit, centres, radius);
    }
    if |distinct| <= MAX_POOL {
      forall f | f in frames && f != [] ensures CoveredBy(samples, f, 2 * radius) {
        DeduplicatedIn(frames, {}, f);
        var i :| 0 <= i < |pool| && pool[i] == f;
      }
    }
  }

  lemma CoversItself(centres: seq<Payload>, f: Payload, radius: nat)
    requires f in centres
    ensures CoveredBy(centres, f, radius)
  {
    hide Distance;
    var c :| 0 <= c < |centres| && centres[c] == f;
    ZeroIff(f, f);
  }

  lemma CoversPart(all: seq<Payload>, part: seq<Payload>, centres: seq<Payload>, radius: nat)
    requires Covers(all, centres, radius) && forall f :: f in part ==> f in all
    ensures Covers(part, centres, radius)
  {
    hide CoveredBy;
    forall i | 0 <= i < |part| ensures CoveredBy(centres, part[i], radius) {
      assert part[i] in all;
      var j :| 0 <= j < |all| && all[j] == part[i];
    }
  }
}
