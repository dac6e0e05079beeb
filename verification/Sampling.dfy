/** Choosing which frames to solve against: one of each payload, spread as far apart as possible. */
module Sampling {
  import opened Common
  import opened Sequences
  import opened Hamming

  /** How many payloads the farthest-point pass will consider. */
  const MAX_POOL := 2048

  // ---------- striding ----------

  function NonEmpty(frames: seq<Payload>): seq<Payload> {
    if frames == [] then []
    else (if frames[0] == [] then [] else [frames[0]]) + NonEmpty(frames[1..])
  }

  function CeilDiv(n: nat, d: nat): nat
    requires d > 0
  {
    (n + d - 1) / d
  }

  /** Every `stride`-th element, from the first. */
  function StepBy<T>(xs: seq<T>, stride: nat): seq<T>
    requires stride > 0
    decreases |xs|
  {
    if xs == [] then [] else [xs[0]] + (if stride >= |xs| then [] else StepBy(xs[stride..], stride))
  }

  function Take<T>(xs: seq<T>, limit: nat): seq<T> { if |xs| <= limit then xs else xs[..limit] }

  function StridedSamples(frames: seq<Payload>, limit: nat): seq<Payload> {
    if limit == 0 then []
    else
      var usable := NonEmpty(frames);
      Take(StepBy(usable, AtLeastOne(CeilDiv(|usable|, limit))), limit)
  }

  // ---------- deduplicating ----------

  function Deduplicated(frames: seq<Payload>, seen: set<Payload>): seq<Payload>
    decreases |frames|
  {
    if frames == [] then []
    else if frames[0] == [] || frames[0] in seen then Deduplicated(frames[1..], seen)
    else [frames[0]] + Deduplicated(frames[1..], seen + {frames[0]})
  }

  method Deduplicate(frames: seq<Payload>) returns (distinct: seq<Payload>)
    ensures distinct == Deduplicated(frames, {})
  {
    distinct := [];
    var seen: set<Payload> := {};
    var i := 0;
    while i < |frames|
      invariant 0 <= i <= |frames|
      invariant Deduplicated(frames, {}) == distinct + Deduplicated(frames[i..], seen)
    {
      assert frames[i..][1..] == frames[i + 1..];
      if frames[i] != [] && frames[i] !in seen {
        AppendAssociative(distinct, [frames[i]], Deduplicated(frames[i + 1..], seen + {frames[i]}));
        distinct := distinct + [frames[i]];
        seen := seen + {frames[i]};
      }
      i := i + 1;
    }
  }

  // ---------- farthest-point selection ----------

  /** The distance from a payload to the nearest of the chosen pool entries. */
  function NearestOf(pool: seq<Payload>, chosen: seq<nat>, f: Payload): (d: nat)
    requires chosen != [] && forall j :: 0 <= j < |chosen| ==> chosen[j] < |pool|
  {
    var last := Distance(f, pool[chosen[|chosen| - 1]]);
    if |chosen| == 1 then last else Min(NearestOf(pool, chosen[..|chosen| - 1], f), last)
  }

  predicate Indices(pool: seq<Payload>, chosen: seq<nat>) {
    chosen != [] && forall j :: 0 <= j < |chosen| ==> chosen[j] < |pool|
  }

  function Nearest(pool: seq<Payload>, chosen: seq<nat>): (ds: seq<nat>)
    requires Indices(pool, chosen)
    ensures |ds| == |pool|
  {
    seq(|pool|, i requires 0 <= i < |pool| => NearestOf(pool, chosen, pool[i]))
  }

  /** The last place where the largest value stands. */
  function LastMax(ds: seq<nat>): (i: nat)
    requires ds != []
    ensures i < |ds|
    ensures forall j :: 0 <= j < |ds| ==> ds[j] <= ds[i]
    ensures forall j :: i < j < |ds| ==> ds[j] < ds[i]
  {
    var n := |ds| - 1;
    if n == 0 then 0
    else
      var i := LastMax(ds[..n]);
      if ds[n] >= ds[i] then n else i
  }

  /** Add the farthest entry until there are enough, or none is left that differs. */
  function Selected(pool: seq<Payload>, limit: nat, chosen: seq<nat>): (r: seq<nat>)
    requires Indices(pool, chosen)
    ensures Indices(pool, r)
    decreases limit - |chosen|
  {
    if |chosen| >= limit then chosen
    else
      assert chosen[0] < |pool|;
      var ds := Nearest(pool, chosen);
      var next := LastMax(ds);
      if ds[next] == 0 then chosen else Selected(pool, limit, chosen + [next])
  }

  function Picked(pool: seq<Payload>, chosen: seq<nat>): (r: seq<Payload>)
    requires forall j :: 0 <= j < |chosen| ==> chosen[j] < |pool|
    ensures |r| == |chosen|
  {
    seq(|chosen|, j requires 0 <= j < |chosen| => pool[chosen[j]])
  }

  lemma {:induction false} DeduplicatedUsable(frames: seq<Payload>, seen: set<Payload>)
    ensures [] !in Deduplicated(frames, seen)
    decreases |frames|
  {
    if frames != [] {
      DeduplicatedUsable(frames[1..], if frames[0] == [] || frames[0] in seen then seen else seen + {frames[0]});
    }
  }

  lemma {:induction false} AllUsable(frames: seq<Payload>)
    requires [] !in frames
    ensures NonEmpty(frames) == frames
  {
    if frames != [] {
      assert [] !in frames[1..];
      AllUsable(frames[1..]);
      assert frames == [frames[0]] + frames[1..];
    }
  }

  /** There is always a first frame to keep. */
  lemma PoolNotEmpty(distinct: seq<Payload>, frames: seq<Payload>)
    requires distinct == Deduplicated(frames, {})
    ensures distinct != [] ==> StridedSamples(distinct, MAX_POOL) != []
    ensures distinct != [] ==> Indices(StridedSamples(distinct, MAX_POOL), [0])
  {
    hide Deduplicated;
    DeduplicatedUsable(frames, {});
    AllUsable(distinct);
  }

  function DiverseSamples(frames: seq<Payload>, limit: nat): seq<Payload> {
    var distinct := Deduplicated(frames, {});
    if limit == 0 || |distinct| <= limit then distinct
    else
      var pool := StridedSamples(distinct, MAX_POOL);
      PoolNotEmpty(distinct, frames);
      Picked(pool, Selected(pool, limit, [0]))
  }

  lemma NearestGrows(pool: seq<Payload>, chosen: seq<nat>, next: nat, f: Payload)
    requires Indices(pool, chosen) && next < |pool|
    ensures Indices(pool, chosen + [next])
    ensures NearestOf(pool, chosen + [next], f) == Min(NearestOf(pool, chosen, f), Distance(f, pool[next]))
  {
    hide Distance;
    assert (chosen + [next])[..|chosen|] == chosen;
  }

  method FindLastMax(ds: array<nat>) returns (i: nat)
    requires ds.Length > 0
    ensures i == LastMax(ds[..])
  {
    i := 0;
    var n := 1;
    assert ds[..1] == [ds[0]];
    while n < ds.Length
      invariant 1 <= n <= ds.Length
      invariant i == LastMax(ds[..n])
    {
      assert ds[..n + 1][..n] == ds[..n];
      if ds[n] >= ds[i] {
        i := n;
      }
      n := n + 1;
    }
    assert ds[..n] == ds[..];
  }

  /** The distances to the nearest choice, kept up to date one choice at a time. */
  method UpdateNearest(pool: seq<Payload>, ghost chosen: seq<nat>, next: nat, nearest: array<nat>)
    requires Indices(pool, chosen) && next < |pool|
    requires nearest[..] == Nearest(pool, chosen)
    modifies nearest
    ensures Indices(pool, chosen + [next])
    ensures nearest[..] == Nearest(pool, chosen + [next])
  {
    hide Distance, NearestOf;
    NearestGrows(pool, chosen, next, []);
    assert nearest.Length == |nearest[..]| == |pool|;
    forall i | 0 <= i < |pool| ensures nearest[i] == NearestOf(pool, chosen, pool[i]) {
      assert nearest[..][i] == Nearest(pool, chosen)[i];
    }
    var i := 0;
    while i < |pool|
      invariant 0 <= i <= |pool|
      invariant forall j :: 0 <= j < i ==> nearest[j] == NearestOf(pool, chosen + [next], pool[j])
      invariant forall j :: i <= j < |pool| ==> nearest[j] == NearestOf(pool, chosen, pool[j])
    {
      NearestGrows(pool, chosen, next, pool[i]);
      var d := Distance(pool[i], pool[next]);
      if d < nearest[i] {
        nearest[i] := d;
      }
      i := i + 1;
    }
    assert nearest[..] == Nearest(pool, chosen + [next]);
  }

  method SelectDiverse(pool: seq<Payload>, limit: nat) returns (samples: seq<Payload>)
    requires pool != []
    ensures Indices(pool, [0])
    ensures samples == Picked(pool, Selected(pool, limit, [0]))
  {
    hide Distance, Nearest, NearestOf;
    ghost var chosen: seq<nat> := [0];
    samples := [pool[0]];
    var nearest := new nat[|pool|](i requires 0 <= i < |pool| => Distance(pool[i], pool[0]));
    NearestStart(pool, nearest[..]);
    var done := false;
    while !done && |samples| < limit
      invariant Indices(pool, chosen) && samples == Picked(pool, chosen)
      invariant nearest[..] == Nearest(pool, chosen)
      invariant if done then Selected(pool, limit, [0]) == chosen
                else Selected(pool, limit, [0]) == Selected(pool, limit, chosen)
      decreases !done, limit - |samples|
    {
      var next := FindLastMax(nearest);
      if nearest[next] == 0 {
        done := true;
      } else {
        samples := samples + [pool[next]];
        UpdateNearest(pool, chosen, next, nearest);
        assert Picked(pool, chosen + [next]) == Picked(pool, chosen) + [pool[next]];
        chosen := chosen + [next];
      }
    }
  }

  lemma NearestStart(pool: seq<Payload>, ds: seq<nat>)
    requires pool != [] && |ds| == |pool| && forall i :: 0 <= i < |pool| ==> ds[i] == Distance(pool[i], pool[0])
    ensures Indices(pool, [0]) && ds == Nearest(pool, [0])
  {
    hide Distance;
  }

  method Diverse(frames: seq<Payload>, limit: nat) returns (samples: seq<Payload>)
    ensures samples == DiverseSamples(frames, limit)
  {
    hide Deduplicated, StridedSamples, Picked, Selected;
    samples := Deduplicate(frames);
    if limit == 0 || |samples| <= limit {
      return;
    }
    PoolNotEmpty(samples, frames);
    var pool := StridedSamples(samples, MAX_POOL);
    samples := SelectDiverse(pool, limit);
  }
}
