/** Reference definitions for the nearest-restriction scans: the distances
    a scan measures, the first one under a threshold, and the running
    minimum kept with a strict `<` update. */
module Scan {
  import opened Values

  /** The distances from `p` to each of `qs`, in order. */
  function Dists(p: Point, qs: seq<Point>, dist: Distance): seq<real> {
    seq(|qs|, k requires 0 <= k < |qs| => dist(p, qs[k]) as real)
  }

  predicate HasBelow(ds: seq<real>, t: real) {
    exists k :: 0 <= k < |ds| && ds[k] < t
  }

  /** The index of the first distance strictly below `t`. */
  function FirstBelow(ds: seq<real>, t: real): (k: nat)
    requires HasBelow(ds, t)
    ensures k < |ds| && ds[k] < t
    ensures forall j :: 0 <= j < k ==> ds[j] >= t
  {
    if ds[0] < t then 0
    else
      assert HasBelow(ds[1..], t) by {
        var j :| 0 <= j < |ds| && ds[j] < t;
        assert ds[1..][j - 1] == ds[j];
      }
      1 + FirstBelow(ds[1..], t)
  }

  /** The index a running minimum ends on when it starts from the first
      element and moves only on a strictly smaller one: the first index
      holding the smallest element. */
  function ArgMin(s: seq<real>): (m: nat)
    requires |s| > 0
    ensures m < |s|
    ensures forall k :: 0 <= k < |s| ==> s[m] <= s[k]
    ensures forall k :: 0 <= k < m ==> s[k] > s[m]
  {
    if |s| == 1 then 0
    else
      var m := ArgMin(s[..|s| - 1]);
      if s[|s| - 1] < s[m] then |s| - 1 else m
  }

  /** Putting a distance that is not below `t` in front moves the first
      one below `t` one place on. */
  lemma FirstBelowCons(x: real, tail: seq<real>, t: real)
    requires x >= t
    ensures HasBelow([x] + tail, t) <==> HasBelow(tail, t)
    ensures HasBelow(tail, t) ==> FirstBelow([x] + tail, t) == FirstBelow(tail, t) + 1
    ensures HasBelow(tail, t) ==>
      ([x] + tail)[..FirstBelow([x] + tail, t) + 1] == [x] + tail[..FirstBelow(tail, t) + 1]
  {
    var all := [x] + tail;
    assert all[1..] == tail;
    if HasBelow(all, t) {
      var j :| 0 <= j < |all| && all[j] < t;
      assert tail[j - 1] == all[j];
    }
    if HasBelow(tail, t) {
      var j :| 0 <= j < |tail| && tail[j] < t;
      assert all[j + 1] == tail[j];
    }
  }

  /** One step of the running minimum over a growing prefix. */
  lemma ArgMinStep(s: seq<real>, i: nat)
    requires 0 < i < |s|
    ensures ArgMin(s[..i + 1]) == if s[i] < s[ArgMin(s[..i])] then i else ArgMin(s[..i])
  {
    assert s[..i + 1][..i] == s[..i];
  }

  /** The closest distance with the revisions' short cut: 0 when some
      distance is under the threshold `t` or when there is none at all,
      otherwise the smallest distance. */
  function ClosestOrZero(ds: seq<real>, t: real): (c: real)
    requires t > 0.0
    ensures c == 0.0 <==> ds == [] || HasBelow(ds, t)
    ensures c != 0.0 ==> c >= t && c in ds && forall k :: 0 <= k < |ds| ==> c <= ds[k]
  {
    if ds == [] || HasBelow(ds, t) then 0.0 else ds[ArgMin(ds)]
  }

  /** The stored closest distance: the integer 0 the scans start from and
      reset to, or the float distance they found. */
  function ClosestValue(c: real): Value {
    if c == 0.0 then Int(0) else Real(c)
  }

  /** The running minimum after the first `k` distances, none of them
      under `t`: 0 before any distance, then the smallest so far. */
  predicate MinSoFar(ds: seq<real>, k: nat, t: real, closest: real) {
    && k <= |ds|
    && (forall m :: 0 <= m < k ==> ds[m] >= t)
    && closest == (if k == 0 then 0.0 else ds[ArgMin(ds[..k])])
  }

  /** A distance not under `t`: it is taken when nothing was, and kept
      when strictly smaller. */
  lemma MinStep(ds: seq<real>, k: nat, t: real, closest: real)
    requires t > 0.0 && MinSoFar(ds, k, t, closest) && k < |ds| && ds[k] >= t
    ensures var c := if closest == 0.0 then ds[k] else closest;
      MinSoFar(ds, k + 1, t, if c > ds[k] then ds[k] else c)
  {
    if k > 0 {
      ArgMinStep(ds, k);
    } else {
      assert ds[..1] == [ds[0]];
    }
  }

  /** A distance under `t` ends the scan with 0. */
  lemma MinStopped(ds: seq<real>, k: nat, t: real, closest: real)
    requires t > 0.0 && MinSoFar(ds, k, t, closest) && k < |ds| && ds[k] < t
    ensures HasBelow(ds, t) && FirstBelow(ds, t) == k && ClosestOrZero(ds, t) == 0.0
  {
  }

  /** Every distance was taken: the running minimum is the closest distance. */
  lemma MinDone(ds: seq<real>, t: real, closest: real)
    requires t > 0.0 && MinSoFar(ds, |ds|, t, closest)
    ensures !HasBelow(ds, t) && closest == ClosestOrZero(ds, t)
  {
    assert ds[..|ds|] == ds;
  }
}
