/**
 * The bounded position history drawn behind each planet (`Planet::updateTrail`).
 * The newest position is appended; once the trail holds more than
 * `TrailCapacity` entries, every entry is moved one slot to the left and the
 * buffer is cut back to `TrailCapacity`.
 */
module Trail {

  import opened Config
  import opened Vector

  /** A trail the simulation can hold: never more than the capacity. */
  predicate Bounded(trail: seq<Vec2>) {
    |trail| <= TrailCapacity
  }

  /**
   * The shift loop: slot `i-1` receives the former slot `i`, for every
   * `1 <= i < |s|`; the last slot keeps its value and so appears twice.
   */
  function ShiftLeft(s: seq<Vec2>): (r: seq<Vec2>)
    requires |s| > 0
    ensures |r| == |s|
    ensures forall i :: 1 <= i < |s| ==> r[i - 1] == s[i]
    ensures r[|s| - 1] == s[|s| - 1]
  {
    s[1..] + [s[|s| - 1]]
  }

  /** The trail after recording position `p`: append, then shift and truncate on overflow. */
  function UpdateTrail(trail: seq<Vec2>, p: Vec2): (r: seq<Vec2>)
    ensures |r| == if |trail| < TrailCapacity then |trail| + 1 else TrailCapacity
    ensures Bounded(r)
    ensures |trail| < TrailCapacity ==> r == trail + [p]
    ensures |trail| == TrailCapacity ==> r == trail[1..] + [p]
    ensures Bounded(trail) ==> r[|r| - 1] == p
  {
    var appended := trail + [p];
    if |appended| > TrailCapacity then ShiftLeft(appended)[..TrailCapacity] else appended
  }

  /** The last `n` entries of `s` (all of `s` when it is shorter). */
  function Newest(s: seq<Vec2>, n: nat): (r: seq<Vec2>)
    ensures |r| == if |s| < n then |s| else n
  {
    if |s| <= n then s else s[|s| - n..]
  }

  /** The trail after recording each position of `ps` in turn. */
  function Record(trail: seq<Vec2>, ps: seq<Vec2>): seq<Vec2>
    decreases |ps|
  {
    if |ps| == 0 then trail else UpdateTrail(Record(trail, ps[..|ps| - 1]), ps[|ps| - 1])
  }

  /** On a bounded trail, one update keeps exactly the newest `TrailCapacity` positions. */
  lemma UpdateKeepsNewest(trail: seq<Vec2>, p: Vec2)
    requires Bounded(trail)
    ensures UpdateTrail(trail, p) == Newest(trail + [p], TrailCapacity)
  {
  }

  /**
   * A bounded trail after any sequence of updates holds exactly the newest
   * `TrailCapacity` of all positions ever recorded, oldest first.
   */
  lemma {:induction false} RecordKeepsNewest(trail: seq<Vec2>, ps: seq<Vec2>)
    requires Bounded(trail)
    ensures Record(trail, ps) == Newest(trail + ps, TrailCapacity)
    decreases |ps|
  {
    if |ps| > 0 {
      var init, p := ps[..|ps| - 1], ps[|ps| - 1];
      RecordKeepsNewest(trail, init);
      var all := trail + init;
      var t := Newest(all, TrailCapacity);
      UpdateKeepsNewest(t, p);
      assert trail + ps == all + [p];
      NewestAppend(all, p, TrailCapacity);
    }
  }

  /** Taking the newest entries commutes with appending one more. */
  lemma NewestAppend(s: seq<Vec2>, p: Vec2, n: nat)
    ensures Newest(Newest(s, n) + [p], n) == Newest(s + [p], n)
  {
  }

  /**
   * Starting from an empty trail, after the 71st position is recorded the
   * first position is gone and positions 2..71 remain in order.
   */
  lemma SeventyFirstDropsFirst(ps: seq<Vec2>)
    requires |ps| == TrailCapacity + 1
    ensures Record([], ps) == ps[1..]
  {
    RecordKeepsNewest([], ps);
    assert [] + ps == ps;
  }

  /**
   * The in-place update on a buffer: append, shift every slot left by one
   * when the buffer overflows, then resize to the capacity.
   */
  method UpdateTrailBuffer(trail: seq<Vec2>, p: Vec2) returns (r: seq<Vec2>)
    ensures r == UpdateTrail(trail, p)
    ensures |trail| < TrailCapacity ==> r == trail + [p]
    ensures |trail| == TrailCapacity ==> r == trail[1..] + [p]
  {
    var appended := trail + [p];
    var buf := new Vec2[|appended|](i requires 0 <= i < |appended| => appended[i]);
    if buf.Length > TrailCapacity {
      var i := 1;
      while i < buf.Length
        invariant 1 <= i <= buf.Length
        invariant forall k :: 0 <= k < i - 1 ==> buf[k] == appended[k + 1]
        invariant forall k :: i - 1 <= k < buf.Length ==> buf[k] == appended[k]
      {
        buf[i - 1] := buf[i];
        i := i + 1;
      }
      assert buf[..] == ShiftLeft(appended);
      r := buf[..TrailCapacity];
    } else {
      r := buf[..];
    }
  }
}
