/**
 * The per-frame loop over the planets: each planet gets gravity and a trail
 * update, then is erased in place if it has hit the Sun. Spawning appends a
 * new planet. The physics engine's step, which runs after this loop, is not
 * modelled.
 *
 * The erase-while-iterating loop and the filter it computes are stated for
 * any per-planet step `visit` and any removal test `hit`; a frame uses
 * `Tick` and `CheckCollision`.
 */
module Simulation {

  import opened Vector
  import opened Planets
  import Trail

  /** The planets among `visited` that `hit` does not select, in their original order. */
  function Kept(visited: seq<Planet>, hit: Planet -> bool): (r: seq<Planet>)
    ensures |r| <= |visited|
    ensures forall i :: 0 <= i < |r| ==> !hit(r[i])
    decreases |visited|
  {
    if |visited| == 0 then []
    else
      var init := Kept(visited[..|visited| - 1], hit);
      var last := visited[|visited| - 1];
      if hit(last) then init else init + [last]
  }

  /** A planet is kept exactly when it was visited and is not hit. */
  lemma {:induction false} KeptMembership(visited: seq<Planet>, hit: Planet -> bool, q: Planet)
    ensures q in Kept(visited, hit) <==> q in visited && !hit(q)
    decreases |visited|
  {
    if |visited| > 0 {
      var init := visited[..|visited| - 1];
      KeptMembership(init, hit, q);
      assert visited == init + [visited[|visited| - 1]];
    }
  }

  /** Filtering distributes over concatenation, so relative order is preserved. */
  lemma {:induction false} KeptAppend(a: seq<Planet>, b: seq<Planet>, hit: Planet -> bool)
    ensures Kept(a + b, hit) == Kept(a, hit) + Kept(b, hit)
    decreases |b|
  {
    if |b| == 0 {
      assert a + b == a;
    } else {
      var init := b[..|b| - 1];
      KeptAppend(a, init, hit);
      assert (a + b)[..|a + b| - 1] == a + init;
      assert (a + b)[|a + b| - 1] == b[|b| - 1];
    }
  }

  /** Visiting one more planet extends the kept planets by it exactly when it is not hit. */
  lemma KeptSnoc(visited: seq<Planet>, v: Planet, hit: Planet -> bool)
    ensures Kept(visited + [v], hit) == Kept(visited, hit) + (if hit(v) then [] else [v])
  {
    assert (visited + [v])[..|visited|] == visited;
  }

  /** No two planets share an identity. */
  predicate DistinctIds(ps: seq<Planet>) {
    forall i, j :: 0 <= i < j < |ps| ==> ps[i].id != ps[j].id
  }

  /** Filtering never duplicates a planet. */
  lemma {:induction false} KeptDistinct(visited: seq<Planet>, hit: Planet -> bool)
    requires DistinctIds(visited)
    ensures DistinctIds(Kept(visited, hit))
    decreases |visited|
  {
    if |visited| > 0 {
      var init, last := visited[..|visited| - 1], visited[|visited| - 1];
      KeptDistinct(init, hit);
      forall q | q in Kept(init, hit)
        ensures q.id != last.id
      {
        KeptMembership(init, hit, q);
      }
    }
  }

  /**
   * Identities being distinct, the visited planet `j` is kept exactly when it
   * is not hit, and any kept planet with its identity is that planet itself.
   */
  lemma KeptFate(visited: seq<Planet>, hit: Planet -> bool, j: nat)
    requires DistinctIds(visited) && j < |visited|
    ensures !hit(visited[j]) <==> exists q :: q in Kept(visited, hit) && q.id == visited[j].id
    ensures forall q :: q in Kept(visited, hit) && q.id == visited[j].id ==> q == visited[j] && !hit(q)
  {
    KeptMembership(visited, hit, visited[j]);
    forall q | q in Kept(visited, hit) && q.id == visited[j].id
      ensures q == visited[j] && !hit(q)
    {
      KeptMembership(visited, hit, q);
      var i :| 0 <= i < |visited| && visited[i] == q;
      assert i == j;
    }
  }

  /**
   * The loop of `main` with the `it = erase(it)` idiom: the planet under the
   * iterator is updated in place by `visit`, then erased if `hit` selects it,
   * and otherwise the iterator advances. `visited` records each planet as it
   * leaves its visit, before any erase: each original planet is visited
   * exactly once, in order, none is skipped after an erase, and the planets
   * left are the in-order filter of the visited ones that were not hit.
   */
  method PruneLoop(planets: seq<Planet>, visit: Planet -> Planet, hit: Planet -> bool)
    returns (remaining: seq<Planet>, visited: seq<Planet>)
    ensures |visited| == |planets|
    ensures forall j :: 0 <= j < |planets| ==> visited[j] == visit(planets[j])
    ensures remaining == Kept(visited, hit)
  {
    remaining := planets;
    visited := [];
    var it := 0;
    while it < |remaining|
      invariant 0 <= it <= |remaining|
      invariant |visited| <= |planets|
      invariant forall j :: 0 <= j < |visited| ==> visited[j] == visit(planets[j])
      invariant remaining[..it] == Kept(visited, hit)
      invariant remaining[it..] == planets[|visited|..]
      decreases |remaining| - it
    {
      ghost var rest := remaining[it + 1..];
      assert remaining[it] == planets[|visited|];
      assert rest == planets[|visited| + 1..];
      var current := visit(remaining[it]);
      remaining := remaining[it := current];
      assert remaining[..it] == Kept(visited, hit);
      assert remaining[it + 1..] == rest;
      KeptSnoc(visited, current, hit);
      visited := visited + [current];
      if hit(current) {
        remaining := remaining[..it] + remaining[it + 1..];
        assert remaining[..it] == Kept(visited, hit);
        assert remaining[it..] == rest;
      } else {
        assert remaining[..it + 1] == remaining[..it] + [current];
        it := it + 1;
      }
    }
  }

  /** The removal test of a frame: `checkCollision` against the Sun. */
  function Hits(sun: Vec2, sqrt: real -> real): Planet -> bool {
    p => CheckCollision(p, sun, sqrt)
  }

  /** The per-planet step of a frame: gravity, then the trail update. */
  function Visit(sun: Vec2, sqrt: real -> real): Planet -> Planet {
    p => Tick(p, sun, sqrt)
  }

  /** Every planet ticked, in order. */
  function TickAll(planets: seq<Planet>, sun: Vec2, sqrt: real -> real): (r: seq<Planet>)
    ensures |r| == |planets|
    ensures forall j :: 0 <= j < |planets| ==> r[j] == Tick(planets[j], sun, sqrt)
  {
    seq(|planets|, j requires 0 <= j < |planets| => Tick(planets[j], sun, sqrt))
  }

  /** The planets left after one pass of the loop. */
  function Survivors(planets: seq<Planet>, sun: Vec2, sqrt: real -> real): seq<Planet> {
    Kept(TickAll(planets, sun, sqrt), Hits(sun, sqrt))
  }

  /**
   * The loop of one frame: every planet present at the start gets gravity
   * and exactly one trail append, including the ones then erased, and the
   * planets left are the survivors.
   */
  method PruneFrame(planets: seq<Planet>, sun: Vec2, sqrt: real -> real)
    returns (remaining: seq<Planet>, visited: seq<Planet>)
    ensures visited == TickAll(planets, sun, sqrt)
    ensures remaining == Survivors(planets, sun, sqrt)
  {
    remaining, visited := PruneLoop(planets, Visit(sun, sqrt), Hits(sun, sqrt));
  }

  /** A planet that does not collide is still present after the frame, ticked once. */
  lemma SurvivorPresent(planets: seq<Planet>, sun: Vec2, sqrt: real -> real, j: nat)
    requires j < |planets| && !CheckCollision(planets[j], sun, sqrt)
    ensures Tick(planets[j], sun, sqrt) in Survivors(planets, sun, sqrt)
  {
    var t := TickAll(planets, sun, sqrt);
    KeptMembership(t, Hits(sun, sqrt), t[j]);
  }

  /**
   * The fate of one planet in a frame, identities being distinct: it is
   * still present afterwards exactly when it did not collide, and if present
   * it is the planet after gravity and exactly one trail update.
   */
  lemma PlanetFate(planets: seq<Planet>, sun: Vec2, sqrt: real -> real, j: nat)
    requires DistinctIds(planets) && j < |planets|
    ensures var out := Survivors(planets, sun, sqrt);
            && (!CheckCollision(planets[j], sun, sqrt) <==> exists q :: q in out && q.id == planets[j].id)
            && forall q :: q in out && q.id == planets[j].id ==> q == Tick(planets[j], sun, sqrt)
  {
    var t := TickAll(planets, sun, sqrt);
    TickAllDistinct(planets, sun, sqrt);
    KeptFate(t, Hits(sun, sqrt), j);
  }

  /** Ticking keeps identities, so it keeps them distinct. */
  lemma TickAllDistinct(planets: seq<Planet>, sun: Vec2, sqrt: real -> real)
    requires DistinctIds(planets)
    ensures DistinctIds(TickAll(planets, sun, sqrt))
  {
    var t := TickAll(planets, sun, sqrt);
    forall i, j | 0 <= i < j < |t|
      ensures t[i].id != t[j].id
    {
      assert t[i].id == planets[i].id && t[j].id == planets[j].id;
    }
  }

  /** Survivors are planets that were there before the frame, after one visit: none is re-added. */
  lemma SurvivorsFromBefore(planets: seq<Planet>, sun: Vec2, sqrt: real -> real, q: Planet)
    requires q in Survivors(planets, sun, sqrt)
    ensures exists j :: 0 <= j < |planets| && q == Tick(planets[j], sun, sqrt)
  {
    var t := TickAll(planets, sun, sqrt);
    KeptMembership(t, Hits(sun, sqrt), q);
    var j :| 0 <= j < |t| && t[j] == q;
  }

  /** The simulation state: the fixed Sun, the live planets, the next identity to hand out. */
  datatype World = World(sun: Vec2, planets: seq<Planet>, nextId: nat)

  /** Identities are distinct and already handed out; every trail is within capacity. */
  predicate Valid(w: World) {
    && DistinctIds(w.planets)
    && forall i :: 0 <= i < |w.planets| ==> w.planets[i].id < w.nextId && Trail.Bounded(w.planets[i].trail)
  }

  /** A click: a new planet at `position` is appended after the existing ones. */
  function Spawn(w: World, position: Vec2, sqrt: real -> real): (r: World)
    requires sqrt(NormSq(Sub(position, w.sun))) != 0.0
    ensures Valid(w) ==> Valid(r)
    ensures r.sun == w.sun && |r.planets| == |w.planets| + 1 && r.planets[..|w.planets|] == w.planets
    ensures var p := r.planets[|w.planets|]; p.trail == [] && PixelPosition(p) == position
  {
    var p := NewPlanet(w.nextId, position, w.sun, sqrt);
    World(w.sun, w.planets + [p], w.nextId + 1)
  }

  /** The planet part of one frame: the prune loop over all live planets. */
  function Frame(w: World, sqrt: real -> real): (r: World)
    ensures Valid(w) ==> Valid(r)
    ensures r.sun == w.sun && r.nextId == w.nextId
    ensures |r.planets| <= |w.planets|
    ensures forall i :: 0 <= i < |r.planets| ==> !CheckCollision(r.planets[i], w.sun, sqrt)
  {
    var out := Survivors(w.planets, w.sun, sqrt);
    if Valid(w) then
      FrameKeepsValid(w, sqrt);
      w.(planets := out)
    else
      w.(planets := out)
  }

  /** The prune loop keeps identities distinct and every trail within capacity. */
  lemma FrameKeepsValid(w: World, sqrt: real -> real)
    requires Valid(w)
    ensures Valid(w.(planets := Survivors(w.planets, w.sun, sqrt)))
  {
    var t := TickAll(w.planets, w.sun, sqrt);
    TickAllDistinct(w.planets, w.sun, sqrt);
    KeptDistinct(t, Hits(w.sun, sqrt));
    var out := Kept(t, Hits(w.sun, sqrt));
    forall i | 0 <= i < |out|
      ensures out[i].id < w.nextId && Trail.Bounded(out[i].trail)
    {
      SurvivorsFromBefore(w.planets, w.sun, sqrt, out[i]);
    }
  }
}
