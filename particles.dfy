/**
 * The decorative particle field of the portfolio page: a fixed collection of moving points
 * that is advanced once per animation frame, bounced off the viewport edges, snapped back
 * inside the viewport after a resize, and scanned pairwise for proximity links.
 *
 * Coordinates are exact reals (no IEEE rounding). The viewport size (W, H) is an input to
 * every operation, as the browser's window size is. The display handle each particle owns
 * is output plumbing and is not modelled.
 */
module Particles {

  /** One particle: position in viewport pixels and velocity in pixels per frame. */
  datatype Particle = Particle(x: real, y: real, vx: real, vy: real)

  /** The state of a particle along one axis: its coordinate and its speed on that axis. */
  datatype AxisState = AxisState(pos: real, vel: real)

  /** Two particles closer than this many pixels are linked. */
  const LinkDistance: real := 150.0
  /** The link threshold squared, so that the test needs no square root. */
  const LinkDistanceSquared: real := 22500.0
  /** How far inside the new edge a particle is put when a resize leaves it outside. */
  const ResizeInset: real := 10.0

  function Abs(r: real): real { if r < 0.0 then -r else r }

  function Min(a: real, b: real): real { if a <= b then a else b }

  function Max(a: real, b: real): real { if a >= b then a else b }

  predicate InBounds(p: Particle, w: real, h: real) {
    0.0 <= p.x <= w && 0.0 <= p.y <= h
  }

  predicate AllInBounds(ps: seq<Particle>, w: real, h: real) {
    forall k :: 0 <= k < |ps| ==> InBounds(ps[k], w, h)
  }

  // ---------------------------------------------------------------------------------------
  // One animation frame
  // ---------------------------------------------------------------------------------------

  /**
   * One frame on one axis: move by the velocity, reverse the velocity when the moved
   * coordinate touches or passes either edge, then clamp the coordinate into [0, limit].
   */
  function AxisStep(pos: real, vel: real, limit: real): (r: AxisState)
    // reflection: reversed exactly at or beyond an edge, kept strictly inside
    ensures pos + vel <= 0.0 || pos + vel >= limit ==> r.vel == -vel
    ensures 0.0 < pos + vel < limit ==> r.vel == vel
    ensures Abs(r.vel) == Abs(vel)
    // clamping: inside the viewport whenever the viewport is not negative
    ensures 0.0 <= limit ==> 0.0 <= r.pos <= limit
    ensures 0.0 < pos + vel < limit ==> r.pos == pos + vel
    ensures pos + vel <= 0.0 ==> r.pos == 0.0
    ensures 0.0 <= limit <= pos + vel ==> r.pos == limit
  {
    var moved := pos + vel;
    var vel' := if moved <= 0.0 || moved >= limit then -vel else vel;
    AxisState(Max(0.0, Min(limit, moved)), vel')
  }

  /**
   * One frame for one particle; the two axes are decided independently. The particle ends
   * inside a non-negative viewport and keeps the magnitude of both velocity components.
   */
  function Step(p: Particle, w: real, h: real): (r: Particle)
    ensures 0.0 <= w && 0.0 <= h ==> InBounds(r, w, h)
    ensures Abs(r.vx) == Abs(p.vx) && Abs(r.vy) == Abs(p.vy)
  {
    var ax := AxisStep(p.x, p.vx, w);
    var ay := AxisStep(p.y, p.vy, h);
    Particle(ax.pos, ay.pos, ax.vel, ay.vel)
  }

  /** One frame for the whole field: every particle stepped, in place, in order. */
  function Frame(ps: seq<Particle>, w: real, h: real): (r: seq<Particle>)
    ensures |r| == |ps|
  {
    seq(|ps|, k requires 0 <= k < |ps| => Step(ps[k], w, h))
  }

  /** After a frame, every particle is inside a non-negative viewport. */
  lemma FrameInBounds(ps: seq<Particle>, w: real, h: real)
    requires 0.0 <= w && 0.0 <= h
    ensures AllInBounds(Frame(ps, w, h), w, h)
  {
  }

  /** A frame changes the direction of a velocity, never its magnitude. */
  lemma FramePreservesSpeed(ps: seq<Particle>, w: real, h: real)
    ensures forall k :: 0 <= k < |ps| ==>
      Abs(Frame(ps, w, h)[k].vx) == Abs(ps[k].vx) && Abs(Frame(ps, w, h)[k].vy) == Abs(ps[k].vy)
  {
  }

  /** The horizontal outcome of a step depends only on x, vx and W; the vertical one only on y, vy and H. */
  lemma StepAxesIndependent(p: Particle, q: Particle, w: real, h: real)
    ensures p.x == q.x && p.vx == q.vx ==> Step(p, w, h).x == Step(q, w, h).x && Step(p, w, h).vx == Step(q, w, h).vx
    ensures p.y == q.y && p.vy == q.vy ==> Step(p, w, h).y == Step(q, w, h).y && Step(p, w, h).vy == Step(q, w, h).vy
  {
  }

  /** A particle resting on the left edge and moving left bounces back and stays in the viewport. */
  lemma BounceOffLeftEdge(w: real, h: real)
    requires 0.0 <= w && 0.0 <= h
    ensures Step(Particle(0.0, 0.0, -0.1, 0.0), w, h).vx == 0.1
    ensures Step(Particle(0.0, 0.0, -0.1, 0.0), w, h).x == 0.0
  {
  }

  // ---------------------------------------------------------------------------------------
  // Resize correction
  // ---------------------------------------------------------------------------------------

  /** A coordinate past the new edge is moved the inset inside it; any other is kept. */
  function Snap(pos: real, limit: real): (r: real)
    ensures pos > limit ==> r == limit - ResizeInset
    ensures pos <= limit ==> r == pos
    ensures r <= limit
  {
    if pos > limit then limit - ResizeInset else pos
  }

  /**
   * The resize correction of one particle: it ends at or before the right and bottom edges,
   * a coordinate already there is kept, and velocities are not touched.
   */
  function Resize(p: Particle, w: real, h: real): (r: Particle)
    ensures r.x <= w && r.y <= h
    ensures p.x <= w ==> r.x == p.x
    ensures p.y <= h ==> r.y == p.y
    ensures r.vx == p.vx && r.vy == p.vy
  {
    Particle(Snap(p.x, w), Snap(p.y, h), p.vx, p.vy)
  }

  function ResizeField(ps: seq<Particle>, w: real, h: real): (r: seq<Particle>)
    ensures |r| == |ps|
  {
    seq(|ps|, k requires 0 <= k < |ps| => Resize(ps[k], w, h))
  }

  /** After the correction no particle is beyond the right or bottom edge, and no velocity changed. */
  lemma ResizeBounds(ps: seq<Particle>, w: real, h: real)
    ensures forall k :: 0 <= k < |ps| ==>
      var q := ResizeField(ps, w, h)[k];
      q.x <= w && q.y <= h && q.vx == ps[k].vx && q.vy == ps[k].vy
  {
  }

  /**
   * A field that was inside the old viewport is inside the new one, provided the new
   * viewport is at least the inset wide and high.
   */
  lemma ResizeKeepsInBounds(ps: seq<Particle>, oldW: real, oldH: real, w: real, h: real)
    requires AllInBounds(ps, oldW, oldH)
    requires ResizeInset <= w && ResizeInset <= h
    ensures AllInBounds(ResizeField(ps, w, h), w, h)
  {
  }

  /** Applying the correction twice is the same as applying it once. */
  lemma ResizeIdempotent(ps: seq<Particle>, w: real, h: real)
    ensures ResizeField(ResizeField(ps, w, h), w, h) == ResizeField(ps, w, h)
  {
  }

  /** A particle on the old right edge ends up the inset inside a narrower viewport. */
  lemma ShrinkSnapsInside(p: Particle, oldW: real, w: real, h: real)
    requires p.x == oldW && w < oldW
    ensures Resize(p, w, h).x == w - ResizeInset
  {
  }

  /** In a viewport narrower than the inset, the correction puts a particle at a negative x. */
  lemma NarrowViewportLeavesField()
    ensures Resize(Particle(8.0, 0.0, 0.0, 0.0), 5.0, 100.0).x == -5.0
  {
  }

  // ---------------------------------------------------------------------------------------
  // Proximity links
  // ---------------------------------------------------------------------------------------

  /** The squared distance between two particles: never negative, and zero between a particle and itself. */
  function SqDist(p: Particle, q: Particle): (sq: real)
    ensures 0.0 <= sq
    ensures p.x == q.x && p.y == q.y ==> sq == 0.0
  {
    var dx, dy := p.x - q.x, p.y - q.y;
    assert 0.0 <= dx * dx && 0.0 <= dy * dy;
    dx * dx + dy * dy
  }

  /** Two particles are linked when their distance is strictly below the threshold. */
  predicate Near(p: Particle, q: Particle) {
    SqDist(p, q) < LinkDistanceSquared
  }

  /** A link between particles i < j, with the squared distance that was measured. */
  datatype Link = Link(i: nat, j: nat, sq: real)

  /** Loop order of the pair scan: by first index, then by second index. */
  predicate Before(a: Link, b: Link) {
    a.i < b.i || (a.i == b.i && a.j < b.j)
  }

  /** Every emitted link names a pair i < j of the field that is near, with its squared distance. */
  predicate LinksWellFormed(links: seq<Link>, ps: seq<Particle>) {
    forall l :: l in links ==>
      l.i < l.j < |ps| && l.sq == SqDist(ps[l.i], ps[l.j]) && l.sq < LinkDistanceSquared
  }

  /** The links appear strictly in scan order, so no pair appears twice. */
  predicate LinksOrdered(links: seq<Link>) {
    forall k, m :: 0 <= k < m < |links| ==> Before(links[k], links[m])
  }

  /** Every pair scanned before (i, j) is linked exactly when it is near. */
  predicate LinksComplete(links: seq<Link>, ps: seq<Particle>, i: int, j: int) {
    forall a, b :: 0 <= a < b < |ps| && (a < i || (a == i && b < j)) ==>
      (Link(a, b, SqDist(ps[a], ps[b])) in links <==> Near(ps[a], ps[b]))
  }

  /** Links that all come before the pair (i, j) in scan order. */
  predicate ScannedBefore(links: seq<Link>, i: int, j: int) {
    forall l :: l in links ==> l.i < i || (l.i == i && l.j < j)
  }

  /** Examining the pair (i, j) keeps the scan invariant and extends it past (i, j). */
  lemma ScanPair(links: seq<Link>, ps: seq<Particle>, i: nat, j: nat)
    requires i < j < |ps|
    requires LinksWellFormed(links, ps) && LinksOrdered(links)
    requires ScannedBefore(links, i, j) && LinksComplete(links, ps, i, j)
    ensures var next := if Near(ps[i], ps[j]) then links + [Link(i, j, SqDist(ps[i], ps[j]))] else links;
      LinksWellFormed(next, ps) && LinksOrdered(next) &&
      ScannedBefore(next, i, j + 1) && LinksComplete(next, ps, i, j + 1)
  {
    var x := Link(i, j, SqDist(ps[i], ps[j]));
    assert x !in links;
    if Near(ps[i], ps[j]) {
      var next := links + [x];
      forall k, m | 0 <= k < m < |next| ensures Before(next[k], next[m]) {
        if m == |links| {
          assert next[k] in links;
        }
      }
    }
  }

  /** Whether two particles are linked does not depend on which is taken first. */
  lemma NearSymmetric(p: Particle, q: Particle)
    ensures Near(p, q) <==> Near(q, p)
  {
    assert (p.x - q.x) * (p.x - q.x) == (q.x - p.x) * (q.x - p.x);
    assert (p.y - q.y) * (p.y - q.y) == (q.y - p.y) * (q.y - p.y);
  }

  /** The threshold is strict: at exactly the link distance there is no link, just below it there is. */
  lemma ThresholdIsStrict(vx: real, vy: real)
    ensures !Near(Particle(0.0, 0.0, vx, vy), Particle(150.0, 0.0, vx, vy))
    ensures Near(Particle(0.0, 0.0, vx, vy), Particle(149.999, 0.0, vx, vy))
  {
  }

  /** Line opacity for two particles at distance d: full at distance 0, visible below the threshold. */
  function Opacity(d: real): (o: real)
    ensures d == 0.0 ==> o == 1.0
    ensures 0.0 <= d < LinkDistance ==> 0.0 < o <= 1.0
  {
    1.0 - d / LinkDistance
  }

  /** A non-negative d whose square is below the squared threshold is below the threshold. */
  lemma RootBelowThreshold(d: real, sq: real)
    requires 0.0 <= d && d * d == sq && sq < LinkDistanceSquared
    ensures d < LinkDistance
  {
  }

  /** Conversely, a distance below 150 has a square below 22500. */
  lemma DistanceBelowGivesSquareBelow(d: real, sq: real)
    requires 0.0 <= d && d * d == sq && d < LinkDistance
    ensures sq < LinkDistanceSquared
  {
    var e := LinkDistance - d;
    assert 0.0 < e;
    assert LinkDistance * LinkDistance == 22500.0;
    assert d * d == (LinkDistance - e) * (LinkDistance - e);
    assert (LinkDistance - e) * (LinkDistance - e) == 22500.0 - 300.0 * e + e * e;
    assert e * e < 300.0 * e by {
      assert e <= LinkDistance;
      assert e * e <= e * LinkDistance;
    }
  }

  /** The squared test of `Near` and the page's `distance < 150` agree on every pair. */
  lemma NearIffDistance(p: Particle, q: Particle, d: real)
    requires 0.0 <= d && d * d == SqDist(p, q)
    ensures Near(p, q) <==> d < LinkDistance
  {
    if Near(p, q) {
      RootBelowThreshold(d, SqDist(p, q));
    }
    if d < LinkDistance {
      DistanceBelowGivesSquareBelow(d, SqDist(p, q));
    }
  }

  /** A linked pair's line is visible and at most fully opaque. */
  lemma OpacityOfLink(d: real, sq: real)
    requires 0.0 <= d && d * d == sq && sq < LinkDistanceSquared
    ensures 0.0 < Opacity(d) <= 1.0
  {
    RootBelowThreshold(d, sq);
  }

  /** Every link `UpdateConnections` emits is drawn with an opacity in (0, 1]. */
  lemma EmittedLinksVisible(links: seq<Link>, ps: seq<Particle>)
    requires LinksWellFormed(links, ps)
    ensures forall l, d :: l in links && 0.0 <= d && d * d == l.sq ==> 0.0 < Opacity(d) <= 1.0
  {
    forall l, d | l in links && 0.0 <= d && d * d == l.sq
      ensures 0.0 < Opacity(d) <= 1.0
    {
      OpacityOfLink(d, l.sq);
    }
  }

  /** Coincident particles give a fully opaque line; a farther pair is strictly fainter. */
  lemma OpacityDecreasing(d1: real, d2: real)
    requires d1 < d2
    ensures Opacity(0.0) == 1.0
    ensures Opacity(d2) < Opacity(d1)
  {
  }

  // ---------------------------------------------------------------------------------------
  // The field itself
  // ---------------------------------------------------------------------------------------

  /** The particle collection. The array is created once and never replaced, so the count is fixed. */
  class ParticleField {
    const particles: array<Particle>

    constructor (initial: seq<Particle>)
      ensures fresh(particles)
      ensures particles[..] == initial
    {
      particles := new Particle[|initial|](k requires 0 <= k < |initial| => initial[k]);
    }

    /** One animation frame: each particle is stepped in place, in order. */
    method Animate(w: real, h: real)
      modifies particles
      ensures particles[..] == Frame(old(particles[..]), w, h)
      ensures 0.0 <= w && 0.0 <= h ==> AllInBounds(particles[..], w, h)
    {
      var i := 0;
      while i < particles.Length
        invariant 0 <= i <= particles.Length
        invariant forall k :: 0 <= k < i ==> particles[k] == Step(old(particles[k]), w, h)
        invariant forall k :: i <= k < particles.Length ==> particles[k] == old(particles[k])
      {
        particles[i] := Step(particles[i], w, h);
        i := i + 1;
      }
      if 0.0 <= w && 0.0 <= h {
        FrameInBounds(old(particles[..]), w, h);
      }
    }

    /** The resize correction, applied in place to every particle. */
    method HandleResize(w: real, h: real)
      modifies particles
      ensures particles[..] == ResizeField(old(particles[..]), w, h)
    {
      var i := 0;
      while i < particles.Length
        invariant 0 <= i <= particles.Length
        invariant forall k :: 0 <= k < i ==> particles[k] == Resize(old(particles[k]), w, h)
        invariant forall k :: i <= k < particles.Length ==> particles[k] == old(particles[k])
      {
        particles[i] := Resize(particles[i], w, h);
        i := i + 1;
      }
    }

    /**
     * The periodic link recomputation: every pair i < j is examined once, in loop order,
     * and a link is emitted exactly for the pairs that are near.
     */
    method UpdateConnections() returns (links: seq<Link>)
      ensures LinksWellFormed(links, particles[..])
      ensures forall i, j :: 0 <= i < j < particles.Length ==>
        (Link(i, j, SqDist(particles[i], particles[j])) in links <==> Near(particles[i], particles[j]))
      ensures LinksOrdered(links)
    {
      var ps := particles[..];
      var n := |ps|;
      links := [];
      var i := 0;
      while i < n
        invariant 0 <= i <= n
        invariant LinksWellFormed(links, ps) && LinksOrdered(links)
        invariant ScannedBefore(links, i, i + 1)
        invariant LinksComplete(links, ps, i, i + 1)
      {
        var j := i + 1;
        while j < n
          invariant i + 1 <= j <= n
          invariant LinksWellFormed(links, ps) && LinksOrdered(links)
          invariant ScannedBefore(links, i, j)
          invariant LinksComplete(links, ps, i, j)
        {
          ScanPair(links, ps, i, j);
          var sq := SqDist(ps[i], ps[j]);
          if sq < LinkDistanceSquared {
            links := links + [Link(i, j, sq)];
          }
          j := j + 1;
        }
        i := i + 1;
      }
    }
  }
}
