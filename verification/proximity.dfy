/**
  The proximity graph drawn over the particles each frame.

  After every particle has moved, each unordered pair `(i, j)` with `i < j` is
  visited once, row by row. A pair is connected when the Euclidean distance
  between the two particles is below the cutoff; a connected pair is drawn as a
  segment whose opacity is `sqrt(1 - distance / cutoff)`.

  The square root is a parameter: any function that is non-negative and squares
  back to its (non-negative) argument, as `IsSqrt` states.
 */
module Proximity {
  import opened Motion

  const CutoffDistance: real := 200.0

  /** An unordered pair of particle indices, stored with `i < j`. */
  datatype Pair = Pair(i: nat, j: nat)

  /** One segment the frame draws: its endpoints, their distance and its opacity. */
  datatype Edge = Edge(pair: Pair, distance: real, alpha: real)

  /** What one frame produces: the moved particles and the segments drawn among them. */
  datatype Frame = Frame(particles: seq<Particle>, edges: seq<Edge>)

  ghost predicate IsSqrt(sqrt: real -> real) {
    forall x :: 0.0 <= x ==> 0.0 <= sqrt(x) && sqrt(x) * sqrt(x) == x
  }

  function SquaredDistance(p: Particle, q: Particle): real {
    (p.x - q.x) * (p.x - q.x) + (p.y - q.y) * (p.y - q.y)
  }

  function Distance(p: Particle, q: Particle, sqrt: real -> real): real {
    sqrt(SquaredDistance(p, q))
  }

  function Coefficient(distance: real): real {
    1.0 - distance / CutoffDistance
  }

  function Alpha(distance: real, sqrt: real -> real): real {
    sqrt(Coefficient(distance))
  }

  // ---------------------------------------------------------------------------
  // Pair enumeration

  /** Row `i` of the nested loop: `(i, i+1), …, (i, n-1)`. */
  function Row(i: nat, n: nat): seq<Pair>
    requires i < n
  {
    seq(n - i - 1, k requires 0 <= k < n - i - 1 => Pair(i, i + 1 + k))
  }

  /** Rows `i` to `n - 1`, in loop order. */
  function PairsFrom(i: nat, n: nat): seq<Pair>
    decreases n - i
  {
    if i >= n then [] else Row(i, n) + PairsFrom(i + 1, n)
  }

  /** Every pair the nested loop over `n` particles visits, in visiting order. */
  function AllPairs(n: nat): seq<Pair> {
    PairsFrom(0, n)
  }

  predicate PairLess(a: Pair, b: Pair) {
    a.i < b.i || (a.i == b.i && a.j < b.j)
  }

  predicate StrictlySorted(s: seq<Pair>) {
    forall a, b :: 0 <= a < b < |s| ==> PairLess(s[a], s[b])
  }

  function Elements(s: seq<Pair>): set<Pair> {
    set k | 0 <= k < |s| :: s[k]
  }

  lemma {:induction false} PairsFromMembers(i: nat, n: nat, p: Pair)
    ensures p in PairsFrom(i, n) <==> i <= p.i < p.j < n
    decreases n - i
  {
    if i < n {
      PairsFromMembers(i + 1, n, p);
      if p.i == i && i < p.j < n {
        assert Row(i, n)[p.j - i - 1] == p;
      }
    }
  }

  lemma {:induction false} PairsFromLength(i: nat, n: nat)
    requires i <= n
    ensures 2 * |PairsFrom(i, n)| == (n - i) * (n - i - 1)
    decreases n - i
  {
    if i < n {
      PairsFromLength(i + 1, n);
      var m := n - i - 1;
      assert 2 * m + m * (m - 1) == (m + 1) * m;
    }
  }

  lemma SortedConcat(a: seq<Pair>, b: seq<Pair>)
    requires StrictlySorted(a) && StrictlySorted(b)
    requires forall x, y :: x in a && y in b ==> PairLess(x, y)
    ensures StrictlySorted(a + b)
  {
    var c := a + b;
    forall u, v | 0 <= u < v < |c|
      ensures PairLess(c[u], c[v])
    {
      if v < |a| {
        assert c[u] == a[u] && c[v] == a[v];
      } else if u >= |a| {
        assert c[u] == b[u - |a|] && c[v] == b[v - |a|];
      } else {
        assert c[u] == a[u] && c[v] == b[v - |a|];
        assert a[u] in a && b[v - |a|] in b;
      }
    }
  }

  lemma {:induction false} PairsFromSorted(i: nat, n: nat)
    ensures StrictlySorted(PairsFrom(i, n))
    decreases n - i
  {
    if i < n {
      PairsFromSorted(i + 1, n);
      forall x, y | x in Row(i, n) && y in PairsFrom(i + 1, n)
        ensures PairLess(x, y)
      {
        PairsFromMembers(i + 1, n, y);
      }
      SortedConcat(Row(i, n), PairsFrom(i + 1, n));
    }
  }

  /**
    The enumeration visits exactly the pairs `0 <= i < j < n`, each once, in
    row-major order, `n (n - 1) / 2` of them.
   */
  lemma AllPairsEnumeration(n: nat)
    ensures forall p :: p in AllPairs(n) <==> p.i < p.j < n
    ensures StrictlySorted(AllPairs(n))
    ensures forall a, b :: 0 <= a < b < |AllPairs(n)| ==> AllPairs(n)[a] != AllPairs(n)[b]
    ensures |AllPairs(n)| == n * (n - 1) / 2
  {
    forall p ensures p in AllPairs(n) <==> p.i < p.j < n {
      PairsFromMembers(0, n, p);
    }
    PairsFromSorted(0, n);
    PairsFromLength(0, n);
  }

  // ---------------------------------------------------------------------------
  // Connectivity and edges

  /** The test the frame applies to a pair of particle indices. */
  predicate PairConnected(p: Pair, ps: seq<Particle>, sqrt: real -> real) {
    p.i < |ps| && p.j < |ps| && Distance(ps[p.i], ps[p.j], sqrt) < CutoffDistance
  }

  function EdgeOf(p: Pair, ps: seq<Particle>, sqrt: real -> real): Edge
    requires p.i < |ps| && p.j < |ps|
  {
    var d := Distance(ps[p.i], ps[p.j], sqrt);
    Edge(p, d, Alpha(d, sqrt))
  }

  /** The edges for the connected pairs among `pairs`, in the order visited. */
  function ConnectedEdges(pairs: seq<Pair>, ps: seq<Particle>, sqrt: real -> real): seq<Edge>
    decreases |pairs|
  {
    if |pairs| == 0 then []
    else
      (if PairConnected(pairs[0], ps, sqrt) then [EdgeOf(pairs[0], ps, sqrt)] else [])
      + ConnectedEdges(pairs[1..], ps, sqrt)
  }

  function Edges(ps: seq<Particle>, sqrt: real -> real): seq<Edge> {
    ConnectedEdges(AllPairs(|ps|), ps, sqrt)
  }

  /** One frame: move every particle, then connect the moved particles. */
  function Draw(ps: seq<Particle>, vp: Viewport, sqrt: real -> real): (f: Frame)
    ensures |f.particles| == |ps|
    ensures forall i :: 0 <= i < |ps| ==> f.particles[i] == Step(ps[i], vp)
    ensures f.edges == Edges(f.particles, sqrt)
  {
    var moved := Tick(ps, vp);
    Frame(moved, Edges(moved, sqrt))
  }

  function PairsOf(es: seq<Edge>): seq<Pair> {
    seq(|es|, k requires 0 <= k < |es| => es[k].pair)
  }

  /** The brute-force reference: every pair `i < j` closer than the cutoff. */
  ghost function ConnectedPairSet(ps: seq<Particle>): set<Pair> {
    set i: nat, j: nat | i < j < |ps| && SquaredDistance(ps[i], ps[j]) < CutoffDistance * CutoffDistance
      :: Pair(i, j)
  }

  // ---------------------------------------------------------------------------
  // The square root and the derived quantities

  lemma SquaredDistanceNonNegative(p: Particle, q: Particle)
    ensures 0.0 <= SquaredDistance(p, q)
  {
    var dx, dy := p.x - q.x, p.y - q.y;
    assert 0.0 <= dx * dx by {
      if dx < 0.0 { assert dx * dx == (-dx) * (-dx); }
    }
    assert 0.0 <= dy * dy by {
      if dy < 0.0 { assert dy * dy == (-dy) * (-dy); }
    }
  }

  /** Squaring is strictly increasing on the non-negative reals. */
  lemma SquareStrictlyMonotone(a: real, b: real)
    requires 0.0 <= a < b
    ensures a * a < b * b
  {
    assert 0.0 <= a * (b - a);
    assert 0.0 < b * (b - a);
  }

  lemma SqrtStrictlyMonotone(sqrt: real -> real, a: real, b: real)
    requires IsSqrt(sqrt)
    requires 0.0 <= a < b
    ensures sqrt(a) < sqrt(b)
  {
    var sa, sb := sqrt(a), sqrt(b);
    assert sa * sa == a && sb * sb == b && 0.0 <= sa && 0.0 <= sb;
    if sb < sa {
      SquareStrictlyMonotone(sb, sa);
    }
  }

  lemma SqrtOfSquare(sqrt: real -> real, c: real)
    requires IsSqrt(sqrt) && 0.0 <= c
    ensures sqrt(c * c) == c
  {
    var s := sqrt(c * c);
    assert s * s == c * c && 0.0 <= s;
    if s < c {
      SquareStrictlyMonotone(s, c);
    } else if c < s {
      SquareStrictlyMonotone(c, s);
    }
  }

  /** Comparing the distance with the cutoff is comparing squares. */
  lemma ConnectedIffSquared(p: Particle, q: Particle, sqrt: real -> real)
    requires IsSqrt(sqrt)
    ensures Distance(p, q, sqrt) < CutoffDistance
            <==> SquaredDistance(p, q) < CutoffDistance * CutoffDistance
  {
    var d2 := SquaredDistance(p, q);
    var D := CutoffDistance;
    SquaredDistanceNonNegative(p, q);
    SqrtOfSquare(sqrt, D);
    if d2 < D * D {
      SqrtStrictlyMonotone(sqrt, d2, D * D);
    } else if d2 > D * D {
      SqrtStrictlyMonotone(sqrt, D * D, d2);
    }
  }

  /** A connected pair has a blend coefficient in `(0, 1]` and an opacity in `(0, 1]`. */
  lemma AlphaRange(distance: real, sqrt: real -> real)
    requires IsSqrt(sqrt)
    requires 0.0 <= distance < CutoffDistance
    ensures 0.0 < Coefficient(distance) <= 1.0
    ensures 0.0 < Alpha(distance, sqrt) <= 1.0
  {
    var c := Coefficient(distance);
    assert 0.0 < c <= 1.0;
    var s := sqrt(c);
    assert s * s == c && 0.0 <= s;
  }

  /** The opacity strictly decreases as the distance grows toward the cutoff. */
  lemma AlphaDecreasing(d1: real, d2: real, sqrt: real -> real)
    requires IsSqrt(sqrt)
    requires 0.0 <= d1 < d2 < CutoffDistance
    ensures Alpha(d1, sqrt) > Alpha(d2, sqrt)
  {
    SqrtStrictlyMonotone(sqrt, Coefficient(d2), Coefficient(d1));
  }

  // ---------------------------------------------------------------------------
  // Properties of the edges

  lemma {:induction false} ConnectedEdgesSound(pairs: seq<Pair>, ps: seq<Particle>, sqrt: real -> real)
    ensures forall k :: 0 <= k < |ConnectedEdges(pairs, ps, sqrt)| ==>
              var e := ConnectedEdges(pairs, ps, sqrt)[k];
              e.pair in pairs && PairConnected(e.pair, ps, sqrt) && e == EdgeOf(e.pair, ps, sqrt)
    decreases |pairs|
  {
    if |pairs| > 0 {
      ConnectedEdgesSound(pairs[1..], ps, sqrt);
      var head := if PairConnected(pairs[0], ps, sqrt) then [EdgeOf(pairs[0], ps, sqrt)] else [];
      var es := ConnectedEdges(pairs, ps, sqrt);
      assert es == head + ConnectedEdges(pairs[1..], ps, sqrt);
      forall k | 0 <= k < |es|
        ensures es[k].pair in pairs && PairConnected(es[k].pair, ps, sqrt)
                && es[k] == EdgeOf(es[k].pair, ps, sqrt)
      {
        if k >= |head| {
          var e := ConnectedEdges(pairs[1..], ps, sqrt)[k - |head|];
          assert es[k] == e;
          assert e.pair in pairs[1..];
        }
      }
    }
  }

  lemma {:induction false} ConnectedEdgesComplete(pairs: seq<Pair>, ps: seq<Particle>, sqrt: real -> real, p: Pair)
    requires p in pairs && PairConnected(p, ps, sqrt)
    ensures p in PairsOf(ConnectedEdges(pairs, ps, sqrt))
    decreases |pairs|
  {
    var head := if PairConnected(pairs[0], ps, sqrt) then [EdgeOf(pairs[0], ps, sqrt)] else [];
    var es := ConnectedEdges(pairs, ps, sqrt);
    assert es == head + ConnectedEdges(pairs[1..], ps, sqrt);
    if p == pairs[0] {
      assert es[0].pair == p;
      assert PairsOf(es)[0] == p;
    } else {
      assert p in pairs[1..];
      ConnectedEdgesComplete(pairs[1..], ps, sqrt, p);
      var rest := ConnectedEdges(pairs[1..], ps, sqrt);
      var k :| 0 <= k < |PairsOf(rest)| && PairsOf(rest)[k] == p;
      assert es[k + |head|] == rest[k];
      assert PairsOf(es)[k + |head|] == p;
    }
  }

  lemma SortedTail(s: seq<Pair>)
    requires |s| > 0 && StrictlySorted(s)
    ensures StrictlySorted(s[1..])
  {
    var t := s[1..];
    forall a, b | 0 <= a < b < |t| ensures PairLess(t[a], t[b]) {
      assert t[a] == s[a + 1] && t[b] == s[b + 1];
    }
  }

  lemma {:induction false} ConnectedEdgesSorted(pairs: seq<Pair>, ps: seq<Particle>, sqrt: real -> real)
    requires StrictlySorted(pairs)
    ensures StrictlySorted(PairsOf(ConnectedEdges(pairs, ps, sqrt)))
    decreases |pairs|
  {
    if |pairs| > 0 {
      SortedTail(pairs);
      ConnectedEdgesSorted(pairs[1..], ps, sqrt);
      ConnectedEdgesSound(pairs[1..], ps, sqrt);
      var head := if PairConnected(pairs[0], ps, sqrt) then [EdgeOf(pairs[0], ps, sqrt)] else [];
      var rest := ConnectedEdges(pairs[1..], ps, sqrt);
      assert PairsOf(ConnectedEdges(pairs, ps, sqrt)) == PairsOf(head) + PairsOf(rest);
      forall x, y | x in PairsOf(head) && y in PairsOf(rest)
        ensures PairLess(x, y)
      {
        var k :| 0 <= k < |rest| && PairsOf(rest)[k] == y;
        assert rest[k].pair in pairs[1..];
        var m :| 0 <= m < |pairs[1..]| && pairs[1..][m] == y;
        assert pairs[m + 1] == y;
        assert x == pairs[0];
      }
      SortedConcat(PairsOf(head), PairsOf(rest));
    }
  }

  lemma {:induction false} SortedElementsCount(s: seq<Pair>)
    requires StrictlySorted(s)
    ensures |Elements(s)| == |s|
    decreases |s|
  {
    if |s| > 0 {
      SortedTail(s);
      SortedElementsCount(s[1..]);
      assert Elements(s) == {s[0]} + Elements(s[1..]) by {
        forall x ensures x in Elements(s) <==> x in {s[0]} + Elements(s[1..]) {
          if x in Elements(s) {
            var k :| 0 <= k < |s| && s[k] == x;
            if k > 0 {
              assert s[1..][k - 1] == x;
            }
          }
          if x in Elements(s[1..]) {
            var k :| 0 <= k < |s[1..]| && s[1..][k] == x;
            assert s[k + 1] == x;
          }
        }
      }
      assert s[0] !in Elements(s[1..]);
    }
  }

  /** The pairs of a frame's edges are exactly those of the brute-force reference set. */
  lemma EdgesMatchReference(ps: seq<Particle>, sqrt: real -> real)
    requires IsSqrt(sqrt)
    ensures forall p :: p in PairsOf(Edges(ps, sqrt)) <==> p in ConnectedPairSet(ps)
  {
    var es := Edges(ps, sqrt);
    var all := AllPairs(|ps|);
    AllPairsEnumeration(|ps|);
    ConnectedEdgesSound(all, ps, sqrt);
    forall p ensures p in PairsOf(es) <==> p in ConnectedPairSet(ps) {
      if p in PairsOf(es) {
        var k :| 0 <= k < |es| && PairsOf(es)[k] == p;
        assert es[k].pair == p;
        ConnectedIffSquared(ps[p.i], ps[p.j], sqrt);
      }
      if p in ConnectedPairSet(ps) {
        ConnectedIffSquared(ps[p.i], ps[p.j], sqrt);
        ConnectedEdgesComplete(all, ps, sqrt, p);
      }
    }
  }

  /** Each connected pair is drawn once, in visiting order, so the edges number as the reference set. */
  lemma EdgesCount(ps: seq<Particle>, sqrt: real -> real)
    requires IsSqrt(sqrt)
    ensures StrictlySorted(PairsOf(Edges(ps, sqrt)))
    ensures |Edges(ps, sqrt)| == |ConnectedPairSet(ps)|
  {
    var es := Edges(ps, sqrt);
    AllPairsEnumeration(|ps|);
    ConnectedEdgesSorted(AllPairs(|ps|), ps, sqrt);
    EdgesMatchReference(ps, sqrt);
    assert Elements(PairsOf(es)) == ConnectedPairSet(ps) by {
      forall p ensures p in Elements(PairsOf(es)) <==> p in PairsOf(es) {
        if p in PairsOf(es) {
          var k :| 0 <= k < |PairsOf(es)| && PairsOf(es)[k] == p;
        }
      }
    }
    SortedElementsCount(PairsOf(es));
  }

  /** Every edge joins two particles `i < j` closer than the cutoff, with an opacity in `(0, 1]`. */
  lemma EdgeFacts(ps: seq<Particle>, sqrt: real -> real)
    requires IsSqrt(sqrt)
    ensures forall k :: 0 <= k < |Edges(ps, sqrt)| ==>
              var e := Edges(ps, sqrt)[k];
              && e.pair.i < e.pair.j < |ps|
              && e.distance == Distance(ps[e.pair.i], ps[e.pair.j], sqrt)
              && 0.0 <= e.distance < CutoffDistance
              && e.alpha == Alpha(e.distance, sqrt)
              && 0.0 < e.alpha <= 1.0
  {
    var es := Edges(ps, sqrt);
    AllPairsEnumeration(|ps|);
    ConnectedEdgesSound(AllPairs(|ps|), ps, sqrt);
    forall k | 0 <= k < |es|
      ensures && es[k].pair.i < es[k].pair.j < |ps|
              && es[k].distance == Distance(ps[es[k].pair.i], ps[es[k].pair.j], sqrt)
              && 0.0 <= es[k].distance < CutoffDistance
              && es[k].alpha == Alpha(es[k].distance, sqrt)
              && 0.0 < es[k].alpha <= 1.0
    {
      var e := es[k];
      assert e.pair in AllPairs(|ps|);
      SquaredDistanceNonNegative(ps[e.pair.i], ps[e.pair.j]);
      AlphaRange(e.distance, sqrt);
    }
  }

  /** Particles at `(0, 0)` and `(100, 0)` are joined with opacity `sqrt(0.5)`. */
  lemma NearPairScenario(sqrt: real -> real, dx1: real, dy1: real, dx2: real, dy2: real)
    requires IsSqrt(sqrt)
    ensures Edges([Particle(0.0, 0.0, dx1, dy1), Particle(100.0, 0.0, dx2, dy2)], sqrt)
            == [Edge(Pair(0, 1), 100.0, sqrt(0.5))]
  {
    var ps := [Particle(0.0, 0.0, dx1, dy1), Particle(100.0, 0.0, dx2, dy2)];
    assert AllPairs(2) == [Pair(0, 1)];
    assert SquaredDistance(ps[0], ps[1]) == 100.0 * 100.0;
    SqrtOfSquare(sqrt, 100.0);
    assert Coefficient(100.0) == 0.5;
    assert ConnectedEdges([Pair(0, 1)][1..], ps, sqrt) == [];
  }

  /** Particles at `(0, 0)` and `(300, 0)` are not joined. */
  lemma FarPairScenario(sqrt: real -> real, dx1: real, dy1: real, dx2: real, dy2: real)
    requires IsSqrt(sqrt)
    ensures Edges([Particle(0.0, 0.0, dx1, dy1), Particle(300.0, 0.0, dx2, dy2)], sqrt) == []
  {
    var ps := [Particle(0.0, 0.0, dx1, dy1), Particle(300.0, 0.0, dx2, dy2)];
    assert AllPairs(2) == [Pair(0, 1)];
    assert SquaredDistance(ps[0], ps[1]) == 300.0 * 300.0;
    SqrtOfSquare(sqrt, 300.0);
    assert ConnectedEdges([Pair(0, 1)][1..], ps, sqrt) == [];
  }
}
