/**
 * Connectivity over an undirected set of edges between grid cells, and the
 * islands of a piece of land: its maximal groups of cells joined through
 * 8-directional contact (orthogonal or diagonal).
 */
module Connectivity {
  import opened Grid

  type Edges = set<(GridLocation, GridLocation)>

  /** `a` and `b` are joined by an edge, in either direction. */
  ghost predicate Linked(e: Edges, a: GridLocation, b: GridLocation)
  {
    (a, b) in e || (b, a) in e
  }

  /** `w` is a non-empty walk along the edges of `e`. */
  ghost predicate IsWalk(e: Edges, w: seq<GridLocation>)
  {
    |w| > 0 && forall k :: 0 < k < |w| ==> Linked(e, w[k - 1], w[k])
  }

  /** Some walk along `e` leads from `a` to `b`. */
  ghost predicate Connected(e: Edges, a: GridLocation, b: GridLocation)
  {
    exists w :: WalkBetween(e, w, a, b)
  }

  /** `w` is a walk along `e` from `a` to `b`. */
  ghost predicate WalkBetween(e: Edges, w: seq<GridLocation>, a: GridLocation, b: GridLocation)
  {
    IsWalk(e, w) && w[0] == a && w[|w| - 1] == b
  }

  lemma ConnectedRefl(e: Edges, a: GridLocation)
    ensures Connected(e, a, a)
  {
    assert WalkBetween(e, [a], a, a);
  }

  /** One edge extends a connection. */
  lemma ConnectedStep(e: Edges, a: GridLocation, b: GridLocation, c: GridLocation)
    requires Connected(e, a, b) && Linked(e, b, c)
    ensures Connected(e, a, c)
  {
    var w :| WalkBetween(e, w, a, b);
    assert WalkBetween(e, w + [c], a, c);
  }

  lemma ConnectedSymm(e: Edges, a: GridLocation, b: GridLocation)
    requires Connected(e, a, b)
    ensures Connected(e, b, a)
  {
    var w :| WalkBetween(e, w, a, b);
    var back := seq(|w|, k requires 0 <= k < |w| => w[|w| - 1 - k]);
    assert forall k :: 0 < k < |back| ==> Linked(e, back[k - 1], back[k]) by {
      forall k | 0 < k < |back| ensures Linked(e, back[k - 1], back[k]) {
        assert Linked(e, w[|w| - 1 - k], w[|w| - k]);
      }
    }
    assert WalkBetween(e, back, b, a);
  }

  lemma ConnectedTrans(e: Edges, a: GridLocation, b: GridLocation, c: GridLocation)
    requires Connected(e, a, b) && Connected(e, b, c)
    ensures Connected(e, a, c)
  {
    var u :| WalkBetween(e, u, a, b);
    var v :| WalkBetween(e, v, b, c);
    var w := u + v[1..];
    forall k | 0 < k < |w| ensures Linked(e, w[k - 1], w[k]) {
      if k >= |u| {
        assert w[k - 1] == v[k - |u|] && w[k] == v[k - |u| + 1];
      }
    }
    assert WalkBetween(e, w, a, c);
  }

  /** More edges never disconnect anything. */
  lemma ConnectedMono(e: Edges, f: Edges, a: GridLocation, b: GridLocation)
    requires e <= f && Connected(e, a, b)
    ensures Connected(f, a, b)
  {
    var w :| WalkBetween(e, w, a, b);
    assert WalkBetween(f, w, a, b);
  }

  /** Without edges every cell is connected to itself only. */
  lemma ConnectedNoEdges(a: GridLocation, b: GridLocation)
    ensures Connected({}, a, b) <==> a == b
  {
    if Connected({}, a, b) {
      var w :| WalkBetween({}, w, a, b);
      assert |w| == 1 || Linked({}, w[0], w[1]);
    } else {
      ConnectedRefl({}, a);
    }
  }

  /** Connected through `e` plus the edge (p, q), under the bridge that edge adds. */
  ghost predicate Bridged(e: Edges, p: GridLocation, q: GridLocation, x: GridLocation, y: GridLocation)
  {
    Connected(e, x, y) ||
    (Connected(e, x, p) && Connected(e, q, y)) ||
    (Connected(e, x, q) && Connected(e, p, y))
  }

  /** A walk that may use the new edge (p, q) is covered by `Bridged`. */
  lemma {:induction false} WalkBridged(e: Edges, p: GridLocation, q: GridLocation, w: seq<GridLocation>)
    requires IsWalk(e + {(p, q)}, w)
    ensures Bridged(e, p, q, w[0], w[|w| - 1])
    decreases |w|
  {
    var x, z := w[0], w[|w| - 1];
    if |w| == 1 {
      ConnectedRefl(e, x);
    } else {
      var front := w[..|w| - 1];
      assert IsWalk(e + {(p, q)}, front);
      WalkBridged(e, p, q, front);
      var y := front[|front| - 1];
      assert Linked(e + {(p, q)}, y, z);
      if Linked(e, y, z) {
        if Connected(e, x, y) {
          ConnectedStep(e, x, y, z);
        } else if Connected(e, x, p) && Connected(e, q, y) {
          ConnectedStep(e, q, y, z);
        } else {
          ConnectedStep(e, p, y, z);
        }
      } else if y == p && z == q {
        if Connected(e, x, q) {
        } else {
          ConnectedRefl(e, q);
          if !Connected(e, x, p) {
            ConnectedTrans(e, x, y, p);
          }
        }
      } else {
        assert y == q && z == p;
        if Connected(e, x, p) {
        } else {
          ConnectedRefl(e, p);
          if !Connected(e, x, q) {
            ConnectedTrans(e, x, y, q);
          }
        }
      }
    }
  }

  /** Adding the edge (p, q) connects exactly the pairs bridged through it. */
  lemma AddEdge(e: Edges, p: GridLocation, q: GridLocation, x: GridLocation, y: GridLocation)
    ensures Connected(e + {(p, q)}, x, y) <==> Bridged(e, p, q, x, y)
  {
    var f := e + {(p, q)};
    if Connected(f, x, y) {
      var w :| WalkBetween(f, w, x, y);
      WalkBridged(e, p, q, w);
    }
    if Bridged(e, p, q, x, y) {
      if Connected(e, x, y) {
        ConnectedMono(e, f, x, y);
      } else if Connected(e, x, p) && Connected(e, q, y) {
        ConnectedMono(e, f, x, p);
        ConnectedStep(f, x, p, q);
        ConnectedMono(e, f, q, y);
        ConnectedTrans(f, x, q, y);
      } else {
        ConnectedMono(e, f, x, q);
        ConnectedStep(f, x, q, p);
        ConnectedMono(e, f, p, y);
        ConnectedTrans(f, x, p, y);
      }
    }
  }

  /** The contacts between cells of `land`: every pair of land cells within one
      3x3 block of each other. */
  ghost function Bonds(land: set<GridLocation>): (e: Edges)
    ensures forall a, b :: (a, b) in e <==> a in land && b in land && Touching(a, b)
  {
    set a, b | a in land && b in land && Touching(a, b) :: (a, b)
  }

  /** The island of `land` that holds `a`. */
  ghost function Island(land: set<GridLocation>, a: GridLocation): set<GridLocation>
  {
    set b | b in land && Connected(Bonds(land), a, b)
  }

  /** All islands of `land`: its maximal 8-connected groups of cells. */
  ghost function Islands(land: set<GridLocation>): set<set<GridLocation>>
  {
    set a | a in land :: Island(land, a)
  }

  /** Two land cells are on the same island exactly when they are connected. */
  lemma SameIsland(land: set<GridLocation>, a: GridLocation, b: GridLocation)
    requires a in land && b in land
    ensures Island(land, a) == Island(land, b) <==> Connected(Bonds(land), a, b)
  {
    var e := Bonds(land);
    ConnectedRefl(e, b);
    if Connected(e, a, b) {
      ConnectedSymm(e, a, b);
      forall x | x in land
        ensures Connected(e, a, x) <==> Connected(e, b, x)
      {
        if Connected(e, a, x) { ConnectedTrans(e, b, a, x); }
        if Connected(e, b, x) { ConnectedTrans(e, a, b, x); }
      }
    } else {
      assert b in Island(land, b) && b !in Island(land, a);
    }
  }

  /** Each land cell lies on its own island, and two islands are equal or disjoint. */
  lemma IslandsPartition(land: set<GridLocation>, a: GridLocation, b: GridLocation)
    requires a in land && b in land
    ensures a in Island(land, a)
    ensures Island(land, a) == Island(land, b) || Island(land, a) !! Island(land, b)
  {
    var e := Bonds(land);
    ConnectedRefl(e, a);
    if !(Island(land, a) !! Island(land, b)) {
      var x :| x in Island(land, a) && x in Island(land, b);
      ConnectedSymm(e, b, x);
      ConnectedTrans(e, a, x, b);
      SameIsland(land, a, b);
    }
  }

  /** Land cells that touch only at a corner still make one island. */
  lemma DiagonalOneIsland(land: set<GridLocation>, a: GridLocation, b: GridLocation)
    requires a in land && b in land
    requires b.row - a.row in {-1, 1} && b.col - a.col in {-1, 1}
    ensures Island(land, a) == Island(land, b)
  {
    var e := Bonds(land);
    ConnectedRefl(e, a);
    ConnectedStep(e, a, a, b);
    SameIsland(land, a, b);
  }

  /** A labelling that gives two cells of `land` the same value exactly when
      they are connected takes one value per island. */
  lemma LabelsCountIslands<L>(land: set<GridLocation>, tag: map<GridLocation, L>)
    requires land <= tag.Keys
    requires forall x, y :: x in land && y in land ==>
      (tag[x] == tag[y] <==> Connected(Bonds(land), x, y))
    ensures |Image(land, tag)| == |Islands(land)|
  {
    var island := map x | x in land :: Island(land, x);
    forall x, y | x in land && y in land
      ensures tag[x] == tag[y] <==> island[x] == island[y]
    {
      SameIsland(land, x, y);
    }
    ImageSizes(land, tag, island);
    assert Image(land, island) == Islands(land);
  }

  /** There are never more islands than land cells. */
  lemma IslandsNoMore(land: set<GridLocation>)
    ensures |Islands(land)| <= |land|
  {
    var island := map x | x in land :: Island(land, x);
    ImageNoLarger(land, island);
    assert Image(land, island) == Islands(land);
  }

  /** The values a map takes on a set of keys. */
  ghost function Image<A, B>(s: set<A>, f: map<A, B>): set<B>
    requires s <= f.Keys
  {
    set a | a in s :: f[a]
  }

  /** One more key adds its value to the image. */
  lemma ImageAdd<A, B>(s: set<A>, f: map<A, B>, x: A)
    requires s <= f.Keys && x in f
    ensures Image(s + {x}, f) == Image(s, f) + {f[x]}
  {
  }

  /** Taking out every key that shares the value of `x` removes exactly one value. */
  lemma ImageSplit<A, B>(s: set<A>, f: map<A, B>, x: A, rest: set<A>)
    requires s <= f.Keys && x in s
    requires forall y :: y in rest <==> y in s && f[y] != f[x]
    ensures |Image(s, f)| == |Image(rest, f)| + 1
  {
    assert Image(s, f) == Image(rest, f) + {f[x]};
  }

  /** Two labellings that separate the same pairs take equally many values. */
  lemma {:induction false} ImageSizes<A, B, C>(s: set<A>, f: map<A, B>, g: map<A, C>)
    requires s <= f.Keys && s <= g.Keys
    requires forall x, y :: x in s && y in s ==> (f[x] == f[y] <==> g[x] == g[y])
    ensures |Image(s, f)| == |Image(s, g)|
    decreases s
  {
    if s != {} {
      var x :| x in s;
      var rest := set y | y in s && f[y] != f[x];
      ImageSizes(rest, f, g);
      ImageSplit(s, f, x, rest);
      ImageSplit(s, g, x, rest);
    }
  }

  /** A labelling takes no more values than it has keys. */
  lemma {:induction false} ImageNoLarger<A, B>(s: set<A>, f: map<A, B>)
    requires s <= f.Keys
    ensures |Image(s, f)| <= |s|
    decreases s
  {
    if s != {} {
      var x :| x in s;
      ImageNoLarger(s - {x}, f);
      assert Image(s, f) == Image(s - {x}, f) + {f[x]};
    }
  }
}
