/**
 * Counting the islands of a dry region with a union-find: every dry cell is
 * joined with the dry cells of the 3x3 block around it, and then the distinct
 * roots of the dry cells are counted in one row-major scan.
 */
module IslandCount {
  import opened Grid
  import opened Connectivity
  import opened DisjointSets

  /** The union-find puts two cells in one set exactly when `edges` connects them. */
  ghost predicate Tracks(uf: UnionFind, edges: Edges)
    reads uf.id
    requires uf.Valid()
  {
    forall x, y :: uf.InGrid(x) && uf.InGrid(y) ==>
      (uf.Root(x) == uf.Root(y) <==> Connected(edges, x, y))
  }

  /** Union `p` with `q`, recording the contact as an edge. */
  method Join(uf: UnionFind, p: GridLocation, q: GridLocation, ghost edges: Edges)
    returns (ghost edges': Edges)
    requires uf.Valid() && uf.InGrid(p) && uf.InGrid(q) && Tracks(uf, edges)
    modifies uf.id
    ensures uf.Valid() && edges' == edges + {(p, q)} && Tracks(uf, edges')
  {
    uf.Union(p, q);
    edges' := edges + {(p, q)};
    forall x, y | uf.InGrid(x) && uf.InGrid(y)
      ensures uf.Root(x) == uf.Root(y) <==> Connected(edges', x, y)
    {
      AddEdge(edges, p, q, x, y);
    }
  }

  /** `flooded` is `false` exactly at the cells of `dry`, and `dry` lies inside it. */
  ghost predicate DryMask(flooded: array2<bool>, dry: set<GridLocation>)
    reads flooded
  {
    (forall i, j {:trigger flooded[i, j]} :: 0 <= i < flooded.Length0 && 0 <= j < flooded.Length1 ==>
      (!flooded[i, j] <==> GridLocation(i, j) in dry)) &&
    dry <= Cells(flooded.Length0, flooded.Length1)
  }

  /** The root of every dry cell. */
  ghost function RootOf(uf: UnionFind, dry: set<GridLocation>): (m: map<GridLocation, GridLocation>)
    reads uf.id
    requires uf.Valid() && forall x :: x in dry ==> uf.InGrid(x)
    ensures m.Keys == dry && forall x :: x in dry ==> m[x] == uf.Root(x)
  {
    map x | x in dry :: uf.Root(x)
  }

  /** Every contact of a dry cell scanned before (i, j) is already an edge, and
      every edge is a contact. */
  ghost predicate Covered(dry: set<GridLocation>, edges: Edges, i: int, j: int)
  {
    edges <= Bonds(dry) &&
    forall a, b :: (a, b) in Bonds(dry) && Scanned(a, i, j) ==> (a, b) in edges
  }

  /** Every contact of `here` with a cell before (r, c) is already an edge. */
  ghost predicate CoveredFrom(dry: set<GridLocation>, edges: Edges, here: GridLocation, r: int, c: int)
  {
    forall b :: (here, b) in Bonds(dry) && Scanned(b, r, c) ==> (here, b) in edges
  }

  /** Looking at neighbour (r, c) of `here`, and joining it when it is a contact,
      moves the neighbour scan one position on. */
  lemma CoveredFromStep(dry: set<GridLocation>, edges: Edges, edges': Edges, here: GridLocation, r: int, c: int)
    requires CoveredFrom(dry, edges, here, r, c) && edges <= edges'
    requires (here, GridLocation(r, c)) in Bonds(dry) ==> (here, GridLocation(r, c)) in edges'
    ensures CoveredFrom(dry, edges', here, r, c + 1)
  {
    forall b | (here, b) in Bonds(dry) && Scanned(b, r, c + 1) ensures (here, b) in edges' {
      ScannedStep(b, r, c);
    }
  }

  /** The three neighbours in row `r` of the 3x3 block around (i, j) are done. */
  lemma CoveredFromRow(dry: set<GridLocation>, edges: Edges, i: int, j: int, r: int)
    requires CoveredFrom(dry, edges, GridLocation(i, j), r, j + 2)
    ensures CoveredFrom(dry, edges, GridLocation(i, j), r + 1, j - 1)
  {
  }

  /** All contacts of cell (i, j) are edges: the scan moves past it. */
  lemma CoveredCell(dry: set<GridLocation>, edges: Edges, i: int, j: int)
    requires Covered(dry, edges, i, j)
    requires GridLocation(i, j) in dry ==> CoveredFrom(dry, edges, GridLocation(i, j), i + 2, j - 1)
    ensures Covered(dry, edges, i, j + 1)
  {
    forall a, b | (a, b) in Bonds(dry) && Scanned(a, i, j + 1) ensures (a, b) in edges {
      ScannedStep(a, i, j);
    }
  }

  /** At the end of a row the scan moves to the start of the next one. */
  lemma CoveredNextRow(dry: set<GridLocation>, edges: Edges, i: int, cols: int)
    requires forall x :: x in dry ==> 0 <= x.col < cols
    requires Covered(dry, edges, i, cols)
    ensures Covered(dry, edges, i + 1, 0)
  {
  }

  /** Union the dry cell (i, j) with every dry cell of the 3x3 block around it. */
  method JoinAround(uf: UnionFind, flooded: array2<bool>, ghost dry: set<GridLocation>, i: int, j: int,
                    ghost edges: Edges) returns (ghost edges': Edges)
    requires DryMask(flooded, dry) && uf.rows == flooded.Length0 && uf.cols == flooded.Length1
    requires 0 <= i < uf.rows && 0 <= j < uf.cols && !flooded[i, j]
    requires uf.Valid() && Tracks(uf, edges) && Covered(dry, edges, i, j)
    modifies uf.id
    ensures uf.Valid() && Tracks(uf, edges') && Covered(dry, edges', i, j)
    ensures CoveredFrom(dry, edges', GridLocation(i, j), i + 2, j - 1)
    ensures edges <= edges' && forall a, b :: (a, b) in edges' - edges ==> a == GridLocation(i, j)
  {
    ghost var here := GridLocation(i, j);
    edges' := edges;
    for r := -1 to 2
      invariant uf.Valid() && Tracks(uf, edges') && Covered(dry, edges', i, j)
      invariant CoveredFrom(dry, edges', here, i + r, j - 1)
      invariant edges <= edges' && forall a, b :: (a, b) in edges' - edges ==> a == here
    {
      for c := -1 to 2
        invariant uf.Valid() && Tracks(uf, edges') && Covered(dry, edges', i, j)
        invariant CoveredFrom(dry, edges', here, i + r, j + c)
        invariant edges <= edges' && forall a, b :: (a, b) in edges' - edges ==> a == here
      {
        ghost var before := edges';
        if i + r >= 0 && j + c >= 0 && i + r < uf.rows && j + c < uf.cols {
          if !flooded[i + r, j + c] {
            edges' := Join(uf, GridLocation(i, j), GridLocation(i + r, j + c), edges');
          }
        }
        CoveredFromStep(dry, before, edges', here, i + r, j + c);
      }
      CoveredFromRow(dry, edges', i, j, i + r);
    }
  }

  /** Union every dry cell with each dry cell of the 3x3 block around it: the
      resulting sets are the islands of `dry`. */
  method JoinLand(flooded: array2<bool>, ghost dry: set<GridLocation>) returns (uf: UnionFind)
    requires DryMask(flooded, dry)
    ensures uf.rows == flooded.Length0 && uf.cols == flooded.Length1
    ensures uf.Valid() && Tracks(uf, Bonds(dry))
  {
    var rows := flooded.Length0;
    var cols := flooded.Length1;
    uf := new UnionFind(rows, cols);
    ghost var edges: Edges := {};
    forall x, y | uf.InGrid(x) && uf.InGrid(y)
      ensures uf.Root(x) == uf.Root(y) <==> Connected(edges, x, y)
    {
      ConnectedNoEdges(x, y);
    }
    for i := 0 to rows
      invariant uf.Valid() && Tracks(uf, edges) && Covered(dry, edges, i, 0)
    {
      for j := 0 to cols
        invariant uf.Valid() && Tracks(uf, edges) && Covered(dry, edges, i, j)
      {
        if !flooded[i, j] {
          edges := JoinAround(uf, flooded, dry, i, j, edges);
        }
        CoveredCell(dry, edges, i, j);
      }
      CoveredNextRow(dry, edges, i, cols);
    }
    assert edges == Bonds(dry);
  }

  /** The row-major scan has visited the dry cells before (i, j): `scanned` are
      those cells, `roots` their roots, and `islands` lists each root once. */
  ghost predicate Counted(dry: set<GridLocation>, rootOf: map<GridLocation, GridLocation>, i: int, j: int,
                          scanned: set<GridLocation>, roots: set<GridLocation>, islands: seq<GridLocation>)
  {
    (forall x :: x in scanned <==> x in dry && Scanned(x, i, j)) &&
    scanned <= rootOf.Keys && roots == Image(scanned, rootOf) &&
    |islands| == |roots| && (forall x :: x in islands <==> x in roots)
  }

  /** Visiting cell (i, j), dry or not, moves the scan one position on. */
  lemma CountedStep(dry: set<GridLocation>, rootOf: map<GridLocation, GridLocation>, i: int, j: int,
                    scanned: set<GridLocation>, roots: set<GridLocation>, islands: seq<GridLocation>)
    requires dry <= rootOf.Keys && Counted(dry, rootOf, i, j, scanned, roots, islands)
    ensures var here := GridLocation(i, j);
      if here in dry then
        Counted(dry, rootOf, i, j + 1, scanned + {here}, roots + {rootOf[here]},
                if rootOf[here] in islands then islands else islands + [rootOf[here]])
      else
        Counted(dry, rootOf, i, j + 1, scanned, roots, islands)
  {
    var here := GridLocation(i, j);
    forall x ensures Scanned(x, i, j + 1) <==> Scanned(x, i, j) || x == here {
      ScannedStep(x, i, j);
    }
    if here in dry {
      ImageAdd(scanned, rootOf, here);
      if rootOf[here] in islands {
        assert roots + {rootOf[here]} == roots;
      }
    }
  }

  /** At the end of a row the scan moves to the start of the next one. */
  lemma CountedNextRow(dry: set<GridLocation>, rootOf: map<GridLocation, GridLocation>, i: int, cols: int,
                       scanned: set<GridLocation>, roots: set<GridLocation>, islands: seq<GridLocation>)
    requires forall x :: x in dry ==> 0 <= x.col < cols
    requires Counted(dry, rootOf, i, cols, scanned, roots, islands)
    ensures Counted(dry, rootOf, i + 1, 0, scanned, roots, islands)
  {
  }

  /** Count the distinct roots of the dry cells, collecting each root the
      first time the row-major scan meets it. */
  method CountRoots(uf: UnionFind, flooded: array2<bool>, ghost dry: set<GridLocation>) returns (count: nat)
    requires uf.Valid() && DryMask(flooded, dry)
    requires uf.rows == flooded.Length0 && uf.cols == flooded.Length1
    ensures count == |Image(dry, RootOf(uf, dry))|
  {
    ghost var rootOf := RootOf(uf, dry);
    var islands: seq<GridLocation> := [];
    ghost var scanned: set<GridLocation> := {};
    ghost var roots: set<GridLocation> := {};
    for i := 0 to uf.rows
      invariant Counted(dry, rootOf, i, 0, scanned, roots, islands)
    {
      for j := 0 to uf.cols
        invariant Counted(dry, rootOf, i, j, scanned, roots, islands)
      {
        var root := uf.Find(GridLocation(i, j));
        CountedStep(dry, rootOf, i, j, scanned, roots, islands);
        if !flooded[i, j] {
          if root !in islands {
            islands := islands + [root];
          }
          scanned := scanned + {GridLocation(i, j)};
          roots := roots + {root};
        }
      }
      CountedNextRow(dry, rootOf, i, uf.cols, scanned, roots, islands);
    }
    count := |islands|;
    assert scanned == dry;
  }
}
