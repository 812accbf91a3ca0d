/**
 * A disjoint-set structure over the cells of a `rows` x `cols` grid, answering
 * `Find` with a representative location as the island count expects. Each cell
 * stores the root of its set directly (quick-find): a union relabels every cell
 * of one set with the other set's root.
 */
module DisjointSets {
  import opened Grid

  class UnionFind {
    const rows: nat
    const cols: nat
    /** `id[r, c]` is the root of the set that holds cell (r, c). */
    const id: array2<GridLocation>

    predicate InGrid(x: GridLocation)
    {
      0 <= x.row < rows && 0 <= x.col < cols
    }

    /** The root recorded for `x`. */
    ghost function Root(x: GridLocation): GridLocation
      reads id
      requires Valid() && InGrid(x)
    {
      id[x.row, x.col]
    }

    /** Every root is a cell of the grid and is its own root. */
    ghost predicate Valid()
      reads id
    {
      id.Length0 == rows && id.Length1 == cols &&
      forall i, j :: 0 <= i < rows && 0 <= j < cols ==>
        var r := id[i, j];
        0 <= r.row < rows && 0 <= r.col < cols && id[r.row, r.col] == r
    }

    /** Every cell starts alone in its own set. */
    constructor (rows: nat, cols: nat)
      ensures this.rows == rows && this.cols == cols
      ensures Valid() && fresh(id)
      ensures forall x :: InGrid(x) ==> Root(x) == x
    {
      this.rows, this.cols := rows, cols;
      id := new GridLocation[rows, cols]((i, j) => GridLocation(i, j));
    }

    /** The representative of the set holding `p`. */
    method Find(p: GridLocation) returns (root: GridLocation)
      requires Valid() && InGrid(p)
      ensures root == Root(p)
      ensures InGrid(root) && Root(root) == root
    {
      root := id[p.row, p.col];
    }

    /** Merge the sets of `p` and `q`: afterwards two cells share a set exactly
        when they did before, or one was with `p` and the other with `q`. */
    method Union(p: GridLocation, q: GridLocation)
      requires Valid() && InGrid(p) && InGrid(q)
      modifies id
      ensures Valid()
      ensures forall x :: InGrid(x) ==>
        Root(x) == if old(Root(x)) == old(Root(q)) then old(Root(p)) else old(Root(x))
      ensures forall x, y :: InGrid(x) && InGrid(y) ==>
        (Root(x) == Root(y) <==>
          old(Root(x)) == old(Root(y)) ||
          (old(Root(x)) == old(Root(p)) && old(Root(y)) == old(Root(q))) ||
          (old(Root(x)) == old(Root(q)) && old(Root(y)) == old(Root(p))))
    {
      var pr := id[p.row, p.col];
      var qr := id[q.row, q.col];
      if pr != qr {
        for i := 0 to rows
          invariant forall a, b :: 0 <= a < rows && 0 <= b < cols ==>
            id[a, b] == if a < i && old(id[a, b]) == qr then pr else old(id[a, b])
        {
          for j := 0 to cols
            invariant forall a, b :: 0 <= a < rows && 0 <= b < cols ==>
              id[a, b] == if (a < i || (a == i && b < j)) && old(id[a, b]) == qr then pr else old(id[a, b])
          {
            if id[i, j] == qr {
              id[i, j] := pr;
            }
          }
        }
        assert id[pr.row, pr.col] == pr;
      }
      assert Valid();
    }
  }
}
