/**
 * Queries about a rectangular height grid under a given water level: which cells
 * the water reaches from the fixed sources (flood fill), how much land stays
 * visible, how much is lost between two levels, the lowest and highest points,
 * and how many islands the dry land forms.
 */
module Tides {
  import opened Grid
  import opened Connectivity
  import opened DisjointSets
  import opened IslandCount

  /** `mask` holds `true` exactly at the cells of `s`, and `s` lies inside the mask. */
  ghost predicate Mirrors(mask: array2<bool>, s: set<GridLocation>)
    reads mask
  {
    (forall i, j {:trigger mask[i, j]} :: 0 <= i < mask.Length0 && 0 <= j < mask.Length1 ==>
      (mask[i, j] <==> GridLocation(i, j) in s)) &&
    s <= Cells(mask.Length0, mask.Length1)
  }

  class RisingTides {
    /** The height of every cell, row by row. */
    const terrain: seq<seq<real>>
    /** The cells the water comes from. */
    const sources: seq<GridLocation>

    /** At least one row, all rows equally long, every source on the grid. */
    ghost predicate Valid()
    {
      |terrain| >= 1 &&
      (forall i :: 0 <= i < |terrain| ==> |terrain[i]| == |terrain[0]|) &&
      (forall s :: s in sources ==> InBounds(s))
    }

    constructor (heights: seq<seq<real>>, origins: seq<GridLocation>)
      requires |heights| >= 1
      requires forall i :: 0 <= i < |heights| ==> |heights[i]| == |heights[0]|
      requires forall s {:trigger s in origins} :: s in origins ==> 0 <= s.row < |heights| && 0 <= s.col < |heights[0]|
      ensures terrain == heights && sources == origins && Valid()
    {
      terrain, sources := heights, origins;
    }

    function Rows(): nat
    {
      |terrain|
    }

    function Cols(): nat
      requires |terrain| >= 1
    {
      |terrain[0]|
    }

    predicate InBounds(c: GridLocation)
    {
      0 <= c.row < |terrain| && 0 <= c.col < |terrain[c.row]|
    }

    function Height(c: GridLocation): real
      requires InBounds(c)
    {
      terrain[c.row][c.col]
    }

    /** Water standing at level `h` in cell `c` runs on into cell `d`. */
    predicate FlowsTo(h: real, c: GridLocation, d: GridLocation)
    {
      Orthogonal(c, d) && InBounds(d) && Height(d) <= h
    }

    /** `p` is a path water at level `h` takes: it starts at a source (whatever
        that source's height) and every later step is orthogonal onto a cell of
        the grid no higher than `h`. */
    ghost predicate FloodPath(h: real, p: seq<GridLocation>)
    {
      |p| > 0 && p[0] in sources &&
      forall k :: 0 < k < |p| ==> StepAt(h, p, k)
    }

    /** Step `k` of `p` is one water at level `h` takes. */
    ghost predicate StepAt(h: real, p: seq<GridLocation>, k: int)
      requires 0 < k < |p|
    {
      FlowsTo(h, p[k - 1], p[k])
    }

    /** A flood path extended by one more step is a flood path. */
    lemma ExtendPath(h: real, p: seq<GridLocation>, d: GridLocation)
      requires FloodPath(h, p) && FlowsTo(h, p[|p| - 1], d)
      ensures FloodPath(h, p + [d])
    {
      var q := p + [d];
      forall k | 0 < k < |q| ensures StepAt(h, q, k) {
        if k < |p| {
          assert StepAt(h, p, k);
        }
      }
    }

    /** `p` is a flood path at level `h` that ends in `c`. */
    ghost predicate PathTo(h: real, p: seq<GridLocation>, c: GridLocation)
    {
      FloodPath(h, p) && p[|p| - 1] == c
    }

    ghost predicate Reachable(h: real, c: GridLocation)
    {
      exists p :: PathTo(h, p, c)
    }

    /** The cells under water at level `h`. */
    ghost function FloodSet(h: real): (s: set<GridLocation>)
      requires Valid()
      ensures forall c :: c in s <==> InBounds(c) && Reachable(h, c)
    {
      set c | c in Cells(Rows(), Cols()) && Reachable(h, c)
    }

    /** The cells still visible at level `h`. */
    ghost function DryLand(h: real): set<GridLocation>
      requires Valid()
    {
      Cells(Rows(), Cols()) - FloodSet(h)
    }

    ghost predicate SourcesIn(s: set<GridLocation>)
    {
      forall x :: x in sources ==> x in s
    }

    /** No water at level `h` can run out of `s`. */
    ghost predicate Closed(h: real, s: set<GridLocation>)
    {
      forall c, d :: c in s && FlowsTo(h, c, d) ==> d in s
    }

    /** A set that holds the sources and keeps the water in holds every path's end. */
    lemma {:induction false} PathEndsWithin(h: real, s: set<GridLocation>, p: seq<GridLocation>)
      requires SourcesIn(s) && Closed(h, s) && FloodPath(h, p)
      ensures p[|p| - 1] in s
      decreases |p|
    {
      if |p| > 1 {
        var front := p[..|p| - 1];
        forall k | 0 < k < |front| ensures StepAt(h, front, k) {
          assert StepAt(h, p, k);
        }
        PathEndsWithin(h, s, front);
        assert StepAt(h, p, |p| - 1);
      }
    }

    /** The flooded cells are contained in every closed set holding the sources. */
    lemma FloodSetLeast(h: real, s: set<GridLocation>)
      requires Valid() && SourcesIn(s) && Closed(h, s)
      ensures FloodSet(h) <= s
    {
      forall c | c in FloodSet(h) ensures c in s {
        var p :| PathTo(h, p, c);
        PathEndsWithin(h, s, p);
      }
    }

    /** Every source is flooded, whatever its own height. */
    lemma SourcesFlooded(h: real)
      requires Valid()
      ensures SourcesIn(FloodSet(h))
    {
      forall x | x in sources ensures x in FloodSet(h) {
        assert PathTo(h, [x], x);
      }
    }

    /** No water runs out of the flooded cells: with SourcesFlooded and
        FloodSetLeast, they are the least fixed point of spreading water from
        the sources. */
    lemma FloodSetClosed(h: real)
      requires Valid()
      ensures Closed(h, FloodSet(h))
    {
      forall c, d | c in FloodSet(h) && FlowsTo(h, c, d) ensures d in FloodSet(h) {
        var p :| PathTo(h, p, c);
        ExtendPath(h, p, d);
        assert PathTo(h, p + [d], d);
      }
    }

    /** A set of grid cells that holds the sources, keeps the water in, and
        holds only reachable cells is exactly the flooded set. */
    lemma FloodFixpoint(h: real, s: set<GridLocation>)
      requires Valid() && SourcesIn(s) && Closed(h, s)
      requires forall x {:trigger Reachable(h, x)} :: x in s ==> InBounds(x) && Reachable(h, x)
      ensures s == FloodSet(h)
    {
      FloodSetLeast(h, s);
      forall x | x in s ensures x in FloodSet(h) {
        assert Reachable(h, x);
      }
    }

    /** Raising the water never uncovers a cell. */
    lemma FloodMonotone(h1: real, h2: real)
      requires Valid() && h1 <= h2
      ensures FloodSet(h1) <= FloodSet(h2)
    {
      forall c | c in FloodSet(h1) ensures c in FloodSet(h2) {
        var p :| PathTo(h1, p, c);
        forall k | 0 < k < |p| ensures StepAt(h2, p, k) {
          assert StepAt(h1, p, k);
        }
        assert PathTo(h2, p, c);
      }
    }

    /** A flooded cell is a source or lies no higher than the water. */
    lemma FloodedIsLow(h: real, c: GridLocation)
      requires Valid() && c in FloodSet(h)
      ensures c in sources || Height(c) <= h
    {
      var p :| PathTo(h, p, c);
      if |p| > 1 {
        assert StepAt(h, p, |p| - 1);
      }
    }

    /** A flooded cell that is not a source got its water from a flooded
        orthogonal neighbour, and lies no higher than the water. */
    lemma FloodedIsFed(h: real, c: GridLocation)
      requires Valid() && c in FloodSet(h) && c !in sources
      ensures exists d :: d in FloodSet(h) && FlowsTo(h, d, c)
    {
      var p :| PathTo(h, p, c);
      var front := p[..|p| - 1];
      forall k | 0 < k < |front| ensures StepAt(h, front, k) {
        assert StepAt(h, p, k);
      }
      var d := front[|front| - 1];
      assert StepAt(h, p, |p| - 1);
      assert PathTo(h, front, d);
      if |front| > 1 {
        assert StepAt(h, front, |front| - 1);
      }
      assert d in FloodSet(h);
    }

    /** `q'` is `q` followed by cells that `m'` marks and `m` did not. */
    ghost predicate AppendsNew(q: seq<GridLocation>, q': seq<GridLocation>, m: set<GridLocation>, m': set<GridLocation>)
    {
      Extends(q, q') && m <= m' && forall k :: |q| <= k < |q'| ==> q'[k] in m' - m
    }

    lemma AppendsNewTrans(q: seq<GridLocation>, q': seq<GridLocation>, q'': seq<GridLocation>,
                          m: set<GridLocation>, m': set<GridLocation>, m'': set<GridLocation>)
      requires AppendsNew(q, q', m, m') && AppendsNew(q', q'', m', m'')
      ensures AppendsNew(q, q'', m, m'')
    {
      ExtendsTrans(q, q', q'');
      forall k | |q| <= k < |q'| ensures q''[k] in m'' - m {
        assert q''[k] == q''[..|q'|][k];
      }
    }

    /** Worklist invariant: every queued cell is flooded, and every flooded cell
        that is neither queued nor in `except` has no dry neighbour water can enter. */
    ghost predicate Settled(h: real, marked: set<GridLocation>, queue: seq<GridLocation>, except: set<GridLocation>)
    {
      (forall x :: x in queue ==> x in marked) &&
      forall x, y :: x in marked && x !in queue && x !in except && FlowsTo(h, x, y) ==> y in marked
    }

    /** `mask` shows the cells of `marked`, which hold the sources and only
        cells water reaches. */
    ghost predicate Marking(h: real, mask: array2<bool>, marked: set<GridLocation>)
      reads mask
    {
      Valid() && mask.Length0 == Rows() && mask.Length1 == Cols() &&
      Mirrors(mask, marked) && SourcesIn(marked) &&
      (forall x {:trigger Reachable(h, x)} :: x in marked ==> Reachable(h, x))
    }

    /** The state of the flood fill while the neighbours of `from` are being
        looked at: as `Flooding`, except that `from` may still have dry
        neighbours water can enter. */
    ghost predicate Spreading(h: real, mask: array2<bool>, marked: set<GridLocation>,
                              queue: seq<GridLocation>, from: GridLocation)
      reads mask
    {
      Marking(h, mask, marked) && from in marked && Settled(h, marked, queue, {from})
    }

    /** Flood the neighbour (r, c) of the cell `from` if it is on the grid, no
        higher than `h` and still dry, and queue it. */
    method Spill(h: real, mask: array2<bool>, r: int, c: int, queue: seq<GridLocation>,
                 ghost marked: set<GridLocation>, ghost from: GridLocation)
      returns (queue': seq<GridLocation>, ghost marked': set<GridLocation>)
      requires Spreading(h, mask, marked, queue, from) && Orthogonal(from, GridLocation(r, c))
      modifies mask
      ensures Spreading(h, mask, marked', queue', from)
      ensures marked <= marked' && |queue'| + |marked| == |queue| + |marked'|
      ensures FlowsTo(h, from, GridLocation(r, c)) ==> GridLocation(r, c) in marked'
      ensures if FlowsTo(h, from, GridLocation(r, c)) && GridLocation(r, c) !in marked
        then queue' == queue + [GridLocation(r, c)] && marked' == marked + {GridLocation(r, c)}
        else queue' == queue && marked' == marked
      ensures AppendsNew(queue, queue', marked, marked') && AddsOnlySpill(h, from, marked, marked')
    {
      var rows, columns := |terrain|, |terrain[0]|;
      queue', marked' := queue, marked;
      if r >= 0 && r < rows && c >= 0 && c < columns {
        if terrain[r][c] <= h && !mask[r, c] {
          mask[r, c] := true;
          queue' := queue + [GridLocation(r, c)];
          marked' := marked + {GridLocation(r, c)};
          assert Reachable(h, from);
          ghost var p :| PathTo(h, p, from);
          ExtendPath(h, p, GridLocation(r, c));
          assert PathTo(h, p + [GridLocation(r, c)], GridLocation(r, c));
        }
      }
    }

    /** `q'` is `q` with possibly more cells queued after it. */
    ghost predicate Extends(q: seq<GridLocation>, q': seq<GridLocation>)
    {
      |q| <= |q'| && q'[..|q|] == q
    }

    lemma ExtendsTrans(q: seq<GridLocation>, q': seq<GridLocation>, q'': seq<GridLocation>)
      requires Extends(q, q') && Extends(q', q'')
      ensures Extends(q, q'')
    {
      assert q''[..|q|] == q''[..|q'|][..|q|];
    }

    /** Taking the head off the worklist leaves only the head unsettled. */
    lemma PopFront(h: real, marked: set<GridLocation>, queue: seq<GridLocation>)
      requires queue != [] && Settled(h, marked, queue, {})
      ensures Settled(h, marked, queue[1..], {queue[0]})
    {
      assert queue == [queue[0]] + queue[1..];
    }

    /** The state of the flood fill: `mask` shows the cells of `marked`, which
        hold the sources and only cells water reaches, and the worklist
        `queue` holds every marked cell whose neighbours may still be dry. */
    ghost predicate Flooding(h: real, mask: array2<bool>, marked: set<GridLocation>, queue: seq<GridLocation>)
      reads mask
    {
      Marking(h, mask, marked) && Settled(h, marked, queue, {})
    }

    /** One round of the worklist: take the head cell off the queue and spill
        into its four orthogonal neighbours. */
    method Visit(h: real, mask: array2<bool>, queue: seq<GridLocation>, ghost marked: set<GridLocation>)
      returns (queue': seq<GridLocation>, ghost marked': set<GridLocation>)
      requires Flooding(h, mask, marked, queue) && queue != []
      modifies mask
      ensures Flooding(h, mask, marked', queue')
      ensures marked <= marked' <= Cells(Rows(), Cols())
      ensures |queue'| + |marked| + 1 == |queue| + |marked'|
      ensures |queue'| >= |queue| - 1 && queue'[..|queue| - 1] == queue[1..]
      ensures forall k :: |queue| - 1 <= k < |queue'| ==> queue'[k] in marked' - marked
      ensures marked' == marked + Spilled(h, queue[0])
    {
      var r := queue[0].row;
      var c := queue[0].col;
      ghost var here := queue[0];
      StartVisit(h, mask, marked, queue);
      queue' := queue[1..];
      ghost var marked1, marked2, marked3;
      var queue1, queue2, queue3;
      queue1, marked1 := Spill(h, mask, r - 1, c, queue', marked, here);
      queue2, marked2 := Spill(h, mask, r, c - 1, queue1, marked1, here);
      queue3, marked3 := Spill(h, mask, r + 1, c, queue2, marked2, here);
      queue', marked' := Spill(h, mask, r, c + 1, queue3, marked3, here);
      AppendsNewTrans(queue[1..], queue1, queue2, marked, marked1, marked2);
      AppendsNewTrans(queue[1..], queue2, queue3, marked, marked2, marked3);
      AppendsNewTrans(queue[1..], queue3, queue', marked, marked3, marked');
      AddsOnlySpillTrans(h, here, marked, marked1, marked2);
      AddsOnlySpillTrans(h, here, marked, marked2, marked3);
      AddsOnlySpillTrans(h, here, marked, marked3, marked');
      forall y | FlowsTo(h, here, y) ensures y in marked' {
        assert y == GridLocation(r - 1, c) || y == GridLocation(r, c - 1) ||
               y == GridLocation(r + 1, c) || y == GridLocation(r, c + 1);
      }
      SpilledExactly(h, here, marked, marked');
      EndVisit(h, mask, marked', queue', here);
    }

    /** The cells water at level `h` runs into from `from`. */
    ghost function Spilled(h: real, from: GridLocation): (s: set<GridLocation>)
      requires Valid()
      ensures forall y :: y in s <==> FlowsTo(h, from, y)
    {
      set y | y in Cells(Rows(), Cols()) && FlowsTo(h, from, y)
    }

    /** `marked'` adds to `marked` only cells water runs into from `from`. */
    ghost predicate AddsOnlySpill(h: real, from: GridLocation, marked: set<GridLocation>, marked': set<GridLocation>)
    {
      marked <= marked' && forall y :: y in marked' && y !in marked ==> FlowsTo(h, from, y)
    }

    lemma AddsOnlySpillTrans(h: real, from: GridLocation, m: set<GridLocation>, m': set<GridLocation>, m'': set<GridLocation>)
      requires AddsOnlySpill(h, from, m, m') && AddsOnlySpill(h, from, m', m'')
      ensures AddsOnlySpill(h, from, m, m'')
    {
    }

    /** A visit that marks every neighbour water can enter, and nothing else,
        adds exactly the spilled cells. */
    lemma SpilledExactly(h: real, from: GridLocation, marked: set<GridLocation>, marked': set<GridLocation>)
      requires Valid() && AddsOnlySpill(h, from, marked, marked')
      requires forall y :: FlowsTo(h, from, y) ==> y in marked'
      ensures marked' == marked + Spilled(h, from)
    {
    }

    /** Taking the head off the worklist starts spreading from it. */
    lemma StartVisit(h: real, mask: array2<bool>, marked: set<GridLocation>, queue: seq<GridLocation>)
      requires Flooding(h, mask, marked, queue) && queue != []
      ensures Spreading(h, mask, marked, queue[1..], queue[0])
    {
      PopFront(h, marked, queue);
    }

    /** Once every neighbour water can enter from `here` is marked, the fill is
        back in its worklist state. */
    lemma EndVisit(h: real, mask: array2<bool>, marked: set<GridLocation>, queue: seq<GridLocation>, here: GridLocation)
      requires Spreading(h, mask, marked, queue, here)
      requires forall y :: FlowsTo(h, here, y) ==> y in marked
      ensures Flooding(h, mask, marked, queue) && marked <= Cells(Rows(), Cols())
    {
    }

    /** Mark every source in the all-dry mask; the sources are flooded whatever
        their height. */
    method MarkSources(h: real, mask: array2<bool>) returns (ghost marked: set<GridLocation>)
      requires Valid() && mask.Length0 == Rows() && mask.Length1 == Cols()
      requires Mirrors(mask, {})
      modifies mask
      ensures Flooding(h, mask, marked, sources)
      ensures forall x :: x in marked <==> x in sources
    {
      marked := {};
      for k := 0 to |sources|
        invariant Mirrors(mask, marked)
        invariant forall x :: x in marked <==> x in sources[..k]
      {
        assert InBounds(sources[k]);
        mask[sources[k].row, sources[k].col] := true;
        marked := marked + {sources[k]};
      }
      assert sources[..|sources|] == sources;
      SourcesFlooded(h);
    }

    /** Once the worklist is empty the mask shows exactly the flooded cells. */
    lemma FloodDone(h: real, mask: array2<bool>, marked: set<GridLocation>)
      requires Flooding(h, mask, marked, [])
      ensures forall i, j :: 0 <= i < Rows() && 0 <= j < Cols() ==>
        (mask[i, j] <==> GridLocation(i, j) in FloodSet(h))
      ensures forall s {:trigger s in sources} :: s in sources ==> mask[s.row, s.col]
      ensures |marked| <= Rows() * Cols()
    {
      forall x | x in marked ensures InBounds(x) && Reachable(h, x) {
        assert x in Cells(Rows(), Cols());
      }
      FloodFixpoint(h, marked);
      SubsetSize(marked, Cells(Rows(), Cols()));
      CellsCount(Rows(), Cols());
    }

    /** The flood mask at water level `h`: a cell is `true` exactly when water
        from the sources reaches it. `steps` counts the worklist iterations. */
    method FloodedRegionsIn(h: real) returns (mask: array2<bool>, ghost steps: nat)
      requires Valid()
      ensures fresh(mask) && mask.Length0 == Rows() && mask.Length1 == Cols()
      ensures forall i, j :: 0 <= i < Rows() && 0 <= j < Cols() ==>
        (mask[i, j] <==> GridLocation(i, j) in FloodSet(h))
      ensures forall s {:trigger s in sources} :: s in sources ==> mask[s.row, s.col]
      ensures steps <= |sources| + Rows() * Cols()
    {
      var rows := |terrain|;
      var columns := |terrain[0]|;
      mask := new bool[rows, columns]((i, j) => false);
      ghost var marked := MarkSources(h, mask);
      var queue := sources;
      steps := 0;
      while queue != []
        invariant Flooding(h, mask, marked, queue)
        invariant steps + |queue| <= |sources| + |marked|
        decreases Cells(Rows(), Cols()) - marked, |queue|
      {
        ghost var marked0 := marked;
        queue, marked := Visit(h, mask, queue, marked);
        if marked != marked0 {
          UnmarkedShrinks(Cells(Rows(), Cols()), marked0, marked);
        }
        steps := steps + 1;
      }
      FloodDone(h, mask, marked);
    }

    /** Whether `cell` is under water at level `h`. */
    method IsFlooded(h: real, cell: GridLocation) returns (flooded: bool)
      requires Valid() && InBounds(cell)
      ensures flooded <==> cell in FloodSet(h)
      ensures cell in sources ==> flooded
      ensures flooded && cell !in sources ==> Height(cell) <= h
    {
      var r := cell.row;
      var c := cell.col;
      var floodedRegions;
      ghost var steps;
      floodedRegions, steps := FloodedRegionsIn(h);
      flooded := floodedRegions[r, c];
      if flooded { FloodedIsLow(h, cell); }
    }

    /** How far `cell` stands above the water (negative: below it). */
    function HeightAboveWater(h: real, cell: GridLocation): (above: real)
      requires InBounds(cell)
      ensures above > 0.0 <==> Height(cell) > h
      ensures above < 0.0 <==> Height(cell) < h
      ensures above + h == Height(cell)
    {
      var terrainHeight := terrain[cell.row][cell.col];
      terrainHeight - h
    }

    /** A cell standing above the water stays visible unless it is a source. */
    lemma AboveWaterIsDry(h: real, cell: GridLocation)
      requires Valid() && InBounds(cell) && cell !in sources
      requires HeightAboveWater(h, cell) > 0.0
      ensures cell in DryLand(h)
    {
      if cell in FloodSet(h) {
        FloodedIsLow(h, cell);
      }
    }

    /** Visible and flooded cells together make up the whole grid. */
    lemma LandAndWater(h: real)
      requires Valid()
      ensures |DryLand(h)| + |FloodSet(h)| == Rows() * Cols()
      ensures |DryLand(h)| <= Rows() * Cols()
    {
      var all := Cells(Rows(), Cols());
      assert all == DryLand(h) + FloodSet(h);
      CellsCount(Rows(), Cols());
    }

    /** Raising the water never adds visible land. */
    lemma VisibleLandShrinks(h1: real, h2: real)
      requires Valid() && h1 <= h2
      ensures |DryLand(h2)| <= |DryLand(h1)|
    {
      FloodMonotone(h1, h2);
      SubsetSize(DryLand(h2), DryLand(h1));
    }

    /** The number of cells not under water at level `h`. */
    method TotalVisibleLand(h: real) returns (vis: nat)
      requires Valid()
      ensures vis == |DryLand(h)|
      ensures vis + |FloodSet(h)| == Rows() * Cols()
    {
      var arr;
      ghost var steps;
      arr, steps := FloodedRegionsIn(h);
      ghost var dry := DryLand(h);
      ghost var seen: set<GridLocation> := {};
      vis := 0;
      for i := 0 to |terrain|
        invariant forall x {:trigger x in seen} {:trigger x in dry} :: x in seen <==> x in dry && x.row < i
        invariant vis == |seen|
      {
        for j := 0 to |terrain[0]|
          invariant forall x :: x in seen <==> x in dry && Scanned(x, i, j)
          invariant vis == |seen|
        {
          if !arr[i, j] {
            vis := vis + 1;
            seen := seen + {GridLocation(i, j)};
          }
        }
      }
      assert seen == dry;
      LandAndWater(h);
    }

    /** Visible land lost when the water goes from `h` to `newHeight`
        (negative: land gained). */
    method LandLost(h: real, newHeight: real) returns (lost: int)
      requires Valid()
      ensures lost == |DryLand(h)| - |DryLand(newHeight)|
      ensures h <= newHeight ==> lost >= 0
      ensures newHeight <= h ==> lost <= 0
      ensures newHeight == h ==> lost == 0
    {
      var availableNow: int := TotalVisibleLand(h);
      var availableLater: int := TotalVisibleLand(newHeight);
      lost := availableNow - availableLater;
      if h <= newHeight {
        VisibleLandShrinks(h, newHeight);
      } else {
        VisibleLandShrinks(newHeight, h);
      }
    }

    /** The lowest and the highest height of the terrain. */
    method ElevationExtrema() returns (lowest: real, highest: real)
      requires Valid() && |terrain[0]| > 0
      ensures lowest <= highest
      ensures forall c :: InBounds(c) ==> lowest <= Height(c) <= highest
      ensures exists c :: InBounds(c) && Height(c) == lowest
      ensures exists c :: InBounds(c) && Height(c) == highest
    {
      var max := terrain[0][0];
      var min := terrain[0][0];
      ghost var minAt, maxAt := GridLocation(0, 0), GridLocation(0, 0);
      for i := 0 to |terrain|
        invariant min <= max
        invariant InBounds(minAt) && Height(minAt) == min
        invariant InBounds(maxAt) && Height(maxAt) == max
        invariant forall c {:trigger Height(c)} :: InBounds(c) && c.row < i ==> min <= Height(c) <= max
      {
        for j := 0 to |terrain[i]|
          invariant min <= max
          invariant InBounds(minAt) && Height(minAt) == min
          invariant InBounds(maxAt) && Height(maxAt) == max
          invariant forall c :: InBounds(c) && Scanned(c, i, j) ==> min <= Height(c) <= max
        {
          if terrain[i][j] > max {
            max := terrain[i][j];
            maxAt := GridLocation(i, j);
          } else if terrain[i][j] < min {
            min := terrain[i][j];
            minAt := GridLocation(i, j);
          }
        }
      }
      lowest, highest := min, max;
    }

    /** The number of islands at water level `h`: the 8-connected groups of
        visible cells, cells touching only at a corner included. */
    method NumOfIslands(h: real) returns (count: nat)
      requires Valid()
      ensures count == |Islands(DryLand(h))|
      ensures count <= |DryLand(h)|
      ensures DryLand(h) == {} ==> count == 0
    {
      var isFlooded;
      ghost var steps;
      isFlooded, steps := FloodedRegionsIn(h);
      ghost var dry := DryLand(h);
      assert DryMask(isFlooded, dry);
      var uf := JoinLand(isFlooded, dry);
      count := CountRoots(uf, isFlooded, dry);

      LabelsCountIslands(dry, RootOf(uf, dry));
      IslandsNoMore(dry);
    }
  }
}
