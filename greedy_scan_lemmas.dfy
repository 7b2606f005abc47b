/**
 * What one slice's scan emits: well-placed rectangles of one material,
 * pairwise disjoint, covering exactly the exposed cells.
 */
module GreedyScanLemmas {
  import opened Voxel
  import opened GreedyScan

  /** Every rectangle in rs is well placed. */
  ghost predicate AllRectsOk(g: Grid, rs: seq<Rect>)
    requires g.Valid()
  {
    forall k :: 0 <= k < |rs| ==> RectOk(g, rs[k])
  }

  /** No rectangle in rs covers a cell of used. */
  ghost predicate AvoidsUsed(rs: seq<Rect>, used: set<Cell>) {
    forall k :: 0 <= k < |rs| ==> RectCells(rs[k]) !! used
  }

  /** No two rectangles in rs share a cell. */
  ghost predicate PairwiseDisjoint(rs: seq<Rect>) {
    forall k, l :: 0 <= k < l < |rs| ==> RectCells(rs[k]) !! RectCells(rs[l])
  }

  /** Every rectangle a scan emits is non-empty, inside the mask, and made of exposed cells of its seed's type. */
  lemma {:induction false} ScanRectsOk(g: Grid, used: set<Cell>, r: int, c: int)
    requires g.Valid() && 0 <= r <= g.rows && 0 <= c <= g.cols
    ensures AllRectsOk(g, Scan(g, used, r, c))
    decreases g.rows - r, g.cols - c
  {
    if r == g.rows {
    } else if c == g.cols {
      ScanRectsOk(g, used, r + 1, 0);
    } else if (r, c) in used || !g.exposed[r][c] {
      ScanRectsOk(g, used, r, c + 1);
    } else {
      var q := Seed(g, used, r, c);
      var rest := Scan(g, used + RectCells(q), r, c + 1);
      ScanRectsOk(g, used + RectCells(q), r, c + 1);
      assert RectOk(g, q);
      var rs := [q] + rest;
      forall k | 0 <= k < |rs| ensures RectOk(g, rs[k]) {
        if k > 0 {
          assert rs[k] == rest[k - 1];
        }
      }
    }
  }

  /**
   * A scan's rectangles avoid the cells already in a quad and are pairwise
   * disjoint: no face is covered twice.
   */
  lemma {:induction false} ScanDisjoint(g: Grid, used: set<Cell>, r: int, c: int)
    requires g.Valid() && 0 <= r <= g.rows && 0 <= c <= g.cols
    ensures AvoidsUsed(Scan(g, used, r, c), used)
    ensures PairwiseDisjoint(Scan(g, used, r, c))
    decreases g.rows - r, g.cols - c
  {
    if r == g.rows {
    } else if c == g.cols {
      ScanDisjoint(g, used, r + 1, 0);
    } else if (r, c) in used || !g.exposed[r][c] {
      ScanDisjoint(g, used, r, c + 1);
    } else {
      var q := Seed(g, used, r, c);
      ScanDisjoint(g, used + RectCells(q), r, c + 1);
      SeedAvoidsUsed(g, used, r, c);
      ConsDisjoint(q, Scan(g, used + RectCells(q), r, c + 1), used);
    }
  }

  /** The seeded rectangle covers no cell that is already in a quad. */
  lemma SeedAvoidsUsed(g: Grid, used: set<Cell>, r: int, c: int)
    requires g.Valid() && g.InMask(r, c) && g.exposed[r][c] && (r, c) !in used
    ensures RectCells(Seed(g, used, r, c)) !! used
  {
    var q := Seed(g, used, r, c);
    forall p | p in RectCells(q) ensures p !in used {
      assert CellFree(g, used, p.0, p.1, q.blockType);
    }
  }

  /** Prepending a rectangle that avoids used to rectangles that avoid used and it keeps both properties. */
  lemma ConsDisjoint(q: Rect, rest: seq<Rect>, used: set<Cell>)
    requires RectCells(q) !! used
    requires AvoidsUsed(rest, used + RectCells(q)) && PairwiseDisjoint(rest)
    ensures AvoidsUsed([q] + rest, used) && PairwiseDisjoint([q] + rest)
  {
    var rs := [q] + rest;
    forall k, l | 0 <= k < l < |rs| ensures RectCells(rs[k]) !! RectCells(rs[l]) {
      assert rs[l] == rest[l - 1];
      assert RectCells(rest[l - 1]) !! used + RectCells(q);
      if k > 0 {
        assert rs[k] == rest[k - 1];
      }
    }
    forall k | 0 <= k < |rs| ensures RectCells(rs[k]) !! used {
      if k > 0 {
        assert rs[k] == rest[k - 1];
        assert RectCells(rest[k - 1]) !! used + RectCells(q);
      }
    }
  }

  lemma {:induction false} CellsOfCons(q: Rect, rest: seq<Rect>)
    ensures CellsOf([q] + rest) == RectCells(q) + CellsOf(rest)
    decreases |rest|
  {
    if rest != [] {
      var s := [q] + rest;
      assert s[..|s| - 1] == [q] + rest[..|rest| - 1];
      CellsOfCons(q, rest[..|rest| - 1]);
    } else {
      assert ([q] + rest)[..0] == [];
    }
  }

  /** The scan's invariant: the cells in a quad are exposed, and every exposed cell before (r, c) is in a quad. */
  ghost predicate ScanInv(g: Grid, used: set<Cell>, r: int, c: int)
    requires g.Valid()
  {
    && used <= ExposedCells(g)
    && forall i, j :: g.InMask(i, j) && Before(i, j, r, c) && g.exposed[i][j] ==> (i, j) in used
  }

  /** Started from its invariant, a scan ends with exactly the exposed cells in quads. */
  lemma {:induction false} ScanCovers(g: Grid, used: set<Cell>, r: int, c: int)
    requires g.Valid() && 0 <= r <= g.rows && 0 <= c <= g.cols
    requires ScanInv(g, used, r, c)
    ensures used + CellsOf(Scan(g, used, r, c)) == ExposedCells(g)
    decreases g.rows - r, g.cols - c, 1
  {
    if r == g.rows {
      InvAtEnd(g, used, c);
    } else if c == g.cols {
      ScanCoversWrap(g, used, r);
    } else if (r, c) in used || !g.exposed[r][c] {
      ScanCoversSkip(g, used, r, c);
    } else {
      ScanCoversSeed(g, used, r, c);
    }
  }

  lemma {:induction false} ScanCoversWrap(g: Grid, used: set<Cell>, r: int)
    requires g.Valid() && 0 <= r < g.rows
    requires ScanInv(g, used, r, g.cols)
    ensures used + CellsOf(Scan(g, used, r, g.cols)) == ExposedCells(g)
    decreases g.rows - r, 0, 0
  {
    InvNextRow(g, used, r);
    ScanWraps(g, used, r);
    ScanCovers(g, used, r + 1, 0);
  }

  lemma {:induction false} ScanCoversSkip(g: Grid, used: set<Cell>, r: int, c: int)
    requires g.Valid() && g.InMask(r, c) && ((r, c) in used || !g.exposed[r][c])
    requires ScanInv(g, used, r, c)
    ensures used + CellsOf(Scan(g, used, r, c)) == ExposedCells(g)
    decreases g.rows - r, g.cols - c, 0
  {
    InvSkip(g, used, r, c);
    ScanSkips(g, used, r, c);
    ScanCovers(g, used, r, c + 1);
  }

  lemma {:induction false} ScanCoversSeed(g: Grid, used: set<Cell>, r: int, c: int)
    requires g.Valid() && g.InMask(r, c) && (r, c) !in used && g.exposed[r][c]
    requires ScanInv(g, used, r, c)
    ensures used + CellsOf(Scan(g, used, r, c)) == ExposedCells(g)
    decreases g.rows - r, g.cols - c, 0
  {
    var q := Seed(g, used, r, c);
    InvSeed(g, used, r, c);
    var rest := Scan(g, used + RectCells(q), r, c + 1);
    ScanCovers(g, used + RectCells(q), r, c + 1);
    ScanSeeds(g, used, r, c);
    CoversCons(used, q, rest, ExposedCells(g));
  }

  /** Covering with q in front of rest is covering q's cells first and then rest's. */
  lemma CoversCons(used: set<Cell>, q: Rect, rest: seq<Rect>, all: set<Cell>)
    requires (used + RectCells(q)) + CellsOf(rest) == all
    ensures used + CellsOf([q] + rest) == all
  {
    CellsOfCons(q, rest);
  }

  lemma InvAtEnd(g: Grid, used: set<Cell>, c: int)
    requires g.Valid() && ScanInv(g, used, g.rows, c)
    ensures used == ExposedCells(g)
  {
    forall p | p in ExposedCells(g) ensures p in used {
      assert Before(p.0, p.1, g.rows, c);
    }
  }

  lemma InvNextRow(g: Grid, used: set<Cell>, r: int)
    requires g.Valid() && ScanInv(g, used, r, g.cols)
    ensures ScanInv(g, used, r + 1, 0)
  {
    forall i, j | g.InMask(i, j) && Before(i, j, r + 1, 0) && g.exposed[i][j]
      ensures (i, j) in used
    {
      assert Before(i, j, r, g.cols);
    }
  }

  lemma InvSkip(g: Grid, used: set<Cell>, r: int, c: int)
    requires g.Valid() && g.InMask(r, c) && ScanInv(g, used, r, c)
    requires (r, c) in used || !g.exposed[r][c]
    ensures ScanInv(g, used, r, c + 1)
  {
    forall i, j | g.InMask(i, j) && Before(i, j, r, c + 1) && g.exposed[i][j]
      ensures (i, j) in used
    {
      if !(i == r && j == c) {
        assert Before(i, j, r, c);
      }
    }
  }

  lemma InvSeed(g: Grid, used: set<Cell>, r: int, c: int)
    requires g.Valid() && g.InMask(r, c) && ScanInv(g, used, r, c)
    requires (r, c) !in used && g.exposed[r][c]
    ensures ScanInv(g, used + RectCells(Seed(g, used, r, c)), r, c + 1)
  {
    var q := Seed(g, used, r, c);
    assert RectCells(q) <= ExposedCells(g) by {
      forall p | p in RectCells(q) ensures p in ExposedCells(g) {
        assert CellFree(g, used, p.0, p.1, q.blockType);
      }
    }
    assert (r, c) in RectCells(q);
    forall i, j | g.InMask(i, j) && Before(i, j, r, c + 1) && g.exposed[i][j]
      ensures (i, j) in used + RectCells(q)
    {
      if !(i == r && j == c) {
        assert Before(i, j, r, c);
      }
    }
  }

  /**
   * One slice's rectangles partition its exposed faces: each is well
   * placed and of one material, no two overlap, and together they cover
   * every exposed cell, so at the end of the slice `inAQuad` equals
   * `uncovered` and every exposed face is in exactly one quad.
   */
  lemma GridRectsPartition(g: Grid)
    requires g.Valid()
    ensures AllRectsOk(g, GridRects(g))
    ensures PairwiseDisjoint(GridRects(g))
    ensures CellsOf(GridRects(g)) == ExposedCells(g)
  {
    ScanRectsOk(g, {}, 0, 0);
    ScanDisjoint(g, {}, 0, 0);
    ScanCovers(g, {}, 0, 0);
  }

  /** No exposed cell at or after (r, c) is outside a quad. */
  ghost predicate NothingLeft(g: Grid, used: set<Cell>, r: int, c: int)
    requires g.Valid()
  {
    forall i, j :: g.InMask(i, j) && !Before(i, j, r, c) && g.exposed[i][j] ==> (i, j) in used
  }

  /** A scan emits nothing exactly when no exposed cell is left for it to reach. */
  lemma {:induction false} ScanEmptyIff(g: Grid, used: set<Cell>, r: int, c: int)
    requires g.Valid() && 0 <= r <= g.rows && 0 <= c <= g.cols
    ensures Scan(g, used, r, c) == [] <==> NothingLeft(g, used, r, c)
    decreases g.rows - r, g.cols - c
  {
    if r == g.rows {
    } else if c == g.cols {
      ScanEmptyIff(g, used, r + 1, 0);
      assert NothingLeft(g, used, r, c) <==> NothingLeft(g, used, r + 1, 0) by {
        forall i, j | g.InMask(i, j) ensures Before(i, j, r, c) <==> Before(i, j, r + 1, 0) { }
      }
    } else if (r, c) in used || !g.exposed[r][c] {
      ScanEmptyIff(g, used, r, c + 1);
      assert NothingLeft(g, used, r, c) <==> NothingLeft(g, used, r, c + 1) by {
        forall i, j | g.InMask(i, j) && g.exposed[i][j] && (i, j) !in used
          ensures Before(i, j, r, c) <==> Before(i, j, r, c + 1) { }
      }
    } else {
      assert !NothingLeft(g, used, r, c) by {
        assert !Before(r, c, r, c);
      }
    }
  }

  /** A cell is covered by a list of rectangles exactly when one of them contains it. */
  lemma {:induction false} CellsOfMembers(rs: seq<Rect>, i: int, j: int)
    ensures (i, j) in CellsOf(rs) <==> exists k :: 0 <= k < |rs| && InRect(rs[k], i, j)
    decreases |rs|
  {
    if rs != [] {
      var init := rs[..|rs| - 1];
      CellsOfMembers(init, i, j);
      if (i, j) in CellsOf(init) {
        var k :| 0 <= k < |init| && InRect(init[k], i, j);
        assert rs[k] == init[k];
      }
      if k :| 0 <= k < |rs| && InRect(rs[k], i, j) {
        if k < |init| {
          assert init[k] == rs[k];
        }
      }
    }
  }
}
