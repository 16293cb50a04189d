/** One tick of the simulation (`animate_snow`), as a function of the moving
    flakes and the static set before the tick. The method that runs it,
    mutating the static set, is `App.Snowfall.AnimateSnow`. */
module Tick {
  import opened Dicts
  import opened Flakes

  /** The static set and the fresh moving set while a tick is under way. */
  datatype TickState = TickState(snowStatic: StaticSet, newSnow: MovingSet)

  /** The cell one row down. */
  function Below(p: Pos): Pos
  {
    (p.0 + 1, p.1)
  }

  /** A flake at `pos` becomes static: it is on the bottom row, or the cell
      below it is blocked. */
  predicate Lands(snowStatic: StaticSet, pos: Pos, height: int)
  {
    pos.0 == height - 1 || !CanFallThrough(snowStatic, pos.1, pos.0 + 1)
  }

  /** One iteration of the loop over `snow.items()`. */
  function StepFlake(s: TickState, entry: (Pos, Flake), height: int): TickState
  {
    var (pos, flake) := entry;
    if Lands(s.snowStatic, pos, height) then
      TickState(s.snowStatic[pos := flake], s.newSnow)
    else
      var below := Below(pos);
      var st := if below in s.snowStatic && IsPlaceholder(s.snowStatic[below])
                then s.snowStatic - {below} else s.snowStatic;
      TickState(st, Put(s.newSnow, below, flake))
  }

  /** The cells where the first `n` moving flakes start. */
  function StartCells(snow: MovingSet, n: nat): set<Pos>
    requires n <= |snow|
  {
    set i | 0 <= i < n :: snow[i].0
  }

  lemma StartCellsOneMore(snow: MovingSet, n: nat)
    requires n < |snow|
    ensures StartCells(snow, n + 1) == StartCells(snow, n) + {snow[n].0}
  {
    assert snow[n].0 in StartCells(snow, n + 1);
  }

  /** The state after the loop has handled the first `n` entries of `snow`,
      starting from an empty `new_snow`. The new moving set is a dict with
      never more entries than flakes handled. */
  function AdvanceUpTo(snow: MovingSet, n: nat, snowStatic: StaticSet, height: int): (r: TickState)
    requires n <= |snow|
    ensures DistinctKeys(r.newSnow)
    ensures |r.newSnow| <= n
  {
    if n == 0 then TickState(snowStatic, [])
    else StepFlake(AdvanceUpTo(snow, n - 1, snowStatic, height), snow[n - 1], height)
  }

  /** One step adds at most the cell below the flake to the new moving set. */
  lemma StepOrigin(s: TickState, entry: (Pos, Flake), height: int)
    ensures KeySet(StepFlake(s, entry, height).newSnow) <= KeySet(s.newSnow) + {Below(entry.0)}
  {
  }

  /** Every entry of the new moving set comes from one of the flakes handled,
      one row above it. */
  lemma {:induction false} AdvanceOrigins(snow: MovingSet, n: nat, st: StaticSet, height: int)
    requires n <= |snow|
    ensures forall q :: q in KeySet(AdvanceUpTo(snow, n, st, height).newSnow) ==>
      (q.0 - 1, q.1) in StartCells(snow, n)
  {
    if n > 0 {
      AdvanceOrigins(snow, n - 1, st, height);
      StartCellsOneMore(snow, n - 1);
      var s := AdvanceUpTo(snow, n - 1, st, height);
      StepOrigin(s, snow[n - 1], height);
      var b := Below(snow[n - 1].0);
      assert (b.0 - 1, b.1) == snow[n - 1].0;
    }
  }

  /** `animate_snow`: the whole loop. */
  function Advance(snow: MovingSet, snowStatic: StaticSet, height: int): TickState
  {
    AdvanceUpTo(snow, |snow|, snowStatic, height)
  }

  /** Every key of the set lies in rows `[lo, height)` and columns `[0, width)`. */
  ghost predicate InGrid(keys: set<Pos>, lo: int, height: int, width: int)
  {
    forall p :: p in keys ==> lo <= p.0 < height && 0 <= p.1 < width
  }

  /** One step keeps the new moving set on rows `[1, height)`. */
  lemma StepRows(s: TickState, entry: (Pos, Flake), height: int, width: int)
    requires InGrid(KeySet(s.newSnow), 1, height, width)
    requires 0 <= entry.0.0 < height && 0 <= entry.0.1 < width
    ensures InGrid(KeySet(StepFlake(s, entry, height).newSnow), 1, height, width)
  {
    StepOrigin(s, entry, height);
  }

  /** If every moving flake is inside the grid, every flake still moving after
      the tick is on rows 1 to `height - 1`. */
  lemma {:induction false} AdvanceRows(snow: MovingSet, n: nat, st: StaticSet, height: int, width: int)
    requires n <= |snow| && InGrid(KeySet(snow), 0, height, width)
    ensures InGrid(KeySet(AdvanceUpTo(snow, n, st, height).newSnow), 1, height, width)
  {
    if n > 0 {
      AdvanceRows(snow, n - 1, st, height, width);
      assert snow[n - 1].0 in KeySet(snow);
      StepRows(AdvanceUpTo(snow, n - 1, st, height), snow[n - 1], height, width);
    }
  }

  /** A cell that gains or changes its static entry holds the moving flake that
      started there (one of `cells`; `moving` maps start cells to flakes). */
  ghost predicate WritesWithin(st: StaticSet, moving: map<Pos, Flake>, cells: set<Pos>, r: TickState)
  {
    forall p :: p in r.snowStatic && (p !in st || r.snowStatic[p] != st[p]) ==>
      p in cells && p in moving && r.snowStatic[p] == moving[p]
  }

  /** A cell that loses its static entry held a placeholder, before the tick
      or as the landed flake of that cell, and now holds a falling flake. */
  ghost predicate DeletesWithin(st: StaticSet, moving: map<Pos, Flake>, cells: set<Pos>, r: TickState)
  {
    forall p :: p in st && p !in r.snowStatic ==>
      && p in KeySet(r.newSnow)
      && (IsPlaceholder(st[p]) || (p in cells && p in moving && IsPlaceholder(moving[p])))
  }

  /** A landing flake keeps the changes to the static set within bounds. */
  lemma StepLandsWithin(st: StaticSet, moving: map<Pos, Flake>, cells: set<Pos>, s: TickState,
                        pos: Pos, height: int)
    requires pos in moving
    requires WritesWithin(st, moving, cells, s) && DeletesWithin(st, moving, cells, s)
    requires Lands(s.snowStatic, pos, height)
    ensures var r := StepFlake(s, (pos, moving[pos]), height);
      WritesWithin(st, moving, cells + {pos}, r) && DeletesWithin(st, moving, cells + {pos}, r)
  {
    var r := StepFlake(s, (pos, moving[pos]), height);
    assert r.snowStatic == s.snowStatic[pos := moving[pos]] && r.newSnow == s.newSnow;
    forall p | p in r.snowStatic && (p !in st || r.snowStatic[p] != st[p])
      ensures p in cells + {pos} && p in moving && r.snowStatic[p] == moving[p]
    {
      if p != pos {
        assert p in s.snowStatic && s.snowStatic[p] == r.snowStatic[p];
      }
    }
  }

  /** A falling flake keeps the changes to the static set within bounds. */
  lemma StepFallsWithin(st: StaticSet, moving: map<Pos, Flake>, cells: set<Pos>, s: TickState,
                        pos: Pos, height: int)
    requires pos in moving
    requires WritesWithin(st, moving, cells, s) && DeletesWithin(st, moving, cells, s)
    requires !Lands(s.snowStatic, pos, height)
    ensures var r := StepFlake(s, (pos, moving[pos]), height);
      WritesWithin(st, moving, cells + {pos}, r) && DeletesWithin(st, moving, cells + {pos}, r)
  {
    var r := StepFlake(s, (pos, moving[pos]), height);
    var below := Below(pos);
    assert r.newSnow == Put(s.newSnow, below, moving[pos]);
    assert below in KeySet(r.newSnow);
    assert r.snowStatic.Keys <= s.snowStatic.Keys;
    assert forall p :: p in r.snowStatic ==> r.snowStatic[p] == s.snowStatic[p];
    forall p | p in st && p !in r.snowStatic
      ensures && p in KeySet(r.newSnow)
              && (IsPlaceholder(st[p]) || (p in cells + {pos} && p in moving && IsPlaceholder(moving[p])))
    {
      if p in s.snowStatic {
        assert p == below && IsPlaceholder(s.snowStatic[p]);
      }
    }
  }

  /** `moving` maps each start cell in `snow` to the flake starting there. */
  ghost predicate Agrees(snow: MovingSet, moving: map<Pos, Flake>)
  {
    forall j :: 0 <= j < |snow| ==> snow[j].0 in moving && moving[snow[j].0] == snow[j].1
  }

  /** The step of flake `n` keeps the changes to the static set within the
      bounds, now counting its own start cell. */
  lemma StaticChangesStep(snow: MovingSet, moving: map<Pos, Flake>, n: nat, st: StaticSet, height: int)
    requires Agrees(snow, moving) && n < |snow|
    requires var s := AdvanceUpTo(snow, n, st, height);
      WritesWithin(st, moving, StartCells(snow, n), s) && DeletesWithin(st, moving, StartCells(snow, n), s)
    ensures var r := AdvanceUpTo(snow, n + 1, st, height);
      WritesWithin(st, moving, StartCells(snow, n + 1), r) && DeletesWithin(st, moving, StartCells(snow, n + 1), r)
  {
    StartCellsOneMore(snow, n);
    var s := AdvanceUpTo(snow, n, st, height);
    var pos := snow[n].0;
    assert snow[n] == (pos, moving[pos]);
    if Lands(s.snowStatic, pos, height) {
      StepLandsWithin(st, moving, StartCells(snow, n), s, pos, height);
    } else {
      StepFallsWithin(st, moving, StartCells(snow, n), s, pos, height);
    }
  }

  /** During a tick the static set changes only in the two ways
      `WritesWithin` and `DeletesWithin` allow. */
  lemma {:induction false} AdvanceStaticChanges(snow: MovingSet, moving: map<Pos, Flake>, n: nat,
                                                 st: StaticSet, height: int)
    requires Agrees(snow, moving) && n <= |snow|
    ensures var r := AdvanceUpTo(snow, n, st, height);
      && WritesWithin(st, moving, StartCells(snow, n), r)
      && DeletesWithin(st, moving, StartCells(snow, n), r)
  {
    if n > 0 {
      AdvanceStaticChanges(snow, moving, n - 1, st, height);
      StaticChangesStep(snow, moving, n - 1, st, height);
    }
  }

  /** Nothing else changes: a cell where none of the first `n` flakes starts
      and into which none falls keeps its static entry, or its absence. */
  lemma AdvanceStaticFrame(snow: MovingSet, n: nat, st: StaticSet, height: int, p: Pos)
    requires DistinctKeys(snow) && n <= |snow|
    requires p !in StartCells(snow, n) && p !in KeySet(AdvanceUpTo(snow, n, st, height).newSnow)
    ensures var r := AdvanceUpTo(snow, n, st, height);
      (p in st <==> p in r.snowStatic) && (p in st ==> r.snowStatic[p] == st[p])
  {
    AdvanceStaticChanges(snow, ToMap(snow), n, st, height);
  }

  /** Static cells after the tick are static cells from before or start cells
      of moving flakes; so the static set stays inside the grid. */
  lemma AdvanceStaticInGrid(snow: MovingSet, st: StaticSet, height: int, width: int)
    requires DistinctKeys(snow)
    requires InGrid(KeySet(snow), 0, height, width) && InGrid(st.Keys, 0, height, width)
    ensures Advance(snow, st, height).snowStatic.Keys <= st.Keys + KeySet(snow)
    ensures InGrid(Advance(snow, st, height).snowStatic.Keys, 0, height, width)
  {
    AdvanceStaticChanges(snow, ToMap(snow), |snow|, st, height);
  }

  /** A static flake that is not a placeholder, in a cell where no moving flake
      starts, is still there after the tick. */
  lemma StaticFlakeStays(snow: MovingSet, st: StaticSet, height: int, p: Pos)
    requires DistinctKeys(snow)
    requires p in st && !IsPlaceholder(st[p]) && p !in KeySet(snow)
    ensures var r := Advance(snow, st, height);
      p in r.snowStatic && r.snowStatic[p] == st[p]
  {
    AdvanceStaticChanges(snow, ToMap(snow), |snow|, st, height);
    assert p !in StartCells(snow, |snow|);
  }

  /** Every flake in the moving set has a symbol from `symbols`. */
  ghost predicate MovingDrawnFrom(d: MovingSet, symbols: set<string>)
  {
    forall e :: e in d ==> e.1.symbol in symbols
  }

  /** Every flake in the static set has a symbol from `symbols`. */
  ghost predicate StaticDrawnFrom(st: StaticSet, symbols: set<string>)
  {
    forall p :: p in st ==> st[p].symbol in symbols
  }

  lemma StepDrawnFrom(s: TickState, entry: (Pos, Flake), height: int, symbols: set<string>)
    requires MovingDrawnFrom(s.newSnow, symbols) && StaticDrawnFrom(s.snowStatic, symbols)
    requires entry.1.symbol in symbols
    ensures var r := StepFlake(s, entry, height);
      MovingDrawnFrom(r.newSnow, symbols) && StaticDrawnFrom(r.snowStatic, symbols)
  {
    var r := StepFlake(s, entry, height);
    if !Lands(s.snowStatic, entry.0, height) {
      var below := Below(entry.0);
      assert r.newSnow == Put(s.newSnow, below, entry.1);
      PutKeepsOthers(s.newSnow, below, entry.1);
    }
  }

  /** A tick only moves flakes about: if every flake, moving or static, has a
      symbol from `symbols`, so does every flake after the tick. */
  lemma {:induction false} AdvanceDrawnFrom(snow: MovingSet, n: nat, st: StaticSet, height: int,
                                             symbols: set<string>)
    requires n <= |snow| && MovingDrawnFrom(snow, symbols) && StaticDrawnFrom(st, symbols)
    ensures var r := AdvanceUpTo(snow, n, st, height);
      MovingDrawnFrom(r.newSnow, symbols) && StaticDrawnFrom(r.snowStatic, symbols)
  {
    if n > 0 {
      AdvanceDrawnFrom(snow, n - 1, st, height, symbols);
      assert snow[n - 1] in snow;
      StepDrawnFrom(AdvanceUpTo(snow, n - 1, st, height), snow[n - 1], height, symbols);
    }
  }

  /** The flake that started at `pos` became static: no flake moves on from
      `pos`, and `pos` holds it, unless it was a placeholder that a later flake
      fell into. */
  ghost predicate Landed(r: TickState, pos: Pos, f: Flake)
  {
    && Below(pos) !in KeySet(r.newSnow)
    && ((pos in r.snowStatic && r.snowStatic[pos] == f)
        || (IsPlaceholder(f) && pos in KeySet(r.newSnow)))
  }

  /** The flake that started at `pos` moved one row down, and the cell below
      has no static entry, unless a moving flake started there
      (`belowStarts`) and may have landed in it. */
  ghost predicate Fell(r: TickState, pos: Pos, f: Flake, belowStarts: bool)
  {
    && (Below(pos), f) in r.newSnow
    && (Below(pos) !in r.snowStatic || belowStarts)
  }

  /** The step for a flake itself, when nothing has yet fallen below it. */
  lemma OutcomeAtStep(s: TickState, pos: Pos, f: Flake, height: int, belowStarts: bool)
    requires DistinctKeys(s.newSnow) && Below(pos) !in KeySet(s.newSnow)
    ensures var r := StepFlake(s, (pos, f), height);
      if Lands(s.snowStatic, pos, height) then Landed(r, pos, f) else Fell(r, pos, f, belowStarts)
  {
  }

  /** A later flake, starting elsewhere, leaves a landing in place. */
  lemma LandedPersists(s: TickState, pos: Pos, f: Flake, entry: (Pos, Flake), height: int)
    requires DistinctKeys(s.newSnow) && Landed(s, pos, f) && entry.0 != pos
    ensures Landed(StepFlake(s, entry, height), pos, f)
  {
    var r := StepFlake(s, entry, height);
    if !Lands(s.snowStatic, entry.0, height) {
      assert Below(entry.0) != Below(pos);
      assert r.newSnow == Put(s.newSnow, Below(entry.0), entry.1);
    }
  }

  /** A later flake, starting elsewhere, leaves a fall in place. */
  lemma FellPersists(s: TickState, pos: Pos, f: Flake, belowStarts: bool, entry: (Pos, Flake), height: int)
    requires Fell(s, pos, f, belowStarts) && entry.0 != pos
    requires entry.0 == Below(pos) ==> belowStarts
    ensures Fell(StepFlake(s, entry, height), pos, f, belowStarts)
  {
    var r := StepFlake(s, entry, height);
    if !Lands(s.snowStatic, entry.0, height) {
      assert Below(entry.0) != Below(pos);
      assert r.newSnow == Put(s.newSnow, Below(entry.0), entry.1);
      PutKeepsOthers(s.newSnow, Below(entry.0), entry.1);
    }
  }

  /** Nothing has fallen below flake `i` when the loop reaches it: only that
      flake could fall there. */
  lemma NothingBelowYet(snow: MovingSet, st: StaticSet, height: int, i: nat)
    requires DistinctKeys(snow) && i < |snow|
    ensures Below(snow[i].0) !in KeySet(AdvanceUpTo(snow, i, st, height).newSnow)
  {
    AdvanceOrigins(snow, i, st, height);
    var b := Below(snow[i].0);
    assert (b.0 - 1, b.1) == snow[i].0;
    assert snow[i].0 !in StartCells(snow, i);
  }

  /** A landing of flake `i` survives the entries after it, up to `k`. */
  lemma {:induction false} LandedUpTo(snow: MovingSet, st: StaticSet, height: int, i: nat, k: nat)
    requires DistinctKeys(snow) && i < k <= |snow|
    requires Lands(AdvanceUpTo(snow, i, st, height).snowStatic, snow[i].0, height)
    ensures Landed(AdvanceUpTo(snow, k, st, height), snow[i].0, snow[i].1)
    decreases k
  {
    var s := AdvanceUpTo(snow, k - 1, st, height);
    if k == i + 1 {
      NothingBelowYet(snow, st, height, i);
      OutcomeAtStep(s, snow[i].0, snow[i].1, height, false);
    } else {
      LandedUpTo(snow, st, height, i, k - 1);
      LandedPersists(s, snow[i].0, snow[i].1, snow[k - 1], height);
    }
  }

  /** Flake `i` falls at its own step of the loop. */
  lemma FellAtStep(snow: MovingSet, st: StaticSet, height: int, i: nat, k: nat, belowStarts: bool)
    requires DistinctKeys(snow) && k == i + 1 <= |snow|
    requires !Lands(AdvanceUpTo(snow, i, st, height).snowStatic, snow[i].0, height)
    ensures Fell(AdvanceUpTo(snow, k, st, height), snow[i].0, snow[i].1, belowStarts)
  {
    var s := AdvanceUpTo(snow, i, st, height);
    NothingBelowYet(snow, st, height, i);
    OutcomeAtStep(s, snow[i].0, snow[i].1, height, belowStarts);
    assert AdvanceUpTo(snow, k, st, height) == StepFlake(s, (snow[i].0, snow[i].1), height);
  }

  /** The step of flake `k`, after flake `i`, leaves the fall of flake `i` in place. */
  lemma FellAtLaterStep(snow: MovingSet, st: StaticSet, height: int, i: nat, k: nat, belowStarts: bool)
    requires DistinctKeys(snow) && i < k < |snow|
    requires Below(snow[i].0) in KeySet(snow) ==> belowStarts
    requires Fell(AdvanceUpTo(snow, k, st, height), snow[i].0, snow[i].1, belowStarts)
    ensures Fell(AdvanceUpTo(snow, k + 1, st, height), snow[i].0, snow[i].1, belowStarts)
  {
    assert snow[k].0 != snow[i].0;
    assert snow[k].0 in KeySet(snow);
    FellPersists(AdvanceUpTo(snow, k, st, height), snow[i].0, snow[i].1, belowStarts, snow[k], height);
  }

  /** A fall of flake `i` survives the entries after it, up to `k`. */
  lemma {:induction false} FellUpTo(snow: MovingSet, st: StaticSet, height: int, i: nat, k: nat,
                                     belowStarts: bool)
    requires DistinctKeys(snow) && i < k <= |snow|
    requires !Lands(AdvanceUpTo(snow, i, st, height).snowStatic, snow[i].0, height)
    requires Below(snow[i].0) in KeySet(snow) ==> belowStarts
    ensures Fell(AdvanceUpTo(snow, k, st, height), snow[i].0, snow[i].1, belowStarts)
    decreases k
  {
    if k == i + 1 {
      FellAtStep(snow, st, height, i, k, belowStarts);
    } else {
      FellUpTo(snow, st, height, i, k - 1, belowStarts);
      FellAtLaterStep(snow, st, height, i, k - 1, belowStarts);
    }
  }

  /** Each moving flake either lands or falls, as decided by the static set
      when the loop reaches it: landing keeps it static in its own cell and
      moves nothing on from there; falling puts it one row down in the new
      moving set. */
  lemma AdvanceFlakeOutcome(snow: MovingSet, st: StaticSet, height: int, i: nat)
    requires DistinctKeys(snow) && i < |snow|
    ensures var lands := Lands(AdvanceUpTo(snow, i, st, height).snowStatic, snow[i].0, height);
      var r := Advance(snow, st, height);
      if lands then Landed(r, snow[i].0, snow[i].1)
      else Fell(r, snow[i].0, snow[i].1, Below(snow[i].0) in KeySet(snow))
  {
    if Lands(AdvanceUpTo(snow, i, st, height).snowStatic, snow[i].0, height) {
      LandedUpTo(snow, st, height, i, |snow|);
    } else {
      FellUpTo(snow, st, height, i, |snow|, Below(snow[i].0) in KeySet(snow));
    }
  }

  /** A cell below flake `i` where no moving flake starts looks, when the loop
      reaches flake `i`, as it did before the tick. */
  lemma BelowUntouched(snow: MovingSet, st: StaticSet, height: int, i: nat)
    requires DistinctKeys(snow) && i < |snow|
    requires Below(snow[i].0) !in KeySet(snow)
    ensures var b, s := Below(snow[i].0), AdvanceUpTo(snow, i, st, height).snowStatic;
      (b in s <==> b in st) && (b in st ==> s[b] == st[b])
  {
    NothingBelowYet(snow, st, height, i);
    AdvanceStaticFrame(snow, i, st, height, Below(snow[i].0));
  }

  /** A flake on the bottom row lands. */
  lemma BottomRowLands(snow: MovingSet, st: StaticSet, height: int, i: nat)
    requires DistinctKeys(snow) && i < |snow| && snow[i].0.0 == height - 1
    ensures Landed(Advance(snow, st, height), snow[i].0, snow[i].1)
  {
    AdvanceFlakeOutcome(snow, st, height, i);
  }

  /** Piling: a flake above a static flake that is not a placeholder lands,
      when no moving flake starts in that cell. */
  lemma LandsOnStatic(snow: MovingSet, st: StaticSet, height: int, i: nat)
    requires DistinctKeys(snow) && i < |snow|
    requires Below(snow[i].0) in st && !IsPlaceholder(st[Below(snow[i].0)])
    requires Below(snow[i].0) !in KeySet(snow)
    ensures Landed(Advance(snow, st, height), snow[i].0, snow[i].1)
  {
    BelowUntouched(snow, st, height, i);
    AdvanceFlakeOutcome(snow, st, height, i);
  }

  /** A flake above the bottom row with a free or placeholder cell below falls
      into it, and a placeholder there is removed, when no moving flake starts
      in that cell. */
  lemma FallsThroughPassable(snow: MovingSet, st: StaticSet, height: int, i: nat)
    requires DistinctKeys(snow) && i < |snow| && snow[i].0.0 != height - 1
    requires Below(snow[i].0) !in st || IsPlaceholder(st[Below(snow[i].0)])
    requires Below(snow[i].0) !in KeySet(snow)
    ensures var r := Advance(snow, st, height);
      && Below(snow[i].0) in ToMap(r.newSnow)
      && ToMap(r.newSnow)[Below(snow[i].0)] == snow[i].1
      && Below(snow[i].0) !in r.snowStatic
  {
    BelowUntouched(snow, st, height, i);
    AdvanceFlakeOutcome(snow, st, height, i);
    var r := Advance(snow, st, height);
    var j :| 0 <= j < |r.newSnow| && r.newSnow[j] == (Below(snow[i].0), snow[i].1);
  }

  /** Moving and static sets may share a cell after a tick: a flake two rows
      above the bottom, iterated first, falls into the cell where the bottom
      flake, iterated second, lands. */
  lemma OverlapExample(f: Flake, g: Flake)
    ensures var r := Advance([((8, 0), f), ((9, 0), g)], map[], 10);
      (9, 0) in r.snowStatic && (9, 0) in KeySet(r.newSnow)
  {
    var snow: MovingSet := [((8, 0), f), ((9, 0), g)];
    var empty: StaticSet := map[];
    var s0 := AdvanceUpTo(snow, 0, empty, 10);
    assert s0 == TickState(empty, []);
    assert !Lands(empty, (8, 0), 10);
    assert Put([], (9, 0), f) == [((9, 0), f)];
    var s1 := AdvanceUpTo(snow, 1, empty, 10);
    assert s1 == StepFlake(s0, snow[0], 10) == TickState(empty, [((9, 0), f)]);
    assert (9, 0) in KeySet(s1.newSnow) by {
      assert s1.newSnow[0].0 == (9, 0);
    }
    var s2 := AdvanceUpTo(snow, 2, empty, 10);
    assert s2 == StepFlake(s1, snow[1], 10) == TickState(empty[(9, 0) := g], s1.newSnow);
  }
}
