/** The main loop of the falling-snow program: the grid, the cursor, and what
    each key does between two ticks of the simulation. */
module App {
  import opened Dicts
  import opened Flakes
  import opened Tick

  /** The grid is 40 columns wide and 10 rows high. */
  const Width: int := 40
  const Height: int := 10

  /** The symbols a new flake is drawn from; "." is the placeholder. */
  const Symbols: set<string> := {".", "+", "*", "o", "@"}

  /** What `inkey` returned during one turn of the loop. */
  datatype Key =
    | NoKey                 // the read timed out: the keystroke is empty
    | Escape
    | ArrowUp
    | ArrowDown
    | ArrowLeft
    | ArrowRight
    | OtherNamed            // any other key with a name (Enter, F1, ...)
    | Typed(c: char)        // a plain character

  /** One turn of the loop: the key read and the random choices made during
      the turn, for the automatic flake and for a flake placed with 's'. */
  datatype TickInput = TickInput(key: Key, autoColumn: int, autoFlake: Flake,
                                 placeColumn: int, placeFlake: Flake)

  /** The random choices are `randint(0, width - 1)` and a choice from the
      symbols. */
  predicate Drawn(input: TickInput)
  {
    && 0 <= input.autoColumn < Width && input.autoFlake.symbol in Symbols
    && 0 <= input.placeColumn < Width && input.placeFlake.symbol in Symbols
  }

  /** The program's state between two turns of the loop. */
  datatype World = World(snow: MovingSet, snowStatic: StaticSet, autoSnow: bool, x: int, y: int)

  /** The state the loop starts in: no snow, automatic snow off, the cursor
      in the top left corner. */
  const Initial: World := World([], map[], false, 0, 0)

  /** The cursor and every flake are on the grid, the moving set is a dict,
      and every flake has a symbol from the palette. */
  ghost predicate WorldValid(w: World)
  {
    && 0 <= w.x < Width && 0 <= w.y < Height
    && DistinctKeys(w.snow)
    && InGrid(KeySet(w.snow), 0, Height, Width) && InGrid(w.snowStatic.Keys, 0, Height, Width)
    && MovingDrawnFrom(w.snow, Symbols) && StaticDrawnFrom(w.snowStatic, Symbols)
  }

  /** The arrow keys move the cursor by one cell, wrapping around at the
      edges of the grid; any other key leaves it where it is. */
  function MoveCursor(key: Key, x: int, y: int): (int, int)
  {
    match key
    case ArrowUp => (x, (y - 1) % Height)
    case ArrowDown => (x, (y + 1) % Height)
    case ArrowLeft => ((x - 1) % Width, y)
    case ArrowRight => ((x + 1) % Width, y)
    case _ => (x, y)
  }

  /** An arrow keeps the cursor on the grid and changes one coordinate;
      another key leaves the cursor where it is. */
  lemma CursorOnGrid(key: Key, x: int, y: int)
    ensures var c := MoveCursor(key, x, y);
      && (key.ArrowUp? || key.ArrowDown? ==> c.0 == x && 0 <= c.1 < Height)
      && (key.ArrowLeft? || key.ArrowRight? ==> c.1 == y && 0 <= c.0 < Width)
      && (!(key.ArrowUp? || key.ArrowDown? || key.ArrowLeft? || key.ArrowRight?) ==> c == (x, y))
  {
  }

  /** Inside the grid an arrow moves the cursor to the neighbouring cell,
      and from an edge it moves it to the opposite edge. */
  lemma CursorWraps(x: int, y: int)
    requires 0 <= x < Width && 0 <= y < Height
    ensures MoveCursor(ArrowRight, x, y) == (if x == Width - 1 then 0 else x + 1, y)
    ensures MoveCursor(ArrowLeft, x, y) == (if x == 0 then Width - 1 else x - 1, y)
    ensures MoveCursor(ArrowDown, x, y) == (x, if y == Height - 1 then 0 else y + 1)
    ensures MoveCursor(ArrowUp, x, y) == (x, if y == 0 then Height - 1 else y - 1)
  {
  }

  /** Opposite arrows undo each other. */
  lemma CursorOppositeArrows(x: int, y: int)
    requires 0 <= x < Width && 0 <= y < Height
    ensures var (x1, y1) := MoveCursor(ArrowRight, x, y); MoveCursor(ArrowLeft, x1, y1) == (x, y)
    ensures var (x1, y1) := MoveCursor(ArrowLeft, x, y); MoveCursor(ArrowRight, x1, y1) == (x, y)
    ensures var (x1, y1) := MoveCursor(ArrowDown, x, y); MoveCursor(ArrowUp, x1, y1) == (x, y)
    ensures var (x1, y1) := MoveCursor(ArrowUp, x, y); MoveCursor(ArrowDown, x1, y1) == (x, y)
  {
    CursorWraps(x, y);
    var (r, l, d, u) := (MoveCursor(ArrowRight, x, y), MoveCursor(ArrowLeft, x, y),
                         MoveCursor(ArrowDown, x, y), MoveCursor(ArrowUp, x, y));
    CursorWraps(r.0, r.1);
    CursorWraps(l.0, l.1);
    CursorWraps(d.0, d.1);
    CursorWraps(u.0, u.1);
  }

  /** The first half of a turn: the tick, then, when automatic snow is on,
      a new flake on the top row. */
  function AfterTick(w: World, input: TickInput): World
  {
    var t := Advance(w.snow, w.snowStatic, Height);
    var snow := if w.autoSnow then Put(t.newSnow, (0, input.autoColumn), input.autoFlake) else t.newSnow;
    w.(snow := snow, snowStatic := t.snowStatic)
  }

  /** The second half of a turn: what the key read does. The second component
      says whether the loop stops. */
  function HandleKey(w: World, input: TickInput): (World, bool)
  {
    if input.key == NoKey then (w, false)
    else if input.key.Escape? then (w, true)
    else if input.key == Typed('s') then
      (w.(snow := Put(w.snow, (0, input.placeColumn), input.placeFlake)), false)
    else
      var w2 := if input.key == Typed('a') then w.(autoSnow := !w.autoSnow) else w;
      var w3 := if input.key == Typed('c') then w2.(snow := [], snowStatic := map[]) else w2;
      var (x, y) := MoveCursor(input.key, w3.x, w3.y);
      (w3.(x := x, y := y), false)
  }

  /** What each key does: Escape, and only Escape, stops the loop; 'a', and
      only 'a', switches automatic snow; 'c' empties both sets; a key other
      than 'c' and 's' leaves the moving set alone, and one other than 'c'
      leaves the static set alone; the arrows move the cursor. */
  lemma KeyEffects(w: World, input: TickInput)
    ensures var r := HandleKey(w, input);
      && (r.1 <==> input.key.Escape?)
      && (input.key == Typed('a') <==> r.0.autoSnow != w.autoSnow)
      && (input.key == Typed('c') ==> r.0.snow == [] && r.0.snowStatic == map[])
      && (input.key != Typed('c') && input.key != Typed('s') ==> r.0.snow == w.snow)
      && (input.key != Typed('c') ==> r.0.snowStatic == w.snowStatic)
      && (r.0.x, r.0.y) == MoveCursor(input.key, w.x, w.y)
  {
  }

  /** One turn of the loop; the second component says whether it stops. */
  function Next(w: World, input: TickInput): (World, bool)
  {
    HandleKey(AfterTick(w, input), input)
  }

  /** A flake added at the top row of a valid moving set keeps it valid. */
  lemma SpawnKeepsValid(snow: MovingSet, column: int, f: Flake)
    requires DistinctKeys(snow) && InGrid(KeySet(snow), 0, Height, Width)
    requires MovingDrawnFrom(snow, Symbols)
    requires 0 <= column < Width && f.symbol in Symbols
    ensures var r := Put(snow, (0, column), f);
      DistinctKeys(r) && InGrid(KeySet(r), 0, Height, Width) && MovingDrawnFrom(r, Symbols)
  {
    PutKeepsOthers(snow, (0, column), f);
  }

  /** The tick and the automatic flake keep the state valid. */
  lemma AfterTickKeepsValid(w: World, input: TickInput)
    requires WorldValid(w) && Drawn(input)
    ensures WorldValid(AfterTick(w, input))
  {
    var t := Advance(w.snow, w.snowStatic, Height);
    AdvanceRows(w.snow, |w.snow|, w.snowStatic, Height, Width);
    AdvanceStaticInGrid(w.snow, w.snowStatic, Height, Width);
    AdvanceDrawnFrom(w.snow, |w.snow|, w.snowStatic, Height, Symbols);
    assert InGrid(KeySet(t.newSnow), 0, Height, Width);
    SpawnKeepsValid(t.newSnow, input.autoColumn, input.autoFlake);
  }

  /** Whatever the key, the state stays valid. */
  lemma HandleKeyKeepsValid(w: World, input: TickInput)
    requires WorldValid(w) && Drawn(input)
    ensures WorldValid(HandleKey(w, input).0)
  {
    if input.key == Typed('s') {
      SpawnKeepsValid(w.snow, input.placeColumn, input.placeFlake);
    } else {
      CursorOnGrid(input.key, w.x, w.y);
    }
  }

  /** Every turn keeps the state valid. */
  lemma NextKeepsValid(w: World, input: TickInput)
    requires WorldValid(w) && Drawn(input)
    ensures WorldValid(Next(w, input).0)
  {
    AfterTickKeepsValid(w, input);
    HandleKeyKeepsValid(AfterTick(w, input), input);
  }

  /** Without a key, a turn is the tick and, when automatic snow is on, one
      new flake on the top row: the flakes that were moving are now one row
      lower, and a new flake is the only one on the top row. */
  lemma NoKeyTurn(w: World, input: TickInput)
    requires WorldValid(w) && Drawn(input) && input.key == NoKey
    ensures var r := Next(w, input).0;
      && r.snowStatic == Advance(w.snow, w.snowStatic, Height).snowStatic
      && (forall q :: q in KeySet(r.snow) && q.0 == 0 ==> w.autoSnow && q == (0, input.autoColumn))
      && (w.autoSnow ==> ((0, input.autoColumn), input.autoFlake) in r.snow)
      && (!w.autoSnow ==> r.snow == Advance(w.snow, w.snowStatic, Height).newSnow)
      && (w.autoSnow ==> r.snow == Advance(w.snow, w.snowStatic, Height).newSnow
                                    + [((0, input.autoColumn), input.autoFlake)])
      && r.autoSnow == w.autoSnow && (r.x, r.y) == (w.x, w.y)
  {
    var t := Advance(w.snow, w.snowStatic, Height);
    AdvanceRows(w.snow, |w.snow|, w.snowStatic, Height, Width);
  }

  /** The 's' key assigns the placed flake to its cell on the top row, which
      is the only change to the moving set after the tick, without touching
      the static set or the cursor. */
  lemma PlaceTurn(w: World, input: TickInput)
    requires input.key == Typed('s')
    ensures var r := Next(w, input).0;
      && ((0, input.placeColumn), input.placeFlake) in r.snow
      && r.snow == Put(AfterTick(w, input).snow, (0, input.placeColumn), input.placeFlake)
      && r.snowStatic == Advance(w.snow, w.snowStatic, Height).snowStatic
      && r.autoSnow == w.autoSnow && (r.x, r.y) == (w.x, w.y)
  {
  }

  /** `empty_dict`: every cell of the dict is erased from the screen, once;
      the result is the list of erased cells, in the order they were
      erased. The dict it returns is always empty. */
  method EmptyDict(cells: set<Pos>) returns (erased: seq<Pos>)
    ensures forall p :: p in erased <==> p in cells
    ensures |erased| == |cells|
  {
    erased := [];
    var rest := cells;
    while rest != {}
      invariant rest <= cells
      invariant forall p :: p in erased <==> p in cells && p !in rest
      invariant |erased| + |rest| == |cells|
      decreases |rest|
    {
      var p :| p in rest;
      erased := erased + [p];
      rest := rest - {p};
    }
  }

  /** The states of the first `n` turns, starting from `w`. */
  function Replay(w: World, inputs: seq<TickInput>, n: nat): World
    requires n <= |inputs|
  {
    if n == 0 then w else Next(Replay(w, inputs, n - 1), inputs[n - 1]).0
  }

  /** None of the first `n` inputs is Escape. */
  ghost predicate NoEscapeBefore(inputs: seq<TickInput>, n: nat)
  {
    forall i :: 0 <= i < n && i < |inputs| ==> !inputs[i].key.Escape?
  }

  /** A turn from the state after `n` turns gives the state after `n + 1`. */
  lemma ReplayStep(start: World, inputs: seq<TickInput>, n: nat, before: World, after: World)
    requires n < |inputs| && before == Replay(start, inputs, n)
    requires after == Next(before, inputs[n]).0
    ensures after == Replay(start, inputs, n + 1)
  {
  }

  /** The program's state, updated in place by each turn of the loop. */
  class Snowfall {
    var snow: MovingSet
    var snowStatic: StaticSet
    var autoSnow: bool
    var x: int
    var y: int

    function State(): World
      reads this
    {
      World(snow, snowStatic, autoSnow, x, y)
    }

    ghost predicate Valid()
      reads this
    {
      WorldValid(State())
    }

    constructor ()
      ensures Valid() && State() == Initial
    {
      snow := [];
      snowStatic := map[];
      autoSnow := false;
      x := 0;
      y := 0;
    }

    /** `animate_snow`: moves every flake of `snow` one row down or makes it
        static, updating the static set in place, and returns the new moving
        set. */
    method AnimateSnow(height: int) returns (newSnow: MovingSet)
      modifies this`snowStatic
      ensures TickState(snowStatic, newSnow) == Advance(snow, old(snowStatic), height)
    {
      newSnow := [];
      var i := 0;
      while i < |snow|
        invariant i <= |snow|
        invariant TickState(snowStatic, newSnow) == AdvanceUpTo(snow, i, old(snowStatic), height)
      {
        var (pos, flake) := snow[i];
        var below := (pos.0 + 1, pos.1);
        if pos.0 == height - 1 || !CanFallThrough(snowStatic, pos.1, pos.0 + 1) {
          snowStatic := snowStatic[pos := flake];
        } else {
          if below in snowStatic && IsPlaceholder(snowStatic[below]) {
            snowStatic := snowStatic - {below};
          }
          newSnow := Put(newSnow, below, flake);
        }
        i := i + 1;
      }
    }

    /** One turn of the loop; `exit` is set when the loop breaks. */
    method Step(input: TickInput) returns (exit: bool)
      requires Valid() && Drawn(input)
      modifies this
      ensures Valid()
      ensures State() == Next(old(State()), input).0
      ensures exit <==> input.key.Escape?
    {
      NextKeepsValid(State(), input);
      ghost var before := State();
      snow := AnimateSnow(Height);
      if autoSnow {
        snow := Put(snow, (0, input.autoColumn), input.autoFlake);
      }
      assert State() == AfterTick(before, input);
      exit := ApplyKey(input);
      assert (State(), exit) == HandleKey(AfterTick(before, input), input);
    }

    /** The part of a turn after the tick: what the key read does. */
    method ApplyKey(input: TickInput) returns (exit: bool)
      modifies this
      ensures State() == HandleKey(old(State()), input).0
      ensures exit == HandleKey(old(State()), input).1
    {
      if input.key == NoKey {
        return false;
      }
      if input.key.Escape? {
        return true;
      }
      if input.key == Typed('s') {
        snow := Put(snow, (0, input.placeColumn), input.placeFlake);
        return false;
      }
      if input.key == Typed('a') {
        autoSnow := !autoSnow;
      }
      if input.key == Typed('c') {
        var erasedMoving := EmptyDict(KeySet(snow));
        snow := [];
        var erasedStatic := EmptyDict(snowStatic.Keys);
        snowStatic := map[];
      }
      match input.key {
        case ArrowUp => y := (y - 1) % Height;
        case ArrowDown => y := (y + 1) % Height;
        case ArrowLeft => x := (x - 1) % Width;
        case ArrowRight => x := (x + 1) % Width;
        case _ =>
      }
      return false;
    }

    /** The loop, over the keys read and random choices made so far: runs
        turns until Escape breaks it or the inputs are used up. */
    method Run(inputs: seq<TickInput>) returns (turns: nat, stopped: bool)
      requires Valid() && forall i :: 0 <= i < |inputs| ==> Drawn(inputs[i])
      modifies this
      ensures Valid() && turns <= |inputs|
      ensures State() == Replay(old(State()), inputs, turns)
      ensures stopped ==> 0 < turns && inputs[turns - 1].key.Escape? && NoEscapeBefore(inputs, turns - 1)
      ensures !stopped ==> turns == |inputs| && NoEscapeBefore(inputs, turns)
    {
      ghost var start := State();
      turns, stopped := 0, false;
      while turns < |inputs|
        invariant Valid() && turns <= |inputs|
        invariant State() == Replay(start, inputs, turns)
        invariant NoEscapeBefore(inputs, turns)
      {
        ghost var before := State();
        var exit := Step(inputs[turns]);
        ReplayStep(start, inputs, turns, before, State());
        turns := turns + 1;
        if exit {
          stopped := true;
          break;
        }
      }
    }
  }
}
