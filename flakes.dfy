/** Flakes and the cells of the grid they occupy. */
module Flakes {
  import opened Dicts

  /** A flake's colour: the constructor's default is the name "white";
      the main loop always passes an RGB triple from its palette. */
  datatype Color = Named(name: string) | Rgb(red: int, green: int, blue: int)

  /** The right-hand operand of `Flake.__eq__`, whatever Python type it has. */
  datatype Operand = FlakeOperand(flake: Flake) | StrOperand(text: string) | OtherOperand

  datatype Flake = Flake(symbol: string, color: Color) {

    /** `Flake.__eq__`: only the symbol takes part in the comparison. */
    predicate Equals(other: Operand)
    {
      match other
      case FlakeOperand(f) => symbol == f.symbol
      case StrOperand(s) => symbol == s
      case OtherOperand => false
    }
  }

  /** The placeholder glyph that marks a static cell as passable. */
  const Placeholder: string := "."

  /** `flake == "."`, the comparison the simulation makes. */
  predicate IsPlaceholder(f: Flake)
  {
    f.Equals(StrOperand(Placeholder))
  }

  /** A grid cell as (row, column); the source's dicts are keyed by `(y, x)`. */
  type Pos = (int, int)

  /** `snow_static`: the flakes that have landed, and placeholders. */
  type StaticSet = map<Pos, Flake>

  /** `snow`: the flakes in the air, in insertion order. */
  type MovingSet = Dict<Pos, Flake>

  /** `can_fall_through(snow_static, x, y)`: the cell at column `x`, row `y`
      is free or holds a placeholder. */
  function CanFallThrough(snowStatic: StaticSet, x: int, y: int): (r: bool)
    ensures r <==> (y, x) !in snowStatic || snowStatic[(y, x)].symbol == Placeholder
  {
    if (y, x) !in snowStatic then true
    else if IsPlaceholder(snowStatic[(y, x)]) then true
    else false
  }

  /** Colour never takes part in flake equality. */
  lemma EqualsIgnoresColor(f: Flake, g: Flake, c: Color, d: Color)
    ensures f.Equals(FlakeOperand(g)) <==> f.(color := c).Equals(FlakeOperand(g.(color := d)))
    ensures Flake(f.symbol, c).Equals(FlakeOperand(Flake(f.symbol, d)))
  {
  }

  /** A flake equals a string exactly when the string is its symbol, which is
      exactly when it equals a flake of that symbol, whatever its colour; it
      never equals an operand that is neither a flake nor a string. */
  lemma EqualsString(f: Flake, s: string, c: Color)
    ensures f.Equals(StrOperand(s)) <==> s == f.symbol
    ensures f.Equals(StrOperand(s)) <==> f.Equals(FlakeOperand(Flake(s, c)))
    ensures !f.Equals(OtherOperand)
    ensures IsPlaceholder(f) <==> f.symbol == "."
  {
  }

  /** Between flakes, `==` is an equivalence relation. */
  lemma EqualsIsEquivalence(f: Flake, g: Flake, h: Flake)
    ensures f.Equals(FlakeOperand(f))
    ensures f.Equals(FlakeOperand(g)) ==> g.Equals(FlakeOperand(f))
    ensures f.Equals(FlakeOperand(g)) && g.Equals(FlakeOperand(h)) ==> f.Equals(FlakeOperand(h))
  {
  }
}
