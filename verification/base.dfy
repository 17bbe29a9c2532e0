/** The base of a lathe profile image (`get_base_height` and `add_base` of
    outline.py): the blank rows at the bottom of a greyscale image, and the
    white slab painted over them so that the cut piece has a flat foot. */
module Bases {
  import opened Results
  import opened Images

  /** The greyscale value `RASTER_WHITE`. */
  const White: Byte := 255

  /** Every pixel of row `row` is off (zero). */
  predicate BlankRow(g: Grid<Byte>, row: nat)
    requires Valid(g) && row < g.height
  {
    forall x :: 0 <= x < g.width ==> g.rows[row][x] == 0
  }

  /** The row y rows up from the bottom is blank. */
  predicate BlankFromBottom(g: Grid<Byte>, y: nat)
    requires Valid(g) && y < g.height
  {
    BlankRow(g, g.height - 1 - y)
  }

  /** b rows up from the bottom is the first row with a pixel on, and every
      row below it is blank. */
  predicate IsBaseHeight(g: Grid<Byte>, b: nat)
    requires Valid(g)
  {
    && b < g.height
    && (forall y :: 0 <= y < b ==> BlankFromBottom(g, y))
    && !BlankFromBottom(g, b)
  }

  /** The base height is unique. */
  lemma BaseHeightUnique(g: Grid<Byte>, b1: nat, b2: nat)
    requires Valid(g) && IsBaseHeight(g, b1) && IsBaseHeight(g, b2)
    ensures b1 == b2
  {
  }

  /** `get_base_height`: scan the rows bottom-up and each row left to right,
      returning how many rows were passed at the first pixel that is on; an
      image with no pixel on raises "base not found". */
  method GetBaseHeight(g: Grid<Byte>) returns (r: Result<nat, string>)
    requires Valid(g)
    ensures r.Failure? <==> forall row :: 0 <= row < g.height ==> BlankRow(g, row)
    ensures r.Success? ==> IsBaseHeight(g, r.value)
  {
    var y := 0;
    while y < g.height
      invariant 0 <= y <= g.height
      invariant forall y' :: 0 <= y' < y ==> BlankFromBottom(g, y')
    {
      var row := g.rows[g.height - 1 - y];
      var x := 0;
      while x < g.width
        invariant 0 <= x <= g.width
        invariant forall x' :: 0 <= x' < x ==> row[x'] == 0
      {
        if row[x] != 0 {
          assert !BlankFromBottom(g, y);
          return Success(y);
        }
        x := x + 1;
      }
      y := y + 1;
    }
    forall row | 0 <= row < g.height
      ensures BlankRow(g, row)
    {
      assert BlankFromBottom(g, g.height - 1 - row);
    }
    return Failure("base not found");
  }

  /** The image with its bottom b rows painted white. */
  function WhitenBottom(g: Grid<Byte>, b: nat): (r: Grid<Byte>)
    requires Valid(g) && b <= g.height
    ensures Valid(r) && r.width == g.width && r.height == g.height
    ensures forall row, x :: 0 <= row < g.height - b && 0 <= x < g.width ==> r.rows[row][x] == g.rows[row][x]
    ensures forall row, x :: g.height - b <= row < g.height && 0 <= x < g.width ==> r.rows[row][x] == White
  {
    Grid(g.width, g.height, g.rows[..g.height - b] + seq(b, _ => seq(g.width, _ => White)))
  }

  /** `add_base`: paint the blank bottom rows white; the error of
      `get_base_height` propagates. */
  method AddBase(g: Grid<Byte>) returns (r: Result<Grid<Byte>, string>)
    requires Valid(g)
    ensures r.Failure? <==> forall row :: 0 <= row < g.height ==> BlankRow(g, row)
    ensures r.Success? ==> exists b :: IsBaseHeight(g, b) && r.value == WhitenBottom(g, b)
  {
    var base := GetBaseHeight(g);
    if base.Failure? {
      return Failure(base.error);
    }
    r := Success(WhitenBottom(g, base.value));
  }

  /** After `add_base` the image stands on its bottom row: the base height
      of the result is 0, and the pixels above the old base are unchanged. */
  lemma AddBaseLeavesNoGap(g: Grid<Byte>, b: nat)
    requires Valid(g) && IsBaseHeight(g, b)
    ensures IsBaseHeight(WhitenBottom(g, b), 0)
  {
    var r := WhitenBottom(g, b);
    if b == 0 {
      assert !BlankRow(g, g.height - 1);
      var x :| 0 <= x < g.width && g.rows[g.height - 1][x] != 0;
      assert r.rows[g.height - 1][x] == g.rows[g.height - 1][x];
    } else {
      assert !BlankRow(g, g.height - 1 - b);
      var x :| 0 <= x < g.width && g.rows[g.height - 1 - b][x] != 0;
      assert r.rows[g.height - 1][x] == White;
    }
  }
}
