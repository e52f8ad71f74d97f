/** The ASCII Danish flag: five rows of twelve pixels, each row followed by
    a line break, with a blank cross along row 2 and column 2 and `*`
    everywhere else. What the program writes to standard output is
    returned as a string. */
module DanishFlag {

  const Height := 5
  const Width := 12
  // The lemmas below write a line's length, Width + 1, as the literal 13 and
  // the flag's length, Height * (Width + 1), as 65: a named constant inside
  // a product makes the arithmetic nonlinear for the solver.

  /** `showPixel`'s choice of character for a cell: the cross of the flag
      runs along row 2 and column 2. */
  function Pixel(col: int, row: int): (pixel: char)
    ensures pixel == ' ' || pixel == '*'
    ensures pixel == ' ' <==> row == 2 || col == 2
  {
    if row != 2 && col != 2 then '*' else ' '
  }

  /** The first `cols` pixels of a row, written left to right. */
  function Pixels(row: int, cols: nat): string {
    if cols == 0 then [] else Pixels(row, cols - 1) + [Pixel(cols - 1, row)]
  }

  /** The first `rows` lines of the flag, each a full row of pixels ended by
      a line break. */
  function Lines(rows: nat): string {
    if rows == 0 then [] else Lines(rows - 1) + Pixels(rows - 1, Width) + ['\n']
  }

  /** The whole picture. */
  function Flag(): string {
    Lines(Height)
  }

  /** The number of occurrences of `c` in `s`. */
  function Count(s: string, c: char): nat {
    multiset(s)[c]
  }

  /** Pixel `col` of a row is `showPixel`'s choice for that cell. */
  lemma {:induction false} PixelsAt(row: int, cols: nat, col: nat)
    requires col < cols
    ensures |Pixels(row, cols)| == cols
    ensures Pixels(row, cols)[col] == Pixel(col, row)
  {
    if col < cols - 1 {
      PixelsAt(row, cols - 1, col);
    } else if cols > 1 {
      PixelsAt(row, cols - 1, 0);
    }
  }

  /** Row 2 has no star; any other row has one star per column but the
      cross column. */
  lemma {:induction false} PixelsStars(row: int, cols: nat)
    ensures Count(Pixels(row, cols), '*') ==
      if row == 2 then 0 else if cols <= 2 then cols else cols - 1
  {
    if cols > 0 {
      PixelsStars(row, cols - 1);
      assert multiset(Pixels(row, cols)) == multiset(Pixels(row, cols - 1)) + multiset{Pixel(cols - 1, row)};
    } else {
      assert multiset(Pixels(row, cols)) == multiset{};
    }
  }

  /** Each line is thirteen characters, so line `row` starts at `row * 13`;
      its first twelve characters are the pixels of that row, left to right,
      and the thirteenth is a line break. */
  lemma {:induction false} LinesAt(rows: nat, row: nat, col: nat)
    requires row < rows && col <= Width
    ensures |Lines(rows)| == rows * 13
    ensures Lines(rows)[row * 13 + col] ==
      if col == Width then '\n' else Pixel(col, row)
  {
    LinesLength(rows);
    LinesLength(rows - 1);
    PixelsAt(row, Width, 0);
    if row < rows - 1 {
      LinesAt(rows - 1, row, col);
    } else if col < Width {
      PixelsAt(row, Width, col);
    }
  }

  lemma {:induction false} LinesLength(rows: nat)
    ensures |Lines(rows)| == rows * 13
  {
    if rows > 0 {
      LinesLength(rows - 1);
      PixelsAt(rows - 1, Width, 0);
    }
  }

  /** A line adds the count of its pixels; the line break is no pixel. */
  lemma LinesCount(rows: nat, c: char)
    requires rows > 0 && c != '\n'
    ensures Count(Lines(rows), c) == Count(Lines(rows - 1), c) + Count(Pixels(rows - 1, Width), c)
  {
    assert multiset(Lines(rows)) == multiset(Lines(rows - 1)) + multiset(Pixels(rows - 1, Width)) + multiset{'\n'};
  }

  /** The first `rows` lines hold eleven stars each, except line 2, which
      holds none. */
  lemma {:induction false} LinesStars(rows: nat)
    ensures Count(Lines(rows), '*') == if rows > 2 then 11 * (rows - 1) else 11 * rows
  {
    if rows == 0 {
      assert multiset(Lines(rows)) == multiset{};
    } else {
      LinesStars(rows - 1);
      LinesStarsStep(rows);
    }
  }

  /** Writing line `rows - 1` adds 11 stars, or none when it is row 2. */
  lemma LinesStarsStep(rows: nat)
    requires rows > 0
    ensures Count(Lines(rows), '*') == Count(Lines(rows - 1), '*') + (if rows - 1 == 2 then 0 else 11)
  {
    LinesCount(rows, '*');
    PixelsStars(rows - 1, Width);
  }

  /** The flag is 5 lines of 12 pixels and a line break: 65 characters. */
  lemma FlagLength()
    ensures |Flag()| == 65
  {
    LinesLength(Height);
  }

  /** Cell (`col`, `row`) of the flag is at `row * 13 + col`, row by row with
      the columns inside each row, and the character there is `showPixel`'s
      choice for it. */
  lemma FlagCell(row: nat, col: nat)
    requires row < Height && col < Width
    ensures |Flag()| == 65
    ensures Flag()[row * 13 + col] == Pixel(col, row)
    ensures Flag()[row * 13 + col] == if row == 2 || col == 2 then ' ' else '*'
  {
    LinesAt(Height, row, col);
    FlagLength();
  }

  /** Every line ends with a line break at `row * 13 + 12`. */
  lemma FlagLineBreak(row: nat)
    requires row < Height
    ensures |Flag()| == 65
    ensures Flag()[row * 13 + 12] == '\n'
  {
    FlagLength();
    LinesAt(Height, row, Width);
    assert Lines(Height)[row * 13 + 12] == '\n';
  }

  /** The flag has 4 rows of 11 stars: 44 in all. */
  lemma FlagStars()
    ensures Count(Flag(), '*') == 44
  {
    LinesStars(Height);
  }

  /** `showDanish`: writes the rows top to bottom, each row's pixels left to
      right followed by a line break. */
  method ShowDanish() returns (out: string)
    ensures out == Flag()
    ensures |out| == 65
    ensures Count(out, '*') == 44
  {
    var row := 0;
    var col := 0;
    out := [];
    while row < Height
      invariant 0 <= row <= Height
      invariant out == Lines(row)
    {
      col := 0;
      while col < Width
        invariant 0 <= col <= Width
        invariant out == Lines(row) + Pixels(row, col)
      {
        out := out + [Pixel(col, row)];
        assert out == Lines(row) + Pixels(row, col + 1);
        col := col + 1;
      }
      out := out + ['\n'];
      assert out == Lines(row + 1);
      row := row + 1;
    }
    assert row == Height;
    FlagLength();
    FlagStars();
  }
}
