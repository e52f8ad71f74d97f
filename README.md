# Three teaching scripts, modelled and proved

This project models three short Python 2 scripts from the python2perl
repository. Each one prints a small sequence from a loop:

- `demo05.py` prints the *wondrous* (Collatz) sequence from a start term.
  An even term is halved. An odd term becomes three times itself plus one.
  The loop runs while the term is above 1. `printWondrous` returns how many
  terms it printed (module `Wondrous`, file `wondrous.dfy`).
- `demo01.py` prints the Fibonacci numbers below `n`. It starts from
  `(a, b) = (0, 1)` and applies `(a, b) = (b, a + b)` while `b < n`
  (module `Fibonacci`, file `fibonacci.dfy`).
- `demo08.py` draws the Danish flag in ASCII: 5 rows of 12 pixels, each row
  ended by a line break. Row 2 and column 2 are blank and every other pixel
  is `*` (module `DanishFlag`, file `danish_flag.dfy`).

Console output is modelled as a returned sequence. It holds the printed
terms for `printWondrous`, the printed numbers for `fib`, and the written
characters for `showDanish`. Each loop is a `while` loop in a Dafny method.
Each method is proved against a specification function or predicate:
`Wondrous`/`IsTrace`, `Fib`/`IsSeriesBelow` and `Flag`/`Pixel`.

Whether the wondrous loop stops for every positive start is the Collatz
conjecture, which is open. `PrintWondrous` therefore takes a `fuel` bound
on the number of rule steps and also returns `finished`. `finished` is true
exactly when the loop guard failed within that bound. Everything proved
about a finished run is a partial-correctness statement about the source's
loop.

Python 2's `%` and `/` floor their results. Dafny's `%` and `/` are
Euclidean. For the positive divisor 2 the two agree on every integer, and
`term / 2` only runs for terms above 1. So `IsEven` and `Next` use Dafny's
operators directly.

The loop guard is `term > 1` (demo05.py:24), so a start of 0 or below
prints just the start and returns 1; `PrintWondrous` models the guard as
written.

## Model

| member | source | states |
|---|---|---|
| `Wondrous.IsEvenAlternates` | demo05.py:11-17 | `isEven` flips between neighbouring integers, so it is a parity test |
| `Wondrous.IsEvenDouble` | demo05.py:11-17 | every double is even, and an even number is twice its half |
| `Wondrous.Next` | demo05.py:25-28 | an even term is halved exactly; an odd term leads to an even one; a positive term stays positive; an even term above 1 decreases |
| `Wondrous.StepsFollowIterate` | demo05.py:24-30 | the i-th printed term is the rule applied i times to the start |
| `Wondrous.IteratePositive` | demo05.py:24-28 | from a positive start, every term reached is at least 1 |
| `Wondrous.TraceUnique` | demo05.py:19-35 | a start has only one finished trace, so repeated calls print the same terms and count |
| `Wondrous.TraceEndsAtOne` | demo05.py:24-28 | for a start of at least 1, every printed term is at least 1 and the last is exactly 1 |
| `Wondrous.Wondrous` | demo05.py:19-35 | the reference trace, when found within the fuel, starts at `start`, follows the rule, and has a last term that fails the guard |
| `Wondrous.WondrousFinds` | demo05.py:19-35 | the reference function finds every trace that fits in its fuel |
| `Wondrous.WondrousExhausted` | demo05.py:24 | a run still above 1 after `fuel` steps means no trace exists within that fuel |
| `Wondrous.TracePrepend` | demo05.py:23-30 | putting a term above 1 before a trace of its successor gives a trace |
| `Wondrous.PrintWondrous` | demo05.py:19-35 | `start` is printed first; each later term is the rule applied to the one before; each term except the last is above 1; the count equals the number of printed terms; a finished run ends with a term of at most 1, exactly 1 when `start >= 1`, and equals the reference trace; a run that did not finish used all its fuel; a start of at most 1 prints only itself and returns 1 |
| `Wondrous.WondrousOfOne` | demo05.py:19-35 | a start of 1 prints just 1 |
| `Wondrous.TraceFromTen` | demo05.py:24-30 | 10, 5, 16, 8, 4, 2, 1 is the trace from 10 |
| `Wondrous.WondrousOfSix` | demo05.py:19-35 | a start of 6 prints 6, 3, 10, 5, 16, 8, 4, 2, 1 (nine terms) |
| `Wondrous.WondrousOfSeven` | demo05.py:19-35 | a start of 7 prints seventeen terms |
| `Fibonacci.FibPositive` | demo01.py:9-12 | every Fibonacci number after the zeroth is at least 1 |
| `Fibonacci.FibMonotone` | demo01.py:12 | the Fibonacci numbers never decrease |
| `Fibonacci.SeriesBelowNoLonger` | demo01.py:10 | no series below `n` is longer than another |
| `Fibonacci.SeriesBelowUnique` | demo01.py:9-12 | only one sequence is the series below `n`, so `fib(n)`'s output is fully determined |
| `Fibonacci.PrintFib` | demo01.py:7-12 | the numbers printed are Fib(1), Fib(2), … in order with none skipped; each is below `n`; the first one not printed is at least `n`; the output never decreases; nothing is printed when `n <= 1`; the loop terminates (the invariant keeps `(a, b)` at consecutive Fibonacci numbers) |
| `DanishFlag.Pixel` | demo08.py:6-12 | the pixel is `' '` exactly when the row or the column is 2, and `'*'` otherwise |
| `DanishFlag.PixelsAt` | demo08.py:22-24 | a row's pixels have one character per column, and column `col` holds `showPixel`'s choice for it |
| `DanishFlag.PixelsStars` | demo08.py:6-24 | the star count of a row's first `cols` pixels: none in row 2, otherwise one per column but column 2 |
| `DanishFlag.LinesLength` | demo08.py:20-26 | each written line is 13 characters long |
| `DanishFlag.LinesAt` | demo08.py:20-26 | line `row` starts at `row * 13`; characters 0 to 11 of it are the row's pixels; character 12 is the line break |
| `DanishFlag.LinesCount` | demo08.py:22-25 | a line adds its pixels' characters to the count, and the line break adds no pixel |
| `DanishFlag.LinesStarsStep` | demo08.py:20-26 | writing line `rows - 1` adds 11 stars to those above it, or none when it is row 2 |
| `DanishFlag.LinesStars` | demo08.py:20-26 | the first `rows` lines hold 11 stars per row, except row 2 |
| `DanishFlag.FlagLength` | demo08.py:20-26 | the flag is 65 characters: 5 lines of 12 pixels and a line break each |
| `DanishFlag.FlagCell` | demo08.py:20-24 | the character at `row * 13 + col` is `showPixel(col, row)`: the rows go top to bottom and the columns inside each row; row 2 and column 2 are blank |
| `DanishFlag.FlagLineBreak` | demo08.py:25 | the character at `row * 13 + 12` is a line break for every row |
| `DanishFlag.FlagStars` | demo08.py:7-26 | the flag holds exactly 44 stars: 4 rows of 11 |
| `DanishFlag.ShowDanish` | demo08.py:15-26 | the nested loops write exactly the flag: 65 characters, 44 of them stars |

## Left out

- `test08.py`: its matching and substitution are done by Python's `re` library, which is not part of this model.
- Reading and parsing the start term from standard input (demo05.py:39-41). The start is a parameter, and a crash on bad input is not modelled.
- The drivers at the bottom of each script and their banner strings (demo01.py:15-16, demo05.py:39 and 42, demo08.py:29).
- The blank line `printWondrous` prints after the loop (demo05.py:33). The output sequence holds only the terms.
- Console formatting: Python 2's space-separated `print b,` (demo01.py:11), one term per line in demo05.py, and the buffering of `sys.stdout.write`. Output is a sequence of values.
- PrintWondrous: the source loops until the guard fails, and this is not proved to happen for every start (the Collatz conjecture). The method stops after `fuel` steps and reports `finished == false`. The source has no such limit.
- The Python-to-Perl translator that the repository is built around is not part of this model.
