# Travelling salesman: reduced-cost matrix, Held–Karp table, path and input parser

A Dafny model of the solver core of the `io.pavelkoch.tsp` Java project. It covers four parts:

- **`AdjacencyMatrix`**: the reduced-cost matrix of Little's branch-and-bound method.
  - `fromCities` builds it, with `-1` on the diagonal.
  - `getLowestValue` finds the lowest value of a row or column that is not `-1`.
  - `reduceAndCost` subtracts the row minima, then the column minima, and returns the total subtracted.
  - `excludePath` turns a row, a column and one cell into `-1`.
  - `copy` duplicates the matrix.

  The value-level definitions are in module `AdjacencyMatrix` (`matrix.dfy`). The in-place operations on `array2<int>` are in `MatrixOps` (`matrix_ops.dfy`).
- **`Salesman`**: the Held–Karp bitmask dynamic program (`salesman.dfy`).
  - `generateAdjacencyMatrix`, `notIn` and both `combinations` are modelled.
  - `setup` seeds the two-city entries.
  - `solve` fills `memory[next][subset]` round by round.
  - `findCost` reads off the tour length.
  - `findTour` rebuilds the tour backwards.

  Module `Tours` (`tours.dfy`) defines the reference meaning independently of the table: Hamiltonian paths, round trips and their lengths. The table, the cost and the tour are proved optimal against it. Bit operations on masks are in `Bits` (`bits.dfy`).
- **`Path`**: an immutable, append-only list of cities (`path.dfy`). `at`, `add`, `last`, `size`, `getCityId` and `has` are all modelled. `City` (`cities.dfy`) is a class, so cities compare by reference, as `List.contains` does for a class without `equals`.
- **`InputFileReader`**: the parser (`reader.dfy`).
  - `read` drops the empty lines, keeps the rest in order, and maps each one through `convertLineToCity`. `ReadWith` is that loop with the conversion of a line as a parameter, and `Read` is `ReadWith` with `ConvertLine`.
  - `convertLineToCity` applies `trim`, `replaceAll(" +", " ")`, `split(" ")` and `Integer.parseInt`, each with its Java library semantics.
  - The first field minus one, in 32-bit arithmetic, is the id.

  Errors are values: `ParseError` is `MissingField(k)` for the array index error and `NotAnInteger(field)` for the `NumberFormatException`.

Conventions used throughout:

- Costs are integers.
- The distance between two cities is a parameter `dist: (City, City) -> nat`.
- `Double.MAX_VALUE`, the "no candidate yet" value of the minimum scans, is `None`.
- The Held–Karp table is a sequence of maps, so an entry that was never written is absent. Every read requires presence, which is how the model proves that each entry is written before it is read.

## Model

| member | source | states |
|---|---|---|
| MatrixOps.FromCities | src/io/pavelkoch/tsp/AdjacencyMatrix.java:34-53 | an n×n matrix with -1 on every diagonal cell and the distance of cities i and j at both [i][j] and [j][i] |
| AdjacencyMatrix.LineMin | src/io/pavelkoch/tsp/AdjacencyMatrix.java:130-145 | the scan finds nothing exactly when every cell of the line is -1; otherwise it returns a non-sentinel value of the line that no non-sentinel cell undercuts |
| AdjacencyMatrix.Lowest | src/io/pavelkoch/tsp/AdjacencyMatrix.java:130-145 | an all-sentinel line has lowest value 0; otherwise the lowest value is attained by a non-sentinel cell and bounds all of them from below |
| MatrixOps.GetLowestValue | src/io/pavelkoch/tsp/AdjacencyMatrix.java:130-145 | the loop over the array returns the lowest value of row or column k, at most every non-sentinel cell of it, and 0 for an all-sentinel line |
| AdjacencyMatrix.ReduceLinesShape | src/io/pavelkoch/tsp/AdjacencyMatrix.java:64-88 | one pass keeps exactly the -1 cells, leaves every other cell non-negative and puts a 0 in every line of its orientation that is not all -1 |
| AdjacencyMatrix.Reduce | src/io/pavelkoch/tsp/AdjacencyMatrix.java:61-92 | reduceAndCost as a value: the row pass, then the column pass on its result, and the sum of both passes' minima; ReduceLeavesZeroPerLine, ReduceKeepsSentinels, ReduceIdempotent and ReduceLowerBound state what it promises |
| AdjacencyMatrix.ReduceKeepsSentinels | src/io/pavelkoch/tsp/AdjacencyMatrix.java:61-92 | the full reduction keeps exactly the -1 cells and leaves every other cell non-negative, so no new sentinel appears |
| AdjacencyMatrix.ReduceLeavesZeroPerLine | src/io/pavelkoch/tsp/AdjacencyMatrix.java:55-92 | after the reduction, every row and every column that is not all -1 contains a 0 |
| AdjacencyMatrix.ReduceCostNonNegative | src/io/pavelkoch/tsp/AdjacencyMatrix.java:61-92 | the returned cost is non-negative when the input's non-sentinel cells are |
| AdjacencyMatrix.ReduceIdempotent | src/io/pavelkoch/tsp/AdjacencyMatrix.java:61-92 | reducing a reduced matrix leaves it unchanged and costs 0 |
| AdjacencyMatrix.ReduceLowerBound | src/io/pavelkoch/tsp/AdjacencyMatrix.java:55-92 | for every assignment of distinct columns to rows (a permutation) that avoids -1 cells, its cost is its reduced cost plus the returned cost, so the returned cost is a lower bound on it |
| AdjacencyMatrix.Excluded | src/io/pavelkoch/tsp/AdjacencyMatrix.java:100-107 | row from, column to and cell [to][from] become -1, and every other cell is unchanged |
| AdjacencyMatrix.ExcludeIdempotent | src/io/pavelkoch/tsp/AdjacencyMatrix.java:100-107 | excluding the same edge twice is excluding it once |
| AdjacencyMatrix.ExcludeThenReduce | src/io/pavelkoch/tsp/AdjacencyMatrix.java:100-107 | after excluding an edge and reducing, row from and column to are still all -1 and the cost stays non-negative for a non-negative matrix |
| MatrixOps.ReduceLinesInPlace | src/io/pavelkoch/tsp/AdjacencyMatrix.java:64-88 | the in-place pass leaves the array holding the reduced matrix and returns the sum of the lowest values it subtracted |
| MatrixOps.ReduceAndCost | src/io/pavelkoch/tsp/AdjacencyMatrix.java:61-92 | the in-place reduction leaves the array holding the reduced matrix and returns its cost |
| MatrixOps.ExcludePath | src/io/pavelkoch/tsp/AdjacencyMatrix.java:100-107 | the in-place exclusion leaves the array holding the excluded matrix |
| MatrixOps.Copy | src/io/pavelkoch/tsp/AdjacencyMatrix.java:114-122 | the copy is fresh storage holding the same cells |
| Salesman.GenerateAdjacencyMatrix | src/io/pavelkoch/tsp/Salesman.java:40-58 | an n×n matrix with -1 on the diagonal, symmetric, with the distance of cities i and j off it |
| Bits.HasOr | src/io/pavelkoch/tsp/Salesman.java:66 | bit j of a \| b is set exactly when it is set in a or in b |
| Bits.HasXor | src/io/pavelkoch/tsp/Salesman.java:82 | bit j of a ^ b is set exactly when it is set in exactly one of them |
| Bits.HasAndNot | src/io/pavelkoch/tsp/Salesman.java:122 | bit j of a & ~b is set exactly when it is set in a and clear in b |
| Bits.HasFull | src/io/pavelkoch/tsp/Salesman.java:127 | (1 << n) - 1 has bit j set exactly when j < n |
| Salesman.NotInIsClearBit | src/io/pavelkoch/tsp/Salesman.java:103-105 | notIn(i, s) holds exactly when bit i of s is clear |
| Salesman.NotIn | src/io/pavelkoch/tsp/Salesman.java:103-105 | notIn(i, subset) as (1 << i) & subset == 0; NotInIsClearBit proves that this is exactly "bit i is clear" |
| Salesman.CombinationsExactly | src/io/pavelkoch/tsp/Salesman.java:107-124 | a mask is listed exactly when it lies below bit n and has r bits set, and none is listed twice |
| Salesman.Combinations | src/io/pavelkoch/tsp/Salesman.java:107-124 | combinations(r, n), the depth-first enumeration of choices of r cities among n; CombinationsExactly proves it lists every n-bit mask with r bits, each once |
| Salesman.Setup | src/io/pavelkoch/tsp/Salesman.java:60-68 | memory[i][{start, i}] holds matrix[start][i] for every i other than start, and nothing else is written |
| Salesman.MinOverEnds | src/io/pavelkoch/tsp/Salesman.java:83-95 | the scan is None exactly when there is no admissible end; otherwise it is attained by an admissible end and no admissible end gives less |
| Salesman.FillSubset | src/io/pavelkoch/tsp/Salesman.java:77-98 | for one subset, every memory[next][subset] satisfies the Held–Karp recurrence; entries of other subsets are untouched |
| Salesman.SolveRound | src/io/pavelkoch/tsp/Salesman.java:72-99 | one round fills every subset of size r, given that all smaller subsets are filled; each entry it reads was written earlier |
| Salesman.Solve | src/io/pavelkoch/tsp/Salesman.java:70-101 | after all rounds, every entry for a subset holding start and of size 2 to n satisfies its recurrence |
| Salesman.PathBound | src/io/pavelkoch/tsp/Salesman.java:70-101 | every filled entry memory[next][s] is at most the length of any path from start through exactly the cities of s ending at next |
| Salesman.PathWitness | src/io/pavelkoch/tsp/Salesman.java:70-101 | every filled entry memory[next][s] is the length of some such path |
| Salesman.ClosingIsShortest | src/io/pavelkoch/tsp/Salesman.java:126-143 | the least of memory[end][full] + matrix[end][start] is the length of a shortest round trip |
| Salesman.FindCost | src/io/pavelkoch/tsp/Salesman.java:126-143 | no cost (Double.MAX_VALUE) exactly when there are fewer than two cities; otherwise the length of a shortest round trip from start |
| Salesman.ChooseNext | src/io/pavelkoch/tsp/Salesman.java:151-168 | -1 exactly when the state holds no city but start; otherwise the first city of the state that minimises memory[j][state] + matrix[j][last] |
| Salesman.PlaceBackwards | src/io/pavelkoch/tsp/Salesman.java:146-173 | the cities placed from position n-1 down to 1, closed by start at both ends, form a shortest round trip |
| Salesman.FindTour | src/io/pavelkoch/tsp/Salesman.java:145-177 | n+1 positions, start at 0 and n, every city exactly once in between, and no round trip is shorter |
| Salesman.Travel | src/io/pavelkoch/tsp/Salesman.java:23-33 | from city 0, the tour is a shortest round trip over the cities' distances, and the cost is absent for at most one city and otherwise is the tour's length |
| Paths.At | src/io/pavelkoch/tsp/Path.java:15-17 | a path of size 1 whose last city, and only city, is the given one |
| Paths.Add | src/io/pavelkoch/tsp/Path.java:19-24 | size grows by one, the last city is the added one, earlier positions are unchanged, and the cities are the old ones plus the new one |
| Paths.Last | src/io/pavelkoch/tsp/Path.java:26-28 | last returns a city on the path; BuildOrder proves it is the city added last |
| Paths.Size | src/io/pavelkoch/tsp/Path.java:30-32 | size counts the cities, repeats included; BuildOrder proves a path from at and k adds has size k + 1 |
| Paths.GetCityId | src/io/pavelkoch/tsp/Path.java:34-36 | getCityId(i) is the id of the i-th city; GetCityIdAfterAdd proves add keeps the earlier ids and appends the new one |
| Paths.Has | src/io/pavelkoch/tsp/Path.java:38-40 | has compares by reference; HasAfterAdd proves add(c) makes it hold of c and of exactly the cities it held of before |
| Paths.BuildOrder | src/io/pavelkoch/tsp/Path.java:15-28 | a path built by at and add lists the cities in the order added, is never empty, and its last city is the one added last |
| Paths.HasAfterAdd | src/io/pavelkoch/tsp/Path.java:38-40 | after add(c), has holds of c and of exactly the cities it held of before |
| Paths.GetCityIdAfterAdd | src/io/pavelkoch/tsp/Path.java:34-36 | after add(c), getCityId is unchanged below the old size and is c's id at the new last position |
| InputFileReader.TrimShape | src/io/pavelkoch/tsp/InputFileReader.java:31 | trim leaves no character up to U+0020 at either end, and is empty exactly for a line of such characters |
| InputFileReader.Trim | src/io/pavelkoch/tsp/InputFileReader.java:31 | line.trim(), as the leading pass then the trailing pass; TrimShape, TrimStartShape and TrimEndShape state its result |
| InputFileReader.TrimStartShape | src/io/pavelkoch/tsp/InputFileReader.java:31 | the leading pass of trim keeps a suffix of the line and drops only characters up to U+0020 |
| InputFileReader.TrimEndShape | src/io/pavelkoch/tsp/InputFileReader.java:31 | the trailing pass of trim keeps a prefix of the line and drops only characters up to U+0020 |
| InputFileReader.Squeeze | src/io/pavelkoch/tsp/InputFileReader.java:31 | replaceAll(" +", " "); SqueezeShape, SqueezeFixed, SqueezeDouble and SqueezeRun pin it down |
| InputFileReader.TrimPadding | src/io/pavelkoch/tsp/InputFileReader.java:31 | white characters before and after a line do not change its trimmed form |
| InputFileReader.SqueezeShape | src/io/pavelkoch/tsp/InputFileReader.java:31 | replaceAll(" +", " ") leaves no two adjacent spaces, keeps every other character in order, and keeps emptiness and a leading or trailing space |
| InputFileReader.SqueezeFixed | src/io/pavelkoch/tsp/InputFileReader.java:31 | a string without two adjacent spaces is left unchanged |
| InputFileReader.SqueezeAppend | src/io/pavelkoch/tsp/InputFileReader.java:31 | squeezing a concatenation whose first part does not end in a space squeezes each part separately |
| InputFileReader.SqueezeDouble | src/io/pavelkoch/tsp/InputFileReader.java:31 | two adjacent spaces squeeze to the same result as one |
| InputFileReader.SqueezeRun | src/io/pavelkoch/tsp/InputFileReader.java:31 | a run of k ≥ 1 spaces squeezes to the same result as one space |
| InputFileReader.PiecesJoin | src/io/pavelkoch/tsp/InputFileReader.java:31 | cutting at every space and rejoining with single spaces gives the string back |
| InputFileReader.PiecesSpaceFree | src/io/pavelkoch/tsp/InputFileReader.java:31 | no piece cut at the spaces contains a space |
| InputFileReader.DropTrailingEmpty | src/io/pavelkoch/tsp/InputFileReader.java:31 | split drops exactly the empty pieces at the end: the rest is a prefix ending in a non-empty piece |
| InputFileReader.Split | src/io/pavelkoch/tsp/InputFileReader.java:31 | split(" "): the whole string without a space, otherwise the pieces between spaces with trailing empty ones dropped; FieldsShape and FieldsOfJoin state the fields it gives |
| InputFileReader.FieldsShape | src/io/pavelkoch/tsp/InputFileReader.java:31 | a blank line has the single field ""; any other line has non-empty fields without spaces that, single-spaced, give the trimmed and squeezed line |
| InputFileReader.FieldsOfJoin | src/io/pavelkoch/tsp/InputFileReader.java:31 | a line of words separated by single spaces has exactly those words as its fields |
| InputFileReader.FieldsRun | src/io/pavelkoch/tsp/InputFileReader.java:31 | a run of spaces inside a line gives the same fields as one space |
| InputFileReader.ParseInt | src/io/pavelkoch/tsp/InputFileReader.java:34-36 | a parsed value is a 32-bit integer, negative only after a minus sign, from a sign or digit followed by digits only, ending in a digit (so a lone sign is rejected) |
| InputFileReader.ParseDigits | src/io/pavelkoch/tsp/InputFileReader.java:34-36 | an optional + or - before a non-empty digit string in range reads as its value, negated after - |
| InputFileReader.ParseSignedPadded | src/io/pavelkoch/tsp/InputFileReader.java:34-36 | a + sign, a - sign and leading zeros are accepted: they read as n or -n for the digits of n |
| InputFileReader.ParseShow | src/io/pavelkoch/tsp/InputFileReader.java:34-36 | every 32-bit integer is read back from its decimal form |
| InputFileReader.Wrap32 | src/io/pavelkoch/tsp/InputFileReader.java:34 | the result is a 32-bit integer congruent to the input modulo 2^32, and equal to it when it already fits |
| InputFileReader.FieldShown | src/io/pavelkoch/tsp/InputFileReader.java:34-36 | data[k] holding the decimal form of a 32-bit integer parses to that integer |
| InputFileReader.FieldNotNumber | src/io/pavelkoch/tsp/InputFileReader.java:34-36 | a field that is empty or does not end in a digit fails as NotAnInteger of that very field |
| InputFileReader.ConvertFieldsSpec | src/io/pavelkoch/tsp/InputFileReader.java:33-37 | a city exactly when there are three integer fields, built as (first − 1, second, third); otherwise the first failing field decides the error, and later fields are ignored |
| InputFileReader.ConvertShown | src/io/pavelkoch/tsp/InputFileReader.java:30-38 | the decimal forms of three integers followed by any words, single-spaced, give the city of those integers with id one less |
| InputFileReader.ConvertLineSpacing | src/io/pavelkoch/tsp/InputFileReader.java:31 | white padding around a line and runs of spaces between fields do not change the city |
| InputFileReader.ConvertLine | src/io/pavelkoch/tsp/InputFileReader.java:30-38 | convertLineToCity: the fields of the line converted by ConvertFields; ConvertShown, ConvertLineSpacing and BlankLineFails state what it accepts and rejects |
| InputFileReader.BlankLineFails | src/io/pavelkoch/tsp/InputFileReader.java:19-37 | a line of white characters only is rejected with the field "", whereas the filter drops only the empty line |
| InputFileReader.NonEmptyLines | src/io/pavelkoch/tsp/InputFileReader.java:19 | the kept lines are all non-empty lines of the input |
| InputFileReader.NonEmptyLinesAppend | src/io/pavelkoch/tsp/InputFileReader.java:19 | filtering a concatenation is filtering each part, so input order is kept |
| InputFileReader.NonEmptyLinesCount | src/io/pavelkoch/tsp/InputFileReader.java:19 | exactly the empty lines are dropped: every other line keeps its number of occurrences |
| InputFileReader.CollectSpec | src/io/pavelkoch/tsp/InputFileReader.java:20-21 | collecting succeeds exactly when every line converts, with one city per line in order |
| InputFileReader.CollectFirstError | src/io/pavelkoch/tsp/InputFileReader.java:20-21 | a failed collection reports the error of its first failing line |
| InputFileReader.ReadWithSpec | src/io/pavelkoch/tsp/InputFileReader.java:17-22 | with any conversion of a line, reading succeeds exactly when every non-empty line converts, giving one city per non-empty line in file order |
| InputFileReader.ReadWithFirstError | src/io/pavelkoch/tsp/InputFileReader.java:17-22 | with any conversion of a line, a failed read reports the error of its first non-empty line that does not convert |
| InputFileReader.Read | src/io/pavelkoch/tsp/InputFileReader.java:17-22 | read as ReadWith over convertLineToCity; ReadSpec and ReadFirstError state its result |
| InputFileReader.ReadSpec | src/io/pavelkoch/tsp/InputFileReader.java:17-22 | read succeeds exactly when every non-empty line converts, giving one city per non-empty line in file order |
| InputFileReader.ReadFirstError | src/io/pavelkoch/tsp/InputFileReader.java:17-22 | a failed read reports the error of its first non-empty line that does not convert |

## Left out

- Distances: `City.distanceTo` (`Math.sqrt` over doubles) is the parameter `dist`, and costs are integers. IEEE rounding is not modelled.
- `Double.MAX_VALUE` is modelled as `None` rather than as a number. The sum `memory[..] + matrix[..]` therefore never saturates or overflows.
- The 32-bit wrap of `1 << i` is not modelled, and neither is the saturation of the narrowing cast `(int) Math.pow(2, size)` to `Integer.MAX_VALUE`. Masks are unbounded naturals. For 31 cities the saturated cast would leave the table one column short, so the model describes inputs of up to 30 cities faithfully.
- `Salesman.travel`: the printing, the timing and the `Arrays.toString` output are left out. `Salesman.Travel` returns the cost and the tour instead.
- `InputFileReader.read`: the `Files.lines` I/O and `IOException` are left out. `Read` takes the file's lines.
- `InputFileReader.ParseInt`: only ASCII digits. `Integer.parseInt` also accepts other Unicode decimal digits.
- `InputFileReader.Trim`: `trim` removes every character up to U+0020, tabs included. Only the single space counts as a separator, as in the Java regular expression.
- `Main`, `Route`, `Tree` and the `toString` methods only wire things up or format text.
- No branch-and-bound driver that calls `AdjacencyMatrix` exists in the source, so none is modelled.
- Salesman.Solve: the Java table holds 0.0 in unwritten cells and would read it silently. The model requires every entry it reads to have been written, and proves that this holds.
- Paths.Add: the receiver is left unchanged because paths are immutable values, so no frame condition is stated.
- Salesman.Travel: an empty city list yields the tour `[0]` and no cost, which is what the code does.
- MatrixOps.ReduceAndCost: this and the other in-place array methods (`ReduceLinesInPlace`, `ExcludePath`, `Copy`) state their effect with `old` and `fresh`. The same effect is also stated on values, by the functions and lemmas of `AdjacencyMatrix` they refine.
