# SeamCarver in Dafny

This project models the `SeamCarver` class of `hw5/SeamCarver.java`. A seam carver holds:

- a picture;
- the picture's width and height, as they were when the carver was built;
- an energy map with one energy per pixel;
- a scratch copy of that map with its axes swapped.

Two parts are modelled.

**Energy.** A pixel's energy is the squared RGB distance between its left and right neighbours, plus the same between its upper and lower neighbours. Neighbours wrap around at the borders.

**Seam search.** The search is greedy. From every top-row column it walks down. Each step goes to the cheapest of the two or three cells directly below, and the leftmost wins a tie. It sums the energy along each walk and returns the cheapest walk, again taking the first on a tie. A horizontal seam is the same search run on the transposed map.

The modules are:

- `Results`: the exceptions, `Option`, `Result` and `Outcome`.
- `Pictures`: the picture, a grid of RGB triples with channels 0..255, indexed `[x][y]`.
- `GreedySeams`: the search stated on values, over `seq<seq<int>>` maps indexed `[x][y]`.
- `Carver`: the class `SeamCarver` with its `array2<int>` energy maps and its imperative loops. Each seam-search method (FindHorizontalSeam, FindNextPixel, FindVerticalSeam, FindVerticalSeamHelper, WalkAll, WalkDown, IndexOfMinPath) is proved equal to the value-level definitions in `GreedySeams`. The constructor and PixelEnergy are tied to `Carver.Energy`. The removals and the getters state the new field values directly.

Modelling decisions:

- **`double` becomes `int`.** Channels are integers, so every energy and path cost is an exact integer.
- **The greedy search, not the optimal one.** Seam carving is usually described as finding the cheapest connected seam by dynamic programming. This code is greedy, and the model follows the code. `GreedySeams.GreedyIsNotOptimal` gives a 3-by-3 map on which the returned seam costs 10 while a connected seam of cost 1 exists.
- **Energy as a pure function.** `energy` and `colorDiff` read only the picture, the width and the height. They are therefore modelled as pure functions of those three, and `SeamCarver.PixelEnergy` applies them to the carver's fields.
- **Exceptions as values.** An exception is a `Result`/`Outcome` value. An out-of-range `energy` call gives `IndexOutOfBounds`. A picture read outside the picture gives `PixelOutOfRange`. A seam of the wrong length gives `IllegalArgument`.
- **The read-only map is passed by value.** The search methods only read the energy map, so they take its contents as a value (`Carver.Cells`). The walks (`findArray`) and their costs (`minPathCost`) are arrays that the loops fill in place.
- **The latent crash is a precondition.** The helper fails when `inWidth == 0`, because it reads `minPathCost[0]`. It also fails when `inWidth == 1` and `inHeight >= 2`, because `findNextPixel` reads column 1. So the search methods require `inWidth >= 1 && (inWidth >= 2 || inHeight <= 1)`.

## Model

| member | source | states |
|---|---|---|
| Pictures.SqDiff | hw5/SeamCarver.java:42-45 | the sum of squared channel differences is non-negative, and zero exactly when the two colours are equal |
| Carver.ColorDiff | hw5/SeamCarver.java:39-46 | the colour difference is defined exactly when both pixels lie in the picture (otherwise `PixelOutOfRange`); it is non-negative, and zero exactly when the two pixels have the same colour |
| Carver.Energy | hw5/SeamCarver.java:48-61 | outside `0 <= x < width`, `0 <= y < height` the result is `IndexOutOfBounds`; inside those bounds, with the picture at least that large, it is defined and non-negative |
| Carver.EnergyWrapsAround | hw5/SeamCarver.java:53-60 | inside the picture, the energy is the x term plus the y term, with neighbour indices `(x - 1) mod width`, `(x + 1) mod width`, `(y - 1) mod height`, `(y + 1) mod height` |
| Carver.EnergyOfSingleColumn | hw5/SeamCarver.java:54-58 | when the width is 1, the x term vanishes and only the vertical term remains |
| Carver.EnergyOfSingleRow | hw5/SeamCarver.java:56-59 | when the height is 1, the y term vanishes and only the horizontal term remains |
| Carver.Cells | hw5/SeamCarver.java:8-9 | the value of a two-dimensional energy array is a map whose cell `[x][y]` is the array's entry `[x, y]`, with one column per first index |
| Carver.CellsOfTransposed | hw5/SeamCarver.java:65-69 | an array holding another's entries with the axes swapped has as its value the transpose of the other's value |
| Carver.SeamCarver.constructor | hw5/SeamCarver.java:11-22 | the carver holds the picture and its width and height, the two maps are fresh and sized width by height and height by width, and every energy map entry is the pixel's energy |
| Carver.SeamCarver.CurrentPicture | hw5/SeamCarver.java:25-27 | returns the held picture |
| Carver.SeamCarver.Width | hw5/SeamCarver.java:30-32 | returns the stored width |
| Carver.SeamCarver.Height | hw5/SeamCarver.java:35-37 | returns the stored height |
| Carver.SeamCarver.PixelEnergy | hw5/SeamCarver.java:49-61 | the energy of a pixel of the held picture, measured against the stored width and height; it fails exactly when the pixel is out of range or one of its four wrapped neighbours is outside the picture |
| Carver.SeamCarver.FindHorizontalSeam | hw5/SeamCarver.java:64-71 | fills the scratch map so that `energyMapTrans[j, i] == energyMap[i, j]`, leaves the energy map unchanged, and returns the greedy seam of the transposed map: `width` entries in `[0, height)`, consecutive entries differing by at most one |
| Carver.SeamCarver.FindNextPixel | hw5/SeamCarver.java:73-86 | the result is within one column of x and inside the map, a cheapest cell of row `y + 1` among those, strictly cheaper than every candidate to its left, and equal to `GreedySeams.NextPixel` |
| Carver.SeamCarver.FindVerticalSeam | hw5/SeamCarver.java:88-90 | returns the greedy seam of the energy map: `height` entries in `[0, width)`, consecutive entries differing by at most one |
| Carver.SeamCarver.FindVerticalSeamHelper | hw5/SeamCarver.java:93-117 | returns `GreedySeams.GreedySeam` of the map: `inHeight` entries in `[0, inWidth)`, consecutive entries differing by at most one |
| Carver.SeamCarver.WalkAll | hw5/SeamCarver.java:94-107 | row `x` of `findArray` is the greedy walk from top-row column x, and `minPathCost` is the list of the walks' summed energies (`GreedySeams.Costs`) |
| Carver.SeamCarver.WalkDown | hw5/SeamCarver.java:97-106 | row `x` of `findArray` becomes the greedy walk from column x, and `minPathCost[x]` becomes the sum of `inMap[walk[d]][d]` over all rows; every other row and entry is unchanged |
| Carver.SeamCarver.IndexOfMinPath | hw5/SeamCarver.java:108-115 | the index of a least path cost, strictly less than every cost before it (the first minimum), equal to `GreedySeams.FirstMin` |
| Carver.SeamCarver.RemoveHorizontalSeam | hw5/SeamCarver.java:120-126 | a seam whose length is not the width is rejected with `IllegalArgument`, leaving the picture unchanged; otherwise the picture becomes the remover's result; width and height never change |
| Carver.SeamCarver.RemoveVerticalSeam | hw5/SeamCarver.java:129-135 | a seam whose length is not the height is rejected with `IllegalArgument`, leaving the picture unchanged; otherwise the picture becomes the remover's result; width and height never change |
| GreedySeams.FirstMin | hw5/SeamCarver.java:108-115 | the index holds a least element, strictly smaller than every element before it |
| GreedySeams.NextPixel | hw5/SeamCarver.java:74-85 | the next column lies inside the map and within one column of x |
| GreedySeams.NextPixelIsLeftmostCheapest | hw5/SeamCarver.java:74-85 | the next column is a cheapest cell below among the clipped neighbours, and strictly cheaper than every one of them to its left |
| GreedySeams.LeftmostCheapestIsNextPixel | hw5/SeamCarver.java:74-85 | conversely, a leftmost cheapest cell below is the next column, so the tie-breaking rule determines the step |
| GreedySeams.GreedyPath | hw5/SeamCarver.java:97-104 | the first n steps of a walk are n columns inside the map, starting at x |
| GreedySeams.GreedyPathPrefix | hw5/SeamCarver.java:97-104 | a shorter walk from the same column is a prefix of a longer one |
| GreedySeams.GreedyPathStep | hw5/SeamCarver.java:102-103 | every step of a walk is the `NextPixel` step from the cell above |
| GreedySeams.GreedyPathStepIsLeftmostCheapest | hw5/SeamCarver.java:102-103 | every step of a walk goes to a cheapest cell among those directly below, the leftmost on a tie |
| GreedySeams.GreedyPathIsConnected | hw5/SeamCarver.java:97-104 | consecutive entries of a walk differ by at most one |
| GreedySeams.Costs | hw5/SeamCarver.java:95-104 | the reference for `minPathCost`: one entry per top-row column, the summed energy `GreedySeams.PathCost` of that column's full greedy walk |
| GreedySeams.PathCostBounds | hw5/SeamCarver.java:100-104 | on a map of non-negative energies, the summed energy along a path is non-negative and at least the energy of each cell it passes |
| GreedySeams.GreedySeam | hw5/SeamCarver.java:93-117 | the returned seam has one entry per row, inside the map, and is connected |
| GreedySeams.GreedySeamIsFirstCheapest | hw5/SeamCarver.java:108-116 | the seam is the full walk from its own top column, no greedy walk costs less, and every walk starting further left costs strictly more |
| GreedySeams.GreedyIsNotOptimal | hw5/SeamCarver.java:93-117 | on a fixed 3-by-3 map the search returns `[0, 0, 0]` of cost 10, while the connected seam `[1, 0, 0]` costs 1 |
| GreedySeams.Transpose | hw5/SeamCarver.java:65-69 | the transposed map has its axes swapped: `t[y][x] == m[x][y]` |
| GreedySeams.TransposeTwice | hw5/SeamCarver.java:65-69 | transposing twice gives back the map |

## Left out

- `Picture` and `Color` are library types. They are modelled as a grid of RGB triples, and their implementation is not modelled.
- `SeamRemover.removeHorizontalSeam` and `SeamRemover.removeVerticalSeam` are not part of this model. The removal methods take the remover as a function parameter that returns a new picture or an error.
- The width, the height and the energy maps are not recomputed after a removal, because the source never does this. After a removal, the `energy` of a pixel is `PixelOutOfRange` whenever one of its wrapped neighbours lies outside the shrunk picture. After a vertical removal this includes column 0, whose left neighbour wraps to the stale last column.
- Floating point is not modelled. `double` is `int`, since every value is an exact integer.
- Picture file input and output are left out. Both belong to the library.
- FindVerticalSeamHelper takes the map's contents and not a Java `double[][]`, so aliasing between that argument and the carver's fields is not modelled. The map is only read.
- WalkAll: `findArray` is an `array2<int>` rather than an array of row arrays. Returning `findArray[indexMinPath]` is modelled as a copy of that row into a sequence, so sharing the row with the discarded array is not modelled.
- FindHorizontalSeam, FindVerticalSeam: the latent crash for a zero width or height, and for a one-column map more than one row tall, is a precondition rather than a modelled exception.
