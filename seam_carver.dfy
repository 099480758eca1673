/**
 * The seam carver: it holds a picture, the picture's width and height as they
 * were when the carver was built, the energy of every pixel, and a scratch
 * copy of the energies with the axes swapped for the horizontal search.
 */
module Carver {
  import opened Results
  import opened Pictures
  import opened GreedySeams

  /** The contents of a two-dimensional array as columns: Cells(a)[x][y] == a[x, y]. */
  function Cells(a: array2<int>): (m: seq<seq<int>>)
    reads a
    ensures |m| == a.Length0 && IsMap(m, a.Length1)
    ensures forall x, y | 0 <= x < a.Length0 && 0 <= y < a.Length1 :: m[x][y] == a[x, y]
  {
    RowsBefore(a, a.Length0)
  }

  /** The first n rows a[0], ..., a[n - 1] of a two-dimensional array. */
  function RowsBefore(a: array2<int>, n: nat): (m: seq<seq<int>>)
    requires n <= a.Length0
    reads a
    ensures |m| == n && forall x | 0 <= x < n :: m[x] == Row(a, x)
  {
    if n == 0 then [] else RowsBefore(a, n - 1) + [Row(a, n - 1)]
  }

  /** Row i of a two-dimensional array, as a sequence. */
  function Row(a: array2<int>, i: int): (r: seq<int>)
    requires 0 <= i < a.Length0
    reads a
    ensures |r| == a.Length1 && forall d | 0 <= d < a.Length1 :: r[d] == a[i, d]
  {
    RowBefore(a, i, a.Length1)
  }

  /** The first k entries a[i, 0], ..., a[i, k - 1] of row i. */
  function RowBefore(a: array2<int>, i: int, k: nat): (r: seq<int>)
    requires 0 <= i < a.Length0 && k <= a.Length1
    reads a
    ensures |r| == k && forall d | 0 <= d < k :: r[d] == a[i, d]
  {
    if k == 0 then [] else RowBefore(a, i, k - 1) + [a[i, k - 1]]
  }

  /** The squared colour distance between pixels (x1, y1) and (x2, y2) of
      picture p; a pixel outside the picture is an error. */
  function ColorDiff(p: Picture, x1: int, y1: int, x2: int, y2: int): (r: Result<int>)
    ensures r.Ok? <==> Get(p, x1, y1).Some? && Get(p, x2, y2).Some?
    ensures r.Err? ==> r.error == PixelOutOfRange
    ensures r.Ok? ==> r.value >= 0 && (r.value == 0 <==> p.pixels[x1][y1] == p.pixels[x2][y2])
  {
    match (Get(p, x1, y1), Get(p, x2, y2))
    case (Some(color1), Some(color2)) => Ok(SqDiff(color1, color2))
    case _ => Err(PixelOutOfRange)
  }

  /** The energy of pixel (x, y) for a carver holding picture p with the given
      width and height: the colour distance between its left and right
      neighbours plus that between its upper and lower neighbours, where
      neighbours wrap around at the borders. */
  function Energy(p: Picture, width: int, height: int, x: int, y: int): (r: Result<int>)
    ensures !(0 <= x < width && 0 <= y < height) ==> r == Err(IndexOutOfBounds)
    ensures 0 <= x < width <= p.width && 0 <= y < height <= p.height ==> r.Ok?
    ensures r.Ok? ==> r.value >= 0
  {
    if x < 0 || x > width - 1 || y < 0 || y > height - 1 then Err(IndexOutOfBounds)
    else
      var xRight := if x == width - 1 then 0 else x + 1;
      var xLeft := if x == 0 then width - 1 else x - 1;
      var yUp := if y == 0 then height - 1 else y - 1;
      var yDown := if y == height - 1 then 0 else y + 1;
      match ColorDiff(p, xLeft, y, xRight, y)
      case Err(e) => Err(e)
      case Ok(xDiff) =>
        match ColorDiff(p, x, yUp, x, yDown)
        case Err(e) => Err(e)
        case Ok(yDiff) => Ok(xDiff + yDiff)
  }

  /** Within the picture, the energy is the two gradient terms with the
      neighbour indices taken modulo the width and the height. */
  lemma EnergyWrapsAround(p: Picture, width: int, height: int, x: int, y: int)
    requires 0 <= x < width <= p.width && 0 <= y < height <= p.height
    ensures Energy(p, width, height, x, y) == Ok(
      SqDiff(p.pixels[(x - 1) % width][y], p.pixels[(x + 1) % width][y]) +
      SqDiff(p.pixels[x][(y - 1) % height], p.pixels[x][(y + 1) % height]))
  {
    WrapBelow(x, width);
    WrapAbove(x, width);
    WrapBelow(y, height);
    WrapAbove(y, height);
  }

  /** In a one-column picture a pixel's horizontal neighbours are itself, so
      only the vertical term remains. */
  lemma EnergyOfSingleColumn(p: Picture, width: int, height: int, x: int, y: int)
    requires width == 1 && 0 <= x < width <= p.width && 0 <= y < height <= p.height
    ensures Energy(p, width, height, x, y) == Ok(SqDiff(p.pixels[x][(y - 1) % height], p.pixels[x][(y + 1) % height]))
  {
    EnergyWrapsAround(p, width, height, x, y);
  }

  /** In a one-row picture only the horizontal term remains. */
  lemma EnergyOfSingleRow(p: Picture, width: int, height: int, x: int, y: int)
    requires height == 1 && 0 <= x < width <= p.width && 0 <= y < height <= p.height
    ensures Energy(p, width, height, x, y) == Ok(SqDiff(p.pixels[(x - 1) % width][y], p.pixels[(x + 1) % width][y]))
  {
    EnergyWrapsAround(p, width, height, x, y);
  }

  /** Stepping back from index 0 wraps to the last index. */
  lemma WrapBelow(i: int, n: int)
    requires 0 <= i < n
    ensures (i - 1) % n == if i == 0 then n - 1 else i - 1
  {
    if i == 0 {
      assert -1 == (-1) * n + (n - 1);
    }
  }

  /** Stepping forward from the last index wraps to index 0. */
  lemma WrapAbove(i: int, n: int)
    requires 0 <= i < n
    ensures (i + 1) % n == if i == n - 1 then 0 else i + 1
  {
    if i == n - 1 {
      assert i + 1 == 1 * n + 0;
    }
  }

  /** An array holding another's entries with the axes swapped has the transposed cells. */
  lemma CellsOfTransposed(a: array2<int>, b: array2<int>)
    requires b.Length0 == a.Length1 && b.Length1 == a.Length0
    requires forall i, j | 0 <= i < a.Length0 && 0 <= j < a.Length1 :: b[j, i] == a[i, j]
    ensures Cells(b) == Transpose(Cells(a), a.Length1)
  {
    var c, t := Cells(b), Transpose(Cells(a), a.Length1);
    forall j | 0 <= j < a.Length1 ensures c[j] == t[j] {
      assert |c[j]| == |t[j]|;
    }
  }

  class SeamCarver {
    var inPicture: Picture
    var width: int
    var height: int
    var energyMap: array2<int>
    var energyMapTrans: array2<int>

    /** The energy map is width by height, its transposed copy height by width. */
    ghost predicate Valid()
      reads this
    {
      energyMap.Length0 == width && energyMap.Length1 == height &&
      energyMapTrans.Length0 == height && energyMapTrans.Length1 == width &&
      energyMap != energyMapTrans
    }

    /** Takes the picture's dimensions and fills the energy map pixel by pixel. */
    constructor (picture: Picture)
      ensures Valid()
      ensures inPicture == picture && width == picture.width && height == picture.height
      ensures fresh(energyMap) && fresh(energyMapTrans)
      ensures forall i, j | 0 <= i < width && 0 <= j < height :: Energy(inPicture, width, height, i, j) == Ok(energyMap[i, j])
    {
      inPicture := picture;
      width := picture.width;
      height := picture.height;
      energyMap := new int[picture.width, picture.height]((_, _) => 0);
      energyMapTrans := new int[picture.height, picture.width]((_, _) => 0);
      new;
      for i := 0 to width
        modifies energyMap
        invariant forall a, b | 0 <= a < i && 0 <= b < height :: Energy(picture, picture.width, picture.height, a, b) == Ok(energyMap[a, b])
      {
        for j := 0 to height
          modifies energyMap
          invariant forall a, b | 0 <= a < i && 0 <= b < height :: Energy(picture, picture.width, picture.height, a, b) == Ok(energyMap[a, b])
          invariant forall b | 0 <= b < j :: Energy(picture, picture.width, picture.height, i, b) == Ok(energyMap[i, b])
        {
          var e := Energy(inPicture, width, height, i, j);
          energyMap[i, j] := e.value;
        }
      }
    }

    method CurrentPicture() returns (p: Picture)
      ensures p == inPicture
    {
      p := inPicture;
    }

    method Width() returns (w: int)
      ensures w == width
    {
      w := width;
    }

    method Height() returns (h: int)
      ensures h == height
    {
      h := height;
    }

    /** The energy of pixel (x, y) of the current picture, measured against the
        width and height the carver was built with; out of range is an error. */
    method PixelEnergy(x: int, y: int) returns (r: Result<int>)
      ensures r == Energy(inPicture, width, height, x, y)
      ensures r.Err? <==> (!(0 <= x < width && 0 <= y < height) ||
        Get(inPicture, if x == 0 then width - 1 else x - 1, y).None? ||
        Get(inPicture, if x == width - 1 then 0 else x + 1, y).None? ||
        Get(inPicture, x, if y == 0 then height - 1 else y - 1).None? ||
        Get(inPicture, x, if y == height - 1 then 0 else y + 1).None?)
    {
      r := Energy(inPicture, width, height, x, y);
    }

    /** Transposes the energy map into the scratch map and runs the vertical
        search on it. */
    method FindHorizontalSeam() returns (seam: seq<int>)
      requires Valid()
      requires height >= 1 && (height >= 2 || width <= 1)
      modifies energyMapTrans
      ensures Valid() && unchanged(energyMap)
      ensures forall i, j | 0 <= i < width && 0 <= j < height :: energyMapTrans[j, i] == energyMap[i, j]
      ensures seam == GreedySeam(Transpose(Cells(energyMap), height), width)
      ensures IsSeam(seam, width, height)
    {
      for i := 0 to width
        invariant forall a, b | 0 <= a < i && 0 <= b < height :: energyMapTrans[b, a] == energyMap[a, b]
      {
        for j := 0 to height
          invariant forall a, b | 0 <= a < i && 0 <= b < height :: energyMapTrans[b, a] == energyMap[a, b]
          invariant forall b | 0 <= b < j :: energyMapTrans[b, i] == energyMap[i, b]
        {
          energyMapTrans[j, i] := energyMap[i, j];
        }
      }
      CellsOfTransposed(energyMap, energyMapTrans);
      seam := FindVerticalSeamHelper(height, width, Cells(energyMapTrans));
    }

    /** The column the walk moves to from column x of row y: the first
        cheapest of the cells below, one column either way within the map. */
    static method FindNextPixel(x: int, y: int, inWidth: int, inMap: seq<seq<int>>) returns (findIndex: int)
      requires inWidth == |inMap| >= 2 && IsMap(inMap, |inMap[0]|) && 0 <= x < inWidth && 0 <= y + 1 < |inMap[0]|
      ensures 0 <= findIndex < inWidth && x - 1 <= findIndex <= x + 1
      ensures forall k | 0 <= k < inWidth && x - 1 <= k <= x + 1 :: inMap[findIndex][y + 1] <= inMap[k][y + 1]
      ensures forall k | 0 <= k < findIndex && x - 1 <= k :: inMap[findIndex][y + 1] < inMap[k][y + 1]
      ensures findIndex == NextPixel(inMap, |inMap[0]|, x, y)
    {
      var numNeighbor := if x == 0 || x == inWidth - 1 then 2 else 3;
      var startIndex := if x == 0 then 0 else x - 1;
      ghost var first := startIndex;
      findIndex := startIndex;
      var minEnergy := inMap[startIndex][y + 1];
      for i := 1 to numNeighbor
        invariant startIndex == first + i - 1
        invariant first <= findIndex <= startIndex
        invariant minEnergy == inMap[findIndex][y + 1]
        invariant forall k | first <= k <= startIndex :: minEnergy <= inMap[k][y + 1]
        invariant forall k | first <= k < findIndex :: minEnergy < inMap[k][y + 1]
      {
        if inMap[startIndex + 1][y + 1] < minEnergy {
          minEnergy := inMap[startIndex + 1][y + 1];
          findIndex := startIndex + 1;
        }
        startIndex := startIndex + 1;
      }
      NextPixelIsLeftmostCheapest(inMap, |inMap[0]|, x, y);
    }

    method FindVerticalSeam() returns (seam: seq<int>)
      requires Valid()
      requires width >= 1 && (width >= 2 || height <= 1)
      ensures seam == GreedySeam(Cells(energyMap), height)
      ensures IsSeam(seam, height, width)
    {
      seam := FindVerticalSeamHelper(width, height, Cells(energyMap));
    }

    /** Walks greedily down from every top-row column, sums the energy along
        each walk, and returns the cheapest walk, the first one on a tie. */
    static method FindVerticalSeamHelper(inWidth: int, inHeight: int, inMap: seq<seq<int>>) returns (seam: seq<int>)
      requires inWidth == |inMap| && 0 <= inHeight && IsMap(inMap, inHeight)
      requires inWidth >= 1 && (inWidth >= 2 || inHeight <= 1)
      ensures seam == GreedySeam(inMap, inHeight)
      ensures IsSeam(seam, inHeight, inWidth)
    {
      var findArray, minPathCost := WalkAll(inWidth, inHeight, inMap);
      var indexMinPath := IndexOfMinPath(minPathCost);
      seam := Row(findArray, indexMinPath);
      assert seam == GreedyPath(inMap, inHeight, indexMinPath, inHeight) by {
        var best := GreedyPath(inMap, inHeight, indexMinPath, inHeight);
        assert |seam| == |best|;
        forall d | 0 <= d < inHeight ensures seam[d] == best[d] {
        }
      }
    }

    /** The first loop of the search: the greedy walk from every top-row
        column, each stored as a row of findArray, and its total energy. */
    static method WalkAll(inWidth: int, inHeight: int, inMap: seq<seq<int>>)
      returns (findArray: array2<int>, minPathCost: array<int>)
      requires inWidth == |inMap| && 0 <= inHeight && IsMap(inMap, inHeight)
      requires inWidth >= 1 && (inWidth >= 2 || inHeight <= 1)
      ensures fresh(findArray) && fresh(minPathCost)
      ensures findArray.Length0 == inWidth && findArray.Length1 == inHeight && minPathCost.Length == inWidth
      ensures forall a, d | 0 <= a < inWidth && 0 <= d < inHeight ::
        findArray[a, d] == GreedyPath(inMap, inHeight, a, inHeight)[d]
      ensures minPathCost[..] == Costs(inMap, inHeight)
    {
      ghost var costs := Costs(inMap, inHeight);
      findArray := new int[inWidth, inHeight]((_, _) => 0);
      minPathCost := new int[inWidth](_ => 0);
      for x := 0 to inWidth
        invariant forall a, d | 0 <= a < x && 0 <= d < inHeight :: findArray[a, d] == GreedyPath(inMap, inHeight, a, inHeight)[d]
        invariant forall a | 0 <= a < x :: minPathCost[a] == costs[a]
        invariant forall a | x <= a < inWidth :: minPathCost[a] == 0
      {
        WalkDown(x, inWidth, inHeight, inMap, findArray, minPathCost);
      }
      assert minPathCost[..] == costs by {
        forall a | 0 <= a < inWidth ensures minPathCost[..][a] == costs[a] {
        }
      }
    }

    /** The last loop of the search: the index of the least path cost, the
        first one on a tie. */
    static method IndexOfMinPath(minPathCost: array<int>) returns (indexMinPath: int)
      requires minPathCost.Length >= 1
      ensures 0 <= indexMinPath < minPathCost.Length
      ensures forall a | 0 <= a < minPathCost.Length :: minPathCost[indexMinPath] <= minPathCost[a]
      ensures forall a | 0 <= a < indexMinPath :: minPathCost[indexMinPath] < minPathCost[a]
      ensures indexMinPath == FirstMin(minPathCost[..])
    {
      indexMinPath := 0;
      var min := minPathCost[0];
      for x := 1 to minPathCost.Length
        invariant 0 <= indexMinPath < x
        invariant indexMinPath == FirstMin(minPathCost[..x])
        invariant min == minPathCost[indexMinPath]
      {
        assert minPathCost[..x + 1][..x] == minPathCost[..x];
        if minPathCost[x] < min {
          indexMinPath := x;
          min := minPathCost[x];
        }
      }
      assert minPathCost[..minPathCost.Length] == minPathCost[..];
    }

    /** The inner loop of the search: walks greedily down from column x of the
        top row, storing the walk in row x of findArray and its summed energy
        in minPathCost[x]. */
    static method WalkDown(x: int, inWidth: int, inHeight: int, inMap: seq<seq<int>>, findArray: array2<int>, minPathCost: array<int>)
      requires inWidth == |inMap| && IsMap(inMap, inHeight)
      requires inWidth == findArray.Length0 && inHeight == findArray.Length1 && inWidth == minPathCost.Length
      requires inWidth >= 1 && (inWidth >= 2 || inHeight <= 1) && 0 <= x < inWidth
      requires minPathCost[x] == 0
      modifies findArray, minPathCost
      ensures forall d | 0 <= d < inHeight :: findArray[x, d] == GreedyPath(inMap, inHeight, x, inHeight)[d]
      ensures minPathCost[x] == PathCost(inMap, inHeight, GreedyPath(inMap, inHeight, x, inHeight), inHeight)
      ensures forall a, d | 0 <= a < inWidth && a != x && 0 <= d < inHeight :: findArray[a, d] == old(findArray[a, d])
      ensures forall a | 0 <= a < inWidth && a != x :: minPathCost[a] == old(minPathCost[a])
    {
      ghost var walk := GreedyPath(inMap, inHeight, x, inHeight);
      for depth := 0 to inHeight
        invariant forall d | 0 <= d < depth :: findArray[x, d] == walk[d]
        invariant minPathCost[x] == PathCost(inMap, inHeight, walk, depth)
        invariant forall a, d | 0 <= a < inWidth && a != x && 0 <= d < inHeight :: findArray[a, d] == old(findArray[a, d])
        invariant forall a | 0 <= a < inWidth && a != x :: minPathCost[a] == old(minPathCost[a])
      {
        if depth == 0 {
          findArray[x, 0] := x;
          minPathCost[x] := inMap[x][0];
        } else {
          GreedyPathStep(inMap, inHeight, x, inHeight, depth - 1);
          findArray[x, depth] := FindNextPixel(findArray[x, depth - 1], depth - 1, inWidth, inMap);
          minPathCost[x] := minPathCost[x] + inMap[findArray[x, depth]][depth];
        }
      }
    }

    /** Rejects a seam that is not one entry per column, and otherwise hands the
        picture to the seam remover. The width, height and energy maps stay as
        they were. */
    method RemoveHorizontalSeam(seam: seq<int>, remover: (Picture, seq<int>) -> Result<Picture>) returns (r: Outcome)
      modifies this`inPicture
      ensures Valid() == old(Valid())
      ensures width == old(width) && height == old(height)
      ensures |seam| != width ==> r == Fail(IllegalArgument) && inPicture == old(inPicture)
      ensures |seam| == width && remover(old(inPicture), seam).Ok? ==>
        r == Pass && inPicture == remover(old(inPicture), seam).value
      ensures |seam| == width && remover(old(inPicture), seam).Err? ==>
        r == Fail(remover(old(inPicture), seam).error) && inPicture == old(inPicture)
    {
      if |seam| != width {
        return Fail(IllegalArgument);
      }
      match remover(inPicture, seam)
      case Err(e) =>
        r := Fail(e);
      case Ok(p) =>
        inPicture := p;
        r := Pass;
    }

    /** Rejects a seam that is not one entry per row, and otherwise hands the
        picture to the seam remover. The width, height and energy maps stay as
        they were. */
    method RemoveVerticalSeam(seam: seq<int>, remover: (Picture, seq<int>) -> Result<Picture>) returns (r: Outcome)
      modifies this`inPicture
      ensures Valid() == old(Valid())
      ensures width == old(width) && height == old(height)
      ensures |seam| != height ==> r == Fail(IllegalArgument) && inPicture == old(inPicture)
      ensures |seam| == height && remover(old(inPicture), seam).Ok? ==>
        r == Pass && inPicture == remover(old(inPicture), seam).value
      ensures |seam| == height && remover(old(inPicture), seam).Err? ==>
        r == Fail(remover(old(inPicture), seam).error) && inPicture == old(inPicture)
    {
      if |seam| != height {
        return Fail(IllegalArgument);
      }
      match remover(inPicture, seam)
      case Err(e) =>
        r := Fail(e);
      case Ok(p) =>
        inPicture := p;
        r := Pass;
    }
  }
}
