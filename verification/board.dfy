/** The 40 x 50 grid, its cells, and the random draw of a free cell. */
module Board {
  import opened Seqs

  const Width := 40
  const Height := 50
  const BoardCells := Width * Height

  /** A cell `{x, y}`; also used for the unit direction vectors. */
  datatype Point = Point(x: int, y: int)

  predicate InBounds(p: Point) {
    0 <= p.x < Width && 0 <= p.y < Height
  }

  /** `head.x += direction.x; head.y += direction.y` */
  function Move(p: Point, d: Point): Point {
    Point(p.x + d.x, p.y + d.y)
  }

  predicate AllInBounds(s: seq<Point>) {
    forall i :: 0 <= i < |s| ==> InBounds(s[i])
  }

  predicate Distinct(s: seq<Point>) {
    forall i, j :: 0 <= i < j < |s| ==> s[i] != s[j]
  }

  /**
   * The outcome of the `do { draw } while (snake has the draw)` loop of
   * `generateApple`, when `draws` is the sequence of cells that
   * `Math.random` produces: the first draw the snake does not occupy, or
   * None when every draw is occupied (the loop would then never stop).
   */
  function FirstFree(draws: seq<Point>, snake: seq<Point>): (r: Option<Point>)
    ensures r.Some? ==> r.value in draws && r.value !in snake
    ensures r.None? <==> forall c :: c in draws ==> c in snake
  {
    if draws == [] then None
    else
      assert draws == [draws[0]] + draws[1..];
      if draws[0] !in snake then Some(draws[0]) else FirstFree(draws[1..], snake)
  }

  /** The cell FirstFree picks is preceded only by occupied draws. */
  lemma {:induction false} FirstFreeIsFirst(draws: seq<Point>, snake: seq<Point>)
    requires FirstFree(draws, snake).Some?
    ensures exists k :: 0 <= k < |draws| && draws[k] == FirstFree(draws, snake).value
                        && forall j :: 0 <= j < k ==> draws[j] in snake
  {
    if draws[0] in snake {
      FirstFreeIsFirst(draws[1..], snake);
      var k :| 0 <= k < |draws[1..]| && draws[1..][k] == FirstFree(draws[1..], snake).value
               && forall j :: 0 <= j < k ==> draws[1..][j] in snake;
      assert draws[k + 1] == FirstFree(draws, snake).value;
      assert forall j :: 0 <= j < k + 1 ==> draws[j] in snake by {
        forall j | 0 <= j < k + 1 ensures draws[j] in snake {
          if j > 0 { assert draws[j] == draws[1..][j - 1]; }
        }
      }
    } else {
      assert draws[0] == FirstFree(draws, snake).value;
    }
  }

  /** The rejection-sampling loop of `generateApple`. */
  method DrawApple(snake: seq<Point>, draws: seq<Point>) returns (apple: Point)
    requires FirstFree(draws, snake).Some?
    ensures Some(apple) == FirstFree(draws, snake)
  {
    var i := 0;
    apple := draws[i];
    while apple in snake
      invariant 0 <= i < |draws| && apple == draws[i]
      invariant FirstFree(draws[i..], snake) == FirstFree(draws, snake)
      decreases |draws| - i
    {
      assert draws[i..] == [draws[i]] + draws[i + 1..];
      i := i + 1;
      apple := draws[i];
    }
  }

  /** A random source for cells: every draw is on the board and every cell is eventually drawn. */
  ghost predicate RandomStream(draws: seq<Point>) {
    AllInBounds(draws) && forall c :: InBounds(c) ==> c in draws
  }

  /** Row-major number of a cell, and its inverse. */
  function Index(p: Point): int {
    p.y * Width + p.x
  }

  function CellAt(k: int): Point {
    Point(k % Width, k / Width)
  }

  /** A snake shorter than the board leaves some cell free. */
  lemma FreeCellExists(s: seq<Point>)
    requires |s| < BoardCells
    ensures exists c :: InBounds(c) && c !in s
  {
    var idx := seq(|s|, i requires 0 <= i < |s| => Index(s[i]));
    MissingBelow(idx, BoardCells);
    var k :| 0 <= k < BoardCells && k !in idx;
    var c := CellAt(k);
    assert Index(c) == k;
    forall i | 0 <= i < |s| ensures s[i] != c {
      assert idx[i] == Index(s[i]);
    }
    assert InBounds(c) && c !in s;
  }

  /** With a random stream, the apple loop stops whenever the snake leaves a free cell. */
  lemma StreamFindsFreeCell(draws: seq<Point>, s: seq<Point>)
    requires RandomStream(draws) && |s| < BoardCells
    ensures FirstFree(draws, s).Some? && InBounds(FirstFree(draws, s).value)
  {
    FreeCellExists(s);
    var c :| InBounds(c) && c !in s;
    assert c in draws;
  }

  /** Row-major numbering tells cells on the board apart. */
  lemma CellAtIndex(p: Point)
    requires InBounds(p)
    ensures 0 <= Index(p) < BoardCells && CellAt(Index(p)) == p
  {
  }

  /** A snake of distinct cells on the board has at most 40 x 50 segments. */
  lemma DistinctCellsFit(s: seq<Point>)
    requires AllInBounds(s) && Distinct(s)
    ensures |s| <= BoardCells
  {
    var idx := seq(|s|, i requires 0 <= i < |s| => Index(s[i]));
    forall i | 0 <= i < |idx| ensures 0 <= idx[i] < BoardCells {
      CellAtIndex(s[i]);
    }
    forall i, j | 0 <= i < j < |idx| ensures idx[i] != idx[j] {
      CellAtIndex(s[i]);
      CellAtIndex(s[j]);
    }
    DistinctBelow(idx, BoardCells);
  }

  /** A snake of distinct cells as long as the board covers every cell. */
  lemma FullSnakeCoversBoard(s: seq<Point>, c: Point)
    requires AllInBounds(s) && Distinct(s) && |s| >= BoardCells && InBounds(c)
    ensures c in s
  {
    if c !in s {
      var t := s + [c];
      assert forall i :: 0 <= i < |s| ==> t[i] == s[i];
      DistinctCellsFit(t);
    }
  }
}
