/** Food placement. The game draws a random column and a random row and draws
    again while the cell they name is occupied by the snake; the model keeps
    the outcome of that loop, a free cell of the board, and leaves the random
    draws as an unspecified choice. */
module Food {
  import opened Grid

  /** Some cell of the board is not covered by `snake`: exactly when the
      drawing loop can stop. */
  ghost predicate HasFreeCell(b: Board, snake: seq<Cell>) {
    exists c :: OnGrid(b, c) && c !in snake
  }

  /** generateFood: a board cell that `snake` does not cover. */
  method GenerateFood(b: Board, snake: seq<Cell>) returns (food: Cell)
    requires ValidBoard(b)
    requires HasFreeCell(b, snake)
    ensures OnGrid(b, food)
    ensures food !in snake
  {
    ghost var free :| OnGrid(b, free) && free !in snake;
    assert free == Cell((free.x / GridSize) * GridSize, (free.y / GridSize) * GridSize);
    var col: int, row: int :|
      && 0 <= col < Columns(b)
      && 0 <= row < Rows(b)
      && Cell(col * GridSize, row * GridSize) !in snake;
    assert Columns(b) * GridSize == b.width && Rows(b) * GridSize == b.height;
    food := Cell(col * GridSize, row * GridSize);
  }

  /** The cells (0, y), (GridSize, y), ..., ((n - 1) * GridSize, y). */
  function RowCells(n: nat, y: int): (r: seq<Cell>)
    ensures |r| == n
    ensures forall i :: 0 <= i < n ==> r[i] == Cell(i * GridSize, y)
  {
    if n == 0 then [] else RowCells(n - 1, y) + [Cell((n - 1) * GridSize, y)]
  }

  /** Every cell of a board of `cols` columns and `rows` rows, row by row,
      each exactly once. */
  function BoardCells(cols: nat, rows: nat): (r: seq<Cell>)
    ensures |r| == cols * rows
    ensures Distinct(r)
    ensures forall c :: c in r ==>
      0 <= c.x < cols * GridSize && 0 <= c.y < rows * GridSize
      && c.x % GridSize == 0 && c.y % GridSize == 0
  {
    if rows == 0 then []
    else
      var earlier := BoardCells(cols, rows - 1);
      var last := RowCells(cols, (rows - 1) * GridSize);
      assert forall c :: c in last ==> c.y == (rows - 1) * GridSize;
      DistinctConcat(earlier, last);
      earlier + last
  }

  lemma DistinctConcat<T>(a: seq<T>, b: seq<T>)
    requires Distinct(a) && Distinct(b)
    requires forall t :: t in a ==> t !in b
    ensures Distinct(a + b)
  {
    forall i, j | 0 <= i < j < |a + b|
      ensures (a + b)[i] != (a + b)[j]
    {
      if j >= |a| && i < |a| {
        assert (a + b)[i] in a && (a + b)[j] in b;
      }
    }
  }

  /** `s` with every occurrence of `x` taken out. */
  function Without(s: seq<Cell>, x: Cell): (r: seq<Cell>)
    ensures forall t :: t in r <==> t in s && t != x
    ensures |r| <= |s|
  {
    if |s| == 0 then []
    else if s[0] == x then Without(s[1..], x)
    else [s[0]] + Without(s[1..], x)
  }

  /** Taking one element out of a duplicate-free sequence keeps it
      duplicate-free and shortens it by at most one. */
  lemma {:induction false} WithoutDistinct(s: seq<Cell>, x: Cell)
    requires Distinct(s)
    ensures Distinct(Without(s, x))
    ensures |Without(s, x)| >= |s| - 1
  {
    if |s| > 0 {
      var tail := s[1..];
      assert Distinct(tail) by {
        forall i, j | 0 <= i < j < |tail| ensures tail[i] != tail[j] {
          assert tail[i] == s[i + 1] && tail[j] == s[j + 1];
        }
      }
      WithoutDistinct(tail, x);
      if s[0] == x {
        assert x !in tail by {
          forall k | 0 <= k < |tail| ensures tail[k] != x {
            assert tail[k] == s[k + 1];
          }
        }
        assert Without(tail, x) == tail by {
          WithoutAbsent(tail, x);
        }
      } else {
        var rest := Without(tail, x);
        assert s[0] !in tail by {
          forall k | 0 <= k < |tail| ensures tail[k] != s[0] {
            assert tail[k] == s[k + 1];
          }
        }
        DistinctConcat([s[0]], rest);
      }
    }
  }

  /** Taking out an element that is not there changes nothing. */
  lemma {:induction false} WithoutAbsent(s: seq<Cell>, x: Cell)
    requires x !in s
    ensures Without(s, x) == s
  {
    if |s| > 0 {
      assert x !in s[1..];
      WithoutAbsent(s[1..], x);
      assert s == [s[0]] + s[1..];
    }
  }

  /** Pigeonhole: more distinct candidates than `s` has elements leave a
      candidate that `s` misses. */
  lemma {:induction false} SomeCandidateMissed(candidates: seq<Cell>, s: seq<Cell>)
    requires Distinct(candidates)
    requires |candidates| > |s|
    ensures exists t :: t in candidates && t !in s
    decreases |s|
  {
    if |s| == 0 {
      assert candidates[0] in candidates;
    } else {
      var rest := Without(candidates, s[0]);
      WithoutDistinct(candidates, s[0]);
      SomeCandidateMissed(rest, s[1..]);
      var t :| t in rest && t !in s[1..];
      assert s == [s[0]] + s[1..];
      assert t in candidates && t !in s;
    }
  }

  /** A snake shorter than the number of cells of the board leaves a free
      cell, so food placement terminates. */
  lemma FreeCellWhenNotFull(b: Board, snake: seq<Cell>)
    requires ValidBoard(b)
    requires |snake| < Columns(b) * Rows(b)
    ensures HasFreeCell(b, snake)
  {
    var cells := BoardCells(Columns(b), Rows(b));
    SomeCandidateMissed(cells, snake);
    var c :| c in cells && c !in snake;
    assert OnGrid(b, c);
  }
}
