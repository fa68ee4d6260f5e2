/**
  Properties of the board operations taken together: the board invariant is
  kept by reset, makeMove and undoMove, and undoMove reverses makeMove.
 */
module BoardLemmas {
  import opened Connect4Board

  lemma {:induction false} SumOfUpdate(s: seq<nat>, i: nat, v: nat)
    requires i < |s|
    ensures SumOf(s[i := v]) == SumOf(s) - s[i] + v
  {
    if i > 0 {
      assert s[i := v][1..] == s[1..][i - 1 := v];
      SumOfUpdate(s[1..], i - 1, v);
    } else {
      assert s[i := v][1..] == s[1..];
    }
  }

  /** Column heights of at most six sum to at most six per column, with equality only when all are six. */
  lemma {:induction false} SumOfHeights(s: seq<nat>)
    requires forall i :: 0 <= i < |s| ==> s[i] <= Rows
    ensures SumOf(s) <= Rows * |s|
    ensures SumOf(s) == Rows * |s| <==> forall i :: 0 <= i < |s| ==> s[i] == Rows
  {
    if |s| > 0 {
      SumOfHeights(s[1..]);
      if SumOf(s) == Rows * |s| {
        forall i | 0 <= i < |s| ensures s[i] == Rows {
          if i > 0 {
            assert s[i] == s[1..][i - 1];
          }
        }
      }
      if forall i :: 0 <= i < |s| ==> s[i] == Rows {
        assert forall i :: 0 <= i < |s[1..]| ==> s[1..][i] == Rows by {
          forall i | 0 <= i < |s[1..]| ensures s[1..][i] == Rows {
            assert s[1..][i] == s[i + 1];
          }
        }
      }
    }
  }

  /** Every column's height is part of the move count. */
  lemma HeightWithinSum(s: seq<nat>, i: nat)
    requires i < |s|
    ensures s[i] <= SumOf(s)
  {
    SumOfUpdate(s, i, 0);
  }

  /** A successful makeMove by a real player keeps the board invariant. */
  lemma MakeMoveKeepsValid(b: Board, col: nat, p: Player)
    requires Valid(b)
    requires p != None
    ensures Valid(MakeMove(b, col, p).1)
  {
    var (ok, b') := MakeMove(b, col, p);
    if ok {
      var h := b.heights[col];
      forall r, c | 0 <= r < Rows && 0 <= c < Cols
        ensures b'.grid[r][c] != None <==> r < b'.heights[c]
      {
        if (r, c) != (h, col) {
          assert b'.grid[r][c] == b.grid[r][c];
        }
      }
      SumOfUpdate(b.heights, col, h + 1);
      SumOfHeights(b.heights);
    }
  }

  /** Lifting the top piece of a column keeps every other piece where gravity wants it. */
  lemma UndoMoveKeepsGravity(b: Board, col: nat)
    requires WellShaped(b) && Gravity(b)
    ensures Gravity(UndoMove(b, col))
  {
    var b' := UndoMove(b, col);
    if col < Cols && b.heights[col] > 0 {
      var h := b.heights[col];
      forall r, c | 0 <= r < Rows && 0 <= c < Cols
        ensures b'.grid[r][c] != None <==> r < b'.heights[c]
      {
        if (r, c) != (h - 1, col) {
          assert b'.grid[r][c] == b.grid[r][c];
        }
      }
    }
  }

  /** undoMove keeps the board invariant. */
  lemma UndoMoveKeepsValid(b: Board, col: nat)
    requires Valid(b)
    ensures Valid(UndoMove(b, col))
  {
    UndoMoveKeepsGravity(b, col);
    if col < Cols && b.heights[col] > 0 {
      var h := b.heights[col];
      HeightWithinSum(b.heights, col);
      assert (b.moveCount + 255) % 256 == b.moveCount - 1;
      SumOfUpdate(b.heights, col, h - 1);
      SumOfHeights(b.heights);
    }
  }

  /** undoMove on the column just played restores the board exactly. */
  lemma UndoAfterMake(b: Board, col: nat, p: Player)
    requires Valid(b)
    requires Legal(b, col)
    ensures UndoMove(MakeMove(b, col, p).1, col) == b
  {
    var b' := MakeMove(b, col, p).1;
    var u := UndoMove(b', col);
    var h := b.heights[col];
    assert b'.heights[col] == h + 1;
    forall r | 0 <= r < Rows ensures u.grid[r] == b.grid[r] {
      forall c | 0 <= c < Cols ensures u.grid[r][c] == b.grid[r][c] {
        if (r, c) != (h, col) {
          assert b'.grid[r][c] == b.grid[r][c];
        }
      }
    }
    assert u.grid == b.grid;
    assert u.heights == b.heights;
  }

  /** A board holds 42 pieces exactly when every column is full. */
  lemma FullIffNoValidMove(b: Board)
    requires Valid(b)
    ensures IsFull(b) <==> forall c :: 0 <= c < Cols ==> !IsValidMove(b, c)
  {
    SumOfHeights(b.heights);
    assert Rows * |b.heights| == CellCount;
    if forall c :: 0 <= c < Cols ==> !IsValidMove(b, c) {
      assert forall i :: 0 <= i < |b.heights| ==> b.heights[i] == Rows by {
        forall i | 0 <= i < |b.heights| ensures b.heights[i] == Rows {
          assert !IsValidMove(b, i);
        }
      }
    }
  }

  /** A game in progress on a valid board always has a legal move. */
  lemma InProgressHasLegalMove(b: Board)
    requires Valid(b)
    requires b.state == InProgress
    ensures exists c :: 0 <= c < Cols && Legal(b, c)
  {
    FullIffNoValidMove(b);
    var c :| 0 <= c < Cols && IsValidMove(b, c);
    assert Legal(b, c);
  }
}
