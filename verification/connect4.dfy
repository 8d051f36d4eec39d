/** The Connect-Four rules of connect4.py: a board of 6 rows of 7 cells, whose turn it
    is, where a disc may be dropped, what a move produces and who has won. */
module Connect4 {
  import opened Wrappers

  /** Contents of a cell: the discs "R" and "Y", or EMPTY (Python's None). */
  datatype Cell = Empty | R | Y

  /** A move (i, j): the row index first, then the column index. */
  datatype Action = Action(row: int, col: int)

  /** The board is a list of rows; value semantics, so no two rows are ever shared. */
  type Board = seq<seq<Cell>>

  /** Number of columns (`w`) and of rows (`h`). */
  const W: nat := 7
  const H: nat := 6

  /** The shape every function of the rules assumes: H rows of W cells. */
  predicate WellFormed(b: Board)
  {
    |b| == H && forall i :: 0 <= i < H ==> |b[i]| == W
  }

  predicate InBounds(a: Action)
  {
    0 <= a.row < H && 0 <= a.col < W
  }

  /** `initial_state`: every cell EMPTY. */
  function InitialState(): (b: Board)
    ensures WellFormed(b)
    ensures forall i, j :: 0 <= i < H && 0 <= j < W ==> b[i][j] == Empty
  {
    seq(H, _ => seq(W, _ => Empty))
  }

  // ---------------------------------------------------------------------------
  // Counting discs

  /** The rows joined in order, as `player` accumulates them with `every += row`. */
  function Flatten(b: Board): seq<Cell>
  {
    if |b| == 0 then [] else Flatten(b[..|b| - 1]) + b[|b| - 1]
  }

  /** Python's `list.count`. */
  function Count(s: seq<Cell>, x: Cell): nat
  {
    multiset(s)[x]
  }

  /** Number of EMPTY cells on the board: the measure that the game-tree search decreases. */
  function Empties(b: Board): nat
  {
    Count(Flatten(b), Empty)
  }

  lemma {:induction false} CountAtMostLength(s: seq<Cell>, x: Cell)
    ensures Count(s, x) <= |s|
    decreases |s|
  {
    if |s| > 0 {
      assert s == [s[0]] + s[1..];
      CountAtMostLength(s[1..], x);
    }
  }

  /** A cell occurs on the board exactly when it occurs in the flattened rows. */
  lemma {:induction false} FlattenMembers(b: Board, x: Cell)
    ensures x in Flatten(b) <==> exists i, j :: 0 <= i < |b| && 0 <= j < |b[i]| && b[i][j] == x
    decreases |b|
  {
    if |b| > 0 {
      var n := |b| - 1;
      FlattenMembers(b[..n], x);
      assert Flatten(b) == Flatten(b[..n]) + b[n];
      if x in Flatten(b) {
        if x in Flatten(b[..n]) {
          var i, j :| 0 <= i < n && 0 <= j < |b[..n][i]| && b[..n][i][j] == x;
          assert b[i][j] == x;
        } else {
          var j :| 0 <= j < |b[n]| && b[n][j] == x;
          assert b[n][j] == x;
        }
      } else {
        forall i, j | 0 <= i < |b| && 0 <= j < |b[i]|
          ensures b[i][j] != x
        {
          if i < n {
            assert b[..n][i][j] == b[i][j];
          } else {
            assert b[i][j] in b[n];
          }
        }
      }
    }
  }

  /** Replacing one row changes the flattened board's contents by exactly that row. */
  lemma {:induction false} FlattenUpdate(b: Board, i: int, row: seq<Cell>, x: Cell)
    requires 0 <= i < |b|
    ensures Count(Flatten(b[i := row]), x) + Count(b[i], x) == Count(Flatten(b), x) + Count(row, x)
    decreases |b|
  {
    var n := |b| - 1;
    var b' := b[i := row];
    assert Count(Flatten(b), x) == Count(Flatten(b[..n]), x) + Count(b[n], x) by {
      assert Flatten(b) == Flatten(b[..n]) + b[n];
    }
    assert Count(Flatten(b'), x) == Count(Flatten(b'[..n]), x) + Count(b'[n], x) by {
      assert Flatten(b') == Flatten(b'[..n]) + b'[n];
    }
    if i == n {
      assert b'[..n] == b[..n];
    } else {
      assert b'[..n] == b[..n][i := row];
      FlattenUpdate(b[..n], i, row, x);
      assert b'[n] == b[n];
    }
  }

  /** A well-formed board flattens to W * H cells. */
  lemma {:induction false} FlattenLength(b: Board)
    requires forall i :: 0 <= i < |b| ==> |b[i]| == W
    ensures |Flatten(b)| == |b| * W
    decreases |b|
  {
    if |b| > 0 {
      FlattenLength(b[..|b| - 1]);
    }
  }

  /** A sequence holding only x counts |s| copies of x. */
  lemma {:induction false} CountUniform(s: seq<Cell>, x: Cell)
    requires forall k :: 0 <= k < |s| ==> s[k] == x
    ensures Count(s, x) == |s|
    decreases |s|
  {
    if |s| > 0 {
      assert s == [s[0]] + s[1..];
      CountUniform(s[1..], x);
    }
  }

  /** Writing one cell changes a row's contents by exactly that cell. */
  lemma RowUpdate(row: seq<Cell>, j: int, v: Cell, x: Cell)
    requires 0 <= j < |row|
    ensures Count(row[j := v], x) + (if row[j] == x then 1 else 0) == Count(row, x) + (if v == x then 1 else 0)
  {
    assert multiset(row[j := v]) + multiset{row[j]} == multiset(row) + multiset{v};
  }

  // ---------------------------------------------------------------------------
  // Whose turn

  /** `player`: Y moves when it has fewer discs than R, otherwise R moves. */
  function Player(b: Board): (p: Cell)
    ensures p != Empty
  {
    var every := Flatten(b);
    if Count(every, Y) < Count(every, R) then Y else R
  }

  /** The discs of x on the board, counted row by row from the top. */
  function RowsCount(b: Board, x: Cell): nat
  {
    if |b| == 0 then 0 else Count(b[0], x) + RowsCount(b[1..], x)
  }

  lemma {:induction false} FlattenCount(b: Board, x: Cell)
    ensures Count(Flatten(b), x) == RowsCount(b, x)
    decreases |b|
  {
    if |b| > 0 {
      var n := |b| - 1;
      FlattenCount(b[1..], x);
      if n > 0 {
        FlattenCount(b[..n], x);
        assert b[..n][1..] == b[1..][..n - 1];
        FlattenCount(b[1..][..n - 1], x);
        assert Flatten(b[1..]) == Flatten(b[1..][..n - 1]) + b[n];
        assert RowsCount(b[..n], x) == Count(b[0], x) + RowsCount(b[1..][..n - 1], x);
        RowsCountSnoc(b[1..], x);
      } else {
        assert Flatten(b) == Flatten(b[..0]) + b[0];
      }
      assert Flatten(b) == Flatten(b[..n]) + b[n];
    }
  }

  lemma {:induction false} RowsCountSnoc(b: Board, x: Cell)
    requires |b| > 0
    ensures RowsCount(b, x) == RowsCount(b[..|b| - 1], x) + Count(b[|b| - 1], x)
    decreases |b|
  {
    if |b| > 1 {
      assert b[1..][..|b| - 2] == b[..|b| - 1][1..];
      RowsCountSnoc(b[1..], x);
    }
  }

  /** Y moves exactly when, summed over the rows, Y has fewer discs than R. */
  lemma PlayerByRows(b: Board)
    ensures Player(b) == Y <==> RowsCount(b, Y) < RowsCount(b, R)
    ensures Player(b) == R <==> RowsCount(b, Y) >= RowsCount(b, R)
  {
    FlattenCount(b, Y);
    FlattenCount(b, R);
  }

  /** The disc counts of a position reached by alternate play with R moving first. */
  predicate Balanced(b: Board)
  {
    var every := Flatten(b);
    Count(every, R) == Count(every, Y) || Count(every, R) == Count(every, Y) + 1
  }

  // ---------------------------------------------------------------------------
  // Columns and legal drops

  /** `inverse`: the board as a list of columns. */
  function Inverse(b: Board): (inv: seq<seq<Cell>>)
    requires WellFormed(b)
    ensures |inv| == W && forall i :: 0 <= i < W ==> |inv[i]| == H
  {
    seq(W, i requires 0 <= i < W => seq(H, j requires 0 <= j < H => b[j][i]))
  }

  /** Column i of the inverse holds row j's cell i at index j, and reading the inverse back
      row by row gives the board again. */
  lemma InverseRoundTrip(b: Board)
    requires WellFormed(b)
    ensures forall i, j :: 0 <= i < W && 0 <= j < H ==> Inverse(b)[i][j] == b[j][i]
    ensures seq(H, j requires 0 <= j < H => seq(W, i requires 0 <= i < W => Inverse(b)[i][j])) == b
  {
    var inv := Inverse(b);
    var back := seq(H, j requires 0 <= j < H => seq(W, i requires 0 <= i < W => inv[i][j]));
    forall j | 0 <= j < H
      ensures back[j] == b[j]
    {
      assert |back[j]| == |b[j]|;
    }
  }

  /** The number of discs in column c: `h - inv[c].count(EMPTY)`. */
  function Height(b: Board, c: int): (k: int)
    requires WellFormed(b) && 0 <= c < W
    ensures 0 <= k <= H
    ensures k < H <==> exists j :: 0 <= j < H && b[j][c] == Empty
  {
    var col := Inverse(b)[c];
    CountAtMostLength(col, Empty);
    assert forall j :: 0 <= j < H ==> col[j] == b[j][c];
    H - Count(col, Empty)
  }

  /** The moves `actions` offers: for an open column c, the pair (discs in c, c). */
  predicate IsAction(b: Board, a: Action)
    requires WellFormed(b)
  {
    InBounds(a) && a.row == Height(b, a.col)
  }

  /** The actions of columns c.. in increasing column order. */
  function ActionsFrom(b: Board, c: int): (s: seq<Action>)
    requires WellFormed(b) && 0 <= c <= W
    ensures forall a :: a in s ==> c <= a.col
    ensures forall i, j :: 0 <= i < j < |s| ==> s[i].col < s[j].col
    decreases W - c
  {
    if c == W then []
    else
      var k := Height(b, c);
      (if k < H then [Action(k, c)] else []) + ActionsFrom(b, c + 1)
  }

  /** Columns c.. contribute exactly their offered moves. */
  lemma {:induction false} ActionsFromMembers(b: Board, c: int)
    requires WellFormed(b) && 0 <= c <= W
    ensures forall a :: a in ActionsFrom(b, c) <==> c <= a.col && IsAction(b, a)
    decreases W - c
  {
    if c < W {
      ActionsFromMembers(b, c + 1);
    }
  }

  /** The action set listed column by column: the order in which the search visits it. */
  function ActionSeq(b: Board): (s: seq<Action>)
    requires WellFormed(b)
    ensures forall i, j :: 0 <= i < j < |s| ==> s[i].col < s[j].col
  {
    ActionsFrom(b, 0)
  }

  /** The action list holds exactly the moves `actions` offers. */
  lemma ActionSeqMembers(b: Board)
    requires WellFormed(b)
    ensures forall a :: a in ActionSeq(b) <==> IsAction(b, a)
  {
    ActionsFromMembers(b, 0);
  }

  /** `actions`: one pair per column that still has an EMPTY cell. */
  method Actions(b: Board) returns (possible: set<Action>)
    requires WellFormed(b)
    ensures forall a :: a in possible <==> IsAction(b, a)
    ensures forall a :: a in possible ==> InBounds(a)
    ensures forall a1, a2 :: a1 in possible && a2 in possible && a1.col == a2.col ==> a1 == a2
  {
    possible := {};
    var inv := Inverse(b);
    for column := 0 to |inv|
      invariant forall a :: a in possible <==> a.col < column && IsAction(b, a)
    {
      var getCol := H - Count(inv[column], Empty);
      if getCol < H {
        possible := possible + {Action(getCol, column)};
      }
    }
  }

  /** A board on which no action is offered is full. */
  lemma {:induction false} NoActionMeansFull(b: Board)
    requires WellFormed(b)
    requires forall a :: !IsAction(b, a)
    ensures Full(b)
  {
    forall i, j | 0 <= i < H && 0 <= j < W
      ensures b[i][j] != Empty
    {
      assert !IsAction(b, Action(Height(b, j), j));
    }
  }

  // ---------------------------------------------------------------------------
  // Gravity: every column is filled from row 0 downwards without gaps

  predicate PrefixFilled(s: seq<Cell>)
  {
    forall i, j :: 0 <= i < j < |s| && s[j] != Empty ==> s[i] != Empty
  }

  /** The board shape reached by dropping discs: each column's discs occupy rows 0.. without gaps. */
  predicate Gravity(b: Board)
    requires WellFormed(b)
  {
    forall c, i, j :: 0 <= c < W && 0 <= i < j < H && b[j][c] != Empty ==> b[i][c] != Empty
  }

  /** In a gap-free column the discs are exactly the first |s| - count(EMPTY) cells. */
  lemma {:induction false} PrefixCount(s: seq<Cell>)
    requires PrefixFilled(s)
    ensures forall j :: 0 <= j < |s| ==> (s[j] != Empty <==> j < |s| - Count(s, Empty))
    decreases |s|
  {
    if |s| > 0 {
      var t := s[1..];
      assert s == [s[0]] + t;
      assert multiset(s) == multiset{s[0]} + multiset(t);
      PrefixCount(t);
      CountAtMostLength(t, Empty);
      if s[0] == Empty {
        assert forall j :: 0 <= j < |t| ==> t[j] == Empty;
        if |t| > 0 {
          assert t[0] == Empty;
          assert !(0 < |t| - Count(t, Empty));
        }
      }
      forall j | 0 < j < |s|
        ensures s[j] != Empty <==> j < |s| - Count(s, Empty)
      {
        assert s[j] == t[j - 1];
      }
    }
  }

  /** On a gravity board the discs of column c are exactly rows 0 .. Height(b, c) - 1. */
  lemma GravityHeight(b: Board, c: int)
    requires WellFormed(b) && Gravity(b) && 0 <= c < W
    ensures forall j :: 0 <= j < H ==> (b[j][c] != Empty <==> j < Height(b, c))
  {
    var col := Inverse(b)[c];
    assert forall j :: 0 <= j < H ==> col[j] == b[j][c];
    PrefixCount(col);
  }

  // ---------------------------------------------------------------------------
  // Moves

  /** The board with cell a set to v. */
  function Place(b: Board, a: Action, v: Cell): Board
    requires WellFormed(b) && InBounds(a)
  {
    b[a.row := b[a.row][a.col := v]]
  }

  /** Placing a disc on an EMPTY cell adds one v and removes one EMPTY. */
  lemma PlaceCounts(b: Board, a: Action, v: Cell)
    requires WellFormed(b) && InBounds(a)
    requires b[a.row][a.col] == Empty && v != Empty
    ensures Count(Flatten(Place(b, a, v)), Empty) + 1 == Count(Flatten(b), Empty)
    ensures Count(Flatten(Place(b, a, v)), v) == Count(Flatten(b), v) + 1
    ensures forall x :: x != v && x != Empty ==> Count(Flatten(Place(b, a, v)), x) == Count(Flatten(b), x)
  {
    var row := b[a.row][a.col := v];
    FlattenUpdate(b, a.row, row, Empty);
    RowUpdate(b[a.row], a.col, v, Empty);
    FlattenUpdate(b, a.row, row, v);
    RowUpdate(b[a.row], a.col, v, v);
    forall x | x != v && x != Empty
      ensures Count(Flatten(Place(b, a, v)), x) == Count(Flatten(b), x)
    {
      FlattenUpdate(b, a.row, row, x);
      RowUpdate(b[a.row], a.col, v, x);
    }
  }

  /** `result`: the mover's disc on the chosen cell, or ValueError if it is taken. */
  function ResultOf(b: Board, a: Action): (r: Result<Board>)
    requires WellFormed(b) && InBounds(a)
    ensures r.Ok? <==> b[a.row][a.col] == Empty
    ensures r.Ok? ==> WellFormed(r.value)
    ensures r.Ok? ==> forall i, j :: 0 <= i < H && 0 <= j < W ==>
      r.value[i][j] == if i == a.row && j == a.col then Player(b) else b[i][j]
    ensures r.Ok? ==> Empties(r.value) + 1 == Empties(b)
  {
    var turn := Player(b);
    if b[a.row][a.col] == Empty then
      PlaceCounts(b, a, turn);
      Ok(Place(b, a, turn))
    else
      Error("action is not valid")
  }

  /** Playing an offered action on a gravity board never raises and keeps the gravity
      shape: the disc lands on the first EMPTY cell of its column. */
  lemma ResultOfAction(b: Board, a: Action)
    requires WellFormed(b) && Gravity(b) && IsAction(b, a)
    ensures b[a.row][a.col] == Empty
    ensures forall i :: 0 <= i < a.row ==> b[i][a.col] != Empty
    ensures ResultOf(b, a).Ok? && Gravity(ResultOf(b, a).value)
  {
    GravityHeight(b, a.col);
    var b' := ResultOf(b, a).value;
    forall c, i, j | 0 <= c < W && 0 <= i < j < H && b'[j][c] != Empty
      ensures b'[i][c] != Empty
    {
    }
  }

  /** Turns alternate: after a legal move from a balanced position the other player moves,
      and the position stays balanced. */
  lemma PlayerAlternates(b: Board, a: Action)
    requires WellFormed(b) && InBounds(a) && Balanced(b)
    requires ResultOf(b, a).Ok?
    ensures Player(b) == (if Count(Flatten(b), R) == Count(Flatten(b), Y) then R else Y)
    ensures Balanced(ResultOf(b, a).value)
    ensures Player(ResultOf(b, a).value) != Player(b)
  {
    PlaceCounts(b, a, Player(b));
  }

  /** R moves first on the empty board, and no disc is placed yet. */
  lemma InitialStateFacts()
    ensures Player(InitialState()) == R
    ensures Balanced(InitialState())
    ensures Count(Flatten(InitialState()), R) == 0 && Count(Flatten(InitialState()), Y) == 0
    ensures Gravity(InitialState())
    ensures Empties(InitialState()) == W * H
    ensures !Terminal(InitialState())
  {
    var b := InitialState();
    var every := Flatten(b);
    FlattenLength(b);
    FlattenMembers(b, R);
    FlattenMembers(b, Y);
    FlattenMembers(b, Empty);
    forall k | 0 <= k < |every|
      ensures every[k] == Empty
    {
      var x := every[k];
      assert x in every;
    }
    CountUniform(every, Empty);
    assert Lines(b)[0] == b[0];
    assert AllSame(Lines(b)[0]);
    WinnerIsFirstLine(b, 0);
    assert b[0][0] == Empty;
  }

  // ---------------------------------------------------------------------------
  // Winner, terminal, utility

  /** The eight lines `winner` compares, in its order: row 0, column 0, row 1, column 1,
      row 2, column 2, the diagonal and the anti-diagonal. Rows are whole 7-cell rows;
      columns and diagonals cover only the top-left 3x3 block. */
  function Lines(b: Board): (ls: seq<seq<Cell>>)
    requires WellFormed(b)
    ensures |ls| == 8 && forall k :: 0 <= k < 8 ==> |ls[k]| > 0
  {
    [ b[0], [b[0][0], b[1][0], b[2][0]],
      b[1], [b[0][1], b[1][1], b[2][1]],
      b[2], [b[0][2], b[1][2], b[2][2]],
      [b[0][0], b[1][1], b[2][2]],
      [b[0][2], b[1][1], b[2][0]] ]
  }

  /** `all(row[0] == k for k in row)`. */
  predicate AllSame(line: seq<Cell>)
    requires |line| > 0
  {
    forall k :: 0 <= k < |line| ==> line[k] == line[0]
  }

  /** The shared value of the first all-equal line; EMPTY when there is none. */
  function FirstAllSame(lines: seq<seq<Cell>>): (r: Cell)
    requires forall k :: 0 <= k < |lines| ==> |lines[k]| > 0
    ensures r != Empty ==>
      exists k :: 0 <= k < |lines| && AllSame(lines[k]) && lines[k][0] == r && forall m :: 0 <= m < k ==> !AllSame(lines[m])
  {
    if |lines| == 0 then Empty
    else if AllSame(lines[0]) then lines[0][0]
    else
      var r := FirstAllSame(lines[1..]);
      if r != Empty then
        var rest := lines[1..];
        var k :| 0 <= k < |rest| && AllSame(rest[k]) && rest[k][0] == r && forall m :: 0 <= m < k ==> !AllSame(rest[m]);
        assert forall m :: 0 < m < k + 1 ==> lines[m] == rest[m - 1];
        assert lines[k + 1] == rest[k];
        r
      else r
  }

  /** `winner`: the shared value of the first all-equal line, which may be EMPTY. A disc
      is only ever returned from a line that decides the game. */
  function Winner(b: Board): (w: Cell)
    requires WellFormed(b)
    ensures w != Empty ==> exists k :: 0 <= k < 8 && DecidedBy(b, k) && Lines(b)[k][0] == w
  {
    FirstAllSame(Lines(b))
  }

  lemma {:induction false} FirstAllSameAt(lines: seq<seq<Cell>>, k: int)
    requires forall m :: 0 <= m < |lines| ==> |lines[m]| > 0
    requires 0 <= k < |lines| && AllSame(lines[k])
    requires forall m :: 0 <= m < k ==> !AllSame(lines[m])
    ensures FirstAllSame(lines) == lines[k][0]
    decreases k
  {
    if k > 0 {
      assert !AllSame(lines[0]);
      var rest := lines[1..];
      assert forall m :: 0 <= m < k - 1 ==> rest[m] == lines[m + 1];
      FirstAllSameAt(rest, k - 1);
    }
  }

  lemma {:induction false} FirstAllSameNone(lines: seq<seq<Cell>>)
    requires forall m :: 0 <= m < |lines| ==> |lines[m]| > 0
    requires forall m :: 0 <= m < |lines| ==> !AllSame(lines[m])
    ensures FirstAllSame(lines) == Empty
    decreases |lines|
  {
    if |lines| > 0 {
      assert !AllSame(lines[0]);
      var rest := lines[1..];
      assert forall m :: 0 <= m < |rest| ==> rest[m] == lines[m + 1];
      FirstAllSameNone(rest);
    }
  }

  /** Line k decides the game when it is all equal and no earlier line is. */
  predicate DecidedBy(b: Board, k: int)
    requires WellFormed(b) && 0 <= k < 8
  {
    AllSame(Lines(b)[k]) && forall m :: 0 <= m < k ==> !AllSame(Lines(b)[m])
  }

  /** The winner is the value of the first all-equal line, EMPTY included. */
  lemma WinnerIsFirstLine(b: Board, k: int)
    requires WellFormed(b) && 0 <= k < 8 && DecidedBy(b, k)
    ensures Winner(b) == Lines(b)[k][0]
  {
    FirstAllSameAt(Lines(b), k);
  }

  /** Without an all-equal line there is no winner. */
  lemma WinnerWithoutLine(b: Board)
    requires WellFormed(b)
    requires forall k :: 0 <= k < 8 ==> !AllSame(Lines(b)[k])
    ensures Winner(b) == Empty
  {
    FirstAllSameNone(Lines(b));
  }

  /** Rows 3 to 5 never influence the winner. */
  lemma WinnerReadsTopRowsOnly(b: Board, b': Board)
    requires WellFormed(b) && WellFormed(b')
    requires b[0] == b'[0] && b[1] == b'[1] && b[2] == b'[2]
    ensures Winner(b) == Winner(b')
  {
    assert Lines(b) == Lines(b');
  }

  /** While the top-left column cells are all EMPTY there is no winner: either row 0 is
      all EMPTY and is chosen first, or column 0 is the first all-equal line. */
  lemma EmptyCornerColumnHasNoWinner(b: Board)
    requires WellFormed(b)
    requires b[0][0] == Empty && b[1][0] == Empty && b[2][0] == Empty
    ensures Winner(b) == Empty
  {
    var ls := Lines(b);
    assert AllSame(ls[1]);
    if AllSame(ls[0]) {
      WinnerIsFirstLine(b, 0);
    } else {
      WinnerIsFirstLine(b, 1);
    }
  }

  /** Every cell is occupied (the double loop of `terminal`). */
  predicate Full(b: Board)
    requires WellFormed(b)
  {
    forall i, j :: 0 <= i < H && 0 <= j < W ==> b[i][j] != Empty
  }

  /** `terminal`: a non-EMPTY winner, or no EMPTY cell left. */
  predicate Terminal(b: Board)
    requires WellFormed(b)
  {
    Winner(b) != Empty || Full(b)
  }

  /** The game is over exactly when there is a winner or the board has no EMPTY cell. */
  lemma TerminalIffNoEmpties(b: Board)
    requires WellFormed(b)
    ensures Terminal(b) <==> Winner(b) != Empty || Empties(b) == 0
  {
    FlattenMembers(b, Empty);
    if !Full(b) {
      var i, j :| 0 <= i < H && 0 <= j < W && b[i][j] == Empty;
      assert Empty in Flatten(b);
      assert Empty in multiset(Flatten(b));
    }
  }

  /** A game that is not over still offers a move. */
  lemma NotTerminalHasAction(b: Board)
    requires WellFormed(b) && !Terminal(b)
    ensures |ActionSeq(b)| > 0
  {
    var i, j :| 0 <= i < H && 0 <= j < W && b[i][j] == Empty;
    assert IsAction(b, Action(Height(b, j), j));
    ActionSeqMembers(b);
    assert Action(Height(b, j), j) in ActionSeq(b);
  }

  /** `utility`: R scores 1, Y scores -1, no winner scores 0. */
  function Utility(b: Board): (u: int)
    requires WellFormed(b)
    ensures -1 <= u <= 1
    ensures u == 1 <==> Winner(b) == R
    ensures u == -1 <==> Winner(b) == Y
  {
    match Winner(b)
    case R => 1
    case Y => -1
    case Empty => 0
  }
}
