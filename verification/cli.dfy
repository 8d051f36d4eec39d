/** The column-based `Game` of cli.py: a state of columns, each a list of discs whose
    last element is the bottom disc, and the text that `show` prints. Only the string
    is modelled; printing it is left to the caller. */
module Cli {
  import opened Wrappers

  /** `Game.width` and `Game.height`. */
  const GameWidth: nat := 7
  const GameHeight: nat := 6

  /** A game: one list of disc labels per column. */
  datatype Game = Game(state: seq<seq<string>>)

  /** `Game.__init__`: without a state, seven empty columns; a supplied state is kept
      as it is, whatever its shape. */
  function NewGame(state: Option<seq<seq<string>>>): (g: Game)
    ensures state.None? ==> |g.state| == GameWidth && forall i :: 0 <= i < |g.state| ==> g.state[i] == []
    ensures state.Some? ==> g.state == state.value
  {
    match state
    case None => Game(seq(GameWidth, _ => []))
    case Some(s) => Game(s)
  }

  /** `getStateTuple`: the state column by column, each column's elements in order. */
  function StateTuple(g: Game): (t: seq<seq<string>>)
    ensures |t| == |g.state|
    ensures forall i :: 0 <= i < |t| ==> |t[i]| == |g.state[i]|
    ensures forall i, j :: 0 <= i < |t| && 0 <= j < |t[i]| ==> t[i][j] == g.state[i][j]
  {
    seq(|g.state|, i requires 0 <= i < |g.state| => seq(|g.state[i]|, j requires 0 <= j < |g.state[i]| => g.state[i][j]))
  }

  // ---------------------------------------------------------------------------
  // Python string and list helpers

  /** `sep.join(parts)`. */
  function Join(sep: string, parts: seq<string>): string
  {
    if |parts| == 0 then ""
    else if |parts| == 1 then parts[0]
    else parts[0] + sep + Join(sep, parts[1..])
  }

  /** `xs[k]` with Python's negative indices counting from the end. */
  function PyAt<T>(xs: seq<T>, k: int): T
    requires -|xs| <= k < |xs|
  {
    if k >= 0 then xs[k] else xs[|xs| + k]
  }

  /** `s` written `n` times. */
  function Repeat(s: string, n: nat): string
  {
    if n == 0 then "" else s + Repeat(s, n - 1)
  }

  /** `k` one-blank strings. */
  function Blanks(k: nat): seq<string>
  {
    seq(k, _ => " ")
  }

  /** `["---" for i in range(n)]`. */
  function Dashes(n: nat): seq<string>
  {
    seq(n, _ => "---")
  }

  // ---------------------------------------------------------------------------
  // The text of `show`

  /** The symbol in display row `h` (0 is the top) of a column: the element `6 - h`
      places from the end, or a blank when the column is shorter than that. */
  function Symbol(col: seq<string>, h: nat): string
    requires h < GameHeight
  {
    if |col| >= GameHeight - h then PyAt(col, -(GameHeight - h)) else " "
  }

  /** The symbols of display row `h`, one per column. */
  function Cells(s: seq<seq<string>>, h: nat): seq<string>
    requires h < GameHeight
  {
    seq(|s|, i requires 0 <= i < |s| => Symbol(s[i], h))
  }

  /** One display row: `"| " + " | ".join(cells) + " |"`. */
  function RowLine(cells: seq<string>): string
  {
    "| " + Join(" | ", cells) + " |"
  }

  /** The top and bottom border: `"+" + "+".join(dashes) + "+"`. */
  function Border(n: nat): string
  {
    "+" + Join("+", Dashes(n)) + "+"
  }

  /** The line between two display rows: `"|" + "+".join(dashes) + "|"`. */
  function Rule(n: nat): string
  {
    "|" + Join("+", Dashes(n)) + "|"
  }

  /** The six display rows, top first. */
  function Rows(s: seq<seq<string>>): seq<string>
  {
    seq(GameHeight, h requires 0 <= h < GameHeight => RowLine(Cells(s, h)))
  }

  /** The string `show` prints. */
  function Show(g: Game): string
  {
    var s := StateTuple(g);
    "Current State:\n" + Border(|s|) + "\n" + Join("\n" + Rule(|s|) + "\n", Rows(s)) + "\n" + Border(|s|)
  }

  // ---------------------------------------------------------------------------
  // What the text looks like

  /** The symbol rule with Python's negative index written out: row `h` shows the element
      at position `len - (6 - h)` when there is one. */
  lemma SymbolAt(col: seq<string>, h: nat)
    requires h < GameHeight
    ensures |col| >= GameHeight - h ==> Symbol(col, h) == col[|col| - (GameHeight - h)]
    ensures |col| < GameHeight - h ==> Symbol(col, h) == " "
  {
  }

  /** A column seen from top to bottom: a column of at most six discs shows blanks above
      its discs, in list order, so its last element is in the bottom row; a longer column
      shows only its last six. */
  lemma ColumnView(col: seq<string>)
    ensures |col| <= GameHeight ==>
      seq(GameHeight, h requires 0 <= h < GameHeight => Symbol(col, h)) == Blanks(GameHeight - |col|) + col
    ensures |col| > GameHeight ==>
      seq(GameHeight, h requires 0 <= h < GameHeight => Symbol(col, h)) == col[|col| - GameHeight..]
  {
    var view := seq(GameHeight, h requires 0 <= h < GameHeight => Symbol(col, h));
    if |col| <= GameHeight {
      var expected := Blanks(GameHeight - |col|) + col;
      forall h | 0 <= h < GameHeight
        ensures view[h] == expected[h]
      {
        SymbolAt(col, h);
      }
    } else {
      var expected := col[|col| - GameHeight..];
      forall h | 0 <= h < GameHeight
        ensures view[h] == expected[h]
      {
        SymbolAt(col, h);
      }
    }
  }

  /** The body has six rows, each with one symbol per column. */
  lemma RowsShape(s: seq<seq<string>>)
    ensures |Rows(s)| == GameHeight
    ensures forall h :: 0 <= h < GameHeight ==>
      |Cells(s, h)| == |s| && Rows(s)[h] == RowLine(Cells(s, h))
    ensures forall h, i :: 0 <= h < GameHeight && 0 <= i < |s| ==> Cells(s, h)[i] == Symbol(s[i], h)
  {
  }

  /** The text opens with the title line and the first border corner. */
  lemma ShowStart(g: Game)
    ensures |Show(g)| >= 16 && Show(g)[..16] == "Current State:\n+"
  {
    var s := StateTuple(g);
    var rest := Join("+", Dashes(|s|)) + "+" + "\n" + Join("\n" + Rule(|s|) + "\n", Rows(s)) + "\n" + Border(|s|);
    assert Show(g) == "Current State:\n+" + rest;
  }

  lemma {:induction false} RepeatLength(s: string, n: nat)
    ensures |Repeat(s, n)| == |s| * n
  {
    if n > 0 {
      RepeatLength(s, n - 1);
    }
  }

  /** `"+".join` of `n >= 1` dashes, closed by a `"+"`, is `"---+"` repeated `n` times. */
  lemma {:induction false} DashesJoin(n: nat)
    requires n >= 1
    ensures Join("+", Dashes(n)) + "+" == Repeat("---+", n)
  {
    if n > 1 {
      assert Dashes(n)[1..] == Dashes(n - 1);
      DashesJoin(n - 1);
    }
  }

  /** The border holds one `"---"` segment per column: `"++"` for no column, otherwise
      a corner followed by `"---+"` for each column, 4n+1 characters wide. */
  lemma BorderShape(n: nat)
    ensures n == 0 ==> Border(n) == "++"
    ensures n >= 1 ==> Border(n) == "+" + Repeat("---+", n) && |Border(n)| == 4 * n + 1
    ensures n >= 1 ==> Rule(n) == "|" + Repeat("---+", n)[..4 * n - 1] + "|" && |Rule(n)| == 4 * n + 1
  {
    if n >= 1 {
      DashesJoin(n);
      RepeatLength("---+", n);
      var j := Join("+", Dashes(n));
      assert Repeat("---+", n)[..4 * n - 1] == j by {
        assert Repeat("---+", n) == j + "+";
      }
    }
  }

  /** Cells of one character each are laid out every four characters: the row is
      4n+1 characters wide and cell `i` sits at position `2 + 4i`, so the cells can be
      read back from the row. */
  lemma RowLineLayout(cells: seq<string>)
    requires |cells| >= 1
    requires forall i :: 0 <= i < |cells| ==> |cells[i]| == 1
    ensures |RowLine(cells)| == 4 * |cells| + 1
    ensures forall i :: 0 <= i < |cells| ==> RowLine(cells)[2 + 4 * i] == cells[i][0]
  {
    JoinSingles(cells);
  }

  lemma {:induction false} JoinSingles(cells: seq<string>)
    requires |cells| >= 1
    requires forall i :: 0 <= i < |cells| ==> |cells[i]| == 1
    ensures |Join(" | ", cells)| == 4 * |cells| - 3
    ensures forall i :: 0 <= i < |cells| ==> Join(" | ", cells)[4 * i] == cells[i][0]
  {
    if |cells| > 1 {
      JoinSingles(cells[1..]);
      var tail := Join(" | ", cells[1..]);
      assert Join(" | ", cells) == cells[0] + " | " + tail;
      forall i | 0 < i < |cells|
        ensures Join(" | ", cells)[4 * i] == cells[i][0]
      {
        assert cells[1..][i - 1] == cells[i];
      }
    }
  }

  // ---------------------------------------------------------------------------
  // The text as a list of lines

  /** The display rows with the rule line between each two. */
  function Interleave(rows: seq<string>, rule: string): (r: seq<string>)
    ensures |rows| >= 1 ==> |r| == 2 * |rows| - 1
  {
    if |rows| <= 1 then rows else [rows[0], rule] + Interleave(rows[1..], rule)
  }

  /** The lines of the text, top to bottom: the title, the top border, the six rows with
      a rule between each two, and the bottom border. */
  function ShowLines(g: Game): seq<string>
  {
    var s := StateTuple(g);
    ["Current State:", Border(|s|)] + Interleave(Rows(s), Rule(|s|)) + [Border(|s|)]
  }

  lemma {:induction false} JoinAppend(sep: string, xs: seq<string>, ys: seq<string>)
    requires |xs| >= 1 && |ys| >= 1
    ensures Join(sep, xs + ys) == Join(sep, xs) + sep + Join(sep, ys)
  {
    if |xs| == 1 {
      assert (xs + ys)[1..] == ys;
    } else {
      assert (xs + ys)[1..] == xs[1..] + ys;
      JoinAppend(sep, xs[1..], ys);
    }
  }

  lemma {:induction false} JoinInterleave(rows: seq<string>, rule: string)
    ensures Join("\n" + rule + "\n", rows) == Join("\n", Interleave(rows, rule))
  {
    if |rows| > 1 {
      JoinInterleave(rows[1..], rule);
      var rest := Interleave(rows[1..], rule);
      JoinAppend("\n", [rows[0], rule], rest);
      assert Join("\n", [rows[0], rule]) == rows[0] + "\n" + rule by {
        assert [rows[0], rule][1..] == [rule];
      }
    }
  }

  /** The printed text is its fourteen lines joined by line breaks. */
  lemma ShowIsLines(g: Game)
    ensures |ShowLines(g)| == 14
    ensures Show(g) == Join("\n", ShowLines(g))
  {
    var s := StateTuple(g);
    var n := |s|;
    var border, rule := Border(n), Rule(n);
    RowsShape(s);
    var body := Interleave(Rows(s), rule);
    var middle := Join("\n" + rule + "\n", Rows(s));
    JoinInterleave(Rows(s), rule);
    assert Join("\n", body) == middle;
    var head := ["Current State:", border];
    assert Join("\n", head) == "Current State:" + "\n" + border by {
      assert head[1..] == [border];
    }
    JoinAppend("\n", body, [border]);
    assert Join("\n", body + [border]) == middle + "\n" + border;
    JoinAppend("\n", head, body + [border]);
    assert ShowLines(g) == head + (body + [border]);
    assert Show(g) == "Current State:\n" + border + "\n" + middle + "\n" + border;
    assert "Current State:\n" == "Current State:" + "\n";
  }

  /** Line `k` of the interleaving is row `k / 2` at even `k` and the rule at odd `k`. */
  lemma {:induction false} InterleaveAt(rows: seq<string>, rule: string)
    requires |rows| >= 1
    ensures forall k :: 0 <= k < |Interleave(rows, rule)| ==>
      Interleave(rows, rule)[k] == if k % 2 == 0 then rows[k / 2] else rule
  {
    if |rows| > 1 {
      InterleaveAt(rows[1..], rule);
      var r := Interleave(rows, rule);
      forall k | 2 <= k < |r|
        ensures r[k] == if k % 2 == 0 then rows[k / 2] else rule
      {
        assert r[k] == Interleave(rows[1..], rule)[k - 2];
        assert rows[1..][(k - 2) / 2] == rows[(k - 2) / 2 + 1];
      }
    }
  }

  /** The tuple of columns holds the same columns as the state. */
  lemma StateTupleCopies(g: Game)
    ensures StateTuple(g) == g.state
  {
    var t := StateTuple(g);
    forall i | 0 <= i < |t|
      ensures t[i] == g.state[i]
    {
    }
  }

  /** Where the columns appear in the text: line 0 is the title, lines 1 and 13 are the
      border, and between them display row `h` (0 is the top) is line `2 + 2h`, holding
      the symbol of every column at its row `h`, with the rule line between two rows. */
  lemma ShowRows(g: Game)
    ensures |ShowLines(g)| == 2 * GameHeight + 2
    ensures ShowLines(g)[0] == "Current State:"
    ensures ShowLines(g)[1] == Border(|g.state|) && ShowLines(g)[13] == Border(|g.state|)
    ensures forall k :: 2 <= k < 13 ==>
      ShowLines(g)[k] == if k % 2 == 0 then RowLine(Cells(StateTuple(g), (k - 2) / 2)) else Rule(|g.state|)
    ensures forall h, i :: 0 <= h < GameHeight && 0 <= i < |g.state| ==>
      |Cells(StateTuple(g), h)| == |g.state| && Cells(StateTuple(g), h)[i] == Symbol(g.state[i], h)
  {
    var s := StateTuple(g);
    StateTupleCopies(g);
    RowsShape(s);
    InterleaveAt(Rows(s), Rule(|s|));
    var lines := ShowLines(g);
    assert lines[0] == "Current State:" && lines[1] == Border(|s|);
    forall k | 2 <= k < 13
      ensures lines[k] == if k % 2 == 0 then RowLine(Cells(s, (k - 2) / 2)) else Rule(|g.state|)
    {
      assert lines[k] == Interleave(Rows(s), Rule(|s|))[k - 2];
    }
  }

  /** When every disc label is one character and there is at least one column, every
      line below the title is 4n+1 characters wide, so the table is aligned. */
  lemma TableAligned(g: Game)
    requires |g.state| >= 1
    requires forall i, j :: 0 <= i < |g.state| && 0 <= j < |g.state[i]| ==> |g.state[i][j]| == 1
    ensures forall k :: 1 <= k < |ShowLines(g)| ==> |ShowLines(g)[k]| == 4 * |g.state| + 1
  {
    var s := StateTuple(g);
    var n := |s|;
    BorderShape(n);
    RowsShape(s);
    forall h | 0 <= h < GameHeight
      ensures |Rows(s)[h]| == 4 * n + 1
    {
      forall i | 0 <= i < n
        ensures |Cells(s, h)[i]| == 1
      {
        SymbolAt(s[i], h);
      }
      RowLineLayout(Cells(s, h));
    }
    InterleaveWidths(Rows(s), Rule(n), 4 * n + 1);
  }

  lemma {:induction false} InterleaveWidths(rows: seq<string>, rule: string, width: nat)
    requires |rule| == width
    requires forall h :: 0 <= h < |rows| ==> |rows[h]| == width
    ensures forall k :: 0 <= k < |Interleave(rows, rule)| ==> |Interleave(rows, rule)[k]| == width
  {
    if |rows| > 1 {
      InterleaveWidths(rows[1..], rule, width);
    }
  }
}
