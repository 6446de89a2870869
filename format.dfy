/**
 * Board.FromString (Cinderblock.cs) on values: the text layout split into
 * rows at '\n'; the board is as wide as the first row and as high as the
 * number of rows. Cells are read row by row, left to right, and each '1' or
 * '2' is placed as a new piece whose id is the number of pieces placed
 * before it.
 */
module BoardFormat {
  import opened Rules
  import opened Layout
  import opened Wrappers
  import opened Text

  /**
   * Why a layout is refused: a character other than '0', '1', '2'
   * (NotSupportedException) or a row shorter than the first
   * (IndexOutOfRangeException).
   */
  datatype FormatError = Unsupported(c: char) | RowTooShort(row: nat)

  function CellType(c: char): (r: Option<PieceType>)
    ensures r.Some? <==> c == '0' || c == '1' || c == '2'
    ensures r == Some(EMPTY) <==> c == '0'
    ensures r == Some(CINDER) <==> c == '1'
    ensures r == Some(DYNAMO) <==> c == '2'
  {
    match c
    case '0' => Some(EMPTY)
    case '1' => Some(CINDER)
    case '2' => Some(DYNAMO)
    case _ => None
  }

  function Rows(data: string): seq<string>
  {
    Split(data, '\n')
  }

  /** The inner loop: the cells x, x+1, ..., w-1 of row y. */
  function ScanRow(row: string, y: nat, x: nat, w: nat, acc: seq<Piece>): Result<seq<Piece>, FormatError>
    decreases w - x
  {
    if x >= w then Success(acc)
    else if x >= |row| then Failure(RowTooShort(y))
    else
      match CellType(row[x])
      case None => Failure(Unsupported(row[x]))
      case Some(t) =>
        ScanRow(row, y, x + 1, w, if t == EMPTY then acc else acc + [Piece(t, |acc|, Pos(x, y))])
  }

  /** The outer loop: the rows y, y+1, ... */
  function ScanRows(rows: seq<string>, y: nat, w: nat, acc: seq<Piece>): Result<seq<Piece>, FormatError>
    decreases |rows| - y
  {
    if y >= |rows| then Success(acc)
    else
      match ScanRow(rows[y], y, 0, w, acc)
      case Failure(e) => Failure(e)
      case Success(a) => ScanRows(rows, y + 1, w, a)
  }

  /** The pieces FromString places, in placement order, or why it throws. */
  function Parse(data: string): Result<seq<Piece>, FormatError>
  {
    ScanRows(Rows(data), 0, |Rows(data)[0]|, [])
  }

  /** Row-major order of cells, the order in which they are read. */
  predicate Less(a: Pos, b: Pos)
  {
    a.y < b.y || (a.y == b.y && a.x < b.x)
  }

  /** Every row is at least w long and its first w characters are digits 0-2. */
  predicate WellFormed(rows: seq<string>, w: nat)
  {
    forall y :: 0 <= y < |rows| ==>
      w <= |rows[y]| && forall x :: 0 <= x < w ==> CellType(rows[y][x]).Some?
  }

  /** The pieces placed before cell (x, y): ids in placement order, on the grid, read before (x, y). */
  predicate PlacedBefore(acc: seq<Piece>, w: nat, y: nat, x: nat)
  {
    forall k :: 0 <= k < |acc| ==>
      && acc[k].id == k && acc[k].kind != EMPTY
      && 0 <= acc[k].pos.x < w && 0 <= acc[k].pos.y && Less(acc[k].pos, Pos(x, y))
  }

  /** Pieces are placed in the order their cells are read. */
  predicate InReadingOrder(acc: seq<Piece>)
  {
    forall i, j :: 0 <= i < j < |acc| ==> Less(acc[i].pos, acc[j].pos)
  }

  /** Every cell before (x, y) could be read and what stands on it is what it says. */
  ghost predicate CellsRead(acc: seq<Piece>, rows: seq<string>, w: nat, y: nat, x: nat)
  {
    forall c: Pos :: 0 <= c.x < w && 0 <= c.y && Less(c, Pos(x, y)) ==>
      c.y < |rows| && c.x < |rows[c.y]| && CellType(rows[c.y][c.x]) == Some(KindAt(acc, c))
  }

  /** What the scan has established before reaching cell (x, y). */
  ghost predicate Scanned(acc: seq<Piece>, rows: seq<string>, w: nat, y: nat, x: nat)
  {
    PlacedBefore(acc, w, y, x) && InReadingOrder(acc) && CellsRead(acc, rows, w, y, x)
  }

  lemma ScanEmpty(acc: seq<Piece>, rows: seq<string>, w: nat, y: nat, x: nat)
    requires Scanned(acc, rows, w, y, x)
    requires y < |rows| && x < w && x < |rows[y]| && CellType(rows[y][x]) == Some(EMPTY)
    ensures Scanned(acc, rows, w, y, x + 1)
  {
    forall c: Pos | 0 <= c.x < w && 0 <= c.y && Less(c, Pos(x + 1, y))
      ensures c.y < |rows| && c.x < |rows[c.y]| && CellType(rows[c.y][c.x]) == Some(KindAt(acc, c))
    {
      if c != Pos(x, y) {
        assert Less(c, Pos(x, y));
      }
    }
  }

  lemma ScanPlace(acc: seq<Piece>, rows: seq<string>, w: nat, y: nat, x: nat, t: PieceType)
    requires Scanned(acc, rows, w, y, x)
    requires y < |rows| && x < w && x < |rows[y]| && CellType(rows[y][x]) == Some(t) && t != EMPTY
    ensures Scanned(acc + [Piece(t, |acc|, Pos(x, y))], rows, w, y, x + 1)
  {
    var p := Piece(t, |acc|, Pos(x, y));
    var acc' := acc + [p];
    assert PlacedBefore(acc', w, y, x + 1);
    assert InReadingOrder(acc');
    forall c: Pos | 0 <= c.x < w && 0 <= c.y && Less(c, Pos(x + 1, y))
      ensures c.y < |rows| && c.x < |rows[c.y]| && CellType(rows[c.y][c.x]) == Some(KindAt(acc', c))
    {
      KindAtSnoc(acc, p, c);
      if c != Pos(x, y) {
        assert Less(c, Pos(x, y));
      }
    }
  }

  lemma ScanStep(acc: seq<Piece>, rows: seq<string>, w: nat, y: nat, x: nat, t: PieceType)
    requires Scanned(acc, rows, w, y, x)
    requires y < |rows| && x < w && x < |rows[y]| && CellType(rows[y][x]) == Some(t)
    ensures Scanned(if t == EMPTY then acc else acc + [Piece(t, |acc|, Pos(x, y))], rows, w, y, x + 1)
  {
    if t == EMPTY {
      ScanEmpty(acc, rows, w, y, x);
    } else {
      ScanPlace(acc, rows, w, y, x, t);
    }
  }

  lemma RowEnd(acc: seq<Piece>, rows: seq<string>, w: nat, y: nat)
    requires Scanned(acc, rows, w, y, w)
    ensures Scanned(acc, rows, w, y + 1, 0)
  {
    forall c: Pos | 0 <= c.x < w && 0 <= c.y && Less(c, Pos(0, y + 1))
      ensures c.y < |rows| && c.x < |rows[c.y]| && CellType(rows[c.y][c.x]) == Some(KindAt(acc, c))
    {
      assert Less(c, Pos(w, y));
    }
  }

  /** A cell of the grid that FromString cannot read: past the end of its row, or not a digit 0-2. */
  predicate BadCell(rows: seq<string>, w: nat, y: nat, x: nat)
  {
    y < |rows| && x < w && (x >= |rows[y]| || CellType(rows[y][x]).None?)
  }

  lemma {:induction false} ScanRowSpec(rows: seq<string>, y: nat, x: nat, w: nat, acc: seq<Piece>)
    requires y < |rows| && x <= w
    requires Scanned(acc, rows, w, y, x)
    ensures ScanRow(rows[y], y, x, w, acc).Success? ==>
      Scanned(ScanRow(rows[y], y, x, w, acc).value, rows, w, y, w)
    ensures ScanRow(rows[y], y, x, w, acc).Failure? ==>
      exists x' :: x <= x' && BadCell(rows, w, y, x')
    decreases w - x
  {
    hide Scanned;
    var row := rows[y];
    if x == w {
    } else if x >= |row| {
      assert BadCell(rows, w, y, x);
    } else if CellType(row[x]).None? {
      assert BadCell(rows, w, y, x);
    } else {
      var t := CellType(row[x]).value;
      var acc' := if t == EMPTY then acc else acc + [Piece(t, |acc|, Pos(x, y))];
      assert ScanRow(row, y, x, w, acc) == ScanRow(row, y, x + 1, w, acc');
      ScanStep(acc, rows, w, y, x, t);
      ScanRowSpec(rows, y, x + 1, w, acc');
    }
  }

  lemma {:induction false} ScanRowsSpec(rows: seq<string>, y: nat, w: nat, acc: seq<Piece>)
    requires y <= |rows|
    requires Scanned(acc, rows, w, y, 0)
    ensures ScanRows(rows, y, w, acc).Success? ==>
      Scanned(ScanRows(rows, y, w, acc).value, rows, w, |rows|, 0)
    ensures ScanRows(rows, y, w, acc).Failure? ==>
      exists y', x' :: y <= y' && BadCell(rows, w, y', x')
    decreases |rows| - y
  {
    hide Scanned, ScanRow;
    if y < |rows| {
      ScanRowSpec(rows, y, 0, w, acc);
      var r := ScanRow(rows[y], y, 0, w, acc);
      if r.Success? {
        assert ScanRows(rows, y, w, acc) == ScanRows(rows, y + 1, w, r.value);
        RowEnd(r.value, rows, w, y);
        ScanRowsSpec(rows, y + 1, w, r.value);
      } else {
        assert ScanRows(rows, y, w, acc).Failure?;
        var x' :| 0 <= x' && BadCell(rows, w, y, x');
      }
    }
  }

  /** A scan that has read every row leaves a well-formed grid and a consistent layout, in reading order, that mirrors it. */
  lemma ScannedAll(s: seq<Piece>, rows: seq<string>, w: nat)
    requires Scanned(s, rows, w, |rows|, 0)
    ensures WellFormed(rows, w)
    ensures forall k :: 0 <= k < |s| ==> s[k].id == k && s[k].kind != EMPTY
    ensures UniqueIds(s) && Consistent(s, w, |rows|)
    ensures InReadingOrder(s)
    ensures forall y, x :: 0 <= y < |rows| && 0 <= x < w && x < |rows[y]| ==>
      CellType(rows[y][x]) == Some(KindAt(s, Pos(x, y)))
  {
    var h := |rows|;
    forall y | 0 <= y < h
      ensures w <= |rows[y]|
    {
      if 0 < w {
        var c := Pos(w - 1, y);
        assert 0 <= c.x < w && 0 <= c.y && Less(c, Pos(0, h));
      }
    }
    forall y, x | 0 <= y < h && 0 <= x < w
      ensures CellType(rows[y][x]) == Some(KindAt(s, Pos(x, y)))
    {
      var c := Pos(x, y);
      assert 0 <= c.x < w && 0 <= c.y && Less(c, Pos(0, h));
    }
    forall i, j | 0 <= i < j < |s|
      ensures s[i].pos != s[j].pos
    {
      assert Less(s[i].pos, s[j].pos);
    }
  }

  /**
   * FromString succeeds exactly when every row is at least as long as the
   * first and every cell of the width-by-height grid is a digit 0-2;
   * characters past the width are never read. The pieces it then places
   * have ids 0, 1, 2, ... in reading order (row by row, left to right), lie
   * on the grid on pairwise distinct cells, and are exactly the '1' cells as
   * CINDERs and the '2' cells as DYNAMOs.
   */
  lemma ParseSpec(data: string)
    ensures var rows := Rows(data);
      var w, h := |rows[0]|, |rows|;
      && (Parse(data).Success? <==> WellFormed(rows, w))
      && (Parse(data).Success? ==>
            var s := Parse(data).value;
            && (forall k :: 0 <= k < |s| ==> s[k].id == k && s[k].kind != EMPTY)
            && UniqueIds(s)
            && Consistent(s, w, h)
            && InReadingOrder(s)
            && (forall y, x :: 0 <= y < h && 0 <= x < w && x < |rows[y]| ==>
                  CellType(rows[y][x]) == Some(KindAt(s, Pos(x, y)))))
  {
    var rows := Rows(data);
    var w := |rows[0]|;
    ScanRowsSpec(rows, 0, w, []);
    var r := Parse(data);
    if r.Success? {
      ScannedAll(r.value, rows, w);
    } else {
      var y, x :| 0 <= y && BadCell(rows, w, y, x);
      assert !WellFormed(rows, w);
    }
  }
}
