/**
 * Board (Cinderblock.cs): a grid of a fixed size and the pieces on it, kept
 * in a dictionary from id to piece. The dictionary is the field `pieces`, in
 * enumeration order; a piece value with its position changed replaces the
 * entry the source updates in place.
 */
module Cinderblock {
  import opened Rules
  import opened Layout
  import opened Wrappers
  import opened Text
  import opened Identity
  import opened BoardFormat

  /** How PlacePiece ends: the piece is added, or one of the two exceptions it can raise. */
  datatype Placement =
    | Placed
    | OutOfRange    // ArgumentOutOfRangeException: x >= Width or y >= Height
    | DuplicateId   // Dictionary.Add: the id Pieces.Count is already a key

  class Board {
    var pieces: seq<Piece>
    const width: int
    const height: int

    /** The dictionary holds at most one entry per key. */
    ghost predicate Valid()
      reads this
    {
      UniqueIds(pieces)
    }

    /** An empty board of the given size. */
    constructor (w: int, h: int)
      ensures width == w && height == h
      ensures pieces == []
      ensures Valid()
    {
      width, height := w, h;
      pieces := [];
    }

    /** A copy of b: the same size and a copy of each of its pieces, in its order. */
    constructor Copy(b: Board)
      ensures width == b.width && height == b.height
      ensures pieces == b.pieces
      ensures b.Valid() ==> Valid()
    {
      width, height := b.width, b.height;
      var ps := b.pieces;
      var acc: seq<Piece> := [];
      for i := 0 to |ps|
        invariant acc == ps[..i]
      {
        var bp := ps[i];
        acc := acc + [Piece(bp.kind, bp.id, bp.pos)];
      }
      assert ps[..|ps|] == ps;
      pieces := acc;
    }

    /**
     * The board a text layout describes, or why it is refused. The board is
     * as wide as the first row and as high as the number of rows.
     */
    static method FromString(data: string) returns (r: Result<Board, FormatError>)
      ensures r.Success? <==> Parse(data).Success?
      ensures r.Success? ==>
        && fresh(r.value)
        && r.value.width == |Rows(data)[0]| && r.value.height == |Rows(data)|
        && r.value.pieces == Parse(data).value
        && r.value.Valid()
      ensures r.Failure? ==> r.error == Parse(data).error
    {
      var rows := Split(data, '\n');
      var w, h := |rows[0]|, |rows|;
      var b := new Board(w, h);
      var y := 0;
      while y < h
        invariant 0 <= y <= h
        invariant fresh(b) && b.width == w && b.height == h
        invariant forall k :: 0 <= k < |b.pieces| ==> b.pieces[k].id == k
        invariant ScanRows(rows, y, w, b.pieces) == Parse(data)
      {
        var x := 0;
        while x < w
          invariant 0 <= x <= w
          invariant fresh(b) && b.width == w && b.height == h
          invariant forall k :: 0 <= k < |b.pieces| ==> b.pieces[k].id == k
          invariant Resume(rows, y, x, w, b.pieces) == Parse(data)
        {
          if x >= |rows[y]| {
            return Failure(RowTooShort(y));
          }
          var c := rows[y][x];
          var t: PieceType;
          match CellType(c) {
            case None =>
              return Failure(Unsupported(c));
            case Some(k) =>
              t := k;
          }
          if t != EMPTY {
            ghost var before := b.pieces;
            assert !HasId(before, |before|);
            var outcome := b.PlacePiece(t, x, y);
            assert outcome == Placed;
          }
          x := x + 1;
        }
        y := y + 1;
      }
      ValidFromIds(b.pieces);
      return Success(b);
    }

    /** Put a new piece on the board, with the number of pieces as its id. */
    method PlacePiece(t: PieceType, x: int, y: int) returns (r: Placement)
      modifies this
      ensures r == OutOfRange <==> x >= width || y >= height
      ensures r == DuplicateId <==> x < width && y < height && HasId(old(pieces), |old(pieces)|)
      ensures r == Placed ==> pieces == old(pieces) + [Piece(t, |old(pieces)|, Pos(x, y))]
      ensures r != Placed ==> pieces == old(pieces)
      ensures old(Valid()) ==> Valid()
    {
      if x >= width || y >= height {
        return OutOfRange;
      }
      var p := Piece(t, |pieces|, Pos(x, y));
      if HasId(pieces, p.id) {
        return DuplicateId;
      }
      pieces := pieces + [p];
      r := Placed;
    }

    /** The pieces of type t, in dictionary order. */
    function GetPiecesOfType(t: PieceType): (r: seq<Piece>)
      reads this
      ensures |r| <= |pieces|
      ensures forall p :: p in r <==> p in pieces && p.kind == t
    {
      OfType(pieces, t)
    }

    /** The puzzle is solved once fewer than two DYNAMOs are left. */
    predicate IsWin()
      reads this
    {
      Won(pieces)
    }

    /**
     * Try to move piece pid two cells in direction d, over a tether on the
     * cell between. A DYNAMO tether is captured. A refused move leaves the
     * board unchanged.
     */
    method MovePiece(pid: int, d: Direction) returns (moved: bool)
      requires Valid() && HasId(pieces, pid)
      modifies this
      ensures moved <==> Move(old(pieces), width, height, pid, d).Some?
      ensures pieces == if moved then Move(old(pieces), width, height, pid, d).value else old(pieces)
      ensures Valid()
    {
      hide Move, OfType, Won, Key, RemoveId, UniqueIds;
      ghost var s0 := pieces;
      var mi := IndexOfId(pieces, pid);
      var me := pieces[mi];
      var offset := DirectionOffset(d);
      var dest := Add(me.pos, Twice(offset));
      if dest.x >= width || dest.y >= height || dest.x < 0 || dest.y < 0 {
        MoveOffBoard(s0, width, height, pid, d);
        return false;
      }

      // The tether: the last piece found on the adjacent cell.
      var adj := Add(me.pos, offset);
      var tether: Option<nat> := None;
      var k := 0;
      while k < |pieces|
        invariant pieces == s0
        invariant 0 <= k <= |pieces|
        invariant tether == LastAt(pieces[..k], adj)
      {
        assert pieces[..k + 1][..k] == pieces[..k];
        if pieces[k].pos == adj {
          tether := Some(k);
        }
        k := k + 1;
      }
      assert pieces[..|pieces|] == pieces;
      if tether == None {
        MoveNoTether(s0, width, height, pid, d);
        return false;
      }

      // The destination must be free.
      k := 0;
      while k < |pieces|
        invariant pieces == s0
        invariant 0 <= k <= |pieces|
        invariant forall j :: 0 <= j < k ==> pieces[j].pos != dest
      {
        if pieces[k].pos == dest {
          MoveBlocked(s0, width, height, pid, d, k);
          return false;
        }
        k := k + 1;
      }

      var captive := pieces[tether.value];
      MoveTaken(s0, width, height, pid, d, tether.value);
      pieces := pieces[mi := me.(pos := dest)];
      if captive.kind == DYNAMO {
        pieces := RemoveId(pieces, captive.id);
      }
      moved := true;
    }

    /**
     * The key of the board's layout: its DYNAMO cells, then its CINDER
     * cells, each sorted by column then row.
     */
    method UniqueIdentifier() returns (uid: string)
      ensures uid == Key(pieces)
    {
      hide SortCells, Cells, OfType, Token, IntToString, NatToString;
      var dynamos := SortCells(Cells(GetPiecesOfType(DYNAMO)));
      var cinders := SortCells(Cells(GetPiecesOfType(CINDER)));
      uid := "";
      assert Tagged('D', dynamos[..0]) == [];
      for i := 0 to |dynamos|
        invariant uid == Encode(Tagged('D', dynamos[..i]))
      {
        EncodeStep([], 'D', dynamos, i);
        assert [] + Tagged('D', dynamos[..i]) == Tagged('D', dynamos[..i]);
        assert [] + Tagged('D', dynamos[..i + 1]) == Tagged('D', dynamos[..i + 1]);
        uid := uid + Token('D', dynamos[i]);
      }
      assert dynamos[..|dynamos|] == dynamos;
      var head := Tagged('D', dynamos);
      assert Encode(head + Tagged('C', cinders[..0])) == uid by {
        assert head + Tagged('C', cinders[..0]) == head;
      }
      for i := 0 to |cinders|
        invariant uid == Encode(head + Tagged('C', cinders[..i]))
      {
        EncodeStep(head, 'C', cinders, i);
        uid := uid + Token('C', cinders[i]);
      }
      assert cinders[..|cinders|] == cinders;
    }
  }

  /** FromString's inner loop resumed at cell (x, y), then the rows after it. */
  function Resume(rows: seq<string>, y: nat, x: nat, w: nat, acc: seq<Piece>): Result<seq<Piece>, FormatError>
    requires y < |rows|
  {
    match ScanRow(rows[y], y, x, w, acc)
    case Failure(e) => Failure(e)
    case Success(a) => ScanRows(rows, y + 1, w, a)
  }

  /** Writing one more entry of a tagged run extends the key by that entry's token. */
  lemma EncodeStep(head: seq<(char, Pos)>, tag: char, cs: seq<Pos>, i: nat)
    requires i < |cs|
    ensures Encode(head + Tagged(tag, cs[..i + 1])) == Encode(head + Tagged(tag, cs[..i])) + Token(tag, cs[i])
  {
    var prefix := head + Tagged(tag, cs[..i]);
    assert head + Tagged(tag, cs[..i + 1]) == prefix + [(tag, cs[i])];
    EncodeAppend(prefix, [(tag, cs[i])]);
  }

  lemma MoveOffBoard(s: seq<Piece>, w: int, h: int, pid: int, d: Direction)
    requires HasId(s, pid) && !InBoard(Target(s, pid, d), w, h)
    ensures Move(s, w, h, pid, d).None?
  {
  }

  lemma MoveNoTether(s: seq<Piece>, w: int, h: int, pid: int, d: Direction)
    requires HasId(s, pid) && LastAt(s, Adjacent(s, pid, d)).None?
    ensures Move(s, w, h, pid, d).None?
  {
  }

  lemma MoveBlocked(s: seq<Piece>, w: int, h: int, pid: int, d: Direction, k: nat)
    requires HasId(s, pid) && k < |s| && s[k].pos == Target(s, pid, d)
    ensures Move(s, w, h, pid, d).None?
  {
  }

  /** The move made once every guard has passed. */
  lemma MoveTaken(s: seq<Piece>, w: int, h: int, pid: int, d: Direction, t: nat)
    requires UniqueIds(s) && HasId(s, pid)
    requires InBoard(Target(s, pid, d), w, h)
    requires LastAt(s, Adjacent(s, pid, d)) == Some(t)
    requires forall j :: 0 <= j < |s| ==> s[j].pos != Target(s, pid, d)
    ensures Move(s, w, h, pid, d) ==
      Some(if s[t].kind == DYNAMO then RemoveId(Jump(s, pid, d), s[t].id) else Jump(s, pid, d))
    ensures UniqueIds(Move(s, w, h, pid, d).value)
  {
    MoveEffect(s, w, h, pid, d);
  }

  /** Pieces numbered by their position have distinct ids. */
  lemma ValidFromIds(s: seq<Piece>)
    requires forall k :: 0 <= k < |s| ==> s[k].id == k
    ensures UniqueIds(s)
  {
  }
}
