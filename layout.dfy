/**
 * The move rule of Board (Cinderblock.cs) on piece values.
 *
 * A board's dictionary from id to piece is a sequence of pieces in the
 * dictionary's enumeration order; the board only ever adds entries at the
 * end and removes entries without reordering the rest, so this order is
 * insertion order.
 */
module Layout {
  import opened Rules
  import opened Wrappers

  /** The dictionary holds at most one entry per key. */
  predicate UniqueIds(s: seq<Piece>)
  {
    forall i, j {:trigger s[i].id, s[j].id} :: 0 <= i < j < |s| ==> s[i].id != s[j].id
  }

  predicate HasId(s: seq<Piece>, id: int)
  {
    exists i :: 0 <= i < |s| && s[i].id == id
  }

  predicate InBoard(c: Pos, w: int, h: int)
  {
    0 <= c.x < w && 0 <= c.y < h
  }

  predicate Occupied(s: seq<Piece>, c: Pos)
  {
    exists i :: 0 <= i < |s| && s[i].pos == c
  }

  /** The board invariant: every piece on the grid, no two on one cell. */
  predicate Consistent(s: seq<Piece>, w: int, h: int)
  {
    && (forall i :: 0 <= i < |s| ==> InBoard(s[i].pos, w, h))
    && (forall i, j {:trigger s[i].pos, s[j].pos} :: 0 <= i < j < |s| ==> s[i].pos != s[j].pos)
  }

  /** Dictionary lookup: the index of the entry whose key is `id`. */
  function IndexOfId(s: seq<Piece>, id: int): (i: nat)
    requires HasId(s, id)
    ensures i < |s| && s[i].id == id
    ensures forall j :: 0 <= j < i ==> s[j].id != id
  {
    if s[0].id == id then 0
    else
      assert HasId(s[1..], id) by {
        var k :| 0 <= k < |s| && s[k].id == id;
        assert s[1..][k - 1].id == id;
      }
      1 + IndexOfId(s[1..], id)
  }

  lemma MemberHasId(s: seq<Piece>, p: Piece)
    requires p in s
    ensures HasId(s, p.id)
  {
    var k :| 0 <= k < |s| && s[k] == p;
  }

  /** GetPiecesOfType: the pieces of type t, in dictionary order. */
  function OfType(s: seq<Piece>, t: PieceType): (r: seq<Piece>)
    ensures |r| <= |s|
    ensures forall p :: p in r <==> p in s && p.kind == t
    ensures UniqueIds(s) ==> UniqueIds(r)
  {
    if s == [] then []
    else
      var init := s[..|s| - 1];
      assert s == init + [s[|s| - 1]];
      OfType(init, t) + (if s[|s| - 1].kind == t then [s[|s| - 1]] else [])
  }

  /** IsWin: fewer than two DYNAMOs are left. */
  predicate Won(s: seq<Piece>)
  {
    |OfType(s, DYNAMO)| < 2
  }

  /** IsWin holds exactly when no two distinct entries are DYNAMOs. */
  lemma {:induction false} WonIff(s: seq<Piece>)
    ensures Won(s) <==>
      forall i, j :: 0 <= i < j < |s| && s[i].kind == DYNAMO ==> s[j].kind != DYNAMO
  {
    if s != [] {
      var n := |s| - 1;
      var init := s[..n];
      assert s == init + [s[n]];
      WonIff(init);
      var none := forall i :: 0 <= i < n ==> init[i].kind != DYNAMO;
      assert none <==> |OfType(init, DYNAMO)| == 0 by {
        if !none {
          var i :| 0 <= i < n && init[i].kind == DYNAMO;
          assert init[i] in OfType(init, DYNAMO);
        }
        if |OfType(init, DYNAMO)| != 0 {
          var p := OfType(init, DYNAMO)[0];
          assert p in init;
        }
      }
    }
  }

  /** The tether search: the last entry found on cell c, if any. */
  function LastAt(s: seq<Piece>, c: Pos): (r: Option<nat>)
    ensures r.None? <==> !Occupied(s, c)
    ensures r.Some? ==> r.value < |s| && s[r.value].pos == c
    ensures r.Some? ==> forall j :: r.value < j < |s| ==> s[j].pos != c
  {
    if s == [] then None
    else if s[|s| - 1].pos == c then Some(|s| - 1)
    else
      LastAt(s[..|s| - 1], c)
  }

  /** What stands on cell c, as the tether search would find it; EMPTY when nothing does. */
  function KindAt(s: seq<Piece>, c: Pos): PieceType
  {
    match LastAt(s, c)
    case None => EMPTY
    case Some(i) => s[i].kind
  }

  lemma KindAtSnoc(s: seq<Piece>, p: Piece, c: Pos)
    ensures KindAt(s + [p], c) == if p.pos == c then p.kind else KindAt(s, c)
  {
    assert (s + [p])[..|s|] == s;
  }

  /** Dictionary.Remove: drop the entry with key id, keeping the order of the rest. */
  function RemoveId(s: seq<Piece>, id: int): (r: seq<Piece>)
    ensures forall p {:trigger p in r} {:trigger p in s} :: p in r <==> p in s && p.id != id
    ensures !HasId(s, id) ==> r == s
    ensures UniqueIds(s) ==> UniqueIds(r)
    ensures UniqueIds(s) && HasId(s, id) ==> |r| == |s| - 1
  {
    if s == [] then []
    else
      var n := |s| - 1;
      var init := s[..n];
      assert s == init + [s[n]];
      assert HasId(s, id) && s[n].id != id ==> HasId(init, id) by {
        if HasId(s, id) && s[n].id != id {
          var k :| 0 <= k < |s| && s[k].id == id;
          assert init[k].id == id;
        }
      }
      assert !HasId(s, id) ==> !HasId(init, id) by {
        if HasId(init, id) {
          var k :| 0 <= k < n && init[k].id == id;
          assert s[k].id == id;
        }
      }
      assert UniqueIds(s) && s[n].id == id ==> !HasId(init, id);
      var rest := RemoveId(init, id);
      assert UniqueIds(s) ==> UniqueIds(rest + (if s[n].id == id then [] else [s[n]])) by {
        if UniqueIds(s) {
          UniqueSplit(init, s[n]);
          forall k | 0 <= k < |rest|
            ensures rest[k].id != s[n].id
          {
            assert rest[k] in rest;
          }
          UniqueSnoc(rest, if s[n].id == id then None else Some(s[n]));
        }
      }
      rest + (if s[n].id == id then [] else [s[n]])
  }

  /** A list of pieces with distinct ids, one more piece appended to a prefix. */
  lemma UniqueSplit(a: seq<Piece>, x: Piece)
    requires UniqueIds(a + [x])
    ensures UniqueIds(a) && !HasId(a, x.id)
  {
    var s := a + [x];
    forall i, j | 0 <= i < j < |a|
      ensures a[i].id != a[j].id
    {
      assert a[i] == s[i] && a[j] == s[j];
    }
    forall k | 0 <= k < |a|
      ensures a[k].id != x.id
    {
      assert s[k] == a[k] && s[|a|] == x;
    }
  }

  /** Appending a piece, if any, whose id is new keeps the ids distinct. */
  lemma UniqueSnoc(a: seq<Piece>, x: Option<Piece>)
    requires UniqueIds(a) && (x.Some? ==> !HasId(a, x.value.id))
    ensures UniqueIds(a + (if x.Some? then [x.value] else []))
  {
    var s := a + (if x.Some? then [x.value] else []);
    forall i, j | 0 <= i < j < |s|
      ensures s[i].id != s[j].id
    {
      assert s[i] == a[i];
      if j < |a| {
        assert s[j] == a[j];
      }
    }
  }

  /** The cell two steps from the mover, where it would land. */
  function Target(s: seq<Piece>, pid: int, d: Direction): Pos
    requires HasId(s, pid)
  {
    Add(s[IndexOfId(s, pid)].pos, Twice(DirectionOffset(d)))
  }

  /** The cell one step from the mover, where the tether must be. */
  function Adjacent(s: seq<Piece>, pid: int, d: Direction): Pos
    requires HasId(s, pid)
  {
    Add(s[IndexOfId(s, pid)].pos, DirectionOffset(d))
  }

  /** The pieces after the mover's position is updated in place. */
  function Jump(s: seq<Piece>, pid: int, d: Direction): seq<Piece>
    requires HasId(s, pid)
  {
    var i := IndexOfId(s, pid);
    s[i := s[i].(pos := Target(s, pid, d))]
  }

  /**
   * MovePiece on piece values: None when the move is refused (the board is
   * then left as it was), otherwise the new pieces. The guards are tried in
   * the order of the source: destination on the board, a tether on the
   * adjacent cell, destination free.
   */
  function Move(s: seq<Piece>, w: int, h: int, pid: int, d: Direction): Option<seq<Piece>>
    requires HasId(s, pid)
  {
    if !InBoard(Target(s, pid, d), w, h) then None
    else
      match LastAt(s, Adjacent(s, pid, d))
      case None => None
      case Some(t) =>
        if Occupied(s, Target(s, pid, d)) then None
        else if s[t].kind == DYNAMO then Some(RemoveId(Jump(s, pid, d), s[t].id))
        else Some(Jump(s, pid, d))
  }

  /** The three ways a move is refused, and no other. */
  lemma MoveRefusedIff(s: seq<Piece>, w: int, h: int, pid: int, d: Direction)
    requires HasId(s, pid)
    ensures Move(s, w, h, pid, d).None? <==>
      || !InBoard(Target(s, pid, d), w, h)
      || !Occupied(s, Adjacent(s, pid, d))
      || Occupied(s, Target(s, pid, d))
  {
  }

  /** The tether of a legal move: the last entry on the adjacent cell. */
  function Tether(s: seq<Piece>, w: int, h: int, pid: int, d: Direction): (t: nat)
    requires HasId(s, pid) && Move(s, w, h, pid, d).Some?
    ensures t < |s| && s[t].pos == Adjacent(s, pid, d)
    ensures t != IndexOfId(s, pid)
  {
    LastAt(s, Adjacent(s, pid, d)).value
  }

  /** The moved piece: the mover, two cells further on. */
  function Landed(s: seq<Piece>, pid: int, d: Direction): Piece
    requires HasId(s, pid)
  {
    s[IndexOfId(s, pid)].(pos := Target(s, pid, d))
  }

  lemma JumpFacts(s: seq<Piece>, pid: int, d: Direction)
    requires UniqueIds(s) && HasId(s, pid)
    ensures UniqueIds(Jump(s, pid, d))
    ensures |Jump(s, pid, d)| == |s|
    ensures Landed(s, pid, d) in Jump(s, pid, d)
    ensures forall j :: 0 <= j < |s| && j != IndexOfId(s, pid) ==> Jump(s, pid, d)[j] == s[j]
    ensures forall p :: p in Jump(s, pid, d) ==> p == Landed(s, pid, d) || (p in s && p.id != pid)
  {
    var m := Jump(s, pid, d);
    var i := IndexOfId(s, pid);
    assert m[i] == Landed(s, pid, d);
    forall p | p in m
      ensures p == Landed(s, pid, d) || (p in s && p.id != pid)
    {
      var k :| 0 <= k < |m| && m[k] == p;
      if k != i {
        assert p == s[k];
      }
    }
  }

  /**
   * What a legal move does: the mover lands two cells over, a DYNAMO tether is
   * captured, a CINDER tether stays, every other entry is kept as it was, and
   * the piece count drops by one exactly on a capture.
   */
  lemma MoveEffect(s: seq<Piece>, w: int, h: int, pid: int, d: Direction)
    requires UniqueIds(s) && HasId(s, pid)
    requires Move(s, w, h, pid, d).Some?
    ensures
      var r := Move(s, w, h, pid, d).value;
      var t := Tether(s, w, h, pid, d);
      var captured := s[t].kind == DYNAMO;
      && Landed(s, pid, d) in r
      && (captured <==> s[t] !in r)
      && (forall j :: 0 <= j < |s| && j != IndexOfId(s, pid) && j != t ==> s[j] in r)
      && (forall p :: p in r ==> p == Landed(s, pid, d) || (p in s && p.id != pid))
      && |r| == (if captured then |s| - 1 else |s|)
      && UniqueIds(r)
  {
    var i := IndexOfId(s, pid);
    var t := Tether(s, w, h, pid, d);
    var m := Jump(s, pid, d);
    JumpFacts(s, pid, d);
    assert m[t] == s[t];
    assert HasId(m, s[t].id);
    assert Landed(s, pid, d).id != s[t].id;
    forall j | 0 <= j < |s| && j != i && j != t
      ensures s[j] in RemoveId(m, s[t].id)
    {
      assert m[j] == s[j];
    }
  }

  /** Every piece of a duplicate-free subsequence of a consistent board is consistent. */
  lemma ConsistentSubset(r: seq<Piece>, m: seq<Piece>, w: int, h: int)
    requires UniqueIds(r) && Consistent(m, w, h)
    requires forall p :: p in r ==> p in m
    ensures Consistent(r, w, h)
  {
    forall i | 0 <= i < |r|
      ensures InBoard(r[i].pos, w, h)
    {
      assert r[i] in m;
    }
    forall i, j | 0 <= i < j < |r|
      ensures r[i].pos != r[j].pos
    {
      assert r[i] in m && r[j] in m;
      var a :| 0 <= a < |m| && m[a] == r[i];
      var b :| 0 <= b < |m| && m[b] == r[j];
      assert r[i] != r[j];
    }
  }

  /** A legal move keeps every piece on the grid and no two pieces on one cell. */
  lemma MoveKeepsConsistent(s: seq<Piece>, w: int, h: int, pid: int, d: Direction)
    requires UniqueIds(s) && HasId(s, pid) && Consistent(s, w, h)
    requires Move(s, w, h, pid, d).Some?
    ensures Consistent(Move(s, w, h, pid, d).value, w, h)
  {
    var i := IndexOfId(s, pid);
    var dest := Target(s, pid, d);
    var m := Jump(s, pid, d);
    JumpFacts(s, pid, d);
    assert Consistent(m, w, h) by {
      forall a, b | 0 <= a < b < |m|
        ensures m[a].pos != m[b].pos
      {
        if a == i {
          assert s[b].pos != dest;
        } else if b == i {
          assert s[a].pos != dest;
        }
      }
    }
    MoveEffect(s, w, h, pid, d);
    var r := Move(s, w, h, pid, d).value;
    assert forall p :: p in r ==> p in m;
    ConsistentSubset(r, m, w, h);
  }

  lemma OfTypeSnoc(a: seq<Piece>, x: Piece, t: PieceType)
    ensures OfType(a + [x], t) == OfType(a, t) + (if x.kind == t then [x] else [])
  {
    assert (a + [x])[..|a|] == a;
  }

  /** Updating an entry in place without changing its type keeps the count of each type. */
  lemma {:induction false} OfTypeUpdate(s: seq<Piece>, i: nat, q: Piece, t: PieceType)
    requires i < |s| && q.kind == s[i].kind
    ensures |OfType(s[i := q], t)| == |OfType(s, t)|
  {
    var n := |s| - 1;
    assert s == s[..n] + [s[n]];
    if i == n {
      assert s[i := q] == s[..n] + [q];
      OfTypeSnoc(s[..n], q, t);
      OfTypeSnoc(s[..n], s[n], t);
    } else {
      assert s[i := q] == s[..n][i := q] + [s[n]];
      OfTypeUpdate(s[..n], i, q, t);
      OfTypeSnoc(s[..n][i := q], s[n], t);
      OfTypeSnoc(s[..n], s[n], t);
    }
  }

  /** Removing an entry lowers the count of its type by one and no other. */
  lemma {:induction false} OfTypeRemove(s: seq<Piece>, j: nat, t: PieceType)
    requires UniqueIds(s) && j < |s|
    ensures |OfType(RemoveId(s, s[j].id), t)| == |OfType(s, t)| - (if s[j].kind == t then 1 else 0)
  {
    hide OfType;
    var n := |s| - 1;
    var init := s[..n];
    assert s == init + [s[n]];
    OfTypeSnoc(init, s[n], t);
    if j == n {
      assert !HasId(init, s[n].id);
      assert RemoveId(s, s[j].id) == RemoveId(init, s[j].id) == init;
    } else {
      assert init[j] == s[j];
      OfTypeRemove(init, j, t);
      assert RemoveId(s, s[j].id) == RemoveId(init, s[j].id) + [s[n]];
      OfTypeSnoc(RemoveId(init, s[j].id), s[n], t);
    }
  }

  /**
   * A legal move removes one DYNAMO exactly when it captures, so it never
   * undoes a win.
   */
  lemma MoveDynamoCount(s: seq<Piece>, w: int, h: int, pid: int, d: Direction)
    requires UniqueIds(s) && HasId(s, pid)
    requires Move(s, w, h, pid, d).Some?
    ensures |OfType(Move(s, w, h, pid, d).value, DYNAMO)| ==
      |OfType(s, DYNAMO)| - (if s[Tether(s, w, h, pid, d)].kind == DYNAMO then 1 else 0)
    ensures Won(s) ==> Won(Move(s, w, h, pid, d).value)
  {
    var i := IndexOfId(s, pid);
    var t := Tether(s, w, h, pid, d);
    var m := Jump(s, pid, d);
    JumpFacts(s, pid, d);
    OfTypeUpdate(s, i, Landed(s, pid, d), DYNAMO);
    if s[t].kind == DYNAMO {
      assert m[t] == s[t];
      OfTypeRemove(m, t, DYNAMO);
    }
  }
}
