/**
 * BoardState and Solver (CinderblockSolver.cs): the search tree and the
 * breadth-first search over it.
 *
 * Every state keeps its board, its parent and a description of the move
 * that produced it; a ghost `trail` records the moves from the root, so that
 * the logged steps of a state can be related to the board it holds.
 */
module CinderblockSolver {
  import opened Rules
  import opened Layout
  import opened Wrappers
  import opened Identity
  import opened Search
  import opened Cinderblock

  /**
   * MoveDescription: "START" for the root, otherwise the piece that moved
   * (as it was before the move) and the direction.
   */
  datatype MoveDesc = Start | Moved(mover: Piece, dir: Direction)

  /** The board reached by playing the moves from s, if each one is legal. */
  function Replay(s: seq<Piece>, moves: seq<MoveDesc>, w: int, h: int): Option<seq<Piece>>
  {
    if moves == [] then Some(s)
    else
      match Replay(s, moves[..|moves| - 1], w, h)
      case None => None
      case Some(t) =>
        match moves[|moves| - 1]
        case Start => None
        case Moved(m, d) => if HasId(t, m.id) then Move(t, w, h, m.id, d) else None
  }

  /** Replaying one more move: the move made on the board the earlier ones reach. */
  lemma ReplaySnoc(s: seq<Piece>, moves: seq<MoveDesc>, m: MoveDesc, w: int, h: int)
    ensures Replay(s, moves + [m], w, h) ==
      match Replay(s, moves, w, h)
      case None => None
      case Some(t) =>
        match m
        case Start => None
        case Moved(p, d) => if HasId(t, p.id) then Move(t, w, h, p.id, d) else None
  {
    assert (moves + [m])[..|moves|] == moves;
  }

  class BoardState {
    const board: Board
    const parent: BoardState?
    const desc: MoveDesc
    var children: seq<BoardState>
    var hasExpanded: bool
    /** The descriptions of the moves from the root to this state. */
    ghost const trail: seq<MoveDesc>

    /** The trail is the parent's trail and this state's move; the root's is empty. */
    ghost predicate Linked()
      decreases |trail|
    {
      if parent == null then trail == []
      else trail == parent.trail + [desc] && parent.Linked()
    }

    constructor (b: Board, p: BoardState?, d: MoveDesc)
      requires p == null || p.Linked()
      ensures board == b && parent == p && desc == d
      ensures children == [] && !hasExpanded
      ensures trail == if p == null then [] else p.trail + [d]
      ensures Linked()
    {
      board, parent, desc := b, p, d;
      children, hasExpanded := [], false;
      trail := if p == null then [] else p.trail + [d];
    }

    /** Expanded, and no move was possible. */
    predicate IsTerminal()
      reads this
    {
      hasExpanded && children == []
    }

    /** The child `node` stands for the child c of this state: its board, its move and its link. */
    ghost predicate ChildFor(node: BoardState, c: Child)
      reads node, node.board
    {
      && node.board.pieces == c.after
      && node.board.width == board.width && node.board.height == board.height
      && node.parent == this && node.desc == Moved(c.mover, c.dir)
      && node.trail == trail + [node.desc]
      && node.children == [] && !node.hasExpanded
    }

    /** The nodes stand, one for one, for the children cs of this state. */
    ghost predicate StandFor(nodes: seq<BoardState>, cs: seq<Child>)
      reads set k | 0 <= k < |nodes| :: nodes[k]
      reads set k | 0 <= k < |nodes| :: nodes[k].board
    {
      && |nodes| == |cs|
      && (forall k :: 0 <= k < |cs| ==> ChildFor(nodes[k], cs[k]) && nodes[k].board.Valid())
    }

    lemma StandAppend(a: seq<BoardState>, x: seq<Child>, b: seq<BoardState>, y: seq<Child>)
      requires StandFor(a, x) && StandFor(b, y)
      ensures StandFor(a + b, x + y)
    {
      var n, c := a + b, x + y;
      forall k | 0 <= k < |c|
        ensures ChildFor(n[k], c[k]) && n[k].board.Valid()
      {
        if k >= |a| {
          assert n[k] == b[k - |a|] && c[k] == y[k - |a|];
        }
      }
    }

    /**
     * Try every DYNAMO, in dictionary order, in every direction, in
     * declaration order, each on a copy of the board, and add a child for
     * each legal move. A state is expanded only once; a board without
     * DYNAMOs is left unexpanded (the flag is set once per DYNAMO tried).
     */
    method ExpandState()
      requires board.Valid() && Linked()
      modifies this
      ensures old(hasExpanded) ==> children == old(children) && hasExpanded
      ensures !old(hasExpanded) ==>
        var cs := Successors(board.pieces, board.width, board.height);
        && |children| == |old(children)| + |cs|
        && children[..|old(children)|] == old(children)
        && StandFor(children[|old(children)|..], cs)
        && (forall k :: |old(children)| <= k < |children| ==> fresh(children[k]) && fresh(children[k].board))
        && (forall i, j :: |old(children)| <= i < j < |children| ==> children[i].board != children[j].board)
        && hasExpanded == (|OfType(board.pieces, DYNAMO)| > 0)
    {
      hide Successors, ExpandAll, TryDirections, Move, Key, Replay, Children;
      if hasExpanded {
        return;
      }
      var dynamos := board.GetPiecesOfType(DYNAMO);
      var added := AddAll(dynamos);
      children := children + added;
      assert children[|old(children)|..] == added;
      hasExpanded := |dynamos| > 0;
    }

    /** The outer loop of ExpandState: the children of each of ms, in order. */
    method AddAll(ms: seq<Piece>) returns (added: seq<BoardState>)
      requires board.Valid() && Linked() && ms == OfType(board.pieces, DYNAMO)
      ensures StandFor(added, Successors(board.pieces, board.width, board.height))
      ensures forall k :: 0 <= k < |added| ==> fresh(added[k]) && fresh(added[k].board)
      ensures forall i, j :: 0 <= i < j < |added| ==> added[i].board != added[j].board
    {
      hide Move, Key, Replay, TryDirections;
      ghost var s := board.pieces;
      var w, h := board.width, board.height;
      DynamosPresent(s);
      added := [];
      for i := 0 to |ms|
        invariant StandFor(added, ExpandAll(s, w, h, ms[..i]))
        invariant forall k :: 0 <= k < |added| ==> fresh(added[k]) && fresh(added[k].board)
        invariant forall i, j :: 0 <= i < j < |added| ==> added[i].board != added[j].board
      {
        ExpandAllSnoc(s, w, h, ms, i);
        var more := AddMoves(ms[i]);
        StandAppend(added, ExpandAll(s, w, h, ms[..i]), more, TryDirections(s, w, h, ms[i], Directions));
        added := added + more;
      }
      assert ms[..|ms|] == ms;
    }

    /**
     * The inner loop of ExpandState: a child for each direction m can move
     * in, in declaration order. The nodes are collected here and appended
     * to `children` by the caller; nothing reads `children` in between.
     */
    method AddMoves(m: Piece) returns (more: seq<BoardState>)
      requires board.Valid() && Linked() && HasId(board.pieces, m.id)
      ensures StandFor(more, TryDirections(board.pieces, board.width, board.height, m, Directions))
      ensures forall k :: 0 <= k < |more| ==> fresh(more[k]) && fresh(more[k].board)
      ensures forall i, j :: 0 <= i < j < |more| ==> more[i].board != more[j].board
    {
      hide Move, Key, Replay;
      ghost var s := board.pieces;
      var w, h := board.width, board.height;
      more := [];
      for di := 0 to |Directions|
        invariant var cs := TryDirections(s, w, h, m, Directions[..di]);
          && |more| == |cs|
          && forall k :: 0 <= k < |more| ==> ChildFor(more[k], cs[k]) && more[k].board.Valid() && fresh(more[k]) && fresh(more[k].board)
        invariant forall i, j :: 0 <= i < j < |more| ==> more[i].board != more[j].board
      {
        var dir := Directions[di];
        TryDirectionsSnoc(s, w, h, m, Directions, di);
        var c := Attempt(m, dir);
        if c != null {
          more := more + [c];
        }
      }
      assert Directions[..|Directions|] == Directions;
    }

    /** One move of m in direction d, on a copy of the board: the child it gives, if legal. */
    method Attempt(m: Piece, d: Direction) returns (c: BoardState?)
      requires board.Valid() && Linked() && HasId(board.pieces, m.id)
      ensures c == null <==> Move(board.pieces, board.width, board.height, m.id, d).None?
      ensures c != null ==>
        && fresh(c) && fresh(c.board)
        && c.board.pieces == Move(board.pieces, board.width, board.height, m.id, d).value
        && ChildFor(c, Child(m, d, c.board.pieces)) && c.board.Valid()
    {
      var newBoard := new Board.Copy(board);
      var ok := newBoard.MovePiece(m.id, d);
      if ok {
        c := new BoardState(newBoard, this, Moved(m, d));
      } else {
        c := null;
      }
    }

    /**
     * The descriptions of the moves from the root to this state, in the
     * order they were made (LogSteps without the console output).
     */
    method Steps() returns (moves: seq<MoveDesc>)
      requires Linked()
      ensures moves == trail
    {
      moves := [];
      var s := this;
      while s.parent != null
        invariant s != null && s.Linked()
        invariant trail == s.trail + moves
        decreases |s.trail|
      {
        moves := [s.desc] + moves;
        s := s.parent;
      }
    }
  }

  /** The layouts on the boards of some states, in order. */
  ghost function Layouts(ns: seq<BoardState>): (r: seq<seq<Piece>>)
    reads set k | 0 <= k < |ns| :: ns[k].board
    ensures |r| == |ns| && forall k :: 0 <= k < |ns| ==> r[k] == ns[k].board.pieces
  {
    seq(|ns|, k requires 0 <= k < |ns| reads set j | 0 <= j < |ns| :: ns[j].board => ns[k].board.pieces)
  }

  lemma LayoutsSnoc(ns: seq<BoardState>, n: BoardState)
    ensures Layouts(ns + [n]) == Layouts(ns) + [n.board.pieces]
  {
    assert (ns + [n])[..|ns|] == ns;
  }

  /** No state occurs twice. */
  ghost predicate Distinct(ns: seq<BoardState>)
  {
    forall i, j {:trigger Differ(ns[i], ns[j])} :: 0 <= i < j < |ns| ==> Differ(ns[i], ns[j])
  }

  /** Two references to different states. */
  ghost predicate Differ(a: BoardState, b: BoardState)
  {
    a != b
  }

  /** None of the states is n. */
  ghost predicate Excludes(ns: seq<BoardState>, n: BoardState)
  {
    forall k :: 0 <= k < |ns| ==> ns[k] != n
  }

  /** A state of a distinct list is none of the states after it, nor of any list it is apart from. */
  lemma ExcludesLater(ns: seq<BoardState>, i: nat, rest: seq<BoardState>)
    requires i < |ns| && Distinct(ns) && Excludes(rest, ns[i])
    ensures Excludes(ns[i + 1..] + rest, ns[i])
  {
    var s := ns[i + 1..] + rest;
    forall k | 0 <= k < |s|
      ensures s[k] != ns[i]
    {
      if k < |ns| - i - 1 {
        assert s[k] == ns[i + 1 + k];
        assert Differ(ns[i], ns[i + 1 + k]);
      } else {
        assert s[k] == rest[k - (|ns| - i - 1)];
      }
    }
  }

  /** States whose keys are distinct seen keys are distinct states. */
  lemma DistinctNodes(ns: seq<BoardState>, pre: seq<string>, seen: seq<string>, key: seq<Piece> -> string)
    requires seen == pre + Keys(Layouts(ns), key) && NoDuplicates(seen)
    ensures Distinct(ns)
  {
    var ls := Layouts(ns);
    var ks := Keys(ls, key);
    forall i, j | 0 <= i < j < |ns|
      ensures Differ(ns[i], ns[j])
    {
      assert seen[|pre| + i] != seen[|pre| + j];
      assert seen[|pre| + i] == ks[i] && seen[|pre| + j] == ks[j];
      assert key(ls[i]) != key(ls[j]);
    }
  }

  /** The first state, in order, whose board is won, as Solve's scan of the new frontier finds it. */
  method FindWin(ns: seq<BoardState>) returns (r: Option<nat>)
    ensures r == FirstWin(Layouts(ns))
  {
    hide Key, Children, Replay, FirstWin, Won;
    for k := 0 to |ns|
      invariant forall j :: 0 <= j < k ==> !Won(ns[j].board.pieces)
    {
      if ns[k].board.IsWin() {
        return Some(k);
      }
    }
    return None;
  }

  class Solver {
    const root: BoardState
    var Iterations: int
    var toBeExpanded: seq<BoardState>
    var seenBoards: seq<string>
    /** The layout the search started from. */
    ghost const start: seq<Piece>
    /** The number of moves from the root to each frontier state. */
    ghost var level: nat

    /** A state the search may reach: linked, well formed, of the root's size, and reached from the start by its trail. */
    ghost predicate Reached(n: BoardState)
      reads n.board
    {
      && n.Linked()
      && n.board.Valid()
      && n.board.width == root.board.width && n.board.height == root.board.height
      && Replay(start, n.trail, root.board.width, root.board.height) == Some(n.board.pieces)
    }

    /** A state waiting to be expanded. */
    ghost predicate Pending(n: BoardState)
      reads n, n.board
    {
      Reached(n) && !n.hasExpanded && n.children == []
    }

    /**
     * The frontier holds distinct unexpanded reachable states; the seen keys
     * do not repeat and include the key of every frontier layout.
     */
    ghost predicate Valid()
      reads this`toBeExpanded, this`seenBoards, this`level, set k | 0 <= k < |toBeExpanded| :: toBeExpanded[k]
      reads set k | 0 <= k < |toBeExpanded| :: toBeExpanded[k].board
    {
      Frontier(toBeExpanded, seenBoards, level)
    }

    /** Valid for a frontier ns, seen keys seen and depth d. */
    ghost predicate Frontier(ns: seq<BoardState>, seen: seq<string>, d: int)
      reads set k | 0 <= k < |ns| :: ns[k]
      reads set k | 0 <= k < |ns| :: ns[k].board
    {
      && Distinct(ns)
      && AllPending(ns)
      && Covers(Layouts(ns), seen, Key)
      && AtDepth(ns, d)
      && root.trail == []
    }

    /** Each of the states is d moves from the root. */
    static ghost predicate AtDepth(ns: seq<BoardState>, d: int)
    {
      forall k :: 0 <= k < |ns| ==> |ns[k].trail| == d
    }

    static lemma AtDepthAppend(a: seq<BoardState>, b: seq<BoardState>, d: int)
      requires AtDepth(a, d) && AtDepth(b, d)
      ensures AtDepth(a + b, d)
    {
      forall k | 0 <= k < |a + b|
        ensures |(a + b)[k].trail| == d
      {
        if k >= |a| {
          assert (a + b)[k] == b[k - |a|];
        }
      }
    }

    /** The solver's state as values. */
    ghost function State(): SearchState
      reads this, set k | 0 <= k < |toBeExpanded| :: toBeExpanded[k].board
    {
      SearchState(Layouts(toBeExpanded), seenBoards, Iterations)
    }

    /** A search from a board: its only frontier state is the root, and its key is the only one seen. */
    constructor (board: Board)
      requires board.Valid()
      ensures root.board == board && root.parent == null && root.desc == Start
      ensures start == board.pieces
      ensures toBeExpanded == [root]
      ensures State() == SearchState([board.pieces], [Key(board.pieces)], 0)
      ensures level == 0
      ensures Valid()
    {
      hide Key, Children, Move, Search.Solve, Run, Round;
      var r := new BoardState(board, null, Start);
      var uid := board.UniqueIdentifier();
      root := r;
      start := board.pieces;
      Iterations := 0;
      level := 0;
      toBeExpanded := [r];
      seenBoards := [uid];
      new;
      assert Reached(r) && Pending(r);
      assert Layouts(toBeExpanded) == [board.pieces];
      assert SearchInvariant(State(), Key);
    }

    /** A child of a reached state is a reached unexpanded state, by the parent's trail and its own move. */
    lemma ChildReached(p: BoardState, n: BoardState, c: Child)
      requires Reached(p)
      requires c in Successors(p.board.pieces, p.board.width, p.board.height)
      requires p.ChildFor(n, c) && n.board.Valid()
      ensures Pending(n)
    {
      SuccessorsIff(p.board.pieces, p.board.width, p.board.height);
      MemberHasId(p.board.pieces, c.mover);
      ReplaySnoc(start, p.trail, n.desc, root.board.width, root.board.height);
    }

    /**
     * Solve's inner loop: the children whose key has not been seen are kept,
     * in order, and their keys recorded. The layouts of the children are ls;
     * the kept ones are the kids at the indices idx.
     */
    method Absorb(kids: seq<BoardState>, ghost ls: seq<seq<Piece>>, ghost others: seq<BoardState>)
      returns (out: seq<BoardState>, ghost idx: seq<nat>)
      requires Holds(kids, ls) && AllPending(kids) && AllPending(others)
      modifies this`seenBoards
      ensures var q := Admit(ls, old(seenBoards), Key);
        && seenBoards == q.1
        && Picks(kids, ls, out, idx, q.0)
      ensures Holds(kids, ls) && AllPending(kids) && AllPending(others)
    {
      hide Key, Children, Replay;
      ghost var seen0 := seenBoards;
      out, idx := [], [];
      for j := 0 to |kids|
        invariant seenBoards == Admit(ls[..j], seen0, Key).1
        invariant Picks(kids, ls, out, idx, Admit(ls[..j], seen0, Key).0)
        invariant Holds(kids, ls)
        invariant AllPending(kids) && AllPending(others)
      {
        out, idx := AbsorbStep(kids, ls, j, seen0, out, idx);
      }
      assert ls[..|kids|] == ls;
    }

    /** The states out are the kids at the indices idx, and the layouts got are theirs. */
    static ghost predicate Picks(kids: seq<BoardState>, ls: seq<seq<Piece>>, out: seq<BoardState>, idx: seq<nat>, got: seq<seq<Piece>>)
    {
      && |out| == |idx| == |got|
      && forall k :: 0 <= k < |out| ==> idx[k] < |kids| && idx[k] < |ls| && out[k] == kids[idx[k]] && got[k] == ls[idx[k]]
    }

    /** Each kid holds its layout in ls. */
    static ghost predicate Holds(kids: seq<BoardState>, ls: seq<seq<Piece>>)
      reads set k | 0 <= k < |kids| :: kids[k].board
    {
      |kids| == |ls| && forall k :: 0 <= k < |kids| ==> kids[k].board.pieces == ls[k]
    }

    /** States holding the layouts ls, in order, have exactly those layouts. */
    static lemma HoldsLayouts(ns: seq<BoardState>, ls: seq<seq<Piece>>)
      requires Holds(ns, ls)
      ensures Layouts(ns) == ls
    {
    }

    /** One pass of Absorb's loop. */
    method AbsorbStep(kids: seq<BoardState>, ghost ls: seq<seq<Piece>>, j: nat, ghost seen0: seq<string>,
                      out: seq<BoardState>, ghost idx: seq<nat>)
      returns (out': seq<BoardState>, ghost idx': seq<nat>)
      requires j < |kids| && Holds(kids, ls)
      requires seenBoards == Admit(ls[..j], seen0, Key).1
      requires Picks(kids, ls, out, idx, Admit(ls[..j], seen0, Key).0)
      modifies this`seenBoards
      ensures seenBoards == Admit(ls[..j + 1], seen0, Key).1
      ensures Picks(kids, ls, out', idx', Admit(ls[..j + 1], seen0, Key).0)
      ensures Holds(kids, ls)
    {
      hide Key, Children, Replay;
      ghost var got := Admit(ls[..j], seen0, Key).0;
      var kept := AbsorbOne(kids[j], ls, j, seen0);
      out', idx' := out, idx;
      if kept {
        PicksSnoc(kids, ls, out, idx, got, j);
        out', idx' := out + [kids[j]], idx + [j];
      }
    }

    static lemma PicksSnoc(kids: seq<BoardState>, ls: seq<seq<Piece>>, out: seq<BoardState>, idx: seq<nat>, got: seq<seq<Piece>>, j: nat)
      requires Picks(kids, ls, out, idx, got) && j < |kids| && j < |ls|
      ensures Picks(kids, ls, out + [kids[j]], idx + [j], got + [ls[j]])
    {
    }

    /**
     * One child in Solve's inner loop: kept, and its key recorded, when
     * the key is not yet seen. Stated as one more step of Admit over the
     * layouts ls of the children.
     */
    method AbsorbOne(child: BoardState, ghost ls: seq<seq<Piece>>, ghost j: nat, ghost seen0: seq<string>) returns (kept: bool)
      requires j < |ls| && child.board.pieces == ls[j]
      requires seenBoards == Admit(ls[..j], seen0, Key).1
      modifies this`seenBoards
      ensures var p, q := Admit(ls[..j], seen0, Key), Admit(ls[..j + 1], seen0, Key);
        && seenBoards == q.1
        && q.0 == if kept then p.0 + [ls[j]] else p.0
    {
      AdmitSnoc(ls, j, seen0, Key);
      var uid := child.board.UniqueIdentifier();
      kept := uid !in seenBoards;
      if kept {
        seenBoards := seenBoards + [uid];
      }
    }

    /**
     * Solve's expansion loop: expand each frontier state in turn and absorb
     * its children; these become the next frontier. The round count is
     * left alone.
     */
    method ExpandFrontier()
      requires Valid()
      modifies this`seenBoards, this`toBeExpanded, this`level, set k | 0 <= k < |toBeExpanded| :: toBeExpanded[k]
      ensures Valid() && level == old(level) + 1
      ensures var r := Round(old(Layouts(toBeExpanded)), old(seenBoards), Expander(root.board.width, root.board.height), Key);
        State() == SearchState(r.0, r.1, Iterations)
      ensures forall k :: 0 <= k < |toBeExpanded| ==> fresh(toBeExpanded[k])
    {
      hide Key, Children, Replay, Admit, Keys, Run, Search.Solve, FirstWin, Won, Move;
      ghost var st := State();
      MidwayStart();
      hide Midway, Valid, Frontier;
      var expansions, es := ExpandEach(toBeExpanded, st.frontier);
      FrontierDone(old(toBeExpanded), st, expansions, es);
      Install(expansions);
    }

    /** The expansion loop itself: every frontier state expanded in turn and its children absorbed. */
    method ExpandEach(frontier: seq<BoardState>, ghost f: seq<seq<Piece>>)
      returns (expansions: seq<BoardState>, ghost es: seq<seq<Piece>>)
      requires Midway(frontier, f, 0, seenBoards, [], [])
      modifies this`seenBoards, set k | 0 <= k < |frontier| :: frontier[k]
      ensures Midway(frontier, f, |frontier|, old(seenBoards), expansions, es)
      ensures forall k :: 0 <= k < |expansions| ==> fresh(expansions[k])
    {
      hide Key, Children, Replay, Admit, Keys, Run, Search.Solve, FirstWin, Won, Move, Midway;
      ghost var seen0 := seenBoards;
      expansions, es := [], [];
      for i := 0 to |frontier|
        invariant Midway(frontier, f, i, seen0, expansions, es)
        invariant forall k :: 0 <= k < |expansions| ==> fresh(expansions[k])
      {
        var more;
        more, es := FrontierStep(frontier, f, i, seen0, expansions, es);
        expansions := expansions + more;
      }
    }

    /** Before the expansion loop: nothing expanded yet, and the whole frontier pending. */
    lemma MidwayStart()
      requires Valid()
      ensures Midway(toBeExpanded, Layouts(toBeExpanded), 0, seenBoards, [], [])
      ensures SearchInvariant(State(), Key)
    {
      hide Key, Children, Replay, Admit, Run, Search.Solve, FirstWin, Won, Move;
    }

    /** The end of a round: the new states become the frontier, one level further down. */
    method Install(ns: seq<BoardState>)
      requires Frontier(ns, seenBoards, level + 1)
      modifies this`toBeExpanded, this`level
      ensures toBeExpanded == ns && level == old(level) + 1
      ensures Valid()
    {
      toBeExpanded := ns;
      level := level + 1;
    }

    /** The states left by a whole round form the next frontier. */
    lemma FrontierDone(frontier: seq<BoardState>, st: SearchState, expansions: seq<BoardState>, es: seq<seq<Piece>>)
      requires SearchInvariant(st, Key) && root.trail == []
      requires Midway(frontier, st.frontier, |frontier|, st.seen, expansions, es)
      ensures var r := Round(st.frontier, st.seen, Expander(root.board.width, root.board.height), Key);
        es == r.0 && seenBoards == r.1
      ensures Frontier(expansions, seenBoards, level + 1) && Layouts(expansions) == es
    {
      hide Key, Children, Replay, Admit, Run, Search.Solve, FirstWin, Won, Move;
      assert st.frontier[..|frontier|] == st.frontier;
      RoundKeeps(st, Expander(root.board.width, root.board.height), Key);
      HoldsLayouts(expansions, es);
      DistinctNodes(expansions, st.seen, seenBoards, Key);
    }

    /** One pass of Solve's expansion loop, stated as one more step of Round. */
    method FrontierStep(frontier: seq<BoardState>, ghost f: seq<seq<Piece>>, i: nat, ghost seen0: seq<string>,
                        expansions: seq<BoardState>, ghost es: seq<seq<Piece>>)
      returns (more: seq<BoardState>, ghost es': seq<seq<Piece>>)
      requires i < |frontier| && Midway(frontier, f, i, seen0, expansions, es)
      requires Excludes(expansions, frontier[i])
      modifies this`seenBoards, frontier[i]
      ensures Midway(frontier, f, i + 1, seen0, expansions + more, es')
      ensures forall k :: 0 <= k < |more| ==> fresh(more[k])
    {
      hide Key, Children, Replay, Won, FirstWin, Run, Search.Solve, Move, Successors, Valid, Frontier;
      var w, h := root.board.width, root.board.height;
      RoundSnoc(f, i, seen0, Expander(w, h), Key);
      assert Expander(w, h)(f[i]) == Children(f[i], w, h);
      ghost var q := Admit(Children(f[i], w, h), seenBoards, Key);
      var n := frontier[i];
      ghost var later := frontier[i + 1..];
      PendingLater(frontier, i);
      AllPendingAppend(later, expansions);
      ExcludesLater(frontier, i, expansions);
      more := ExpandAndAbsorb(n, later + expansions);
      AllPendingSplit(later, expansions);
      HoldsAppend(expansions, es, more, q.0);
      AllPendingAppend(expansions, more);
      es' := es + q.0;
      AtDepthAppend(expansions, more, level + 1);
      PendingLater(frontier, i);
    }

    /**
     * Solve's expansion loop after the first i frontier states: the states
     * expanded so far hold the layouts of that much of a round, and the
     * rest of the frontier is still pending.
     */
    ghost predicate Midway(frontier: seq<BoardState>, f: seq<seq<Piece>>, i: nat, seen0: seq<string>,
                           expansions: seq<BoardState>, es: seq<seq<Piece>>)
      reads this`seenBoards, this`level
      reads set k | 0 <= k < |frontier| :: frontier[k]
      reads set k | 0 <= k < |frontier| :: frontier[k].board
      reads set k | 0 <= k < |expansions| :: expansions[k]
      reads set k | 0 <= k < |expansions| :: expansions[k].board
    {
      && Holds(frontier, f) && i <= |frontier| && Distinct(frontier) && PendingFrom(frontier, i)
      && es == Round(f[..i], seen0, Expander(root.board.width, root.board.height), Key).0
      && seenBoards == Round(f[..i], seen0, Expander(root.board.width, root.board.height), Key).1
      && Holds(expansions, es) && AllPending(expansions)
      && AtDepth(frontier, level) && AtDepth(expansions, level + 1)
    }

    /** A run of states, from index i on, all pending. */
    ghost predicate PendingFrom(ns: seq<BoardState>, i: nat)
      reads set k | 0 <= k < |ns| :: ns[k]
      reads set k | 0 <= k < |ns| :: ns[k].board
    {
      forall k :: i <= k < |ns| ==> Pending(ns[k])
    }

    lemma PendingLater(ns: seq<BoardState>, i: nat)
      requires i < |ns|
      ensures PendingFrom(ns, i + 1) <==> AllPending(ns[i + 1..])
      ensures PendingFrom(ns, i) ==> Pending(ns[i]) && PendingFrom(ns, i + 1)
    {
      forall j | i + 1 <= j < |ns|
        ensures ns[i + 1..][j - i - 1] == ns[j]
      {
      }
    }

    lemma AllPendingSplit(a: seq<BoardState>, b: seq<BoardState>)
      requires AllPending(a + b)
      ensures AllPending(a) && AllPending(b)
    {
      forall k | 0 <= k < |b|
        ensures Pending(b[k])
      {
        assert (a + b)[|a| + k] == b[k];
      }
      forall k | 0 <= k < |a|
        ensures Pending(a[k])
      {
        assert (a + b)[k] == a[k];
      }
    }

    static lemma HoldsAppend(a: seq<BoardState>, la: seq<seq<Piece>>, b: seq<BoardState>, lb: seq<seq<Piece>>)
      requires Holds(a, la) && Holds(b, lb)
      ensures Holds(a + b, la + lb)
    {
      forall k | 0 <= k < |a + b|
        ensures (a + b)[k].board.pieces == (la + lb)[k]
      {
        if k >= |a| {
          assert (a + b)[k] == b[k - |a|];
        }
      }
    }

    lemma AllPendingAppend(a: seq<BoardState>, b: seq<BoardState>)
      requires AllPending(a) && AllPending(b)
      ensures AllPending(a + b)
    {
      forall k | 0 <= k < |a + b|
        ensures Pending((a + b)[k])
      {
        if k >= |a| {
          assert (a + b)[k] == b[k - |a|];
        }
      }
    }

    /**
     * One pass of Solve's expansion loop: expand n, then absorb its
     * children. The other states stay pending.
     */
    method ExpandAndAbsorb(n: BoardState, ghost others: seq<BoardState>)
      returns (kept: seq<BoardState>)
      requires Pending(n) && AllPending(others)
      requires Excludes(others, n)
      modifies this`seenBoards, n
      ensures var q := Admit(Children(n.board.pieces, root.board.width, root.board.height), old(seenBoards), Key);
        && seenBoards == q.1
        && Holds(kept, q.0)
      ensures forall k :: 0 <= k < |kept| ==> fresh(kept[k])
      ensures AllPending(kept) && AllPending(others)
      ensures AtDepth(kept, |n.trail| + 1)
    {
      hide Key, Children, Replay;
      var kids := ExpandOne(n, others);
      ghost var ls := Children(n.board.pieces, n.board.width, n.board.height);
      ghost var idx;
      kept, idx := Absorb(kids, ls, others);
      PendingPicked(kids, ls, kept, idx, Admit(ls, old(seenBoards), Key).0);
      forall k | 0 <= k < |kept|
        ensures fresh(kept[k]) && |kept[k].trail| == |n.trail| + 1
      {
        assert kept[k] == kids[idx[k]];
      }
    }

    /** The picked states hold the picked layouts and are all pending when the kids are. */
    lemma PendingPicked(kids: seq<BoardState>, ls: seq<seq<Piece>>, out: seq<BoardState>, idx: seq<nat>, got: seq<seq<Piece>>)
      requires Holds(kids, ls) && Picks(kids, ls, out, idx, got) && AllPending(kids)
      ensures |out| == |got| && forall k :: 0 <= k < |out| ==> out[k].board.pieces == got[k] && Pending(out[k])
    {
      forall k | 0 <= k < |out|
        ensures out[k].board.pieces == got[k] && Pending(out[k])
      {
        assert out[k] == kids[idx[k]];
      }
    }

    /** Expand one frontier state: its children, each a reached unexpanded state. */
    method ExpandOne(n: BoardState, ghost others: seq<BoardState>) returns (kids: seq<BoardState>)
      requires Pending(n) && AllPending(others)
      requires Excludes(others, n)
      modifies n
      ensures n.hasExpanded == (|OfType(n.board.pieces, DYNAMO)| > 0)
      ensures Holds(kids, Children(n.board.pieces, n.board.width, n.board.height))
      ensures forall k :: 0 <= k < |kids| ==> fresh(kids[k])
      ensures AllPending(kids) && AllPending(others)
      ensures AtDepth(kids, |n.trail| + 1)
    {
      hide Key, Replay, Successors, ExpandAll, TryDirections, Move, Won, Round, Admit, Run, Search.Solve, FirstWin, Midway, Frontier, Valid;
      n.ExpandState();
      kids := n.children;
      ghost var cs := Successors(n.board.pieces, n.board.width, n.board.height);
      assert kids == kids[0..];
      forall k | 0 <= k < |kids|
        ensures Pending(kids[k]) && |kids[k].trail| == |n.trail| + 1
      {
        assert cs[k] in cs;
        ChildReached(n, kids[k], cs[k]);
      }
    }

    /** Every one of the states is pending. */
    ghost predicate AllPending(ns: seq<BoardState>)
      reads set k | 0 <= k < |ns| :: ns[k]
      reads set k | 0 <= k < |ns| :: ns[k].board
    {
      forall k :: 0 <= k < |ns| ==> Pending(ns[k])
    }

    /**
     * One round of Solve: expand the frontier, then look for a winning state
     * in the new one. The round count is left to the caller.
     */
    method Advance(ghost max: int) returns (win: Option<nat>)
      requires Valid() && Iterations < max && toBeExpanded != []
      modifies this`seenBoards, this`toBeExpanded, this`level, set k | 0 <= k < |toBeExpanded| :: toBeExpanded[k]
      ensures Valid() && level == old(level) + 1
      ensures forall k :: 0 <= k < |toBeExpanded| ==> fresh(toBeExpanded[k])
      ensures win.Some? ==>
        && Search.Solve(old(State()), max, root.board.width, root.board.height) == (Solved(win.value), State())
        && win.value < |toBeExpanded|
        && Won(toBeExpanded[win.value].board.pieces) && Reached(toBeExpanded[win.value])
        && |toBeExpanded[win.value].trail| == level && toBeExpanded[win.value] != root
      ensures win.None? ==>
        Search.Solve(old(State()), max, root.board.width, root.board.height) ==
        Search.Solve(SearchState(Layouts(toBeExpanded), seenBoards, Iterations + 1), max, root.board.width, root.board.height)
    {
      hide Key, Children, Replay, Admit, Keys, Covers, Run, Round, Search.Solve, Layouts, FirstWin, Won, Distinct, Midway;
      hide Valid, Frontier, AllPending, Pending, Reached;
      ghost var st := State();
      SolveStep(st, max, root.board.width, root.board.height);
      ExpandFrontier();
      win := FindWin(toBeExpanded);
      if win.Some? {
        assert Layouts(toBeExpanded)[win.value] == toBeExpanded[win.value].board.pieces;
        FrontierMember(win.value);
      }
    }

    /** A frontier state is reached, at the frontier's depth, and is not the root once the search has moved on. */
    lemma FrontierMember(k: nat)
      requires Valid() && k < |toBeExpanded|
      ensures Reached(toBeExpanded[k]) && |toBeExpanded[k].trail| == level
      ensures level > 0 ==> toBeExpanded[k] != root
    {
      assert Pending(toBeExpanded[k]);
    }

    /**
     * Breadth-first search for at most maxIterations more rounds. Each round
     * replaces the frontier by the unseen children of its states and stops
     * at the first winning one. Returns null at a dead end or when out of
     * rounds.
     */
    method Solve(maxIterations: int) returns (r: BoardState?)
      requires Valid()
      modifies this, set k | 0 <= k < |toBeExpanded| :: toBeExpanded[k]
      ensures Valid()
      ensures var (v, st) := Search.Solve(old(State()), maxIterations, root.board.width, root.board.height);
        && State() == st
        && (r != null <==> v.Solved?)
        && (v.Solved? ==> v.index < |toBeExpanded| && r == toBeExpanded[v.index])
      ensures r != null ==> Won(r.board.pieces) && Reached(r)
      ensures level - Iterations == old(level - Iterations) + (if r != null then 1 else 0)
      ensures r != null ==> |r.trail| == level && r != root
    {
      hide Key, Children, Replay, Round, Admit, Keys, Covers, Run, Search.Solve, Valid, Frontier, Midway, Reached, Pending, AllPending, FirstWin, Won;
      var w, h := root.board.width, root.board.height;
      ghost var goal := Search.Solve(State(), maxIterations, w, h);
      while Iterations < maxIterations
        invariant Valid()
        invariant Search.Solve(State(), maxIterations, w, h) == goal
        invariant level - Iterations == old(level - Iterations)
        invariant forall k :: 0 <= k < |toBeExpanded| ==> toBeExpanded[k] in old(toBeExpanded) || fresh(toBeExpanded[k])
        decreases maxIterations - Iterations
      {
        if |toBeExpanded| == 0 {
          SolveStops(State(), maxIterations, w, h);
          return null;
        }
        var win := Advance(maxIterations);
        if win.Some? {
          return toBeExpanded[win.value];
        }
        Iterations := Iterations + 1;
      }
      SolveStops(State(), maxIterations, w, h);
      return null;
    }
  }
}
