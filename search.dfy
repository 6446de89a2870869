/**
 * The breadth-first search of CinderblockSolver.cs on board layouts.
 *
 * BoardState.ExpandState tries every DYNAMO (in dictionary order) in every
 * direction (in declaration order) on a copy of the board; Solver.Solve
 * expands the whole frontier, keeps each child whose key it has not seen,
 * and stops at the first winning child, at an empty frontier or after the
 * given number of rounds. Here these are functions of the layouts alone;
 * the classes in solver.dfy are proved to compute them.
 */
module Search {
  import opened Rules
  import opened Layout
  import opened Wrappers
  import opened Identity

  /** A child of a layout: which piece moved, where, and the layout it left. */
  datatype Child = Child(mover: Piece, dir: Direction, after: seq<Piece>)

  lemma AllDirections(d: Direction)
    ensures d in Directions
  {
  }

  /** The children from moving m in each of the directions ds, in that order. */
  function TryDirections(s: seq<Piece>, w: int, h: int, m: Piece, ds: seq<Direction>): (r: seq<Child>)
    requires HasId(s, m.id)
    ensures |r| <= |ds|
    ensures forall k :: 0 <= k < |r| ==> r[k].mover == m
  {
    if ds == [] then []
    else
      var n := |ds| - 1;
      TryDirections(s, w, h, m, ds[..n]) +
        match Move(s, w, h, m.id, ds[n])
        case None => []
        case Some(a) => [Child(m, ds[n], a)]
  }

  /** The children of m are exactly its legal moves in the directions ds. */
  lemma {:induction false} TryDirectionsIff(s: seq<Piece>, w: int, h: int, m: Piece, ds: seq<Direction>)
    requires HasId(s, m.id)
    ensures forall c :: c in TryDirections(s, w, h, m, ds) <==>
      c.mover == m && c.dir in ds && Move(s, w, h, m.id, c.dir) == Some(c.after)
  {
    if ds != [] {
      var n := |ds| - 1;
      assert ds == ds[..n] + [ds[n]];
      TryDirectionsIff(s, w, h, m, ds[..n]);
    }
  }

  /** The children from moving each of ms in every direction, movers in order. */
  function ExpandAll(s: seq<Piece>, w: int, h: int, ms: seq<Piece>): (r: seq<Child>)
    requires forall m :: m in ms ==> HasId(s, m.id)
    ensures |r| <= 4 * |ms|
  {
    if ms == [] then []
    else
      var n := |ms| - 1;
      assert ms[n] in ms;
      ExpandAll(s, w, h, ms[..n]) + TryDirections(s, w, h, ms[n], Directions)
  }

  /** The children of ms are exactly the legal moves of its members. */
  lemma {:induction false} ExpandAllIff(s: seq<Piece>, w: int, h: int, ms: seq<Piece>)
    requires forall m :: m in ms ==> HasId(s, m.id)
    ensures forall c :: c in ExpandAll(s, w, h, ms) <==>
      c.mover in ms && Move(s, w, h, c.mover.id, c.dir) == Some(c.after)
  {
    if ms != [] {
      var n := |ms| - 1;
      var m := ms[n];
      assert ms == ms[..n] + [m];
      ExpandAllIff(s, w, h, ms[..n]);
      TryDirectionsIff(s, w, h, m, Directions);
      forall c: Child | c.mover == m && Move(s, w, h, c.mover.id, c.dir) == Some(c.after)
        ensures c in TryDirections(s, w, h, m, Directions)
      {
        AllDirections(c.dir);
      }
    }
  }

  /** One more direction extends the children by that direction's move, if it is legal. */
  lemma TryDirectionsSnoc(s: seq<Piece>, w: int, h: int, m: Piece, ds: seq<Direction>, i: nat)
    requires HasId(s, m.id) && i < |ds|
    ensures TryDirections(s, w, h, m, ds[..i + 1]) == TryDirections(s, w, h, m, ds[..i]) +
      match Move(s, w, h, m.id, ds[i])
      case None => []
      case Some(a) => [Child(m, ds[i], a)]
  {
    assert ds[..i + 1][..i] == ds[..i];
  }

  /** One more mover extends the children by its moves. */
  lemma ExpandAllSnoc(s: seq<Piece>, w: int, h: int, ms: seq<Piece>, i: nat)
    requires forall m :: m in ms ==> HasId(s, m.id)
    requires i < |ms|
    ensures ExpandAll(s, w, h, ms[..i + 1]) == ExpandAll(s, w, h, ms[..i]) + TryDirections(s, w, h, ms[i], Directions)
  {
    assert ms[..i + 1][..i] == ms[..i];
  }

  /** The DYNAMOs of a layout, each present in it. */
  lemma DynamosPresent(s: seq<Piece>)
    ensures forall m :: m in OfType(s, DYNAMO) ==> HasId(s, m.id)
  {
    forall m | m in OfType(s, DYNAMO)
      ensures HasId(s, m.id)
    {
      MemberHasId(s, m);
    }
  }

  /** ExpandState: every legal move of every DYNAMO. */
  function Successors(s: seq<Piece>, w: int, h: int): (r: seq<Child>)
    ensures |r| <= 4 * |OfType(s, DYNAMO)|
  {
    DynamosPresent(s);
    ExpandAll(s, w, h, OfType(s, DYNAMO))
  }

  /** The children of a layout are exactly the legal moves of its DYNAMOs. */
  lemma SuccessorsIff(s: seq<Piece>, w: int, h: int)
    ensures forall c :: c in Successors(s, w, h) <==>
      c.mover in s && c.mover.kind == DYNAMO && Move(s, w, h, c.mover.id, c.dir) == Some(c.after)
  {
    DynamosPresent(s);
    ExpandAllIff(s, w, h, OfType(s, DYNAMO));
  }

  /** Every child of a board whose ids are distinct and which is consistent is so too. */
  lemma SuccessorsKeep(s: seq<Piece>, w: int, h: int)
    requires UniqueIds(s)
    ensures forall c :: c in Successors(s, w, h) ==> UniqueIds(c.after)
    ensures Consistent(s, w, h) ==> forall c :: c in Successors(s, w, h) ==> Consistent(c.after, w, h)
  {
    SuccessorsIff(s, w, h);
    forall c | c in Successors(s, w, h)
      ensures UniqueIds(c.after)
      ensures Consistent(s, w, h) ==> Consistent(c.after, w, h)
    {
      MemberHasId(s, c.mover);
      MoveEffect(s, w, h, c.mover.id, c.dir);
      if Consistent(s, w, h) {
        MoveKeepsConsistent(s, w, h, c.mover.id, c.dir);
      }
    }
  }

  function Afters(cs: seq<Child>): (r: seq<seq<Piece>>)
    ensures |r| == |cs| && forall k :: 0 <= k < |cs| ==> r[k] == cs[k].after
  {
    seq(|cs|, k requires 0 <= k < |cs| => cs[k].after)
  }

  /**
   * The keys of some layouts. The filter below is stated for any key
   * function; the solver uses Identity.Key, the key UniqueIdentifier writes.
   */
  function Keys(ls: seq<seq<Piece>>, key: seq<Piece> -> string): (r: seq<string>)
    ensures |r| == |ls| && forall k :: 0 <= k < |ls| ==> r[k] == key(ls[k])
  {
    seq(|ls|, k requires 0 <= k < |ls| => key(ls[k]))
  }

  lemma KeysSnoc(ls: seq<seq<Piece>>, l: seq<Piece>, key: seq<Piece> -> string)
    ensures Keys(ls + [l], key) == Keys(ls, key) + [key(l)]
  {
  }

  lemma KeysAppend(a: seq<seq<Piece>>, b: seq<seq<Piece>>, key: seq<Piece> -> string)
    ensures Keys(a + b, key) == Keys(a, key) + Keys(b, key)
  {
  }

  predicate NoDuplicates(ks: seq<string>)
  {
    forall i, j :: 0 <= i < j < |ks| ==> ks[i] != ks[j]
  }

  /**
   * The filter in Solve's inner loop: the children, in order, whose key is
   * neither in `seen` nor the key of an earlier child; `seen` then gains
   * their keys.
   */
  function Admit(kids: seq<seq<Piece>>, seen: seq<string>, key: seq<Piece> -> string): (r: (seq<seq<Piece>>, seq<string>))
    ensures r.1 == seen + Keys(r.0, key)
  {
    if kids == [] then ([], seen)
    else
      var n := |kids| - 1;
      var l := kids[n];
      var (a, sn) := Admit(kids[..n], seen, key);
      if key(l) in sn then (a, sn)
      else
        KeysSnoc(a, l, key);
        (a + [l], sn + [key(l)])
  }

  /**
   * Admit keeps only children, none whose key was already seen, and
   * afterwards the key of every child has been seen.
   */
  lemma {:induction false} AdmitKeeps(kids: seq<seq<Piece>>, seen: seq<string>, key: seq<Piece> -> string)
    ensures var r := Admit(kids, seen, key);
      && (forall l :: l in r.0 ==> l in kids)
      && (forall l :: l in kids ==> key(l) in r.1)
      && (forall l :: l in r.0 ==> key(l) !in seen)
  {
    if kids != [] {
      var n := |kids| - 1;
      assert kids == kids[..n] + [kids[n]];
      AdmitKeeps(kids[..n], seen, key);
    }
  }

  /** Admit never repeats a key: a list of distinct keys stays distinct. */
  lemma {:induction false} AdmitDistinct(kids: seq<seq<Piece>>, seen: seq<string>, key: seq<Piece> -> string)
    requires NoDuplicates(seen)
    ensures NoDuplicates(Admit(kids, seen, key).1)
  {
    if kids != [] {
      var n := |kids| - 1;
      AdmitDistinct(kids[..n], seen, key);
    }
  }

  /** The layouts ExpandState gives the children of f, in order. */
  function Children(f: seq<Piece>, w: int, h: int): seq<seq<Piece>>
  {
    Afters(Successors(f, w, h))
  }

  /** The children of f are the layouts its legal DYNAMO moves leave. */
  lemma ChildrenIff(f: seq<Piece>, w: int, h: int, l: seq<Piece>)
    ensures l in Children(f, w, h) <==>
      exists m, d :: m in f && m.kind == DYNAMO && Move(f, w, h, m.id, d) == Some(l)
  {
    var cs := Successors(f, w, h);
    var r := Children(f, w, h);
    SuccessorsIff(f, w, h);
    if l in r {
      var k :| 0 <= k < |r| && r[k] == l;
      assert cs[k] in cs;
    }
    if exists m, d :: m in f && m.kind == DYNAMO && Move(f, w, h, m.id, d) == Some(l) {
      var m, d :| m in f && m.kind == DYNAMO && Move(f, w, h, m.id, d) == Some(l);
      var c := Child(m, d, l);
      assert c in cs;
      var k :| 0 <= k < |cs| && cs[k] == c;
      assert r[k] == l;
    }
  }

  /**
   * One round of Solve's expansion loop: each frontier layout expanded in
   * order, its children filtered by Admit against the growing list of seen
   * keys. Stated for any expansion; Run uses Children.
   */
  function Round(frontier: seq<seq<Piece>>, seen: seq<string>,
                 expand: seq<Piece> -> seq<seq<Piece>>, key: seq<Piece> -> string): (r: (seq<seq<Piece>>, seq<string>))
    ensures r.1 == seen + Keys(r.0, key)
  {
    if frontier == [] then ([], seen)
    else
      var n := |frontier| - 1;
      var p := Round(frontier[..n], seen, expand, key);
      var q := Admit(expand(frontier[n]), p.1, key);
      KeysAppend(p.0, q.0, key);
      (p.0 + q.0, q.1)
  }

  /** A round never repeats a key: a list of distinct keys stays distinct. */
  lemma {:induction false} RoundDistinct(frontier: seq<seq<Piece>>, seen: seq<string>,
                                         expand: seq<Piece> -> seq<seq<Piece>>, key: seq<Piece> -> string)
    requires NoDuplicates(seen)
    ensures NoDuplicates(Round(frontier, seen, expand, key).1)
  {
    if frontier != [] {
      var n := |frontier| - 1;
      RoundDistinct(frontier[..n], seen, expand, key);
      AdmitDistinct(expand(frontier[n]), Round(frontier[..n], seen, expand, key).1, key);
    }
  }

  /** Admitting one more child: it is kept exactly when its key is new. */
  lemma AdmitSnoc(kids: seq<seq<Piece>>, j: nat, seen: seq<string>, key: seq<Piece> -> string)
    requires j < |kids|
    ensures var p := Admit(kids[..j], seen, key);
      Admit(kids[..j + 1], seen, key) ==
        if key(kids[j]) in p.1 then p else (p.0 + [kids[j]], p.1 + [key(kids[j])])
  {
    assert kids[..j + 1][..j] == kids[..j];
  }

  /** Expanding one more frontier layout: its children are admitted after the earlier ones'. */
  lemma RoundSnoc(frontier: seq<seq<Piece>>, i: nat, seen: seq<string>,
                  expand: seq<Piece> -> seq<seq<Piece>>, key: seq<Piece> -> string)
    requires i < |frontier|
    ensures var p := Round(frontier[..i], seen, expand, key);
      var q := Admit(expand(frontier[i]), p.1, key);
      Round(frontier[..i + 1], seen, expand, key) == (p.0 + q.0, q.1)
  {
    assert frontier[..i + 1][..i] == frontier[..i];
  }

  /**
   * A round keeps only children of frontier layouts, and afterwards the key
   * of every child of every frontier layout has been seen.
   */
  lemma {:induction false} RoundChildren(frontier: seq<seq<Piece>>, seen: seq<string>,
                                         expand: seq<Piece> -> seq<seq<Piece>>, key: seq<Piece> -> string)
    ensures var r := Round(frontier, seen, expand, key);
      && (forall l :: l in r.0 ==> exists f :: f in frontier && l in expand(f))
      && (forall f, l :: f in frontier && l in expand(f) ==> key(l) in r.1)
  {
    if frontier != [] {
      var n := |frontier| - 1;
      var f := frontier[n];
      assert frontier == frontier[..n] + [f];
      RoundChildren(frontier[..n], seen, expand, key);
      var p := Round(frontier[..n], seen, expand, key);
      var q := Admit(expand(f), p.1, key);
      AdmitKeeps(expand(f), p.1, key);
      assert q.1[..|p.1|] == p.1;
      forall f', l | f' in frontier && l in expand(f')
        ensures key(l) in q.1
      {
        if f' != f {
          assert f' in frontier[..n];
          assert key(l) in p.1;
        }
      }
    }
  }

  /** The first winning layout, if any. */
  function FirstWin(ls: seq<seq<Piece>>): (r: Option<nat>)
    ensures r.None? <==> forall k :: 0 <= k < |ls| ==> !Won(ls[k])
    ensures r.Some? ==> r.value < |ls| && Won(ls[r.value]) && forall k :: 0 <= k < r.value ==> !Won(ls[k])
  {
    hide Won;
    if ls == [] then None
    else if Won(ls[0]) then Some(0)
    else
      assert forall k :: 0 < k < |ls| ==> ls[k] == ls[1..][k - 1];
      match FirstWin(ls[1..])
      case None => None
      case Some(k) => Some(k + 1)
  }

  /** How Solve ends: a winning child of the new frontier, an empty frontier, or out of rounds. */
  datatype Verdict = Solved(index: nat) | DeadEnd | Exhausted

  /** The solver's state on values: the frontier's layouts, the seen keys, the round count. */
  datatype SearchState = SearchState(frontier: seq<seq<Piece>>, seen: seq<string>, iterations: int)

  /** Solve(max) on values: the verdict and the state it leaves. */
  function Run(st: SearchState, max: int, expand: seq<Piece> -> seq<seq<Piece>>, key: seq<Piece> -> string): (Verdict, SearchState)
    decreases max - st.iterations
  {
    if st.iterations >= max then (Exhausted, st)
    else if st.frontier == [] then (DeadEnd, st)
    else
      var (e, sn) := Round(st.frontier, st.seen, expand, key);
      match FirstWin(e)
      case Some(k) => (Solved(k), SearchState(e, sn, st.iterations))
      case None => Run(SearchState(e, sn, st.iterations + 1), max, expand, key)
  }

  /** The expansion Solve uses on a board of size w by h. */
  function Expander(w: int, h: int): seq<Piece> -> seq<seq<Piece>>
  {
    f => Children(f, w, h)
  }

  /** Solver.Solve(max) on a board of size w by h. */
  function Solve(st: SearchState, max: int, w: int, h: int): (Verdict, SearchState)
  {
    Run(st, max, Expander(w, h), Key)
  }

  /** Solve stops at once when out of rounds, or when the frontier is empty. */
  lemma SolveStops(st: SearchState, max: int, w: int, h: int)
    ensures st.iterations >= max ==> Solve(st, max, w, h) == (Exhausted, st)
    ensures st.iterations < max && st.frontier == [] ==> Solve(st, max, w, h) == (DeadEnd, st)
  {
  }

  /** One round of Solve, unfolded. */
  lemma SolveStep(st: SearchState, max: int, w: int, h: int)
    requires st.iterations < max && st.frontier != []
    ensures var r := Round(st.frontier, st.seen, Expander(w, h), Key);
      Solve(st, max, w, h) ==
        if FirstWin(r.0).Some? then (Solved(FirstWin(r.0).value), SearchState(r.0, r.1, st.iterations))
        else Solve(SearchState(r.0, r.1, st.iterations + 1), max, w, h)
  {
    RunStep(st, max, Expander(w, h), Key);
  }

  /** The seen keys never repeat and always include the frontier's keys. */
  ghost predicate Covers(frontier: seq<seq<Piece>>, seen: seq<string>, key: seq<Piece> -> string)
  {
    && NoDuplicates(seen)
    && forall l :: l in frontier ==> key(l) in seen
  }

  ghost predicate SearchInvariant(st: SearchState, key: seq<Piece> -> string)
  {
    Covers(st.frontier, st.seen, key)
  }

  lemma RoundKeeps(st: SearchState, expand: seq<Piece> -> seq<seq<Piece>>, key: seq<Piece> -> string)
    requires SearchInvariant(st, key)
    ensures var (e, sn) := Round(st.frontier, st.seen, expand, key);
      SearchInvariant(SearchState(e, sn, st.iterations + 1), key)
  {
    var (e, sn) := Round(st.frontier, st.seen, expand, key);
    RoundDistinct(st.frontier, st.seen, expand, key);
    forall l | l in e
      ensures key(l) in sn
    {
      var k :| 0 <= k < |e| && e[k] == l;
      assert sn[|st.seen| + k] == key(l);
    }
  }

  /**
   * What Solve's result means. A Solved verdict names the first winning
   * layout of the final frontier, found within max rounds. DeadEnd means the
   * frontier ran empty before max rounds. Exhausted means max rounds were
   * done. The round count never decreases.
   */
  lemma {:induction false} RunVerdict(st: SearchState, max: int, expand: seq<Piece> -> seq<seq<Piece>>, key: seq<Piece> -> string)
    ensures var (v, st') := Run(st, max, expand, key);
      && st.iterations <= st'.iterations
      && (v.Solved? ==>
            && v.index < |st'.frontier| && Won(st'.frontier[v.index])
            && (forall k :: 0 <= k < v.index ==> !Won(st'.frontier[k]))
            && st'.iterations < max)
      && (v.DeadEnd? ==> st'.frontier == [] && st'.iterations < max)
      && (v.Exhausted? ==> st'.iterations >= max && (st.iterations <= max ==> st'.iterations == max))
    decreases max - st.iterations
  {
    if st.iterations < max && st.frontier != [] {
      var (e, sn) := Round(st.frontier, st.seen, expand, key);
      if FirstWin(e).None? {
        RunVerdict(SearchState(e, sn, st.iterations + 1), max, expand, key);
      }
    }
  }

  /** One round of Run, unfolded. */
  lemma RunStep(st: SearchState, max: int, expand: seq<Piece> -> seq<seq<Piece>>, key: seq<Piece> -> string)
    requires st.iterations < max && st.frontier != []
    ensures var r := Round(st.frontier, st.seen, expand, key);
      Run(st, max, expand, key) ==
        if FirstWin(r.0).Some? then (Solved(FirstWin(r.0).value), SearchState(r.0, r.1, st.iterations))
        else Run(SearchState(r.0, r.1, st.iterations + 1), max, expand, key)
  {
  }

  /**
   * The seen keys only grow, by appending, and they stay free of duplicates
   * and cover the frontier.
   */
  lemma {:induction false} RunSeen(st: SearchState, max: int, expand: seq<Piece> -> seq<seq<Piece>>, key: seq<Piece> -> string)
    ensures st.seen <= Run(st, max, expand, key).1.seen
    ensures SearchInvariant(st, key) ==> SearchInvariant(Run(st, max, expand, key).1, key)
    decreases max - st.iterations
  {
    if st.iterations < max && st.frontier != [] {
      var r := Round(st.frontier, st.seen, expand, key);
      RunStep(st, max, expand, key);
      assert st.seen <= r.1;
      var next := SearchState(r.0, r.1, st.iterations + 1);
      if SearchInvariant(st, key) {
        RoundKeeps(st, expand, key);
      }
      if FirstWin(r.0).None? {
        RunSeen(next, max, expand, key);
      }
    }
  }
}
