/**
 * Board.UniqueIdentifier (Cinderblock.cs): the state key the solver uses to
 * recognise boards it has seen. It lists the DYNAMO cells sorted by column
 * then row, each written "D<x>|<y>", followed by the CINDER cells written
 * "C<x>|<y>" in the same order. Piece ids, dictionary order, EMPTY-typed
 * pieces and the board's size do not enter into it.
 */
module Identity {
  import opened Rules
  import opened Layout
  import opened Text

  /** The ordering of `orderby X, Y`. */
  predicate Before(a: Pos, b: Pos)
  {
    a.x < b.x || (a.x == b.x && a.y <= b.y)
  }

  predicate Sorted(s: seq<Pos>)
  {
    forall i, j {:trigger Before(s[i], s[j])} :: 0 <= i < j < |s| ==> Before(s[i], s[j])
  }

  lemma SortedCons(c: Pos, r: seq<Pos>)
    requires Sorted(r)
    requires forall q :: q in r ==> Before(c, q)
    ensures Sorted([c] + r)
  {
    forall i, j | 0 <= i < j < |r| + 1
      ensures Before(([c] + r)[i], ([c] + r)[j])
    {
      assert ([c] + r)[j] == r[j - 1];
      if i == 0 {
        assert r[j - 1] in r;
      } else {
        assert ([c] + r)[i] == r[i - 1];
      }
    }
  }

  function Insert(c: Pos, s: seq<Pos>): (r: seq<Pos>)
    requires Sorted(s)
    ensures Sorted(r)
    ensures multiset(r) == multiset(s) + multiset{c}
  {
    if s == [] then [c]
    else if Before(c, s[0]) then
      assert forall q :: q in s ==> Before(c, q) by {
        forall q | q in s
          ensures Before(c, q)
        {
          var k :| 0 <= k < |s| && s[k] == q;
          assert k == 0 || Before(s[0], s[k]);
        }
      }
      SortedCons(c, s);
      [c] + s
    else
      var rest := Insert(c, s[1..]);
      assert s == [s[0]] + s[1..];
      assert forall q :: q in rest ==> Before(s[0], q) by {
        forall q | q in rest
          ensures Before(s[0], q)
        {
          assert q in multiset(rest);
          if q != c {
            var k :| 0 <= k < |s[1..]| && s[1..][k] == q;
            assert s[k + 1] == q;
          }
        }
      }
      SortedCons(s[0], rest);
      [s[0]] + rest
  }

  /** The sort the query performs, on the cells alone. */
  function SortCells(s: seq<Pos>): (r: seq<Pos>)
    ensures Sorted(r)
    ensures multiset(r) == multiset(s)
  {
    if s == [] then []
    else
      assert s == [s[0]] + s[1..];
      Insert(s[0], SortCells(s[1..]))
  }

  lemma FirstIsLeast(a: seq<Pos>, c: Pos)
    requires Sorted(a) && c in a
    ensures Before(a[0], c)
  {
    var k :| 0 <= k < |a| && a[k] == c;
    assert k == 0 || Before(a[0], a[k]);
  }

  /** A sorted arrangement of a multiset of cells is unique. */
  lemma {:induction false} SortedUnique(a: seq<Pos>, b: seq<Pos>)
    requires Sorted(a) && Sorted(b)
    requires multiset(a) == multiset(b)
    ensures a == b
  {
    if a == [] {
      assert |b| == |multiset(b)| == 0;
    } else {
      assert |b| == |multiset(b)| > 0;
      assert a[0] in multiset(b) && b[0] in multiset(a);
      FirstIsLeast(a, b[0]);
      FirstIsLeast(b, a[0]);
      assert a[0] == b[0];
      assert a == [a[0]] + a[1..];
      assert b == [b[0]] + b[1..];
      assert multiset(a) == multiset{a[0]} + multiset(a[1..]);
      assert multiset(b) == multiset{b[0]} + multiset(b[1..]);
      assert multiset(a[1..]) == multiset(a) - multiset{a[0]};
      assert multiset(b[1..]) == multiset(b) - multiset{b[0]};
      SortedUnique(a[1..], b[1..]);
    }
  }

  /** The cells of a list of pieces, in order. */
  function Cells(ps: seq<Piece>): (r: seq<Pos>)
    ensures |r| == |ps|
    ensures forall k {:trigger r[k]} :: 0 <= k < |ps| ==> r[k] == ps[k].pos
  {
    seq(|ps|, k requires 0 <= k < |ps| => ps[k].pos)
  }

  /** One entry of the key. */
  function Token(tag: char, c: Pos): string
  {
    [tag] + IntToString(c.x) + "|" + IntToString(c.y)
  }

  /** The entries of the key, concatenated. */
  function Encode(ts: seq<(char, Pos)>): string
  {
    if ts == [] then "" else Token(ts[0].0, ts[0].1) + Encode(ts[1..])
  }

  function Tagged(tag: char, cs: seq<Pos>): (r: seq<(char, Pos)>)
    ensures |r| == |cs|
    ensures forall k {:trigger r[k]} :: 0 <= k < |cs| ==> r[k] == (tag, cs[k])
  {
    seq(|cs|, k requires 0 <= k < |cs| => (tag, cs[k]))
  }

  /** The cells of the pieces of type t, in key order. */
  function SortedCells(s: seq<Piece>, t: PieceType): seq<Pos>
  {
    SortCells(Cells(OfType(s, t)))
  }

  /** The key's entries: DYNAMO cells, then CINDER cells, each sorted. */
  function Entries(s: seq<Piece>): seq<(char, Pos)>
  {
    Tagged('D', SortedCells(s, DYNAMO)) + Tagged('C', SortedCells(s, CINDER))
  }

  function Key(s: seq<Piece>): string
  {
    Encode(Entries(s))
  }

  lemma {:induction false} EncodeAppend(a: seq<(char, Pos)>, b: seq<(char, Pos)>)
    ensures Encode(a + b) == Encode(a) + Encode(b)
  {
    if a == [] {
      assert a + b == b;
    } else {
      assert (a + b)[0] == a[0];
      assert (a + b)[1..] == a[1..] + b;
      EncodeAppend(a[1..], b);
    }
  }

  /** Two boards have the same layout: equal multisets of DYNAMO cells and of CINDER cells. */
  predicate SameLayout(s1: seq<Piece>, s2: seq<Piece>)
  {
    && multiset(Cells(OfType(s1, DYNAMO))) == multiset(Cells(OfType(s2, DYNAMO)))
    && multiset(Cells(OfType(s1, CINDER))) == multiset(Cells(OfType(s2, CINDER)))
  }

  /** Boards with the same layout get the same key, whatever their ids and entry order. */
  lemma KeyOfSameLayout(s1: seq<Piece>, s2: seq<Piece>)
    requires SameLayout(s1, s2)
    ensures Key(s1) == Key(s2)
  {
    SortedUnique(SortedCells(s1, DYNAMO), SortedCells(s2, DYNAMO));
    SortedUnique(SortedCells(s1, CINDER), SortedCells(s2, CINDER));
  }

  /** The pieces as (type, cell) pairs, the fields Piece.Equals compares. */
  function Shapes(s: seq<Piece>): multiset<(PieceType, Pos)>
  {
    if s == [] then multiset{} else Shapes(s[..|s| - 1]) + multiset{(s[|s| - 1].kind, s[|s| - 1].pos)}
  }

  lemma CellsSnoc(a: seq<Piece>, x: Piece)
    ensures multiset(Cells(a + [x])) == multiset(Cells(a)) + multiset{x.pos}
  {
    assert Cells(a + [x]) == Cells(a) + [x.pos];
  }

  lemma {:induction false} CellCount(s: seq<Piece>, t: PieceType, c: Pos)
    ensures multiset(Cells(OfType(s, t)))[c] == Shapes(s)[(t, c)]
  {
    if s != [] {
      var n := |s| - 1;
      var init, x := s[..n], s[n];
      CellCount(init, t, c);
      assert Shapes(s) == Shapes(init) + multiset{(x.kind, x.pos)};
      if x.kind == t {
        assert OfType(s, t) == OfType(init, t) + [x];
        CellsSnoc(OfType(init, t), x);
      } else {
        assert OfType(s, t) == OfType(init, t) + [];
        assert OfType(s, t) == OfType(init, t);
      }
    }
  }

  /**
   * Boards whose pieces agree as (type, cell) pairs, counted with
   * multiplicity, get the same key: ids and entry order do not matter.
   */
  lemma KeyOfSameShapes(s1: seq<Piece>, s2: seq<Piece>)
    requires Shapes(s1) == Shapes(s2)
    ensures Key(s1) == Key(s2)
  {
    forall t, c
      ensures multiset(Cells(OfType(s1, t)))[c] == multiset(Cells(OfType(s2, t)))[c]
    {
      CellCount(s1, t, c);
      CellCount(s2, t, c);
    }
    assert multiset(Cells(OfType(s1, DYNAMO))) == multiset(Cells(OfType(s2, DYNAMO)));
    assert multiset(Cells(OfType(s1, CINDER))) == multiset(Cells(OfType(s2, CINDER)));
    KeyOfSameLayout(s1, s2);
  }

  /** Lists of pieces that are pairwise Equals have the same (type, cell) pairs. */
  lemma {:induction false} ShapesOfEqual(s1: seq<Piece>, s2: seq<Piece>)
    requires |s1| == |s2|
    requires forall k :: 0 <= k < |s1| ==> s1[k].Equals(s2[k])
    ensures Shapes(s1) == Shapes(s2)
  {
    if s1 != [] {
      var n := |s1| - 1;
      ShapesOfEqual(s1[..n], s2[..n]);
    }
  }

  /**
   * Replacing each piece by one it Equals, whatever its id, keeps the key:
   * the key sees pieces only as Piece.Equals does.
   */
  lemma KeyOfEqualPieces(s1: seq<Piece>, s2: seq<Piece>)
    requires |s1| == |s2|
    requires forall k :: 0 <= k < |s1| ==> s1[k].Equals(s2[k])
    ensures Key(s1) == Key(s2)
  {
    ShapesOfEqual(s1, s2);
    KeyOfSameShapes(s1, s2);
  }

  predicate TagsStop(ts: seq<(char, Pos)>)
  {
    forall k :: 0 <= k < |ts| ==> !IsDigit(ts[k].0)
  }

  lemma HeadEq(a: char, w1: string, b: char, w2: string)
    requires [a] + w1 == [b] + w2
    ensures a == b && w1 == w2
  {
    assert w1 == ([a] + w1)[1..];
    assert w2 == ([b] + w2)[1..];
  }

  lemma TokenPrefix(t1: char, c1: Pos, u: string, t2: char, c2: Pos, v: string)
    requires Stops(u) && Stops(v)
    requires Token(t1, c1) + u == Token(t2, c2) + v
    ensures t1 == t2 && c1 == c2 && u == v
  {
    hide IntToString, NatToString;
    var y1, y2 := IntToString(c1.y) + u, IntToString(c2.y) + v;
    var r1, r2 := ['|'] + y1, ['|'] + y2;
    assert Token(t1, c1) + u == [t1] + (IntToString(c1.x) + r1);
    assert Token(t2, c2) + v == [t2] + (IntToString(c2.x) + r2);
    HeadEq(t1, IntToString(c1.x) + r1, t2, IntToString(c2.x) + r2);
    IntPrefix(c1.x, r1, c2.x, r2);
    HeadEq('|', y1, '|', y2);
    IntPrefix(c1.y, u, c2.y, v);
  }

  lemma EncodeStops(ts: seq<(char, Pos)>)
    requires TagsStop(ts)
    ensures Stops(Encode(ts))
  {
    if ts != [] {
      assert Encode(ts)[0] == ts[0].0;
    }
  }

  /** The key can be read back: distinct entry lists give distinct strings. */
  lemma {:induction false} EncodeInjective(a: seq<(char, Pos)>, b: seq<(char, Pos)>)
    requires TagsStop(a) && TagsStop(b)
    requires Encode(a) == Encode(b)
    ensures a == b
  {
    if a != [] && b != [] {
      EncodeStops(a[1..]);
      EncodeStops(b[1..]);
      TokenPrefix(a[0].0, a[0].1, Encode(a[1..]), b[0].0, b[0].1, Encode(b[1..]));
      EncodeInjective(a[1..], b[1..]);
      assert a == [a[0]] + a[1..];
      assert b == [b[0]] + b[1..];
    }
  }

  function CountTag(ts: seq<(char, Pos)>, tag: char): nat
  {
    if ts == [] then 0 else (if ts[0].0 == tag then 1 else 0) + CountTag(ts[1..], tag)
  }

  lemma {:induction false} CountTagged(t: char, cs: seq<Pos>, rest: seq<(char, Pos)>, tag: char)
    ensures CountTag(Tagged(t, cs) + rest, tag) == (if t == tag then |cs| else 0) + CountTag(rest, tag)
  {
    if cs != [] {
      assert (Tagged(t, cs) + rest)[1..] == Tagged(t, cs[1..]) + rest;
      CountTagged(t, cs[1..], rest, tag);
    } else {
      assert Tagged(t, cs) + rest == rest;
    }
  }

  lemma TaggedSplit(d1: seq<Pos>, c1: seq<Pos>, d2: seq<Pos>, c2: seq<Pos>)
    requires Tagged('D', d1) + Tagged('C', c1) == Tagged('D', d2) + Tagged('C', c2)
    ensures d1 == d2 && c1 == c2
  {
    var e := Tagged('D', d1) + Tagged('C', c1);
    CountTagged('D', d1, Tagged('C', c1), 'D');
    CountTagged('C', c1, [], 'D');
    CountTagged('D', d2, Tagged('C', c2), 'D');
    CountTagged('C', c2, [], 'D');
    assert Tagged('C', c1) + [] == Tagged('C', c1);
    assert Tagged('C', c2) + [] == Tagged('C', c2);
    assert |d1| == |d2|;
    assert d1 == d2 by {
      forall k | 0 <= k < |d1|
        ensures d1[k] == d2[k]
      {
        assert e[k] == ('D', d1[k]);
      }
    }
    assert c1 == c2 by {
      forall k | 0 <= k < |c1|
        ensures c1[k] == c2[k]
      {
        assert e[|d1| + k] == ('C', c1[k]);
      }
    }
  }

  /** Equal keys mean the same layout. */
  lemma KeyInjective(s1: seq<Piece>, s2: seq<Piece>)
    requires Key(s1) == Key(s2)
    ensures SameLayout(s1, s2)
  {
    hide Encode, SortCells, Cells, OfType;
    EntriesStop(s1);
    EntriesStop(s2);
    EncodeInjective(Entries(s1), Entries(s2));
    TaggedSplit(SortedCells(s1, DYNAMO), SortedCells(s1, CINDER), SortedCells(s2, DYNAMO), SortedCells(s2, CINDER));
  }

  lemma EntriesStop(s: seq<Piece>)
    ensures TagsStop(Entries(s))
  {
    hide Encode, SortCells, Cells, OfType;
    var e := Entries(s);
    forall k | 0 <= k < |e|
      ensures !IsDigit(e[k].0)
    {
      if k < |SortedCells(s, DYNAMO)| {
        assert e[k].0 == 'D';
      } else {
        assert e[k].0 == 'C';
      }
    }
  }

  /** The key is canonical: equal exactly for boards with the same layout. */
  lemma KeyIff(s1: seq<Piece>, s2: seq<Piece>)
    ensures Key(s1) == Key(s2) <==> SameLayout(s1, s2)
  {
    if Key(s1) == Key(s2) {
      KeyInjective(s1, s2);
    }
    if SameLayout(s1, s2) {
      KeyOfSameLayout(s1, s2);
    }
  }
}
