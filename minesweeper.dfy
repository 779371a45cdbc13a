/**
 * Minesweeper: the game board, the knowledge sentences and the AI player that
 * infers safe cells and mines from them (minesweeper/minesweeper.py).
 *
 * The board and the AI are objects whose fields change in place, so they are
 * classes.  Python sets become Dafny sets; where the Python code iterates over
 * a set, or picks at random, the model picks with `:|`, so that every order
 * (and every random choice) is covered by the proofs.
 *
 * Several properties are stated against a hidden placement of mines `M`: a
 * sentence is true of `M` when exactly `count` of its cells lie in `M`.
 */
module Minesweeper {

  import opened Wrappers

  /** A cell (row, column). */
  type Cell = (int, int)

  predicate InBounds(height: int, width: int, c: Cell)
  {
    0 <= c.0 < height && 0 <= c.1 < width
  }

  /** `b` is one of the eight cells within one row and one column of `a`. */
  predicate Near(a: Cell, b: Cell)
  {
    b != a && a.0 - 1 <= b.0 <= a.0 + 1 && a.1 - 1 <= b.1 <= a.1 + 1
  }

  /** The eight neighbours of `c`, listed. */
  function Around(c: Cell): (r: set<Cell>)
    ensures |r| <= 8
    ensures forall b :: Near(c, b) ==> b in r
  {
    {(c.0 - 1, c.1 - 1), (c.0 - 1, c.1), (c.0 - 1, c.1 + 1),
     (c.0,     c.1 - 1),                  (c.0,     c.1 + 1),
     (c.0 + 1, c.1 - 1), (c.0 + 1, c.1), (c.0 + 1, c.1 + 1)}
  }

  /** `b` lies within one row and one column of `c` (`c` itself included). */
  predicate Square(c: Cell, b: Cell)
  {
    c.0 - 1 <= b.0 <= c.0 + 1 && c.1 - 1 <= b.1 <= c.1 + 1
  }

  /** `b` comes before (i, j) when the board is scanned row by row. */
  predicate Before(b: Cell, i: int, j: int)
  {
    b.0 < i || (b.0 == i && b.1 < j)
  }

  /** A subset of a finite set is no larger. */
  lemma SubsetSize<T>(a: set<T>, b: set<T>)
    requires a <= b
    ensures |a| <= |b|
  {
    assert b == a + (b - a);
    assert a * (b - a) == {};
  }

  /** A sentence `cells = count` is true of the mine placement `M`. */
  ghost predicate Holds(cells: set<Cell>, count: int, M: set<Cell>)
  {
    |cells * M| == count
  }

  // ---------------------------------------------------------------------------
  // Sentence
  // ---------------------------------------------------------------------------

  /** A set of cells of which exactly `count` are mines. */
  class Sentence {
    var cells: set<Cell>
    var count: int

    constructor (cells: set<Cell>, count: int)
      ensures this.cells == cells && this.count == count
    {
      this.cells := cells;
      this.count := count;
    }

    /** When there are as many cells as mines, and at least one, every cell is a mine. */
    function KnownMines(): (r: set<Cell>)
      reads this
      ensures r != {} <==> |cells| == count && count != 0
      ensures r != {} ==> r == cells
    {
      if |cells| == count && count != 0 then cells else {}
    }

    /** When the count is zero, every cell is safe. */
    function KnownSafes(): (r: set<Cell>)
      reads this
      ensures r != {} <==> count == 0 && cells != {}
      ensures r != {} ==> r == cells
    {
      if count == 0 then cells else {}
    }

    /** Removes a known mine, which lowers the count by one. */
    method MarkMine(c: Cell)
      modifies this
      ensures c in old(cells) ==> cells == old(cells) - {c} && count == old(count) - 1
      ensures c !in old(cells) ==> cells == old(cells) && count == old(count)
    {
      if c in cells {
        cells := cells - {c};
        count := count - 1;
      }
    }

    /** Removes a known safe cell; the count is unchanged. */
    method MarkSafe(c: Cell)
      modifies this
      ensures cells == old(cells) - {c} && count == old(count)
    {
      if c in cells {
        cells := cells - {c};
      }
    }
  }

  /** A true sentence never reports a safe cell as a mine. */
  lemma KnownMinesSound(s: Sentence, M: set<Cell>)
    requires Holds(s.cells, s.count, M)
    ensures s.KnownMines() <= M
  {
    if s.KnownMines() != {} {
      assert s.cells * M <= s.cells;
      SubsetOfSameSize(s.cells * M, s.cells);
    }
  }

  /** A true sentence never reports a mine as safe. */
  lemma KnownSafesSound(s: Sentence, M: set<Cell>)
    requires Holds(s.cells, s.count, M)
    ensures s.KnownSafes() !! M
  {
    if s.KnownSafes() != {} {
      assert s.cells * M == {};
      forall x | x in s.cells
        ensures x !in M
      {
        assert x !in s.cells * M;
      }
    }
  }

  /** A subset as large as the finite set that holds it is that set. */
  lemma SubsetOfSameSize<T>(a: set<T>, b: set<T>)
    requires a <= b && |a| == |b|
    ensures a == b
  {
    if a != b {
      var x :| x in b && x !in a;
      SubsetSize(a, b - {x});
    }
  }

  /** Removing a mine from a true sentence and lowering its count keeps it true. */
  lemma MarkMineKeepsTruth(cells: set<Cell>, count: int, c: Cell, M: set<Cell>)
    requires Holds(cells, count, M) && c in M && c in cells
    ensures Holds(cells - {c}, count - 1, M)
  {
    assert (cells - {c}) * M == (cells * M) - {c};
  }

  /** Removing a safe cell from a true sentence keeps it true. */
  lemma MarkSafeKeepsTruth(cells: set<Cell>, count: int, c: Cell, M: set<Cell>)
    requires Holds(cells, count, M) && c !in M
    ensures Holds(cells - {c}, count, M)
  {
    assert (cells - {c}) * M == cells * M;
  }

  /** The subset rule: from `s1 = n1` and `s2 = n2` with `s1 <= s2` follows `s2 - s1 = n2 - n1`. */
  lemma SubsetRuleSound(c1: set<Cell>, n1: int, c2: set<Cell>, n2: int, M: set<Cell>)
    requires Holds(c1, n1, M) && Holds(c2, n2, M) && c1 <= c2
    ensures Holds(c2 - c1, n2 - n1, M)
  {
    assert (c2 - c1) * M == (c2 * M) - (c1 * M);
    assert c2 * M == ((c2 - c1) * M) + (c1 * M);
  }

  /**
   * A true sentence whose cells are all mines: once the known cells are
   * taken out, every cell taken out is a known mine, and what is left is
   * again all mines (or nothing).
   */
  lemma AllMinesLeft(cells: set<Cell>, count: int, left: set<Cell>, leftCount: int,
                     mines: set<Cell>, safes: set<Cell>, M: set<Cell>)
    requires Holds(cells, count, M) && |cells| == count
    requires left == cells - mines - safes && Holds(left, leftCount, M)
    requires mines <= M && safes !! M
    ensures cells - left <= mines
    ensures left == {} || (|left| == leftCount && leftCount != 0)
  {
    assert cells * M <= cells;
    SubsetOfSameSize(cells * M, cells);
    assert left * M == left;
  }

  /**
   * A true sentence with count zero: once the known cells are taken out,
   * every cell taken out is a known safe cell, and what is left still has
   * count zero.
   */
  lemma AllSafesLeft(cells: set<Cell>, left: set<Cell>, leftCount: int,
                     mines: set<Cell>, safes: set<Cell>, M: set<Cell>)
    requires Holds(cells, 0, M)
    requires left == cells - mines - safes && Holds(left, leftCount, M)
    requires mines <= M
    ensures cells - left <= safes
    ensures leftCount == 0
  {
    assert cells * M == {};
    assert left * M == {};
    forall c | c in cells - left
      ensures c in safes
    {
      assert c !in cells * M;
    }
  }

  // ---------------------------------------------------------------------------
  // The game board
  // ---------------------------------------------------------------------------

  class Minesweeper {
    const height: int
    const width: int
    var mines: set<Cell>
    var board: seq<seq<bool>>
    var minesFound: set<Cell>

    /** `board` marks exactly the cells of `mines`, all of which are on the board. */
    ghost predicate Valid()
      reads this
    {
      height >= 0 && width >= 0
      && |board| == height && (forall i :: 0 <= i < height ==> |board[i]| == width)
      && (forall c :: c in mines ==> InBounds(height, width, c))
      && (forall i, j :: 0 <= i < height && 0 <= j < width ==> (board[i][j] <==> (i, j) in mines))
    }

    /**
     * Builds a board of `height` rows of `width` cells without mines, then
     * places the mines one cell at a time.  The source draws the cells at
     * random; here they are the cells of `placement`, placed in any order.
     */
    constructor (height: int, width: int, placement: set<Cell>)
      requires height >= 0 && width >= 0
      requires forall c :: c in placement ==> InBounds(height, width, c)
      ensures Valid()
      ensures this.height == height && this.width == width
      ensures mines == placement && minesFound == {}
    {
      var rows: seq<seq<bool>> := [];
      for i := 0 to height
        invariant |rows| == i
        invariant forall r :: 0 <= r < i ==> |rows[r]| == width && forall c :: 0 <= c < width ==> !rows[r][c]
      {
        var row: seq<bool> := [];
        for j := 0 to width
          invariant |row| == j && forall c :: 0 <= c < j ==> !row[c]
        {
          row := row + [false];
        }
        rows := rows + [row];
      }
      var placed: set<Cell> := {};
      var toPlace := placement;
      while toPlace != {}
        invariant placed + toPlace == placement && placed !! toPlace
        invariant |rows| == height && forall r :: 0 <= r < height ==> |rows[r]| == width
        invariant forall i, j :: 0 <= i < height && 0 <= j < width ==> (rows[i][j] <==> (i, j) in placed)
        decreases toPlace
      {
        var c :| c in toPlace;
        placed := placed + {c};
        rows := rows[c.0 := rows[c.0][c.1 := true]];
        toPlace := toPlace - {c};
      }
      this.height := height;
      this.width := width;
      mines := placed;
      board := rows;
      minesFound := {};
    }

    /** Whether the cell on the board holds a mine. */
    function IsMine(cell: Cell): (r: bool)
      reads this
      requires Valid() && InBounds(height, width, cell)
      ensures r <==> cell in mines
    {
      board[cell.0][cell.1]
    }

    /** The mines among the neighbours of `cell`. */
    ghost function NearMines(cell: Cell): set<Cell>
      reads this
    {
      set c | c in mines && Near(cell, c)
    }

    /** The number of mines among the (up to eight) neighbours of `cell` on the board. */
    method NearbyMines(cell: Cell) returns (count: nat)
      requires Valid()
      ensures count == |NearMines(cell)|
      ensures count <= 8
    {
      count := 0;
      ghost var seen: set<Cell> := {};
      for i := cell.0 - 1 to cell.0 + 2
        invariant forall c :: c in seen <==> c in mines && Near(cell, c) && Before(c, i, cell.1 - 1)
        invariant count == |seen|
      {
        for j := cell.1 - 1 to cell.1 + 2
          invariant forall c :: c in seen <==> c in mines && Near(cell, c) && Before(c, i, j)
          invariant count == |seen|
        {
          if (i, j) == cell {
            continue;
          }
          if 0 <= i < height && 0 <= j < width {
            assert board[i][j] <==> (i, j) in mines;
            if board[i][j] {
              count := count + 1;
              seen := seen + {(i, j)};
            }
          }
        }
      }
      assert seen == NearMines(cell);
      SubsetSize(NearMines(cell), Around(cell));
    }

    /** The game is won when the flagged cells are exactly the mines. */
    function Won(): bool
      reads this
    {
      minesFound == mines
    }

    /** Winning means flagging every cell the board marks as a mine, and nothing else. */
    lemma WonIffFlagsMatchBoard()
      requires Valid()
      ensures Won() <==> ((forall c :: c in minesFound ==> InBounds(height, width, c))
                       && forall i, j :: 0 <= i < height && 0 <= j < width ==> (board[i][j] <==> (i, j) in minesFound))
    {
      if !Won() && forall c :: c in minesFound ==> InBounds(height, width, c) {
        if c :| c in minesFound && c !in mines {
          assert !(board[c.0][c.1] <==> (c.0, c.1) in minesFound);
        } else {
          var c :| c in mines && c !in minesFound;
          assert !(board[c.0][c.1] <==> (c.0, c.1) in minesFound);
        }
      }
    }
  }

  // ---------------------------------------------------------------------------
  // Facts: the value of a sentence
  // ---------------------------------------------------------------------------

  /** The value of a sentence, as `__eq__` compares sentences. */
  datatype Fact = Fact(cells: set<Cell>, count: int)

  /** Every fact of `fs` is true of the mine placement `M`. */
  ghost predicate AllHold(fs: seq<Fact>, M: set<Cell>)
  {
    forall f :: f in fs ==> Holds(f.cells, f.count, M)
  }

  /** The sentence `{} = 0`, which says nothing. */
  const EmptyFact := Fact({}, 0)

  /** The subset rule applied to `f1` and `f2`: the cells of `f2` not in `f1`, and the mines among them. */
  function Diff(f1: Fact, f2: Fact): Fact
  {
    Fact(f2.cells - f1.cells, f2.count - f1.count)
  }

  /** The subset rule applies to `f1` and `f2`: they differ, and the cells of `f1` are among those of `f2`. */
  predicate Applies(f1: Fact, f2: Fact)
  {
    f1 != f2 && f1.cells <= f2.cells
  }

  /** `d` follows by the subset rule from two different facts of `facts`. */
  ghost predicate Derivable(facts: seq<Fact>, d: Fact)
  {
    exists p, q :: 0 <= p < |facts| && 0 <= q < |facts| && Applies(facts[p], facts[q]) && d == Diff(facts[p], facts[q])
  }

  /**
   * `deduced` is what the subset rule adds to `facts`: each of its facts is
   * the difference of two facts of `facts` and not already among them, none
   * is repeated, and every such difference is known or deduced.
   */
  ghost predicate DeducedFrom(facts: seq<Fact>, deduced: seq<Fact>)
  {
    (forall d :: d in deduced ==> Derivable(facts, d) && d !in facts)
    && (forall i, j :: 0 <= i < j < |deduced| ==> deduced[i] != deduced[j])
    && (forall p, q :: 0 <= p < |facts| && 0 <= q < |facts| && Applies(facts[p], facts[q]) ==>
          Diff(facts[p], facts[q]) in facts + deduced)
  }

  /**
   * The inference step of `add_knowledge`: for every ordered pair of different
   * facts with the first one's cells inside the second's, their difference,
   * unless it is already known or already deduced.
   */
  method Deduce(facts: seq<Fact>) returns (deduced: seq<Fact>)
    ensures forall d :: d in deduced ==> Derivable(facts, d) && d !in facts
    ensures forall i, j :: 0 <= i < j < |deduced| ==> deduced[i] != deduced[j]
    ensures forall p, q :: 0 <= p < |facts| && 0 <= q < |facts| && Applies(facts[p], facts[q]) ==>
              Diff(facts[p], facts[q]) in facts + deduced
  {
    deduced := [];
    for p := 0 to |facts|
      invariant forall d :: d in deduced ==> Derivable(facts, d) && d !in facts
      invariant forall i, j :: 0 <= i < j < |deduced| ==> deduced[i] != deduced[j]
      invariant forall p', q :: 0 <= p' < p && 0 <= q < |facts| && Applies(facts[p'], facts[q]) ==>
                  Diff(facts[p'], facts[q]) in facts + deduced
    {
      for q := 0 to |facts|
        invariant forall d :: d in deduced ==> Derivable(facts, d) && d !in facts
        invariant forall i, j :: 0 <= i < j < |deduced| ==> deduced[i] != deduced[j]
        invariant forall p', q' ::
                    (((0 <= p' < p && 0 <= q' < |facts|) || (p' == p && 0 <= q' < q)) && Applies(facts[p'], facts[q'])) ==>
                    Diff(facts[p'], facts[q']) in facts + deduced
      {
        if Applies(facts[p], facts[q]) {
          var d := Diff(facts[p], facts[q]);
          if d !in facts && d !in deduced {
            deduced := deduced + [d];
          }
        }
      }
    }
  }

  /** Every fact the subset rule deduces from true facts is true. */
  lemma DeducedHold(facts: seq<Fact>, deduced: seq<Fact>, M: set<Cell>)
    requires AllHold(facts, M)
    requires forall d :: d in deduced ==> Derivable(facts, d)
    ensures forall d :: d in deduced ==> Holds(d.cells, d.count, M)
  {
    forall d | d in deduced
      ensures Holds(d.cells, d.count, M)
    {
      var p, q :| 0 <= p < |facts| && 0 <= q < |facts| && Applies(facts[p], facts[q]) && d == Diff(facts[p], facts[q]);
      SubsetRuleSound(facts[p].cells, facts[p].count, facts[q].cells, facts[q].count, M);
    }
  }

  /** A deduced fact only mentions cells some known fact mentions. */
  lemma DeducedWithin(facts: seq<Fact>, deduced: seq<Fact>, X: set<Cell>)
    requires forall f :: f in facts ==> f.cells !! X
    requires forall d :: d in deduced ==> Derivable(facts, d)
    ensures forall d :: d in deduced ==> d.cells !! X
  {
    forall d | d in deduced
      ensures d.cells !! X
    {
      var p, q :| 0 <= p < |facts| && 0 <= q < |facts| && Applies(facts[p], facts[q]) && d == Diff(facts[p], facts[q]);
      assert facts[q] in facts;
    }
  }

  /** The facts of `fs` other than `{} = 0`, in order. */
  function Clean(fs: seq<Fact>): (r: seq<Fact>)
    ensures forall f :: f in r <==> f in fs && f != EmptyFact
  {
    if fs == [] then []
    else if fs[|fs| - 1] == EmptyFact then Clean(fs[..|fs| - 1])
    else Clean(fs[..|fs| - 1]) + [fs[|fs| - 1]]
  }

  /** The values of a list of sentences. */
  function FactsOf(ks: seq<Sentence>): (r: seq<Fact>)
    reads ks
    ensures |r| == |ks|
    ensures forall k :: 0 <= k < |ks| ==> r[k] == Fact(ks[k].cells, ks[k].count)
  {
    seq(|ks|, k reads ks requires 0 <= k < |ks| => Fact(ks[k].cells, ks[k].count))
  }

  /** The values of a list with one more sentence. */
  lemma FactsOfSnoc(ks: seq<Sentence>, s: Sentence)
    ensures FactsOf(ks + [s]) == FactsOf(ks) + [Fact(s.cells, s.count)]
  {
    assert forall k :: 0 <= k < |ks| ==> (ks + [s])[k] == ks[k];
  }

  /** The sentences of `ks` other than those equal to `{} = 0`, in order. */
  function Kept(ks: seq<Sentence>): (r: seq<Sentence>)
    reads ks
    ensures forall s :: s in r ==> s in ks
    ensures forall s :: s in ks && !(s.cells == {} && s.count == 0) ==> s in r
  {
    if ks == [] then []
    else
      var rest, last := ks[..|ks| - 1], ks[|ks| - 1];
      assert ks == rest + [last];
      if last.cells == {} && last.count == 0 then Kept(rest) else Kept(rest) + [last]
  }

  /** The values of the kept sentences are the values of the sentences, cleaned. */
  lemma {:induction false} KeptFacts(ks: seq<Sentence>)
    ensures FactsOf(Kept(ks)) == Clean(FactsOf(ks))
  {
    if ks != [] {
      var rest, last := ks[..|ks| - 1], ks[|ks| - 1];
      KeptFacts(rest);
      assert FactsOf(ks)[..|ks| - 1] == FactsOf(rest);
      if !(last.cells == {} && last.count == 0) {
        FactsOfSnoc(Kept(rest), last);
      }
    }
  }

  /** Keeping some sentences of a list without repeats gives a list without repeats. */
  lemma {:induction false} KeptDistinct(ks: seq<Sentence>)
    requires forall i, j :: 0 <= i < j < |ks| ==> ks[i] != ks[j]
    ensures forall i, j :: 0 <= i < j < |Kept(ks)| ==> Kept(ks)[i] != Kept(ks)[j]
  {
    if ks != [] {
      var rest, last := ks[..|ks| - 1], ks[|ks| - 1];
      KeptDistinct(rest);
      assert last !in rest;
    }
  }

  /**
   * The facts once the cells of `marked` are known to be mines: each fact
   * loses them, and its count drops by as many as it held.
   */
  function MarkedMines(fs: seq<Fact>, marked: set<Cell>): (r: seq<Fact>)
    ensures |r| == |fs|
  {
    seq(|fs|, i requires 0 <= i < |fs| => Fact(fs[i].cells - marked, fs[i].count - |fs[i].cells * marked|))
  }

  /** The facts once the cells of `marked` are known to be safe: each fact loses them. */
  function MarkedSafes(fs: seq<Fact>, marked: set<Cell>): (r: seq<Fact>)
    ensures |r| == |fs|
  {
    seq(|fs|, i requires 0 <= i < |fs| => Fact(fs[i].cells - marked, fs[i].count))
  }

  /** Facts that each lose the mine `c`, with one mine fewer when they held it, are the facts with `c` marked. */
  lemma MarkedMinesOne(before: seq<Fact>, after: seq<Fact>, c: Cell)
    requires |after| == |before|
    requires forall k :: 0 <= k < |after| ==>
               after[k].cells == before[k].cells - {c}
               && after[k].count == before[k].count - (if c in before[k].cells then 1 else 0)
    ensures after == MarkedMines(before, {c})
  {
    forall k | 0 <= k < |after|
      ensures after[k] == MarkedMines(before, {c})[k]
    {
      if c in before[k].cells {
        assert before[k].cells * {c} == {c};
      } else {
        assert before[k].cells * {c} == {};
      }
    }
  }

  /** Marking no cells changes no fact. */
  lemma MarkedNone(fs: seq<Fact>)
    ensures MarkedMines(fs, {}) == fs && MarkedSafes(fs, {}) == fs
  {
    forall i | 0 <= i < |fs|
      ensures MarkedMines(fs, {})[i] == fs[i]
    {
      assert fs[i].cells * {} == {};
    }
  }

  /** Marking the mines of `done` and then the mine `c` is marking the mines of `done + {c}`. */
  lemma MarkedMinesStep(fs: seq<Fact>, done: set<Cell>, c: Cell)
    requires c !in done
    ensures MarkedMines(MarkedMines(fs, done), {c}) == MarkedMines(fs, done + {c})
  {
    forall i | 0 <= i < |fs|
      ensures MarkedMines(MarkedMines(fs, done), {c})[i] == MarkedMines(fs, done + {c})[i]
    {
      MarkedOneMore(fs[i].cells, done, c);
    }
  }

  /** Of the cells of `a`, marking `c` after `done` marks as many as marking `done + {c}` at once. */
  lemma MarkedOneMore(a: set<Cell>, done: set<Cell>, c: Cell)
    requires c !in done
    ensures (a - done) - {c} == a - (done + {c})
    ensures |a * done| + |(a - done) * {c}| == |a * (done + {c})|
  {
    if c in a {
      assert (a - done) * {c} == {c};
      assert a * (done + {c}) == (a * done) + {c};
    } else {
      assert (a - done) * {c} == {};
      assert a * (done + {c}) == a * done;
    }
  }

  /** Marking the safe cells of `done` and then `c` is marking the safe cells of `done + {c}`. */
  lemma MarkedSafesStep(fs: seq<Fact>, done: set<Cell>, c: Cell)
    ensures MarkedSafes(MarkedSafes(fs, done), {c}) == MarkedSafes(fs, done + {c})
  {
    forall i | 0 <= i < |fs|
      ensures MarkedSafes(MarkedSafes(fs, done), {c})[i] == MarkedSafes(fs, done + {c})[i]
    {
    }
  }

  /**
   * Marking cells as mines loses as many cells as it lowers the count, so
   * the number of cells that are no mine stays the same.
   */
  lemma MarkedMinesKeepSlack(fs: seq<Fact>, marked: set<Cell>)
    ensures forall i :: 0 <= i < |fs| ==>
              MarkedMines(fs, marked)[i].cells == fs[i].cells - marked
              && |MarkedMines(fs, marked)[i].cells| - MarkedMines(fs, marked)[i].count == |fs[i].cells| - fs[i].count
  {
    forall i | 0 <= i < |fs|
      ensures |fs[i].cells - marked| == |fs[i].cells| - |fs[i].cells * marked|
    {
      var a := fs[i].cells;
      assert a == (a - marked) + (a * marked);
      assert (a - marked) !! (a * marked);
    }
  }

  /** True facts stay true when cells that are mines are marked as mines. */
  lemma MarkedMinesHold(fs: seq<Fact>, marked: set<Cell>, M: set<Cell>)
    requires marked <= M
    requires AllHold(fs, M)
    ensures AllHold(MarkedMines(fs, marked), M)
  {
    forall i | 0 <= i < |fs|
      ensures Holds(MarkedMines(fs, marked)[i].cells, MarkedMines(fs, marked)[i].count, M)
    {
      var a := fs[i].cells;
      assert fs[i] in fs;
      assert a * M == ((a - marked) * M) + (a * marked);
      assert ((a - marked) * M) !! (a * marked);
    }
  }

  /** True facts stay true when cells that are no mines are marked safe. */
  lemma MarkedSafesHold(fs: seq<Fact>, marked: set<Cell>, M: set<Cell>)
    requires marked !! M
    requires AllHold(fs, M)
    ensures AllHold(MarkedSafes(fs, marked), M)
  {
    forall i | 0 <= i < |fs|
      ensures Holds(MarkedSafes(fs, marked)[i].cells, MarkedSafes(fs, marked)[i].count, M)
    {
      assert fs[i] in fs;
      assert (fs[i].cells - marked) * M == fs[i].cells * M;
    }
  }

  /** Each fact of `fs` is the fact of `before` at its place, less the known mines and safe cells. */
  ghost predicate Reduced(fs: seq<Fact>, before: seq<Fact>, mines: set<Cell>, safes: set<Cell>)
  {
    |fs| == |before| && forall l :: 0 <= l < |fs| ==> fs[l].cells == before[l].cells - mines - safes
  }

  /**
   * The conclusions of the first `k` facts of `before` are known: the cells
   * of a fact that shows all its cells to be mines are known mines, and those
   * of a fact with count zero are known safe.
   */
  ghost predicate Concluded(before: seq<Fact>, k: int, mines: set<Cell>, safes: set<Cell>)
  {
    forall l :: 0 <= l < k && l < |before| ==>
      (|before[l].cells| == before[l].count ==> before[l].cells <= mines)
      && (before[l].count == 0 ==> before[l].cells <= safes)
  }

  /** Marking more mines takes them out of what is left of every fact. */
  lemma MinesLeft(fs: seq<Fact>, before: seq<Fact>, mines: set<Cell>, safes: set<Cell>, newMines: set<Cell>)
    requires mines <= newMines && Reduced(fs, before, mines, safes)
    ensures Reduced(MarkedMines(fs, newMines - mines), before, newMines, safes)
  {
  }

  /** Marking more safe cells takes them out of what is left of every fact. */
  lemma SafesLeft(fs: seq<Fact>, before: seq<Fact>, mines: set<Cell>, safes: set<Cell>, newSafes: set<Cell>)
    requires safes <= newSafes && Reduced(fs, before, mines, safes)
    ensures Reduced(MarkedSafes(fs, newSafes - safes), before, mines, newSafes)
  {
  }

  /**
   * Conclusions once known stay known as more cells become known, and the
   * conclusions of fact `k`, once known, extend them to the first `k + 1`.
   */
  lemma ConcludedStep(before: seq<Fact>, k: int, mines: set<Cell>, safes: set<Cell>,
                      newMines: set<Cell>, newSafes: set<Cell>)
    requires 0 <= k < |before| && mines <= newMines && safes <= newSafes
    requires Concluded(before, k, mines, safes)
    requires |before[k].cells| == before[k].count ==> before[k].cells <= newMines
    requires before[k].count == 0 ==> before[k].cells <= newSafes
    ensures Concluded(before, k + 1, newMines, newSafes)
  {
  }

  /**
   * What the knowledge base says after the first inference pass of
   * `add_knowledge` at `cell`, once the cells of `known` are known: every
   * fact of `before` less those cells, then the fact about the in-bounds
   * cells around `cell` that are not known.
   */
  ghost predicate FirstPassed(before: seq<Fact>, height: int, width: int, cell: Cell, known: set<Cell>, inferred: seq<Fact>)
  {
    |inferred| == |before| + 1
    && (forall k :: 0 <= k < |before| ==> inferred[k].cells == before[k].cells - known)
    && (forall c :: c in inferred[|before|].cells <==> InBounds(height, width, c) && Square(cell, c) && c !in known)
  }

  /**
   * What the first pass of inference leaves of the old facts: once `cell`
   * is marked safe and the cells of `known` are taken out, each old fact
   * has lost exactly the cells of `known`.
   */
  lemma FirstPass(facts0: seq<Fact>, facts1: seq<Fact>, inferred: seq<Fact>, cell: Cell, known: set<Cell>)
    requires |facts0| < |facts1| == |inferred| && cell in known
    requires facts1[..|facts0|] == MarkedSafes(facts0, {cell})
    requires forall k :: 0 <= k < |inferred| ==> inferred[k].cells == facts1[k].cells - known
    ensures forall k :: 0 <= k < |facts0| ==> inferred[k].cells == facts0[k].cells - known
  {
    forall k | 0 <= k < |facts0|
      ensures inferred[k].cells == facts0[k].cells - known
    {
      assert facts1[k] == facts1[..|facts0|][k];
    }
  }

  /**
   * The sentence `add_knowledge` builds is true: of the on-board cells around
   * a safe cell, the ones not yet known hold as many mines as the board
   * reported, less the known mines around it.
   */
  lemma NewSentenceHolds(height: int, width: int, cell: Cell, count: int,
                         mines: set<Cell>, safes: set<Cell>, M: set<Cell>, unknown: set<Cell>)
    requires mines <= M && safes !! M && cell in safes
    requires forall c :: c in M ==> InBounds(height, width, c)
    requires count == |set c | c in M && Near(cell, c)|
    requires forall c :: c in unknown <==> InBounds(height, width, c) && Square(cell, c) && c !in safes && c !in mines
    ensures Holds(unknown, count - |set c | c in mines && Square(cell, c) && InBounds(height, width, c)|, M)
  {
    var known := set c | c in mines && Square(cell, c) && InBounds(height, width, c);
    assert (set c | c in M && Near(cell, c)) == (unknown * M) + known;
    assert (unknown * M) * known == {};
  }

  // ---------------------------------------------------------------------------
  // The AI player
  // ---------------------------------------------------------------------------

  class MinesweeperAI {
    const height: int
    const width: int
    var movesMade: set<Cell>
    var mines: set<Cell>
    var safes: set<Cell>
    var knowledge: seq<Sentence>

    /**
     * The sentences are different objects, and no sentence still mentions a
     * cell already known to be a mine or safe.
     */
    ghost predicate Valid()
      reads this, knowledge
    {
      (forall i, j :: 0 <= i < j < |knowledge| ==> knowledge[i] != knowledge[j])
      && (forall k :: 0 <= k < |knowledge| ==> knowledge[k].cells !! mines && knowledge[k].cells !! safes)
    }

    /** Everything the AI knows is true of the mine placement `M`. */
    ghost predicate Sound(M: set<Cell>)
      reads this, knowledge
    {
      mines <= M && safes !! M && AllHold(Facts(), M)
    }

    /** The knowledge base as values. */
    function Facts(): seq<Fact>
      reads this, knowledge
    {
      FactsOf(knowledge)
    }

    constructor (height: int, width: int)
      ensures this.height == height && this.width == width
      ensures movesMade == {} && mines == {} && safes == {} && knowledge == []
      ensures Valid()
    {
      this.height := height;
      this.width := width;
      movesMade := {};
      mines := {};
      safes := {};
      knowledge := [];
    }

    /** Records `c` as a mine and removes it from every sentence, lowering that sentence's count. */
    method MarkMine(c: Cell, ghost M: set<Cell>)
      requires Valid()
      modifies this, knowledge
      ensures mines == old(mines) + {c} && safes == old(safes) && movesMade == old(movesMade)
      ensures knowledge == old(knowledge)
      ensures forall k :: 0 <= k < |knowledge| ==>
                knowledge[k].cells == old(knowledge[k].cells) - {c}
                && knowledge[k].count == old(knowledge[k].count) - (if c in old(knowledge[k].cells) then 1 else 0)
      ensures Facts() == MarkedMines(old(Facts()), {c})
      ensures Valid()
      ensures old(Sound(M)) && c in M ==> Sound(M)
    {
      mines := mines + {c};
      RemoveMine(c);
      if old(Sound(M)) && c in M {
        MarkedMinesHold(old(Facts()), {c}, M);
      }
    }

    /** Removes the mine `c` from every sentence, lowering the count of those that held it. */
    method RemoveMine(c: Cell)
      requires forall i, j :: 0 <= i < j < |knowledge| ==> knowledge[i] != knowledge[j]
      modifies knowledge
      ensures forall k :: 0 <= k < |knowledge| ==>
                knowledge[k].cells == old(knowledge[k].cells) - {c}
                && knowledge[k].count == old(knowledge[k].count) - (if c in old(knowledge[k].cells) then 1 else 0)
      ensures FactsOf(knowledge) == MarkedMines(old(FactsOf(knowledge)), {c})
    {
      for k := 0 to |knowledge|
        invariant forall l :: 0 <= l < k ==>
                    knowledge[l].cells == old(knowledge[l].cells) - {c}
                    && knowledge[l].count == old(knowledge[l].count) - (if c in old(knowledge[l].cells) then 1 else 0)
        invariant forall l :: k <= l < |knowledge| ==>
                    knowledge[l].cells == old(knowledge[l].cells) && knowledge[l].count == old(knowledge[l].count)
      {
        knowledge[k].MarkMine(c);
      }
      MarkedMinesOne(old(FactsOf(knowledge)), FactsOf(knowledge), c);
    }

    /** Records `c` as safe and removes it from every sentence. */
    method MarkSafe(c: Cell, ghost M: set<Cell>)
      requires Valid()
      modifies this, knowledge
      ensures safes == old(safes) + {c} && mines == old(mines) && movesMade == old(movesMade)
      ensures knowledge == old(knowledge)
      ensures forall k :: 0 <= k < |knowledge| ==>
                knowledge[k].cells == old(knowledge[k].cells) - {c} && knowledge[k].count == old(knowledge[k].count)
      ensures Facts() == MarkedSafes(old(Facts()), {c})
      ensures Valid()
      ensures old(Sound(M)) && c !in M ==> Sound(M)
    {
      safes := safes + {c};
      for k := 0 to |knowledge|
        invariant safes == old(safes) + {c} && mines == old(mines) && movesMade == old(movesMade)
        invariant knowledge == old(knowledge)
        invariant forall l :: 0 <= l < k ==>
                    knowledge[l].cells == old(knowledge[l].cells) - {c} && knowledge[l].count == old(knowledge[l].count)
        invariant forall l :: k <= l < |knowledge| ==>
                    knowledge[l].cells == old(knowledge[l].cells) && knowledge[l].count == old(knowledge[l].count)
      {
        knowledge[k].MarkSafe(c);
      }
      if old(Sound(M)) && c !in M {
        MarkedSafesHold(old(Facts()), {c}, M);
      }
    }

    /** The known mines within one row and one column of `cell` (itself included) on the board. */
    ghost function KnownMinesAround(cell: Cell): set<Cell>
      reads this
    {
      set c | c in mines && Square(cell, c) && InBounds(height, width, c)
    }

    /**
     * The cells around `cell` (itself included) on the board, less the known
     * mines, which instead lower `count`; then less the known safe cells and
     * mines.  The test meant to skip `cell` itself compares a pair with the
     * number 1, so it never skips anything.
     */
    method UnknownNeighbours(cell: Cell, count: int) returns (unknown: set<Cell>, n: int)
      ensures forall c :: c in unknown <==> InBounds(height, width, c) && Square(cell, c) && c !in safes && c !in mines
      ensures n == count - |KnownMinesAround(cell)|
    {
      unknown := {};
      n := count;
      ghost var found: set<Cell> := {};
      for i := cell.0 - 1 to cell.0 + 2
        invariant forall c :: c in unknown <==>
                    InBounds(height, width, c) && Square(cell, c) && c !in mines && Before(c, i, cell.1 - 1)
        invariant forall c :: c in found <==>
                    InBounds(height, width, c) && Square(cell, c) && c in mines && Before(c, i, cell.1 - 1)
        invariant n == count - |found|
      {
        for j := cell.1 - 1 to cell.1 + 2
          invariant forall c :: c in unknown <==>
                      InBounds(height, width, c) && Square(cell, c) && c !in mines && Before(c, i, j)
          invariant forall c :: c in found <==>
                      InBounds(height, width, c) && Square(cell, c) && c in mines && Before(c, i, j)
          invariant n == count - |found|
        {
          if 0 <= i < height && 0 <= j < width {
            if (i, j) in mines {
              n := n - 1;
              found := found + {(i, j)};
            } else {
              unknown := unknown + {(i, j)};
            }
          }
        }
      }
      assert found == KnownMinesAround(cell);
      unknown := unknown - safes;
      unknown := unknown - mines;
    }

    /**
     * Marks every cell of `cells` as a mine, in any order.  Each sentence
     * loses the marked cells it held, and its count drops by as many.
     */
    method MarkAllMines(cells: set<Cell>, ghost M: set<Cell>)
      requires Valid()
      modifies this, knowledge
      ensures mines == old(mines) + cells && safes == old(safes) && movesMade == old(movesMade)
      ensures knowledge == old(knowledge)
      ensures Facts() == MarkedMines(old(Facts()), cells)
      ensures Valid()
      ensures old(Sound(M)) && cells <= M ==> Sound(M)
    {
      ghost var before := Facts();
      ghost var done: set<Cell> := {};
      var todo := cells;
      MarkedNone(before);
      while todo != {}
        invariant todo !! done && todo + done == cells && mines == old(mines) + done
        invariant safes == old(safes) && movesMade == old(movesMade) && knowledge == old(knowledge)
        invariant Facts() == MarkedMines(before, done)
        invariant Valid()
        decreases todo
      {
        var c :| c in todo;
        MarkMine(c, M);
        MarkedMinesStep(before, done, c);
        done := done + {c};
        todo := todo - {c};
      }
      if old(Sound(M)) && cells <= M {
        MarkedMinesHold(before, cells, M);
      }
    }

    /** Marks every cell of `cells` as safe, in any order.  Each sentence loses the marked cells it held. */
    method MarkAllSafes(cells: set<Cell>, ghost M: set<Cell>)
      requires Valid()
      modifies this, knowledge
      ensures safes == old(safes) + cells && mines == old(mines) && movesMade == old(movesMade)
      ensures knowledge == old(knowledge)
      ensures Facts() == MarkedSafes(old(Facts()), cells)
      ensures Valid()
      ensures old(Sound(M)) && cells !! M ==> Sound(M)
    {
      ghost var before := Facts();
      ghost var done: set<Cell> := {};
      var todo := cells;
      MarkedNone(before);
      while todo != {}
        invariant todo !! done && todo + done == cells && safes == old(safes) + done
        invariant mines == old(mines) && movesMade == old(movesMade) && knowledge == old(knowledge)
        invariant Facts() == MarkedSafes(before, done)
        invariant Valid()
        decreases todo
      {
        var c :| c in todo;
        MarkSafe(c, M);
        MarkedSafesStep(before, done, c);
        done := done + {c};
        todo := todo - {c};
      }
      if old(Sound(M)) && cells !! M {
        MarkedSafesHold(before, cells, M);
      }
    }

    /**
     * The first half of the visit of sentence `k` in the inference pass: the
     * cells it shows to be mines are marked as mines.  `cells` and `count`
     * are what the sentence said before the pass began; if that was true and
     * showed every cell to be a mine, all of those cells are known afterwards.
     */
    method InferMines(k: int, ghost cells: set<Cell>, ghost count: int, ghost M: set<Cell>)
      requires Valid() && 0 <= k < |knowledge|
      requires knowledge[k].cells == cells - mines - safes
      modifies this, knowledge
      ensures knowledge == old(knowledge) && movesMade == old(movesMade)
      ensures old(mines) <= mines && safes == old(safes)
      ensures Facts() == MarkedMines(old(Facts()), mines - old(mines))
      ensures Valid()
      ensures old(Sound(M)) ==> Sound(M)
      ensures old(Sound(M)) && Holds(cells, count, M) && |cells| == count ==> cells <= mines
    {
      var sentence := knowledge[k];
      ghost var truth := Sound(M);
      if truth && Holds(cells, count, M) && |cells| == count {
        AllMinesLeft(cells, count, sentence.cells, sentence.count, mines, safes, M);
      }
      var known := sentence.KnownMines();
      if known != {} {
        if truth {
          KnownMinesSound(sentence, M);
        }
        assert known !! mines;
        MarkAllMines(known, M);
        assert mines - old(mines) == known;
      } else {
        assert mines - old(mines) == {};
        MarkedNone(Facts());
      }
    }

    /**
     * The second half of the visit of sentence `k`: the cells it shows to be
     * safe are marked safe.  If what it said before the pass began was true
     * and had count zero, all of its cells are known safe afterwards.
     */
    method InferSafes(k: int, ghost cells: set<Cell>, ghost M: set<Cell>)
      requires Valid() && 0 <= k < |knowledge|
      requires knowledge[k].cells == cells - mines - safes
      modifies this, knowledge
      ensures knowledge == old(knowledge) && movesMade == old(movesMade)
      ensures mines == old(mines) && old(safes) <= safes
      ensures Facts() == MarkedSafes(old(Facts()), safes - old(safes))
      ensures Valid()
      ensures old(Sound(M)) ==> Sound(M)
      ensures old(Sound(M)) && Holds(cells, 0, M) ==> cells <= safes
    {
      var sentence := knowledge[k];
      ghost var truth := Sound(M);
      if truth && Holds(cells, 0, M) {
        AllSafesLeft(cells, sentence.cells, sentence.count, mines, safes, M);
      }
      var known := sentence.KnownSafes();
      if known != {} {
        if truth {
          KnownSafesSound(sentence, M);
        }
        assert known !! safes;
        MarkAllSafes(known, M);
        assert safes - old(safes) == known;
      } else {
        assert safes - old(safes) == {};
        MarkedNone(Facts());
      }
    }

    /**
     * One pass over the knowledge base, in order: the cells a sentence shows
     * to be mines are marked as mines, then the cells it shows to be safe are
     * marked safe.  Every sentence loses the cells that became known; when
     * the knowledge was true, every sentence that showed all its cells to be
     * mines (or all safe) at the start of the pass has them all known at the
     * end.
     */
    method Infer(ghost M: set<Cell>)
      requires Valid()
      modifies this, knowledge
      ensures knowledge == old(knowledge) && movesMade == old(movesMade)
      ensures old(mines) <= mines && old(safes) <= safes
      ensures Reduced(Facts(), old(Facts()), mines, safes)
      ensures Valid()
      ensures old(Sound(M)) ==> Sound(M)
      ensures old(Sound(M)) ==> Concluded(old(Facts()), |knowledge|, mines, safes)
    {
      ghost var before := Facts();
      ghost var truth := Sound(M);
      for k := 0 to |knowledge|
        invariant knowledge == old(knowledge) && movesMade == old(movesMade)
        invariant old(mines) <= mines && old(safes) <= safes
        invariant Reduced(Facts(), before, mines, safes)
        invariant Valid()
        invariant truth ==> Sound(M) && AllHold(before, M) && Concluded(before, k, mines, safes)
      {
        InferStep(k, before, M);
      }
    }

    /** The visit of sentence `k` in the inference pass, as `Infer` needs it. */
    method InferStep(k: int, ghost before: seq<Fact>, ghost M: set<Cell>)
      requires Valid() && 0 <= k < |knowledge|
      requires Reduced(Facts(), before, mines, safes)
      modifies this, knowledge
      ensures knowledge == old(knowledge) && movesMade == old(movesMade)
      ensures old(mines) <= mines && old(safes) <= safes
      ensures Reduced(Facts(), before, mines, safes)
      ensures Valid()
      ensures old(Sound(M)) ==> Sound(M)
      ensures old(Sound(M)) && AllHold(before, M) && Concluded(before, k, old(mines), old(safes)) ==>
                Concluded(before, k + 1, mines, safes)
    {
      ghost var mines0, safes0, facts0 := mines, safes, Facts();
      assert facts0[k].cells == before[k].cells - mines - safes;
      InferMines(k, before[k].cells, before[k].count, M);
      MinesLeft(facts0, before, mines0, safes0, mines);
      ghost var facts1 := Facts();
      InferSafes(k, before[k].cells, M);
      SafesLeft(facts1, before, mines, safes0, safes);
      if old(Sound(M)) && AllHold(before, M) && Concluded(before, k, mines0, safes0) {
        assert before[k] in before;
        ConcludedStep(before, k, mines0, safes0, mines, safes);
      }
    }

    /** Appends a new sentence for every deduced fact. */
    method Extend(deduced: seq<Fact>)
      requires Valid()
      requires forall d :: d in deduced ==> d.cells !! mines && d.cells !! safes
      modifies this
      ensures mines == old(mines) && safes == old(safes) && movesMade == old(movesMade)
      ensures |knowledge| == |old(knowledge)| + |deduced| && knowledge[..|old(knowledge)|] == old(knowledge)
      ensures forall k :: |old(knowledge)| <= k < |knowledge| ==> fresh(knowledge[k])
      ensures Facts() == old(Facts()) + deduced
      ensures Valid()
    {
      ghost var n := |knowledge|;
      for i := 0 to |deduced|
        invariant mines == old(mines) && safes == old(safes) && movesMade == old(movesMade)
        invariant |knowledge| == n + i && knowledge[..n] == old(knowledge)
        invariant forall k :: n <= k < |knowledge| ==> fresh(knowledge[k])
        invariant Facts() == old(Facts()) + deduced[..i]
        invariant Valid()
      {
        var sentence := new Sentence(deduced[i].cells, deduced[i].count);
        knowledge := knowledge + [sentence];
        assert deduced[..i + 1] == deduced[..i] + [deduced[i]];
      }
      assert deduced[..|deduced|] == deduced;
    }

    /** Drops every sentence equal to `{} = 0`, keeping the order of the rest. */
    method RemoveEmpty()
      requires Valid()
      modifies this
      ensures mines == old(mines) && safes == old(safes) && movesMade == old(movesMade)
      ensures forall s :: s in knowledge ==> s in old(knowledge)
      ensures forall s :: s in old(knowledge) && !(s.cells == {} && s.count == 0) ==> s in knowledge
      ensures Facts() == Clean(old(Facts()))
      ensures Valid()
    {
      KeptFacts(knowledge);
      KeptDistinct(knowledge);
      knowledge := Kept(knowledge);
    }

    /**
     * `count` is what the board with mines `M` shows at the uncovered cell
     * `cell`: the cell is no mine, and `count` mines lie around it.
     */
    ghost predicate Reports(cell: Cell, count: int, M: set<Cell>)
    {
      cell !in M && (forall c :: c in M ==> InBounds(height, width, c))
      && count == |set c | c in M && Near(cell, c)|
    }

    /**
     * The first steps of `add_knowledge`: records the move, marks the cell
     * safe and appends the sentence about its unknown neighbours.
     */
    method Observe(cell: Cell, count: int, ghost M: set<Cell>)
      requires Valid()
      modifies this, knowledge
      ensures movesMade == old(movesMade) + {cell}
      ensures safes == old(safes) + {cell} && mines == old(mines)
      ensures |knowledge| == |old(knowledge)| + 1 && knowledge[..|old(knowledge)|] == old(knowledge)
      ensures fresh(knowledge[|old(knowledge)|])
      ensures forall c :: c in knowledge[|old(knowledge)|].cells <==>
                InBounds(height, width, c) && Square(cell, c) && c !in safes && c !in mines
      ensures knowledge[|old(knowledge)|].count == count - |KnownMinesAround(cell)|
      ensures Facts()[..|old(knowledge)|] == MarkedSafes(old(Facts()), {cell})
      ensures Valid()
      ensures old(Sound(M)) && Reports(cell, count, M) ==> Sound(M)
    {
      ghost var truth := Sound(M) && Reports(cell, count, M);
      movesMade := movesMade + {cell};
      MarkSafe(cell, M);
      var unknown, n := UnknownNeighbours(cell, count);
      if truth {
        NewSentenceHolds(height, width, cell, count, mines, safes, M, unknown);
      }
      Extend([Fact(unknown, n)]);
    }

    /**
     * The subset-rule step of `add_knowledge`: appends, as new sentences, the
     * facts `Deduce` draws from the knowledge base.
     */
    method DeduceAndExtend(ghost M: set<Cell>) returns (deduced: seq<Fact>)
      requires Valid()
      modifies this
      ensures mines == old(mines) && safes == old(safes) && movesMade == old(movesMade)
      ensures |knowledge| == |old(knowledge)| + |deduced| && knowledge[..|old(knowledge)|] == old(knowledge)
      ensures forall k :: |old(knowledge)| <= k < |knowledge| ==> fresh(knowledge[k])
      ensures Facts() == old(Facts()) + deduced
      ensures DeducedFrom(old(Facts()), deduced)
      ensures Valid()
      ensures old(Sound(M)) ==> Sound(M)
    {
      var facts := Facts();
      deduced := Deduce(facts);
      DeducedWithin(facts, deduced, mines + safes);
      if Sound(M) {
        DeducedHold(facts, deduced, M);
      }
      Extend(deduced);
    }

    /**
     * The first half of `add_knowledge`: records the move, marks the cell
     * safe, adds the sentence about its unknown neighbours and draws
     * conclusions from every sentence once.  `known` is what is then known,
     * and `inferred` what the knowledge base then says.
     */
    method ObserveAndInfer(cell: Cell, count: int, ghost M: set<Cell>) returns (ghost known: set<Cell>, ghost inferred: seq<Fact>)
      requires Valid()
      modifies this, knowledge
      ensures movesMade == old(movesMade) + {cell}
      ensures cell in safes && old(safes) <= safes && old(mines) <= mines
      ensures old(mines) + old(safes) + {cell} <= known == mines + safes
      ensures |knowledge| == |old(knowledge)| + 1 && knowledge[..|old(knowledge)|] == old(knowledge)
      ensures fresh(knowledge[|old(knowledge)|])
      ensures inferred == Facts() && FirstPassed(old(Facts()), height, width, cell, known, inferred)
      ensures Valid()
      ensures old(Sound(M)) && Reports(cell, count, M) ==> Sound(M)
    {
      ghost var facts0 := Facts();
      Observe(cell, count, M);
      ghost var facts1 := Facts();
      Infer(M);
      known := mines + safes;
      inferred := Facts();
      FirstPass(facts0, facts1, inferred, cell, known);
    }

    /**
     * The second half of `add_knowledge`: adds the sentences the subset rule
     * yields, draws conclusions from every sentence again and drops the empty
     * sentences.  `deduced` are the added facts, and `last` what the
     * knowledge base says before the empty sentences go.
     */
    method DeduceAndClean(ghost M: set<Cell>) returns (ghost deduced: seq<Fact>, ghost last: seq<Fact>)
      requires Valid()
      modifies this, knowledge
      ensures movesMade == old(movesMade) && old(safes) <= safes && old(mines) <= mines
      ensures DeducedFrom(old(Facts()), deduced)
      ensures Reduced(last, old(Facts()) + deduced, mines, safes)
      ensures Facts() == Clean(last) && EmptyFact !in Facts()
      ensures forall s :: s in knowledge ==> s in old(knowledge) || fresh(s)
      ensures Valid()
      ensures old(Sound(M)) ==> Sound(M)
    {
      deduced := DeduceAndExtend(M);
      Infer(M);
      last := Facts();
      RemoveEmpty();
    }

    /**
     * The AI is told that `cell`, which it has just uncovered, is safe and has
     * `count` mines around it; it records the move, marks the cell safe, adds
     * the sentence about its unknown neighbours, draws conclusions, adds the
     * sentences the subset rule yields, draws conclusions again and drops the
     * empty sentences.
     */
    method AddKnowledge(cell: Cell, count: int, ghost M: set<Cell>)
      returns (ghost known: set<Cell>, ghost inferred: seq<Fact>, ghost deduced: seq<Fact>, ghost last: seq<Fact>)
      requires Valid()
      modifies this, knowledge
      ensures movesMade == old(movesMade) + {cell}
      ensures cell in safes && old(safes) <= safes && old(mines) <= mines
      // after the first pass of inference: the old sentences and the new one, less the known cells
      ensures old(mines) + old(safes) + {cell} <= known <= mines + safes
      ensures FirstPassed(old(Facts()), height, width, cell, known, inferred)
      // the subset rule adds every new difference of two of them, once
      ensures DeducedFrom(inferred, deduced)
      // after the second pass all of them lose the known cells, and those other than `{} = 0` stay
      ensures Reduced(last, inferred + deduced, mines, safes)
      ensures Facts() == Clean(last) && EmptyFact !in Facts()
      ensures forall s :: s in knowledge ==> s in old(knowledge) || fresh(s)
      ensures Valid()
      ensures old(Sound(M)) && Reports(cell, count, M) ==> Sound(M)
    {
      known, inferred := ObserveAndInfer(cell, count, M);
      deduced, last := DeduceAndClean(M);
    }

    /** A cell known to be safe that has not been played, if there is one. */
    method MakeSafeMove() returns (r: Option<Cell>)
      ensures r.Some? ==> r.value in safes && r.value !in movesMade
      ensures r.None? <==> safes <= movesMade
    {
      var rest := safes;
      while rest != {}
        invariant rest <= safes && forall c :: c in safes - rest ==> c in movesMade
        decreases rest
      {
        var c :| c in rest;
        if c !in movesMade {
          return Some(c);
        }
        rest := rest - {c};
      }
      return None;
    }

    /** Any cell of the board neither played nor known to be a mine, if there is one. */
    method MakeRandomMove() returns (r: Option<Cell>)
      ensures r.Some? ==> InBounds(height, width, r.value) && r.value !in movesMade && r.value !in mines
      ensures r.None? <==> forall c :: InBounds(height, width, c) ==> c in movesMade || c in mines
    {
      var available: seq<Cell> := [];
      var i := 0;
      while i < height
        invariant forall c :: c in available ==> InBounds(height, width, c) && c !in movesMade && c !in mines
        invariant forall c :: (InBounds(height, width, c) && c.0 < i && c !in movesMade && c !in mines) ==> c in available
      {
        var j := 0;
        while j < width
          invariant forall c :: c in available ==> InBounds(height, width, c) && c !in movesMade && c !in mines
          invariant forall c :: (InBounds(height, width, c) && (c.0 < i || (c.0 == i && c.1 < j))
                                 && c !in movesMade && c !in mines) ==> c in available
        {
          if (i, j) !in movesMade && (i, j) !in mines {
            available := available + [(i, j)];
          }
          j := j + 1;
        }
        i := i + 1;
      }
      if |available| != 0 {
        var k :| 0 <= k < |available|;
        return Some(available[k]);
      }
      return None;
    }
  }
}
