/**
 * The crossword generator (crossword/generate.py): a constraint satisfaction
 * problem whose variables are the word slots of a grid and whose values are
 * words.  `CrosswordCreator` keeps, for every slot, the set of words still
 * possible (its domain), prunes the domains by node and arc consistency, and
 * then searches for a complete, consistent assignment by backtracking.
 *
 * The grid, the slots and their overlaps come from a separate module
 * (crossword.py), which is not part of this model: they are the inputs
 * described by the datatype `Crossword`.  Where the source iterates over a
 * set or a dict, the model picks the next element with `:|`, so the proofs
 * hold for every iteration order.
 */
module CrosswordCsp {

  import opened Wrappers

  datatype Direction = Across | Down

  /** A word slot: its first cell (row `i`, column `j`), its direction and its length. */
  datatype Variable = Variable(i: int, j: int, direction: Direction, length: int)

  /**
   * A puzzle: the grid size, the slots, the vocabulary, and for every ordered
   * pair of different slots the offsets (in the first word, in the second
   * word) of the cell they share, or `None`.
   */
  datatype Crossword = Crossword(
    height: int,
    width: int,
    variables: set<Variable>,
    words: set<string>,
    overlaps: map<(Variable, Variable), Option<(int, int)>>)

  /**
   * What the crossword module guarantees of a puzzle: every pair of different
   * slots has an overlap entry, overlaps are symmetric, and the offsets lie
   * inside the slots.
   */
  ghost predicate WellFormed(cw: Crossword)
  {
    (forall x, y :: x in cw.variables && y in cw.variables && x != y ==> (x, y) in cw.overlaps)
    && (forall x, y :: (x, y) in cw.overlaps && cw.overlaps[(x, y)].Some? ==>
          (y, x) in cw.overlaps && cw.overlaps[(y, x)] == Some((cw.overlaps[(x, y)].value.1, cw.overlaps[(x, y)].value.0)))
    && (forall x, y :: (x, y) in cw.overlaps && cw.overlaps[(x, y)].Some? ==>
          0 <= cw.overlaps[(x, y)].value.0 < x.length && 0 <= cw.overlaps[(x, y)].value.1 < y.length)
  }

  /** The slots that cross `x`. */
  function Neighbors(cw: Crossword, x: Variable): set<Variable>
  {
    set y | y in cw.variables && y != x && (x, y) in cw.overlaps && cw.overlaps[(x, y)].Some?
  }

  /** Crossing is symmetric. */
  lemma NeighborsSymmetric(cw: Crossword, x: Variable, y: Variable)
    requires WellFormed(cw) && x in cw.variables && y in cw.variables
    ensures y in Neighbors(cw, x) <==> x in Neighbors(cw, y)
  {
  }

  /** Two words agree at the overlap `o`: both letters exist and are equal. */
  predicate Fits(o: (int, int), wx: string, wy: string)
  {
    0 <= o.0 < |wx| && 0 <= o.1 < |wy| && wx[o.0] == wy[o.1]
  }

  /** Some word of `dy` agrees with `wx` at the overlap `o`. */
  ghost predicate Supported(o: (int, int), wx: string, dy: set<string>)
  {
    exists wy :: wy in dy && Fits(o, wx, wy)
  }

  // ---------------------------------------------------------------------------
  // Assignments
  // ---------------------------------------------------------------------------

  type Assignment = map<Variable, string>

  /** No word is used twice. */
  ghost predicate DistinctWords(a: Assignment)
  {
    forall x, y :: x in a && y in a && x != y ==> a[x] != a[y]
  }

  /** Every word has the length of its slot. */
  ghost predicate RightLengths(a: Assignment)
  {
    forall x :: x in a ==> |a[x]| == x.length
  }

  /** Every two assigned slots that cross agree on the shared cell. */
  ghost predicate Agreeing(cw: Crossword, a: Assignment)
  {
    forall x, y :: x in a && y in a && y in Neighbors(cw, x) ==> Fits(cw.overlaps[(x, y)].value, a[x], a[y])
  }

  /** An assignment is consistent when it satisfies all three constraints. */
  ghost predicate ConsistentSpec(cw: Crossword, a: Assignment)
  {
    DistinctWords(a) && RightLengths(a) && Agreeing(cw, a)
  }

  /** Every slot of the puzzle is assigned. */
  ghost predicate Complete(cw: Crossword, a: Assignment)
  {
    cw.variables <= a.Keys
  }

  /** Assigning one more slot leaves fewer slots unassigned. */
  lemma FewerUnassigned(vars: set<Variable>, keys: set<Variable>, variable: Variable)
    requires variable in vars && variable !in keys
    ensures |vars - (keys + {variable})| < |vars - keys|
  {
    assert vars - keys == (vars - (keys + {variable})) + {variable};
  }

  /** `b` keeps every entry of `a`. */
  ghost predicate Extends(b: Assignment, a: Assignment)
  {
    forall x :: x in a ==> x in b && b[x] == a[x]
  }

  /**
   * What the search found from `a` with `variable` set to `value`, a
   * consistent assignment, it found from `a`: it extends `a`, is consistent,
   * and takes its new words, `value` among them, from the domains `d`.
   */
  lemma FoundByOne(cw: Crossword, d: map<Variable, set<string>>, b: Assignment, a: Assignment, variable: Variable, value: string)
    requires variable !in a && variable in d && value in d[variable]
    requires ConsistentSpec(cw, a[variable := value])
    requires Extends(b, a[variable := value]) && (b == a[variable := value] || ConsistentSpec(cw, b))
    requires forall v :: v in b && v !in a[variable := value] ==> v in d && b[v] in d[v]
    ensures Extends(b, a) && ConsistentSpec(cw, b)
    ensures forall v :: v in b && v !in a ==> v in d && b[v] in d[v]
  {
    ExtendedByOne(b, a, variable, value);
    forall v | v in b && v !in a
      ensures v in d && b[v] in d[v]
    {
      if v != variable {
        assert v !in a[variable := value];
      }
    }
  }

  /** Keeping the entries of `a` with `variable` set to `value` keeps those of `a`, and that word. */
  lemma ExtendedByOne(b: Assignment, a: Assignment, variable: Variable, value: string)
    requires variable !in a && Extends(b, a[variable := value])
    ensures Extends(b, a) && variable in b && b[variable] == value
  {
    forall x | x in a
      ensures x in b && b[x] == a[x]
    {
      assert x in a[variable := value];
    }
  }

  /** A solution of the puzzle: exactly its slots, filled consistently with words of its vocabulary. */
  ghost predicate Solution(cw: Crossword, s: Assignment)
  {
    s.Keys == cw.variables && ConsistentSpec(cw, s) && forall x :: x in s ==> s[x] in cw.words
  }

  /** Every word of `s` is still in its slot's domain. */
  ghost predicate Within(s: Assignment, domains: map<Variable, set<string>>)
  {
    forall x :: x in s ==> x in domains && s[x] in domains[x]
  }

  /** Dropping entries keeps an assignment consistent. */
  lemma ConsistentSubset(cw: Crossword, a: Assignment, s: Assignment)
    requires ConsistentSpec(cw, s) && Extends(s, a)
    ensures ConsistentSpec(cw, a)
  {
  }

  /** The row of the cell holding letter `k` of a word placed in slot `v`. */
  function Row(v: Variable, k: int): int
  {
    v.i + (if v.direction == Down then k else 0)
  }

  /** The column of the cell holding letter `k` of a word placed in slot `v`. */
  function Col(v: Variable, k: int): int
  {
    v.j + (if v.direction == Across then k else 0)
  }

  /** Every letter of every word of `a` lands inside a `rows` by `cols` grid. */
  ghost predicate Placeable(a: Assignment, rows: int, cols: int)
  {
    forall v, k :: v in a && 0 <= k < |a[v]| ==> 0 <= Row(v, k) < rows && 0 <= Col(v, k) < cols
  }

  /** `p` names a slot of `a` and a letter position whose letter `c` lands in cell (i, j). */
  ghost predicate Source(a: Assignment, p: (Variable, int), i: int, j: int, c: char)
  {
    p.0 in a && 0 <= p.1 < |a[p.0]| && Row(p.0, p.1) == i && Col(p.0, p.1) == j && a[p.0][p.1] == c
  }

  /** Every filled cell of the grid records in `writer` the slot and letter position written there. */
  ghost predicate GridWrittenBy(letters: array2<Option<char>>, a: Assignment, writer: map<(int, int), (Variable, int)>)
    reads letters
  {
    forall i, j :: 0 <= i < letters.Length0 && 0 <= j < letters.Length1 && letters[i, j].Some? ==>
      (i, j) in writer && Source(a, writer[(i, j)], i, j, letters[i, j].value)
  }

  /** Writes the word of `variable` into the grid, letter by letter (the inner loop of `letter_grid`). */
  method WriteWord(letters: array2<Option<char>>, a: Assignment, variable: Variable,
                   ghost writer: map<(int, int), (Variable, int)>)
    returns (ghost writer': map<(int, int), (Variable, int)>)
    requires variable in a && GridWrittenBy(letters, a, writer)
    requires forall k :: 0 <= k < |a[variable]| ==>
               0 <= Row(variable, k) < letters.Length0 && 0 <= Col(variable, k) < letters.Length1
    modifies letters
    ensures GridWrittenBy(letters, a, writer')
    ensures forall i, j :: 0 <= i < letters.Length0 && 0 <= j < letters.Length1 && old(letters[i, j]).Some? ==>
              letters[i, j].Some?
    ensures forall k :: 0 <= k < |a[variable]| ==> letters[Row(variable, k), Col(variable, k)].Some?
  {
    writer' := writer;
    var word := a[variable];
    for k := 0 to |word|
      invariant GridWrittenBy(letters, a, writer')
      invariant forall i, j :: 0 <= i < letters.Length0 && 0 <= j < letters.Length1 && old(letters[i, j]).Some? ==>
                  letters[i, j].Some?
      invariant forall k' :: 0 <= k' < k ==> letters[Row(variable, k'), Col(variable, k')].Some?
    {
      var i, j := Row(variable, k), Col(variable, k);
      letters[i, j] := Some(word[k]);
      writer' := writer'[(i, j) := (variable, k)];
    }
  }

  /** Every word of `x`'s domain in `d` has a partner in `y`'s domain at their overlap. */
  ghost predicate ArcConsistentIn(cw: Crossword, d: map<Variable, set<string>>, x: Variable, y: Variable)
  {
    x in d && y in d && (x, y) in cw.overlaps && cw.overlaps[(x, y)].Some? ==>
      forall w :: w in d[x] ==> Supported(cw.overlaps[(x, y)].value, w, d[y])
  }

  /** Shrinking the first domain, with the second unchanged, keeps an arc consistent. */
  lemma ArcConsistentShrink(cw: Crossword, d: map<Variable, set<string>>, d': map<Variable, set<string>>,
                            x: Variable, y: Variable)
    requires ArcConsistentIn(cw, d, x, y)
    requires d.Keys == d'.Keys && (x in d ==> d'[x] <= d[x]) && (y in d ==> d'[y] == d[y])
    ensures ArcConsistentIn(cw, d', x, y)
  {
  }

  /**
   * The arcs AC-3 is asked to make consistent: every arc (p, q) of the
   * problem when `arcs` is `None`, the given arcs otherwise.
   */
  ghost predicate Tracked(cw: Crossword, arcs: Option<seq<(Variable, Variable)>>, p: Variable, q: Variable)
  {
    if arcs.None? then p in cw.variables && q in Neighbors(cw, p) else (p, q) in arcs.value
  }

  /** Every tracked arc is still waiting in `queue` or is already consistent. */
  ghost predicate ArcsPending(cw: Crossword, d: map<Variable, set<string>>, queue: seq<(Variable, Variable)>,
                              arcs: Option<seq<(Variable, Variable)>>)
  {
    forall p, q :: Tracked(cw, arcs, p, q) ==> (p, q) in queue || ArcConsistentIn(cw, d, p, q)
  }

  /**
   * The queue invariant of AC-3 survives one step: every tracked arc is
   * still waiting in the queue or is consistent, once arc (x, y) has been
   * revised and, if `x`'s domain shrank, every arc into `x` enqueued again.
   */
  lemma {:induction false} QueueStep(cw: Crossword, before: map<Variable, set<string>>, after: map<Variable, set<string>>,
                                      x: Variable, y: Variable, rest: seq<(Variable, Variable)>,
                                      queue: seq<(Variable, Variable)>, arcs: Option<seq<(Variable, Variable)>>)
    requires WellFormed(cw) && x in cw.variables && y in cw.variables && x != y
    requires arcs.Some? ==> ValidArcs(cw, arcs.value)
    requires before.Keys == after.Keys && x in before
    requires forall v :: v in before && v != x ==> after[v] == before[v]
    requires after[x] <= before[x]
    requires ArcConsistentIn(cw, after, x, y)
    requires after[x] != before[x] ==> forall z :: z in Neighbors(cw, x) ==> (z, x) in queue
    requires forall a :: a in rest ==> a in queue
    requires ArcsPending(cw, before, [(x, y)] + rest, arcs)
    ensures ArcsPending(cw, after, queue, arcs)
  {
    forall p, q | Tracked(cw, arcs, p, q) && (p, q) !in queue
      ensures ArcConsistentIn(cw, after, p, q)
    {
      assert (p, q) in [(x, y)] + rest || ArcConsistentIn(cw, before, p, q);
      if (p, q) != (x, y) {
        assert (p, q) !in rest;
        if q == x && after[x] != before[x] {
          assert p in cw.variables && p != x by {
            if arcs.Some? {
              var k :| 0 <= k < |arcs.value| && arcs.value[k] == (p, q);
            }
          }
          NeighborsSymmetric(cw, p, x);
          assert p !in Neighbors(cw, x);
        } else {
          ArcConsistentShrink(cw, before, after, p, q);
        }
      }
    }
  }

  /** The (slot, word) pairs of all domains; pruning a word shrinks it. */
  ghost function Pairs(d: map<Variable, set<string>>): set<(Variable, string)>
  {
    set v, w | v in d && w in d[v] :: (v, w)
  }

  /** Removing words from one domain is a strict shrink of the pairs. */
  lemma PairsShrink(d: map<Variable, set<string>>, x: Variable, smaller: set<string>)
    requires x in d && smaller < d[x]
    ensures Pairs(d[x := smaller]) < Pairs(d)
  {
    var w :| w in d[x] && w !in smaller;
    assert (x, w) in Pairs(d) && (x, w) !in Pairs(d[x := smaller]);
  }

  /** An arc of the problem: two different slots of the puzzle. */
  ghost predicate ValidArcs(cw: Crossword, arcs: seq<(Variable, Variable)>)
  {
    forall k :: 0 <= k < |arcs| ==> arcs[k].0 in cw.variables && arcs[k].1 in cw.variables && arcs[k].0 != arcs[k].1
  }

  /**
   * `q` is `queue` followed by the arc (z, x) for every slot z crossing x,
   * each exactly once, in some order.
   */
  ghost predicate Requeued(cw: Crossword, queue: seq<(Variable, Variable)>, q: seq<(Variable, Variable)>, x: Variable)
  {
    |q| == |queue| + |Neighbors(cw, x)| && q[..|queue|] == queue
    && (forall k :: |queue| <= k < |q| ==> q[k].1 == x && q[k].0 in Neighbors(cw, x))
    && (forall z :: z in Neighbors(cw, x) ==> (z, x) in q[|queue|..])
  }

  /** `added` holds the arc (z, x) for every z in `zs`, once each, and nothing else. */
  ghost predicate ArcsInto(added: seq<(Variable, Variable)>, zs: set<Variable>, x: Variable)
  {
    |added| == |zs|
    && (forall k :: 0 <= k < |added| ==> added[k].1 == x && added[k].0 in zs)
    && (forall z :: z in zs ==> (z, x) in added)
  }

  /** One more arc (z, x) for a new `z` keeps `ArcsInto`. */
  lemma ArcsIntoStep(added: seq<(Variable, Variable)>, zs: set<Variable>, x: Variable, z: Variable)
    requires ArcsInto(added, zs, x) && z !in zs
    ensures ArcsInto(added + [(z, x)], zs + {z}, x)
  {
    assert forall k :: 0 <= k < |added| ==> (added + [(z, x)])[k] == added[k];
  }

  /** Appending the arcs into `x` from every slot crossing it requeues them, inside the puzzle. */
  lemma AppendedArcs(cw: Crossword, queue: seq<(Variable, Variable)>, added: seq<(Variable, Variable)>, x: Variable)
    requires x in cw.variables && ValidArcs(cw, queue) && ArcsInto(added, Neighbors(cw, x), x)
    ensures Requeued(cw, queue, queue + added, x) && ValidArcs(cw, queue + added)
  {
    var q := queue + added;
    assert q[..|queue|] == queue && q[|queue|..] == added;
  }

  /** A requeued queue still holds every arc it held, and holds every arc into `x`. */
  lemma RequeuedKeeps(cw: Crossword, queue: seq<(Variable, Variable)>, q: seq<(Variable, Variable)>, x: Variable)
    requires Requeued(cw, queue, q, x)
    ensures forall a :: a in queue ==> a in q
    ensures forall z :: z in Neighbors(cw, x) ==> (z, x) in q
  {
    forall a | a in queue
      ensures a in q
    {
      var k :| 0 <= k < |queue| && queue[k] == a;
      assert q[..|queue|][k] == a;
    }
    forall z | z in Neighbors(cw, x)
      ensures (z, x) in q
    {
      assert (z, x) in q[|queue|..];
    }
  }

  /** The size of a union of disjoint sets is the sum of their sizes. */
  lemma {:induction false} DisjointUnionSize<T>(a: set<T>, b: set<T>)
    requires a !! b
    ensures |a + b| == |a| + |b|
    decreases |b|
  {
    if b != {} {
      var x :| x in b;
      DisjointUnionSize(a, b - {x});
      assert a + b == (a + (b - {x})) + {x};
    }
  }

  /** `ordered` lists its words by nondecreasing key. */
  ghost predicate SortedBy(ordered: seq<string>, key: map<string, nat>)
  {
    forall i, j :: 0 <= i < j < |ordered| ==> ordered[i] in key && ordered[j] in key && key[ordered[i]] <= key[ordered[j]]
  }

  /**
   * Python's `sorted(values, key=...)`: the words of `values`, each once, by
   * nondecreasing key.  Words are inserted one by one, in any order, after
   * every word whose key is not larger.
   */
  method SortByKey(values: set<string>, key: map<string, nat>) returns (ordered: seq<string>)
    requires values <= key.Keys
    ensures multiset(ordered) == multiset(values)
    ensures SortedBy(ordered, key)
  {
    ordered := [];
    var rest := values;
    while rest != {}
      invariant rest <= values
      invariant multiset(ordered) + multiset(rest) == multiset(values)
      invariant forall m :: 0 <= m < |ordered| ==> ordered[m] in key
      invariant SortedBy(ordered, key)
      decreases rest
    {
      var value :| value in rest;
      var k := FindSlot(ordered, value, key);
      InsertSorted(ordered, k, value, key);
      assert ordered == ordered[..k] + ordered[k..];
      ordered := ordered[..k] + [value] + ordered[k..];
      rest := rest - {value};
    }
  }

  /** The position after every word whose key is not larger than `value`'s. */
  method FindSlot(ordered: seq<string>, value: string, key: map<string, nat>) returns (k: nat)
    requires value in key && forall m :: 0 <= m < |ordered| ==> ordered[m] in key
    requires SortedBy(ordered, key)
    ensures k <= |ordered|
    ensures forall m :: 0 <= m < k ==> key[ordered[m]] <= key[value]
    ensures k < |ordered| ==> key[value] < key[ordered[k]]
  {
    k := 0;
    while k < |ordered| && key[ordered[k]] <= key[value]
      invariant k <= |ordered|
      invariant forall m :: 0 <= m < k ==> key[ordered[m]] <= key[value]
    {
      k := k + 1;
    }
  }

  /** Inserting a word after every word with a key not larger, and before the rest, keeps the order. */
  lemma InsertSorted(ordered: seq<string>, k: nat, value: string, key: map<string, nat>)
    requires k <= |ordered| && value in key
    requires forall m :: 0 <= m < |ordered| ==> ordered[m] in key
    requires SortedBy(ordered, key)
    requires forall m :: 0 <= m < k ==> key[ordered[m]] <= key[value]
    requires k < |ordered| ==> key[value] < key[ordered[k]]
    ensures SortedBy(ordered[..k] + [value] + ordered[k..], key)
  {
    var n := ordered[..k] + [value] + ordered[k..];
    forall i, j | 0 <= i < j < |n|
      ensures n[i] in key && n[j] in key && key[n[i]] <= key[n[j]]
    {
      if j < k {
        assert n[i] == ordered[i] && n[j] == ordered[j];
      } else if j == k {
        assert n[i] == ordered[i];
      } else if i == k {
        assert n[j] == ordered[j - 1];
        assert j - 1 == k || key[ordered[k]] <= key[ordered[j - 1]];
      } else if i < k {
        assert n[i] == ordered[i] && n[j] == ordered[j - 1];
      } else {
        assert n[i] == ordered[i - 1] && n[j] == ordered[j - 1];
      }
    }
  }

  // ---------------------------------------------------------------------------
  // Helpers of revise
  // ---------------------------------------------------------------------------

  /** The first loop of `enforce_node_consistency`: the words of `words` whose length differs from the slot's. */
  method WrongLengthWords(variable: Variable, words: set<string>) returns (removeWords: seq<string>)
    ensures forall w :: w in removeWords <==> w in words && variable.length != |w|
  {
    removeWords := [];
    var rest := words;
    while rest != {}
      invariant rest <= words
      invariant forall w :: w in removeWords <==> w in words - rest && variable.length != |w|
      decreases rest
    {
      var word :| word in rest;
      if variable.length != |word| {
        removeWords := removeWords + [word];
      }
      rest := rest - {word};
    }
  }

  /** The outer loop of `revise`: the words of `dx` that no word of `dy` supports at `o`. */
  method UnsupportedWords(o: (int, int), dx: set<string>, dy: set<string>) returns (removeValues: set<string>)
    requires forall wx :: wx in dx ==> 0 <= o.0 < |wx|
    requires forall wy :: wy in dy ==> 0 <= o.1 < |wy|
    ensures forall w :: w in removeValues <==> w in dx && !Supported(o, w, dy)
  {
    removeValues := {};
    var todo := dx;
    while todo != {}
      invariant todo <= dx
      invariant forall w :: w in removeValues <==> w in dx - todo && !Supported(o, w, dy)
      decreases todo
    {
      var wordX :| wordX in todo;
      var consistent := HasSupport(o, wordX, dy);
      if !consistent {
        removeValues := removeValues + {wordX};
      }
      todo := todo - {wordX};
    }
  }

  /** The inner loop of `revise`: whether some word of `dy` agrees with `wordX` at `o`. */
  method HasSupport(o: (int, int), wordX: string, dy: set<string>) returns (consistent: bool)
    requires 0 <= o.0 < |wordX|
    requires forall wy :: wy in dy ==> 0 <= o.1 < |wy|
    ensures consistent <==> Supported(o, wordX, dy)
  {
    consistent := false;
    var todo := dy;
    while todo != {}
      invariant todo <= dy
      invariant forall wy :: wy in dy - todo ==> !Fits(o, wordX, wy)
      decreases todo
    {
      var wordY :| wordY in todo;
      if wordX[o.0] == wordY[o.1] {
        consistent := true;
        assert Fits(o, wordX, wordY);
        return;
      }
      todo := todo - {wordY};
    }
  }

  // ---------------------------------------------------------------------------
  // The solver
  // ---------------------------------------------------------------------------

  class CrosswordCreator {
    const crossword: Crossword
    var domains: map<Variable, set<string>>

    /** The puzzle is well formed and every slot, and nothing else, has a domain. */
    ghost predicate Valid()
      reads this
    {
      WellFormed(crossword) && domains.Keys == crossword.variables
    }

    /** Every word in a domain has the length of its slot. */
    ghost predicate NodeConsistent()
      reads this
    {
      forall v, w :: v in domains && w in domains[v] ==> |w| == v.length
    }

    /** Every word of `x`'s domain has a partner in `y`'s domain at their overlap. */
    ghost predicate ArcConsistent(x: Variable, y: Variable)
      reads this
    {
      ArcConsistentIn(crossword, domains, x, y)
    }

    /** Every slot starts with the whole vocabulary. */
    constructor (crossword: Crossword)
      requires WellFormed(crossword)
      ensures this.crossword == crossword
      ensures Valid()
      ensures forall v :: v in domains ==> domains[v] == crossword.words
      ensures forall s :: Solution(crossword, s) ==> Within(s, domains)
    {
      this.crossword := crossword;
      domains := map v | v in crossword.variables :: crossword.words;
    }

    /** Removes from every domain the words whose length differs from the slot's. */
    method EnforceNodeConsistency()
      requires Valid()
      modifies this
      ensures Valid() && NodeConsistent()
      ensures forall v :: v in domains ==> domains[v] == set w | w in old(domains)[v] && |w| == v.length
      ensures forall s :: Solution(crossword, s) && Within(s, old(domains)) ==> Within(s, domains)
    {
      var todo := domains.Keys;
      while todo != {}
        invariant todo <= domains.Keys && domains.Keys == old(domains).Keys
        invariant forall v :: v in domains && v !in todo ==> domains[v] == set w | w in old(domains)[v] && |w| == v.length
        invariant forall v :: v in todo ==> domains[v] == old(domains)[v]
        decreases todo
      {
        var variable :| variable in todo;
        var removeWords := WrongLengthWords(variable, domains[variable]);
        RemoveWordList(variable, removeWords);
        assert domains[variable] == set w | w in old(domains)[variable] && |w| == variable.length;
        todo := todo - {variable};
      }
    }

    /** The second loop of `enforce_node_consistency`: removes the listed words from `variable`'s domain. */
    method RemoveWordList(variable: Variable, removeWords: seq<string>)
      requires variable in domains
      modifies this
      ensures domains.Keys == old(domains).Keys
      ensures domains[variable] == old(domains)[variable] - set w | w in removeWords
      ensures forall v :: v in domains && v != variable ==> domains[v] == old(domains)[v]
    {
      for k := 0 to |removeWords|
        invariant domains.Keys == old(domains).Keys
        invariant domains[variable] == old(domains)[variable] - set w | w in removeWords[..k]
        invariant forall v :: v in domains && v != variable ==> domains[v] == old(domains)[v]
      {
        assert removeWords[..k + 1] == removeWords[..k] + [removeWords[k]];
        domains := domains[variable := domains[variable] - {removeWords[k]}];
      }
      assert removeWords[..|removeWords|] == removeWords;
    }

    /**
     * Makes `x` arc consistent with `y`: removes from `x`'s domain the words
     * with no partner in `y`'s domain at their overlap, and says whether it
     * removed any.  Slots that do not cross are left alone.
     */
    method Revise(x: Variable, y: Variable) returns (revised: bool)
      requires Valid() && NodeConsistent()
      requires x in crossword.variables && y in crossword.variables && x != y
      modifies this
      ensures Valid() && NodeConsistent()
      ensures crossword.overlaps[(x, y)].None? ==> !revised && domains == old(domains)
      ensures crossword.overlaps[(x, y)].Some? ==>
                domains == old(domains)[x := set w | w in old(domains)[x] && Supported(crossword.overlaps[(x, y)].value, w, old(domains)[y])]
      ensures revised <==> domains[x] != old(domains)[x]
      ensures forall s :: Solution(crossword, s) && Within(s, old(domains)) ==> Within(s, domains)
    {
      var overlap := crossword.overlaps[(x, y)];
      if overlap.None? {
        return false;
      }
      var o := overlap.value;
      var removeValues := UnsupportedWords(o, domains[x], domains[y]);
      revised := RemoveWords(x, removeValues);
      assert domains[x] == set w | w in old(domains)[x] && Supported(o, w, old(domains)[y]);
      forall s | Solution(crossword, s) && Within(s, old(domains))
        ensures Within(s, domains)
      {
        assert y in Neighbors(crossword, x);
        assert Fits(o, s[x], s[y]);
      }
    }

    /** Removes the words of `removeValues` from `x`'s domain, one by one; answers whether any was removed. */
    method RemoveWords(x: Variable, removeValues: set<string>) returns (revised: bool)
      requires x in domains && removeValues <= domains[x]
      modifies this
      ensures domains.Keys == old(domains).Keys && domains[x] == old(domains)[x] - removeValues
      ensures forall v :: v in domains && v != x ==> domains[v] == old(domains)[v]
      ensures revised <==> removeValues != {}
    {
      revised := false;
      var rest := removeValues;
      while rest != {}
        invariant rest <= removeValues
        invariant domains.Keys == old(domains).Keys && forall v :: v in domains && v != x ==> domains[v] == old(domains)[v]
        invariant domains[x] == old(domains)[x] - (removeValues - rest)
        invariant revised <==> rest != removeValues
        decreases rest
      {
        var wordX :| wordX in rest;
        domains := domains[x := domains[x] - {wordX}];
        revised := true;
        rest := rest - {wordX};
      }
    }

    /** Every arc (x, y) of the problem, for every slot x and every slot y crossing it, in any order. */
    method InitialArcs() returns (arcs: seq<(Variable, Variable)>)
      requires Valid()
      ensures ValidArcs(crossword, arcs)
      ensures forall x, y :: (x, y) in arcs <==> x in crossword.variables && y in Neighbors(crossword, x)
    {
      arcs := [];
      var xs := crossword.variables;
      while xs != {}
        invariant xs <= crossword.variables
        invariant ValidArcs(crossword, arcs)
        invariant forall x, y :: (x, y) in arcs <==> x in crossword.variables - xs && y in Neighbors(crossword, x)
        decreases xs
      {
        var x :| x in xs;
        var ys := Neighbors(crossword, x);
        while ys != {}
          invariant ys <= Neighbors(crossword, x)
          invariant ValidArcs(crossword, arcs)
          invariant forall x', y :: (x', y) in arcs <==>
                      (x' in crossword.variables - xs && y in Neighbors(crossword, x'))
                      || (x' == x && y in Neighbors(crossword, x) - ys)
          decreases ys
        {
          var y :| y in ys;
          arcs := arcs + [(x, y)];
          ys := ys - {y};
        }
        xs := xs - {x};
      }
    }

    /**
     * After `x`'s domain shrank, appends the arc (z, x) for every slot z
     * crossing x, once each, in any order.  The source subtracts `y`'s
     * domain, a set of words, from the set of slots crossing x, which removes
     * nothing, so `y` itself is enqueued again too.
     */
    method Requeue(queue: seq<(Variable, Variable)>, x: Variable) returns (q: seq<(Variable, Variable)>)
      requires x in crossword.variables && ValidArcs(crossword, queue)
      ensures Requeued(crossword, queue, q, x)
      ensures ValidArcs(crossword, q)
    {
      var crossing := Neighbors(crossword, x);
      var added: seq<(Variable, Variable)> := [];
      var zs := crossing;
      ghost var done: set<Variable> := {};
      while zs != {}
        invariant zs !! done && zs + done == crossing
        invariant ArcsInto(added, done, x)
        decreases zs
      {
        var z :| z in zs;
        ArcsIntoStep(added, done, x, z);
        added := added + [(z, x)];
        zs := zs - {z};
        done := done + {z};
      }
      AppendedArcs(crossword, queue, added, x);
      q := queue + added;
    }

    /**
     * One round of AC-3: takes the arc (x, y) at the front of the queue and
     * revises it; when x's domain shrank, reports whether it became empty
     * and, if not, enqueues every arc into x again.
     */
    method ProcessArc(queue: seq<(Variable, Variable)>, ghost arcs: Option<seq<(Variable, Variable)>>)
      returns (next: seq<(Variable, Variable)>, emptied: bool)
      requires Valid() && NodeConsistent() && ValidArcs(crossword, queue) && |queue| > 0
      requires arcs.Some? ==> ValidArcs(crossword, arcs.value)
      requires ArcsPending(crossword, domains, queue, arcs)
      modifies this
      ensures Valid() && NodeConsistent() && ValidArcs(crossword, next)
      ensures crossword.overlaps[queue[0]].None? ==> domains == old(domains)
      ensures crossword.overlaps[queue[0]].Some? ==>
                domains == old(domains)[queue[0].0 := set w | w in old(domains)[queue[0].0]
                                                       && Supported(crossword.overlaps[queue[0]].value, w, old(domains)[queue[0].1])]
      ensures emptied <==> domains[queue[0].0] != old(domains)[queue[0].0] && domains[queue[0].0] == {}
      ensures !emptied && domains == old(domains) ==> next == queue[1..]
      ensures !emptied && domains != old(domains) ==> Requeued(crossword, queue[1..], next, queue[0].0)
      ensures forall s :: Solution(crossword, s) && Within(s, old(domains)) ==> Within(s, domains)
      ensures !emptied ==> ArcsPending(crossword, domains, next, arcs)
      ensures !emptied ==> Pairs(domains) < old(Pairs(domains)) || (domains == old(domains) && |next| < |queue|)
    {
      var (x, y) := queue[0];
      next := queue[1..];
      ghost var rest := next;
      ghost var before := domains;
      var revised := Revise(x, y);
      ArcRevised(before, x, y);
      emptied := false;
      if revised {
        PairsShrink(before, x, domains[x]);
        assert domains == before[x := domains[x]];
        if |domains[x]| == 0 {
          return next, true;
        }
        next := Requeue(next, x);
        RequeuedKeeps(crossword, rest, next, x);
      } else {
        assert domains == before by {
          assert domains == before[x := domains[x]];
        }
      }
      QueueStep(crossword, before, domains, x, y, rest, next, arcs);
    }

    /**
     * AC-3: revises arcs taken from the front of a queue (all arcs of the
     * problem when `arcs` is `None`, the given ones otherwise) until the queue
     * is empty or a domain becomes empty.  It answers `false` in both cases.
     */
    method Ac3(arcs: Option<seq<(Variable, Variable)>>) returns (r: bool)
      requires Valid() && NodeConsistent()
      requires arcs.Some? ==> ValidArcs(crossword, arcs.value)
      modifies this
      ensures !r
      ensures Valid() && NodeConsistent()
      ensures forall v :: v in domains ==> domains[v] <= old(domains)[v]
      ensures forall s :: Solution(crossword, s) && Within(s, old(domains)) ==> Within(s, domains)
      ensures arcs.None? && (forall v :: v in domains ==> domains[v] != {}) ==>
                forall x, y :: x in crossword.variables && y in Neighbors(crossword, x) ==> ArcConsistent(x, y)
      ensures arcs.Some? && (forall v :: v in domains ==> domains[v] != {}) ==>
                forall k :: 0 <= k < |arcs.value| ==> ArcConsistent(arcs.value[k].0, arcs.value[k].1)
    {
      var queue: seq<(Variable, Variable)>;
      if arcs.None? {
        queue := InitialArcs();
      } else {
        queue := arcs.value;
      }
      while |queue| > 0
        invariant Valid() && NodeConsistent() && ValidArcs(crossword, queue)
        invariant forall v :: v in domains ==> domains[v] <= old(domains)[v]
        invariant forall s :: Solution(crossword, s) && Within(s, old(domains)) ==> Within(s, domains)
        invariant ArcsPending(crossword, domains, queue, arcs)
        decreases Pairs(domains), |queue|
      {
        var emptied;
        queue, emptied := ProcessArc(queue, arcs);
        if emptied {
          return false;
        }
      }
      if arcs.Some? {
        forall k | 0 <= k < |arcs.value|
          ensures ArcConsistent(arcs.value[k].0, arcs.value[k].1)
        {
          assert Tracked(crossword, arcs, arcs.value[k].0, arcs.value[k].1);
        }
      }
      return false;
    }

    /** After `Revise(x, y)` the arc (x, y) is consistent. */
    lemma ArcRevised(before: map<Variable, set<string>>, x: Variable, y: Variable)
      requires x != y && x in before && y in before && domains.Keys == before.Keys
      requires (x, y) in crossword.overlaps
      requires crossword.overlaps[(x, y)].None? ==> domains == before
      requires crossword.overlaps[(x, y)].Some? ==>
                 domains == before[x := set w | w in before[x] && Supported(crossword.overlaps[(x, y)].value, w, before[y])]
      ensures ArcConsistent(x, y)
    {
    }

    /** Whether every slot of the puzzle has a word in `assignment`. */
    method AssignmentComplete(assignment: Assignment) returns (r: bool)
      ensures r <==> Complete(crossword, assignment)
    {
      var rest := crossword.variables;
      while rest != {}
        invariant rest <= crossword.variables
        invariant forall v :: v in crossword.variables - rest ==> v in assignment
        decreases rest
      {
        var variable :| variable in rest;
        if variable !in assignment {
          return false;
        }
        rest := rest - {variable};
      }
      return true;
    }

    /**
     * Whether `assignment` is consistent: its words are distinct, each has its
     * slot's length, and crossing slots agree on their shared letter.  The
     * entries are examined in any order and the first violation answers
     * `false`.  The source indexes every word at its overlap offsets, which
     * needs each word to be at least as long as its slot.
     */
    method Consistent(assignment: Assignment) returns (r: bool)
      requires Valid()
      requires forall v :: v in assignment ==> v in crossword.variables && |assignment[v]| >= v.length
      ensures r <==> ConsistentSpec(crossword, assignment)
    {
      var previouslySeen: set<string> := {};
      var rest := assignment.Keys;
      ghost var done: set<Variable> := {};
      while rest != {}
        invariant rest + done == assignment.Keys && rest !! done
        invariant forall x, y :: x in done && y in done && x != y ==>
                    assignment[x] != assignment[y]
        invariant forall v :: v in done ==> assignment[v] in previouslySeen
        invariant forall w :: w in previouslySeen ==> exists v :: v in done && assignment[v] == w
        invariant forall v :: v in done ==> |assignment[v]| == v.length
        invariant forall v, n :: v in done && n in assignment && n in Neighbors(crossword, v) ==>
                    Fits(crossword.overlaps[(v, n)].value, assignment[v], assignment[n])
        decreases rest
      {
        var variable :| variable in rest;
        var word := assignment[variable];
        if word in previouslySeen {
          ghost var u :| u in done && assignment[u] == word;
          assert !DistinctWords(assignment) by {
            assert u != variable;
          }
          return false;
        }
        previouslySeen := previouslySeen + {word};
        if |word| != variable.length {
          return false;
        }
        var agrees := AgreesWithNeighbors(assignment, variable);
        if !agrees {
          assert !Agreeing(crossword, assignment);
          return false;
        }
        rest := rest - {variable};
        done := done + {variable};
      }
      return true;
    }

    /**
     * Whether the word of `variable` agrees with the word of every assigned
     * slot crossing it (the inner loop of `consistent`).
     */
    method AgreesWithNeighbors(assignment: Assignment, variable: Variable) returns (r: bool)
      requires Valid() && variable in assignment
      requires forall v :: v in assignment ==> v in crossword.variables && |assignment[v]| >= v.length
      ensures r <==> forall n :: n in assignment && n in Neighbors(crossword, variable) ==>
                       Fits(crossword.overlaps[(variable, n)].value, assignment[variable], assignment[n])
    {
      var word := assignment[variable];
      var neighbors := Neighbors(crossword, variable);
      while neighbors != {}
        invariant neighbors <= Neighbors(crossword, variable)
        invariant forall n :: n in Neighbors(crossword, variable) - neighbors && n in assignment ==>
                    Fits(crossword.overlaps[(variable, n)].value, word, assignment[n])
        decreases neighbors
      {
        var neighbor :| neighbor in neighbors;
        if neighbor in assignment {
          var (letteri, letterj) := crossword.overlaps[(variable, neighbor)].value;
          if word[letteri] != assignment[neighbor][letterj] {
            return false;
          }
        }
        neighbors := neighbors - {neighbor};
      }
      return true;
    }

    /**
     * The values of the unassigned slots crossing `variable` that the word
     * `value` would rule out: the pairs (slot, word) whose word disagrees
     * with `value` on the shared cell.
     */
    ghost function RuledOut(variable: Variable, value: string, assignment: Assignment): set<(Variable, string)>
      reads this
      requires WellFormed(crossword)
    {
      set n, w | n in Neighbors(crossword, variable) && n !in assignment && n in domains && w in domains[n]
                 && Conflict(variable, value, (n, w)) :: (n, w)
    }

    /** The word `p.1` of the crossing slot `p.0` disagrees with `value` on the shared cell. */
    ghost predicate Conflict(variable: Variable, value: string, p: (Variable, string))
      reads this
      requires WellFormed(crossword)
    {
      p.0 in Neighbors(crossword, variable) && p.0 in domains && p.1 in domains[p.0]
      && !Fits(crossword.overlaps[(variable, p.0)].value, value, p.1)
    }

    /** A set holding exactly the conflicting pairs of unassigned slots is `RuledOut`. */
    lemma RuledOutIs(variable: Variable, value: string, assignment: Assignment, found: set<(Variable, string)>)
      requires WellFormed(crossword)
      requires forall p :: p in found <==> (Conflict(variable, value, p) && p.0 !in assignment)
      ensures found == RuledOut(variable, value, assignment)
    {
      forall p | p in RuledOut(variable, value, assignment)
        ensures p in found
      {
        var (n, w) := p;
        assert Conflict(variable, value, (n, w));
      }
    }

    /** How many values of unassigned crossing slots the word `value` rules out. */
    method CountConflicts(variable: Variable, value: string, assignment: Assignment) returns (conflicts: nat)
      requires Valid() && NodeConsistent() && variable in crossword.variables && |value| == variable.length
      ensures conflicts == |RuledOut(variable, value, assignment)|
    {
      conflicts := 0;
      ghost var found: set<(Variable, string)> := {};
      var unassignedNeighbors := Neighbors(crossword, variable) - assignment.Keys;
      while unassignedNeighbors != {}
        invariant unassignedNeighbors <= Neighbors(crossword, variable) - assignment.Keys
        invariant conflicts == |found|
        invariant forall p :: p in found <==>
                    (Conflict(variable, value, p) && p.0 !in assignment && p.0 !in unassignedNeighbors)
        decreases unassignedNeighbors
      {
        var neighbor :| neighbor in unassignedNeighbors;
        var c, added := CountMismatches(variable, value, neighbor);
        assert found !! added;
        DisjointUnionSize(found, added);
        found := found + added;
        conflicts := conflicts + c;
        unassignedNeighbors := unassignedNeighbors - {neighbor};
      }
      RuledOutIs(variable, value, assignment, found);
    }

    /** The words of a crossing slot's domain that disagree with `value` on the shared cell. */
    method CountMismatches(variable: Variable, value: string, neighbor: Variable)
      returns (count: nat, ghost added: set<(Variable, string)>)
      requires Valid() && NodeConsistent() && variable in crossword.variables && |value| == variable.length
      requires neighbor in Neighbors(crossword, variable)
      ensures count == |added|
      ensures forall p :: p in added <==> (p.0 == neighbor && Conflict(variable, value, p))
    {
      var (letterx, lettery) := crossword.overlaps[(variable, neighbor)].value;
      count := 0;
      added := {};
      var others := domains[neighbor];
      while others != {}
        invariant others <= domains[neighbor]
        invariant count == |added|
        invariant forall p :: p in added <==> (p.0 == neighbor && p.1 !in others && Conflict(variable, value, p))
        decreases others
      {
        var anotherValue :| anotherValue in others;
        if value[letterx] != anotherValue[lettery] {
          added := added + {(neighbor, anotherValue)};
          count := count + 1;
        }
        others := others - {anotherValue};
      }
    }

    /**
     * The least-constraining-value heuristic: the words of `variable`'s
     * domain, each once, ordered by how many values of the unassigned
     * crossing slots they rule out, fewest first.
     */
    method OrderDomainValues(variable: Variable, assignment: Assignment) returns (ordered: seq<string>)
      requires Valid() && NodeConsistent() && variable in crossword.variables
      ensures multiset(ordered) == multiset(domains[variable])
      ensures forall i, j :: 0 <= i < j < |ordered| ==>
                |RuledOut(variable, ordered[i], assignment)| <= |RuledOut(variable, ordered[j], assignment)|
    {
      var conflicts: map<string, nat> := map[];
      var values := domains[variable];
      while values != {}
        invariant values <= domains[variable]
        invariant conflicts.Keys == domains[variable] - values
        invariant forall w :: w in conflicts ==> conflicts[w] == |RuledOut(variable, w, assignment)|
        decreases values
      {
        var value :| value in values;
        var c := CountConflicts(variable, value, assignment);
        conflicts := conflicts[value := c];
        values := values - {value};
      }
      ordered := SortByKey(domains[variable], conflicts);
      forall i, j | 0 <= i < j < |ordered|
        ensures |RuledOut(variable, ordered[i], assignment)| <= |RuledOut(variable, ordered[j], assignment)|
      {
        assert ordered[i] in multiset(ordered) && ordered[j] in multiset(ordered);
      }
    }

    /**
     * The minimum-remaining-values heuristic with the degree heuristic as
     * tie-break: an unassigned slot with the fewest words left in its domain
     * and, among those, with the most crossing slots; `None` when every slot
     * is assigned.
     */
    method SelectUnassignedVariable(assignment: Assignment) returns (chosen: Option<Variable>)
      requires Valid()
      ensures chosen.None? <==> Complete(crossword, assignment)
      ensures chosen.Some? ==> chosen.value in crossword.variables && chosen.value !in assignment
      ensures chosen.Some? ==> forall u :: u in crossword.variables && u !in assignment ==>
                |domains[chosen.value]| < |domains[u]|
                || (|domains[chosen.value]| == |domains[u]|
                    && |Neighbors(crossword, u)| <= |Neighbors(crossword, chosen.value)|)
    {
      var unassignedVars: seq<Variable> := [];
      var rest := crossword.variables;
      while rest != {}
        invariant rest <= crossword.variables
        invariant forall v :: v in unassignedVars <==> v in crossword.variables - rest && v !in assignment
        invariant forall m :: 0 <= m < |unassignedVars| ==> unassignedVars[m] in crossword.variables
        decreases rest
      {
        var variable :| variable in rest;
        if variable !in assignment {
          unassignedVars := unassignedVars + [variable];
        }
        rest := rest - {variable};
      }
      // `chosen == None` stands for the source's initial minimum of infinity.
      var minValues := 0;
      chosen := None;
      for k := 0 to |unassignedVars|
        invariant forall m :: 0 <= m < |unassignedVars| ==> unassignedVars[m] in crossword.variables
        invariant chosen.None? <==> k == 0
        invariant chosen.Some? ==> chosen.value in unassignedVars && minValues == |domains[chosen.value]|
        invariant chosen.Some? ==> forall m :: 0 <= m < k ==>
                    minValues < |domains[unassignedVars[m]]|
                    || (minValues == |domains[unassignedVars[m]]|
                        && |Neighbors(crossword, unassignedVars[m])| <= |Neighbors(crossword, chosen.value)|)
      {
        var variable := unassignedVars[k];
        if chosen.None? || |domains[variable]| < minValues {
          minValues := |domains[variable]|;
          chosen := Some(variable);
        } else if |domains[variable]| == minValues {
          // The source also accepts when the minimum is `None`, which it never is.
          if |Neighbors(crossword, variable)| > |Neighbors(crossword, chosen.value)| {
            chosen := Some(variable);
          }
        }
      }
      assert chosen.None? ==> unassignedVars == [];
    }

    /**
     * Backtracking search: extends `assignment` slot by slot, trying the words
     * of the chosen slot's domain in the heuristic order and keeping only
     * consistent extensions.  A found assignment covers every slot, keeps
     * `assignment`, takes its new words from the domains and is consistent
     * (unless it is `assignment` itself, which is returned unchecked when
     * complete); `None` means no solution within the domains extends
     * `assignment`.
     */
    /** A solution within the current domains that extends `a`. */
    ghost predicate Viable(s: Assignment, a: Assignment)
      reads this
    {
      Solution(crossword, s) && Within(s, domains) && Extends(s, a)
    }

    method Backtrack(assignment: Assignment) returns (r: Option<Assignment>)
      requires Valid() && NodeConsistent()
      requires forall v :: v in assignment ==> v in crossword.variables && |assignment[v]| >= v.length
      ensures r.Some? ==> r.value.Keys == crossword.variables && Extends(r.value, assignment)
      ensures r.Some? ==> r.value == assignment || ConsistentSpec(crossword, r.value)
      ensures r.Some? ==> forall v :: v in r.value && v !in assignment ==> r.value[v] in domains[v]
      ensures r.None? ==> forall s :: !Viable(s, assignment)
      decreases |crossword.variables - assignment.Keys|, 2
    {
      var complete := AssignmentComplete(assignment);
      if complete {
        return Some(assignment);
      }
      var chosen := SelectUnassignedVariable(assignment);
      var variable := chosen.value;
      assert forall w :: w in multiset(domains[variable]) ==> w in domains[variable];
      var values := OrderDomainValues(variable, assignment);
      assert forall w :: w in domains[variable] ==> w in multiset(values);
      r := TryValues(assignment, variable, values);
      if r.None? {
        forall s | Viable(s, assignment)
          ensures false
        {
        }
      }
    }

    /** The loop of the backtracking search: tries the words of `values` in order until one leads to a solution. */
    method TryValues(assignment: Assignment, variable: Variable, values: seq<string>) returns (r: Option<Assignment>)
      requires Valid() && NodeConsistent()
      requires forall v :: v in assignment ==> v in crossword.variables && |assignment[v]| >= v.length
      requires variable in crossword.variables && variable !in assignment
      requires forall k :: 0 <= k < |values| ==> values[k] in domains[variable]
      ensures r.Some? ==> r.value.Keys == crossword.variables && Extends(r.value, assignment)
      ensures r.Some? ==> ConsistentSpec(crossword, r.value)
      ensures r.Some? ==> forall v :: v in r.value && v !in assignment ==> r.value[v] in domains[v]
      ensures r.None? ==> forall s :: Viable(s, assignment) ==> s[variable] !in values
      decreases |crossword.variables - assignment.Keys|, 1
    {
      for k := 0 to |values|
        invariant forall s :: Viable(s, assignment) ==> s[variable] !in values[..k]
      {
        r := TryValue(assignment, variable, values[k]);
        if r.Some? {
          return r;
        }
        assert values[..k + 1] == values[..k] + [values[k]];
      }
      assert values[..|values|] == values;
      return None;
    }

    /**
     * One iteration of the backtracking loop: gives `variable` the word
     * `value` in a copy of `assignment` and, when the copy is consistent,
     * searches on from it.
     */
    method TryValue(assignment: Assignment, variable: Variable, value: string) returns (r: Option<Assignment>)
      requires Valid() && NodeConsistent()
      requires forall v :: v in assignment ==> v in crossword.variables && |assignment[v]| >= v.length
      requires variable in crossword.variables && variable !in assignment && value in domains[variable]
      ensures r.Some? ==> r.value.Keys == crossword.variables && Extends(r.value, assignment)
      ensures r.Some? ==> ConsistentSpec(crossword, r.value)
      ensures r.Some? ==> forall v :: v in r.value && v !in assignment ==> r.value[v] in domains[v]
      ensures r.None? ==> forall s :: Viable(s, assignment) ==> s[variable] != value
      decreases |crossword.variables - assignment.Keys|, 0
    {
      var copyAssignment := assignment[variable := value];
      assert forall v :: v in copyAssignment ==> v in crossword.variables && |copyAssignment[v]| >= v.length;
      var consistent := Consistent(copyAssignment);
      r := None;
      if consistent {
        FewerUnassigned(crossword.variables, assignment.Keys, variable);
        r := Backtrack(copyAssignment);
      }
      if r.Some? {
        FoundByOne(crossword, domains, r.value, assignment, variable, value);
      } else {
        NoViableExtension(assignment, copyAssignment, variable, value);
      }
    }

    /**
     * When `b`, which gives `variable` the word `value` on top of `a`, is
     * inconsistent or extended by no solution, no solution extending `a`
     * gives `variable` that word.
     */
    lemma NoViableExtension(a: Assignment, b: Assignment, variable: Variable, value: string)
      requires variable in crossword.variables && b == a[variable := value]
      requires !ConsistentSpec(crossword, b) || forall s :: !Viable(s, b)
      ensures forall s :: Viable(s, a) ==> s[variable] != value
    {
      forall s | Viable(s, a)
        ensures s[variable] != value
      {
        if s[variable] == value {
          ViableExtension(s, a, variable, value);
        }
      }
    }

    /** A solution extending `a` and giving `variable` the word `value` extends the extension of `a`. */
    lemma ViableExtension(s: Assignment, a: Assignment, variable: Variable, value: string)
      requires Viable(s, a) && variable in s && s[variable] == value
      ensures Viable(s, a[variable := value]) && ConsistentSpec(crossword, a[variable := value])
    {
      ConsistentSubset(crossword, a[variable := value], s);
    }

    /**
     * Enforces node consistency, then arc consistency (whose answer is
     * ignored), then searches from the empty assignment.  A found assignment
     * is a consistent filling of every slot with words of the domains it
     * started from; `None` means there is no such solution.
     */
    method Solve() returns (r: Option<Assignment>)
      requires Valid()
      modifies this
      ensures r.Some? ==> r.value.Keys == crossword.variables && ConsistentSpec(crossword, r.value)
      ensures r.Some? ==> Within(r.value, old(domains))
      ensures r.None? ==> forall s :: Solution(crossword, s) && Within(s, old(domains)) ==> false
    {
      EnforceNodeConsistency();
      ghost var pruned := domains;
      var _ := Ac3(None);
      r := Backtrack(map[]);
      if r.Some? && r.value == map[] {
        assert ConsistentSpec(crossword, r.value);
      }
      forall s | Solution(crossword, s) && Within(s, old(domains))
        ensures Viable(s, map[])
      {
        assert Within(s, pruned);
      }
    }

    /**
     * The letters of `assignment` laid out on the grid: a cell holds `None`
     * when no word covers it, and otherwise a letter of a word covering it
     * (the word written last, when several do).
     */
    method LetterGrid(assignment: Assignment) returns (letters: array2<Option<char>>)
      requires Placeable(assignment, crossword.height, crossword.width)
      ensures fresh(letters)
      ensures letters.Length0 == (if crossword.height < 0 then 0 else crossword.height)
      ensures letters.Length1 == (if crossword.width < 0 then 0 else crossword.width)
      ensures forall v, k :: v in assignment && 0 <= k < |assignment[v]| ==> letters[Row(v, k), Col(v, k)].Some?
      ensures forall i, j :: 0 <= i < letters.Length0 && 0 <= j < letters.Length1 && letters[i, j].Some? ==>
                exists v, k :: v in assignment && 0 <= k < |assignment[v]| && Row(v, k) == i && Col(v, k) == j
                               && assignment[v][k] == letters[i, j].value
    {
      var rows := if crossword.height < 0 then 0 else crossword.height;
      var cols := if crossword.width < 0 then 0 else crossword.width;
      letters := new Option<char>[rows, cols]((_, _) => None);
      ghost var writer: map<(int, int), (Variable, int)> := map[];
      var rest := assignment.Keys;
      while rest != {}
        invariant rest <= assignment.Keys
        invariant GridWrittenBy(letters, assignment, writer)
        invariant forall v, k :: v in assignment && v !in rest && 0 <= k < |assignment[v]| ==>
                    letters[Row(v, k), Col(v, k)].Some?
        decreases rest
      {
        var variable :| variable in rest;
        writer := WriteWord(letters, assignment, variable, writer);
        rest := rest - {variable};
      }
      forall i, j | 0 <= i < letters.Length0 && 0 <= j < letters.Length1 && letters[i, j].Some?
        ensures exists v, k :: v in assignment && 0 <= k < |assignment[v]| && Row(v, k) == i && Col(v, k) == j
                               && assignment[v][k] == letters[i, j].value
      {
        var (v, k) := writer[(i, j)];
        assert Source(assignment, (v, k), i, j, letters[i, j].value);
      }
    }
  }
}
