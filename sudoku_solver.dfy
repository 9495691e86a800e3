/**
 * The solver: repeatedly fill every cell that has exactly one candidate, then
 * guess each candidate of the first unfilled cell in turn and recurse,
 * taking the moves back when every guess fails.
 */
module SudokuSolver {
  import opened Types
  import opened SudokuIndex
  import opened SudokuRules
  import opened SudokuGrid

  /**
   * How a call of `solve` ends: `Solved` and `Unsolved` are its `true` and
   * `false`; `StackUnderflow` is the panic of its final undo when the move
   * stack holds no move from before the call.
   */
  datatype SolveResult = Solved | Unsolved | StackUnderflow

  /**
   * Going from board `g` with move stack `s` to board `g2` with stack `s2`
   * only pushed moves, each filling a cell that was unfilled in `g` with a
   * value in 1..9, and changed no other cell.
   */
  ghost predicate FillsOnly(g: Board, s: seq<nat>, g2: Board, s2: seq<nat>) {
    && |s| <= |s2| && s2[..|s|] == s
    && (forall k | |s| <= k < |s2| :: s2[k] < GridSize && g[s2[k]] == 0 && g2[s2[k]] in SudokuNumbers)
    && (forall j | 0 <= j < GridSize && j !in s2[|s|..] :: g2[j] == g[j])
  }

  lemma FillsOnlyReflexive(g: Board, s: seq<nat>)
    ensures FillsOnly(g, s, g, s)
  {
  }

  /** A cell that held a clue before fills only still holds it. */
  lemma FillsOnlyKeepsClue(g: Board, s: seq<nat>, g2: Board, s2: seq<nat>, i: nat)
    requires FillsOnly(g, s, g2, s2) && i < GridSize && g[i] != 0
    ensures g2[i] == g[i]
  {
    assert i !in s2[|s|..];
  }

  /** One more fill of an unfilled cell keeps `FillsOnly`. */
  lemma FillsOnlyStep(g: Board, s: seq<nat>, g2: Board, s2: seq<nat>, i: nat, v: u8)
    requires FillsOnly(g, s, g2, s2) && i < GridSize && g2[i] == 0 && v in SudokuNumbers
    ensures FillsOnly(g, s, g2[i := v], s2 + [i])
  {
    var pushed, s3 := s2[|s|..], s2 + [i];
    assert s3[|s|..] == pushed + [i];
    assert i !in pushed by {
      if k :| 0 <= k < |pushed| && pushed[k] == i {
        assert false;
      }
    }
    forall j | 0 <= j < GridSize && j !in s3[|s|..] ensures g2[i := v][j] == g[j] {
      assert j !in pushed && j != i;
    }
  }

  /** `FillsOnly` composes. */
  lemma FillsOnlyTransitive(g1: Board, s1: seq<nat>, g2: Board, s2: seq<nat>, g3: Board, s3: seq<nat>)
    requires FillsOnly(g1, s1, g2, s2) && FillsOnly(g2, s2, g3, s3)
    ensures FillsOnly(g1, s1, g3, s3)
  {
    var p, q := s2[|s1|..], s3[|s2|..];
    assert s3[..|s1|] == s3[..|s2|][..|s1|];
    assert s3[|s1|..] == p + q;
    forall a, b | 0 <= a < |p| && 0 <= b < |q| ensures p[a] != q[b] {
      assert s2[|s1| + a] == p[a];
      assert s3[|s2| + b] == q[b];
    }
    forall k | |s1| <= k < |s3| ensures s3[k] < GridSize && g1[s3[k]] == 0 && g3[s3[k]] in SudokuNumbers {
      if k < |s2| {
        assert s3[k] == s2[k];
        assert s2[k] !in q by {
          if b :| 0 <= b < |q| && q[b] == s2[k] {
            assert false;
          }
        }
      } else {
        assert s3[k] == q[k - |s2|];
        assert s3[k] !in p by {
          if a :| 0 <= a < |p| && p[a] == s3[k] {
            assert false;
          }
        }
      }
    }
  }

  /** Fills only shrink the set of unfilled cells, strictly when a move was pushed. */
  lemma FillsOnlyShrinksZeroSet(g: Board, s: seq<nat>, g2: Board, s2: seq<nat>)
    requires FillsOnly(g, s, g2, s2)
    ensures ZeroSet(g2) <= ZeroSet(g) && |ZeroSet(g2)| <= |ZeroSet(g)|
    ensures |s2| > |s| ==> ZeroSet(g2) < ZeroSet(g)
  {
    forall k | |s| <= k < |s2| ensures s2[k] !in ZeroSet(g2) {
    }
    if |s2| > |s| {
      assert s2[|s|] in ZeroSet(g) && s2[|s|] !in ZeroSet(g2);
    }
    SubsetCardinality(ZeroSet(g2), ZeroSet(g));
  }

  /** Clearing the pushed cells together with one more cell `x` restores `g` with `x` cleared. */
  lemma FillsOnlyUndone(g: Board, s: seq<nat>, g2: Board, s2: seq<nat>, x: nat)
    requires FillsOnly(g, s, g2, s2) && x < GridSize
    ensures forall k | 0 <= k < |[x] + s2[|s|..]| :: ([x] + s2[|s|..])[k] < GridSize
    ensures ClearCells(g2, [x] + s2[|s|..]) == g[x := 0]
  {
    var cells := [x] + s2[|s|..];
    forall k | 0 <= k < |cells| ensures cells[k] < GridSize {
      if k > 0 {
        assert cells[k] == s2[|s| + k - 1];
      }
    }
    var r := ClearCells(g2, cells);
    ClearCellsValues(g2, cells);
    forall j | 0 <= j < GridSize ensures r[j] == g[x := 0][j] {
      if j in cells && j != x {
        var k :| 0 <= k < |cells| && cells[k] == j;
        assert s2[|s| + k - 1] == j;
      }
    }
  }

  /** A filled, clash-free board reached by fills only is a solution of the starting board. */
  lemma FilledBoardCompletes(g: Board, s: seq<nat>, g2: Board, s2: seq<nat>)
    requires FillsOnly(g, s, g2, s2) && ZeroSet(g2) == {} && NoConflicts(g2)
    requires forall k | 0 <= k < GridSize :: g[k] <= 9
    ensures IsCompletionOf(g2, g)
  {
    forall k | 0 <= k < GridSize ensures g2[k] in SudokuNumbers && (g[k] != 0 ==> g2[k] == g[k]) {
      assert k !in ZeroSet(g2);
      if k in s2[|s|..] {
        var a :| 0 <= a < |s2[|s|..]| && s2[|s|..][a] == k;
        assert s2[|s| + a] == k;
      }
    }
  }

  /** The writes of forced propagation: the value is the cell's only candidate. */
  const OnlyCandidate: (Board, nat, u8) -> bool :=
    (h: Board, c: nat, v: u8) => c < GridSize && CandidateSet(h, c) == {v}

  /** The writes of a guess: the value is one of the cell's candidates. */
  const SomeCandidate: (Board, nat, u8) -> bool :=
    (h: Board, c: nat, v: u8) => c < GridSize && v in CandidateSet(h, c)

  /**
   * The moves of `s` from position `from` on, which left board `g`, seen
   * through undo: each of them wrote a non-zero value into a cell that no
   * later move writes, and once undone together with every later move it
   * leaves a board on which `rule` allows that value in that cell.
   */
  ghost predicate MovesAllowed(g: Board, s: seq<nat>, from: nat, rule: (Board, nat, u8) -> bool) {
    && (forall k | 0 <= k < |s| :: s[k] < GridSize)
    && forall t {:trigger ClearCells(g, s[t..])} | from <= t < |s| ::
         && s[t] !in s[t + 1..]
         && g[s[t]] != 0
         && rule(ClearCells(g, s[t..]), s[t], g[s[t]])
  }

  /** Clearing `a + b` clears `b` first, then `a`. */
  lemma {:induction false} ClearCellsConcat(g: Board, a: seq<nat>, b: seq<nat>)
    requires forall k | 0 <= k < |a| :: a[k] < GridSize
    requires forall k | 0 <= k < |b| :: b[k] < GridSize
    ensures forall k | 0 <= k < |a + b| :: (a + b)[k] < GridSize
    ensures ClearCells(g, a + b) == ClearCells(ClearCells(g, b), a)
    decreases |b|
  {
    if b == [] {
      assert a + b == a;
    } else {
      var last := b[|b| - 1];
      ClearCellsConcat(g[last := 0], a, b[..|b| - 1]);
      assert (a + b)[..|a + b| - 1] == a + b[..|b| - 1];
    }
  }

  /** Writing a value that `rule` allows into an unfilled cell is one more allowed move. */
  lemma MovesAllowedPush(g: Board, s: seq<nat>, from: nat, rule: (Board, nat, u8) -> bool, i: nat, v: u8)
    requires MovesAllowed(g, s, from, rule)
    requires i < GridSize && g[i] == 0 && v != 0 && rule(g, i, v)
    ensures MovesAllowed(g[i := v], s + [i], from, rule)
  {
    var g', s' := g[i := v], s + [i];
    assert g'[i := 0] == g;
    assert ClearCells(g', [i]) == g;
    forall t | from <= t < |s'|
      ensures s'[t] !in s'[t + 1..] && g'[s'[t]] != 0 && rule(ClearCells(g', s'[t..]), s'[t], g'[s'[t]])
    {
      if t == |s| {
        assert s'[t..] == [i] && s'[t + 1..] == [];
      } else {
        assert s'[t..] == s[t..] + [i];
        assert s'[t + 1..] == s[t + 1..] + [i];
        ClearCellsConcat(g', s[t..], [i]);
        assert ClearCells(g', s'[t..]) == ClearCells(g, s[t..]);
        assert s'[t] == s[t] != i;
      }
    }
  }

  /**
   * The allowed moves since `from` that left (`g1`, `s1`), followed by the
   * allowed moves that fill onwards from there to (`g`, `s`), are allowed
   * moves since `from`.
   */
  lemma MovesAllowedExtend(g1: Board, s1: seq<nat>, from: nat, g: Board, s: seq<nat>, rule: (Board, nat, u8) -> bool)
    requires from <= |s1| && FillsOnly(g1, s1, g, s)
    requires MovesAllowed(g1, s1, from, rule) && MovesAllowed(g, s, |s1|, rule)
    ensures MovesAllowed(g, s, from, rule)
  {
    FillsOnlyRestored(g1, s1, g, s);
    forall t | from <= t < |s|
      ensures s[t] !in s[t + 1..] && g[s[t]] != 0 && rule(ClearCells(g, s[t..]), s[t], g[s[t]])
    {
      if t < |s1| {
        MovesAllowedExtendAt(g1, s1, from, g, s, rule, t);
      } else {
        assert rule(ClearCells(g, s[t..]), s[t], g[s[t]]);
      }
    }
  }

  /** One move of (`g1`, `s1`), seen from (`g`, `s`) after further fills. */
  lemma MovesAllowedExtendAt(g1: Board, s1: seq<nat>, from: nat, g: Board, s: seq<nat>, rule: (Board, nat, u8) -> bool, t: nat)
    requires from <= t < |s1| && FillsOnly(g1, s1, g, s) && ClearCells(g, s[|s1|..]) == g1
    requires MovesAllowed(g1, s1, from, rule) && forall k | 0 <= k < |s| :: s[k] < GridSize
    ensures s[t] !in s[t + 1..] && g[s[t]] != 0 && rule(ClearCells(g, s[t..]), s[t], g[s[t]])
  {
    var c, later := s1[t], s[|s1|..];
    assert s[t] == c;
    assert s[t..] == s1[t..] + later;
    assert s[t + 1..] == s1[t + 1..] + later;
    ClearCellsConcat(g, s1[t..], later);
    assert ClearCells(g, s[t..]) == ClearCells(g1, s1[t..]);
    FillsOnlyKeepsClue(g1, s1, g, s, c);
    forall k | 0 <= k < |later| ensures later[k] != c {
      assert later[k] == s[|s1| + k];
    }
  }

  /** Forced moves are in particular moves writing a candidate. */
  lemma ForcedMovesAllowed(g: Board, s: seq<nat>, from: nat)
    requires MovesAllowed(g, s, from, OnlyCandidate)
    ensures MovesAllowed(g, s, from, SomeCandidate)
  {
    forall t | from <= t < |s| ensures SomeCandidate(ClearCells(g, s[t..]), s[t], g[s[t]]) {
      assert OnlyCandidate(ClearCells(g, s[t..]), s[t], g[s[t]]);
    }
  }

  /**
   * The fills from (`g0`, `s0`) to (`g`, `s`) keep every solution of `g0`
   * and create no clash on a clash-free board.
   */
  ghost predicate SoundFill(g0: Board, s0: seq<nat>, g: Board, s: seq<nat>) {
    && FillsOnly(g0, s0, g, s)
    && (NoConflicts(g0) ==> NoConflicts(g))
    && forall sol: Board | IsCompletionOf(sol, g0) :: IsCompletionOf(sol, g)
  }

  lemma SoundFillReflexive(g: Board, s: seq<nat>)
    ensures SoundFill(g, s, g, s)
  {
    FillsOnlyReflexive(g, s);
  }

  /** Writing the only candidate of an unfilled cell is a sound fill. */
  lemma SoundFillForcedStep(g0: Board, s0: seq<nat>, g: Board, s: seq<nat>, i: nat, v: u8)
    requires SoundFill(g0, s0, g, s) && i < GridSize && g[i] == 0 && CandidateSet(g, i) == {v}
    ensures SoundFill(g0, s0, g[i := v], s + [i])
  {
    FillsOnlyStep(g0, s0, g, s, i, v);
    if NoConflicts(g0) {
      LegalWriteKeepsNoConflicts(g, i, v);
    }
    forall sol: Board | IsCompletionOf(sol, g0) ensures IsCompletionOf(sol, g[i := v]) {
      ForcedValueKeepsCompletion(sol, g, i, v);
    }
  }

  lemma SoundFillTransitive(g1: Board, s1: seq<nat>, g2: Board, s2: seq<nat>, g3: Board, s3: seq<nat>)
    requires SoundFill(g1, s1, g2, s2) && SoundFill(g2, s2, g3, s3)
    ensures SoundFill(g1, s1, g3, s3)
  {
    FillsOnlyTransitive(g1, s1, g2, s2, g3, s3);
  }

  /** `get_forced_clue`: the only candidate of cell `index`, if it has exactly one. */
  method GetForcedClue(p: SudokuPuzzle, index: nat) returns (r: Option<u8>)
    requires p.Valid() && index < GridSize
    ensures r.Some? <==> |CandidateSet(p.grid[..], index)| == 1
    ensures r.Some? ==> CandidateSet(p.grid[..], index) == {r.value}
  {
    var clues := p.GetPossibleClues(index);
    NoDupCardinality(clues);
    if |clues| == 1 {
      assert clues == [clues[0]];
      r := Some(clues[0]);
    } else {
      r := None;
    }
  }

  /**
   * The board that a pass visiting the cells in increasing order sees on
   * reaching cell `c`: the cells before `c` as the pass has left them on
   * `g`, the others as they were on `g0` when the pass began.
   */
  ghost function BoardBefore(g0: Board, g: Board, c: nat): Board {
    seq(GridSize, j requires 0 <= j < GridSize => if j < c then g[j] else g0[j])
  }

  /**
   * Where a pass over the increasing cells `cells` stands after visiting
   * the first `k` of them, from board `g0` with moves `s0` to board `g`
   * with moves `s`: the moves it pushed are forced writes in increasing
   * order, all before `cells[k]`, and each visited cell it left unfilled
   * had no single candidate on the board the pass saw there.
   */
  ghost predicate PassState(g0: Board, s0: seq<nat>, cells: seq<nat>, k: nat, g: Board, s: seq<nat>)
    requires k <= |cells|
  {
    && |s0| <= |s|
    && MovesAllowed(g, s, |s0|, OnlyCandidate)
    && (forall a, b | |s0| <= a < b < |s| :: s[a] < s[b])
    && (k < |cells| ==> forall t | |s0| <= t < |s| :: s[t] < cells[k])
    && (forall m | 0 <= m < k && cells[m] < GridSize && cells[m] !in s[|s0|..] ::
          Unforced(BoardBefore(g0, g, cells[m]), cells[m]))
  }

  lemma PassStart(g0: Board, s0: seq<nat>, cells: seq<nat>)
    requires forall k | 0 <= k < |s0| :: s0[k] < GridSize
    ensures PassState(g0, s0, cells, 0, g0, s0)
  {
    assert s0[|s0|..] == [];
  }

  /** Before the pass reaches cell `cells[k]`, no later cell has changed. */
  lemma PassSeesCurrentBoard(g0: Board, s0: seq<nat>, cells: seq<nat>, k: nat, g: Board, s: seq<nat>)
    requires k < |cells| && PassState(g0, s0, cells, k, g, s) && FillsOnly(g0, s0, g, s)
    ensures BoardBefore(g0, g, cells[k]) == g
  {
    var pushed := s[|s0|..];
    forall j | cells[k] <= j < GridSize ensures g[j] == g0[j] {
      forall t | 0 <= t < |pushed| ensures pushed[t] != j {
        assert pushed[t] == s[|s0| + t];
      }
    }
  }

  /** Visiting a cell without a single candidate changes nothing. */
  lemma PassSkip(g0: Board, s0: seq<nat>, cells: seq<nat>, k: nat, g: Board, s: seq<nat>)
    requires k < |cells| && PassState(g0, s0, cells, k, g, s) && FillsOnly(g0, s0, g, s)
    requires forall a, b | 0 <= a < b < |cells| :: cells[a] < cells[b]
    requires cells[k] < GridSize && Unforced(g, cells[k])
    ensures PassState(g0, s0, cells, k + 1, g, s)
  {
    PassSeesCurrentBoard(g0, s0, cells, k, g, s);
    if k + 1 < |cells| {
      assert cells[k] < cells[k + 1];
    }
  }

  /** A write at cell `i` changes nothing that the pass saw before reaching `i`. */
  lemma BoardBeforeIgnoresLater(g0: Board, g: Board, c: nat, i: nat, v: u8)
    requires c <= i < GridSize
    ensures BoardBefore(g0, g[i := v], c) == BoardBefore(g0, g, c)
  {
  }

  /** Visiting a cell with a single candidate writes it and pushes the cell. */
  lemma PassPush(g0: Board, s0: seq<nat>, cells: seq<nat>, k: nat, g: Board, s: seq<nat>, v: u8)
    requires k < |cells| && PassState(g0, s0, cells, k, g, s)
    requires forall a, b | 0 <= a < b < |cells| :: cells[a] < cells[b]
    requires cells[k] < GridSize && g[cells[k]] == 0 && CandidateSet(g, cells[k]) == {v}
    ensures PassState(g0, s0, cells, k + 1, g[cells[k] := v], s + [cells[k]])
  {
    var i, g', s' := cells[k], g[cells[k] := v], s + [cells[k]];
    assert v in CandidateSet(g, i);
    MovesAllowedPush(g, s, |s0|, OnlyCandidate, i, v);
    assert s'[|s0|..] == s[|s0|..] + [i];
    forall a, b | |s0| <= a < b < |s'| ensures s'[a] < s'[b] {
      if b == |s| {
        assert s'[a] == s[a];
      }
    }
    if k + 1 < |cells| {
      assert cells[k] < cells[k + 1];
    }
    forall m | 0 <= m < k + 1 && cells[m] < GridSize && cells[m] !in s'[|s0|..]
      ensures Unforced(BoardBefore(g0, g', cells[m]), cells[m])
    {
      assert m < k;
      BoardBeforeIgnoresLater(g0, g, cells[m], i, v);
    }
  }

  /** A pass that filled nothing saw the board it started on everywhere: that board is at a fixed point. */
  lemma PassWithoutFillsAtFixedPoint(g0: Board, s0: seq<nat>, s: seq<nat>)
    requires |s0| == |s|
    requires forall c | 0 <= c < GridSize && g0[c] == 0 && c !in s[|s0|..] :: Unforced(BoardBefore(g0, g0, c), c)
    ensures AtFixedPoint(g0)
  {
    forall c | 0 <= c < GridSize && g0[c] == 0 ensures Unforced(g0, c) {
      assert BoardBefore(g0, g0, c) == g0;
    }
  }

  /** At the end of the pass, every cell it left unfilled was unforced when visited. */
  lemma PassEnd(g0: Board, s0: seq<nat>, cells: seq<nat>, g: Board, s: seq<nat>)
    requires PassState(g0, s0, cells, |cells|, g, s)
    requires Elements(cells) == ZeroSet(g0)
    ensures forall c | 0 <= c < GridSize && g0[c] == 0 && c !in s[|s0|..] :: Unforced(BoardBefore(g0, g, c), c)
  {
    forall c | 0 <= c < GridSize && g0[c] == 0 && c !in s[|s0|..] ensures Unforced(BoardBefore(g0, g, c), c) {
      assert c in ZeroSet(g0);
      assert c in Elements(cells);
      var m :| 0 <= m < |cells| && cells[m] == c;
    }
  }

  /**
   * `forced_fill`: one pass over the cells that were unfilled when the pass
   * began, writing each one's value when it has a single candidate on the
   * board as it stands at that point of the pass.
   */
  method ForcedFill(p: SudokuPuzzle) returns (filledSquare: bool)
    requires p.Valid()
    modifies p, p.grid, p.rows, p.blocks, p.cols
    ensures p.Valid()
    ensures SoundFill(old(p.grid[..]), old(p.moveStack), p.grid[..], p.moveStack)
    ensures MovesAllowed(p.grid[..], p.moveStack, |old(p.moveStack)|, OnlyCandidate)
    ensures forall a, b | |old(p.moveStack)| <= a < b < |p.moveStack| :: p.moveStack[a] < p.moveStack[b]
    ensures forall c | 0 <= c < GridSize && old(p.grid[..])[c] == 0 && c !in p.moveStack[|old(p.moveStack)|..] ::
      Unforced(BoardBefore(old(p.grid[..]), p.grid[..], c), c)
    ensures filledSquare <==> |p.moveStack| > |old(p.moveStack)|
    ensures !filledSquare ==> p.grid[..] == old(p.grid[..]) && AtFixedPoint(p.grid[..])
  {
    ghost var g0: Board := p.grid[..];
    ghost var s0 := p.moveStack;
    SoundFillReflexive(g0, s0);
    filledSquare := false;
    var clueless := p.GetCluelessSquaresEnumerated();
    PassStart(g0, s0, clueless);
    for k := 0 to |clueless|
      invariant p.Valid()
      invariant SoundFill(g0, s0, p.grid[..], p.moveStack)
      invariant PassState(g0, s0, clueless, k, p.grid[..], p.moveStack)
      invariant filledSquare <==> |p.moveStack| > |s0|
      invariant !filledSquare ==> p.grid[..] == g0
    {
      var i := clueless[k];
      var clue := GetForcedClue(p, i);
      if clue.Some? {
        ghost var g: Board := p.grid[..];
        ghost var s := p.moveStack;
        PassSeesCurrentBoard(g0, s0, clueless, k, g, s);
        assert g[i] == 0;
        p.SetSquare(i, clue.value);
        SoundFillForcedStep(g0, s0, g, s, i, clue.value);
        PassPush(g0, s0, clueless, k, g, s, clue.value);
        filledSquare := true;
      } else {
        PassSkip(g0, s0, clueless, k, p.grid[..], p.moveStack);
      }
    }
    PassEnd(g0, s0, clueless, p.grid[..], p.moveStack);
    if !filledSquare {
      PassWithoutFillsAtFixedPoint(g0, s0, p.moveStack);
    }
  }



  /** `fill_forced_clues`: forced-fill passes until one fills nothing. */
  method FillForcedClues(p: SudokuPuzzle)
    requires p.Valid()
    modifies p, p.grid, p.rows, p.blocks, p.cols
    ensures p.Valid()
    ensures SoundFill(old(p.grid[..]), old(p.moveStack), p.grid[..], p.moveStack)
    ensures MovesAllowed(p.grid[..], p.moveStack, |old(p.moveStack)|, OnlyCandidate)
    ensures AtFixedPoint(p.grid[..])
  {
    ghost var g0: Board := p.grid[..];
    ghost var s0 := p.moveStack;
    SoundFillReflexive(g0, s0);
    var foundClue := true;
    while foundClue
      invariant p.Valid()
      invariant SoundFill(g0, s0, p.grid[..], p.moveStack)
      invariant MovesAllowed(p.grid[..], p.moveStack, |s0|, OnlyCandidate)
      invariant !foundClue ==> AtFixedPoint(p.grid[..])
      decreases ZeroSet(p.grid[..]), foundClue
    {
      ghost var g: Board := p.grid[..];
      ghost var s := p.moveStack;
      foundClue := ForcedFill(p);
      SoundFillTransitive(g0, s0, g, s, p.grid[..], p.moveStack);
      MovesAllowedExtend(g, s, |s0|, p.grid[..], p.moveStack, OnlyCandidate);
      FillsOnlyShrinksZeroSet(g, s, p.grid[..], p.moveStack);
    }
  }

  /** Every clue of the board is 0 or a sudoku number. */
  predicate CluesAreDigits(g: Board) {
    forall k | 0 <= k < GridSize :: g[k] <= 9
  }

  /**
   * What a successful solve from (`g0`, `s0`) leaves behind in (`g`, `s`): a
   * board without unfilled cells reached by fills only, each writing a
   * candidate of its cell on the board as it stood then, clash-free when
   * `g0` was, and then a solution of `g0` whenever `g0` held digits only.
   */
  ghost predicate SolvedFrom(g0: Board, s0: seq<nat>, g: Board, s: seq<nat>) {
    && ZeroSet(g) == {}
    && FillsOnly(g0, s0, g, s)
    && MovesAllowed(g, s, |s0|, SomeCandidate)
    && (NoConflicts(g0) ==> NoConflicts(g))
    && (NoConflicts(g0) && CluesAreDigits(g0) ==> IsCompletionOf(g, g0))
  }

  /** Filling every cell by fills only, without creating a clash, is a solve. */
  lemma FilledBoardSolves(g0: Board, s0: seq<nat>, g: Board, s: seq<nat>)
    requires FillsOnly(g0, s0, g, s) && ZeroSet(g) == {}
    requires MovesAllowed(g, s, |s0|, SomeCandidate)
    requires NoConflicts(g0) ==> NoConflicts(g)
    ensures SolvedFrom(g0, s0, g, s)
  {
    if NoConflicts(g0) && CluesAreDigits(g0) {
      FilledBoardCompletes(g0, s0, g, s);
    }
  }

  /** Guessing a candidate at an unfilled cell strictly shrinks the unfilled cells. */
  lemma GuessShrinksZeroSet(g: Board, i: nat, v: u8)
    requires i < GridSize && g[i] == 0 && v in CandidateSet(g, i)
    ensures ZeroSet(g[i := v]) < ZeroSet(g) && |ZeroSet(g[i := v])| < |ZeroSet(g)|
  {
    assert ZeroSet(g[i := v]) == ZeroSet(g) - {i};
  }

  /** A guessed candidate of an unfilled cell and a solve from there make a solve from before the guess. */
  lemma GuessThenSolved(g1: Board, s1: seq<nat>, i: nat, v: u8, g: Board, s: seq<nat>)
    requires i < GridSize && g1[i] == 0 && v in CandidateSet(g1, i)
    requires SolvedFrom(g1[i := v], s1 + [i], g, s)
    ensures SolvedFrom(g1, s1, g, s)
  {
    FillsOnlyReflexive(g1, s1);
    FillsOnlyStep(g1, s1, g1, s1, i, v);
    FillsOnlyTransitive(g1, s1, g1[i := v], s1 + [i], g, s);
    forall k | 0 <= k < |s1| ensures s1[k] < GridSize {
      assert s1[k] == s[k];
    }
    MovesAllowedPush(g1, s1, |s1|, SomeCandidate, i, v);
    MovesAllowedExtend(g1[i := v], s1 + [i], |s1|, g, s, SomeCandidate);
    if NoConflicts(g1) {
      LegalWriteKeepsNoConflicts(g1, i, v);
    }
    FilledBoardSolves(g1, s1, g, s);
  }

  /** Sound fills followed by a solve make a solve from before the fills. */
  lemma SolvedAfterSoundFill(g0: Board, s0: seq<nat>, g1: Board, s1: seq<nat>, g: Board, s: seq<nat>)
    requires SoundFill(g0, s0, g1, s1) && MovesAllowed(g1, s1, |s0|, OnlyCandidate)
    requires SolvedFrom(g1, s1, g, s)
    ensures SolvedFrom(g0, s0, g, s)
  {
    FillsOnlyTransitive(g0, s0, g1, s1, g, s);
    ForcedMovesAllowed(g1, s1, |s0|);
    MovesAllowedExtend(g1, s1, |s0|, g, s, SomeCandidate);
    FilledBoardSolves(g0, s0, g, s);
  }

  /** Sound fills lose no solution: a board they lead to without one had none before. */
  lemma NoCompletionBeforeSoundFill(g0: Board, s0: seq<nat>, g1: Board, s1: seq<nat>)
    requires SoundFill(g0, s0, g1, s1) && !HasCompletion(g1)
    ensures !HasCompletion(g0)
  {
  }

  /** Clearing a guess at an unfilled cell restores the board. */
  lemma GuessCleared(g: Board, i: nat, v: u8)
    requires i < GridSize && g[i] == 0
    ensures g[i := v][i := 0] == g
  {
  }

  /** None of the first `k` guesses `clues` for cell `i` of `g` leads to a solution. */
  ghost predicate GuessesFail(g: Board, i: nat, clues: seq<u8>, k: nat)
    requires i < GridSize && k <= |clues|
  {
    forall j | 0 <= j < k :: !HasCompletion(g[i := clues[j]])
  }

  /** One more guess that leads to no solution. */
  lemma GuessFails(g: Board, i: nat, clues: seq<u8>, k: nat)
    requires i < GridSize && k < |clues| && GuessesFail(g, i, clues, k)
    requires !HasCompletion(g[i := clues[k]])
    ensures GuessesFail(g, i, clues, k + 1)
  {
  }

  /** When no candidate of an unfilled cell leads to a solution, the board has none. */
  lemma EveryCandidateFails(g: Board, i: nat, clues: seq<u8>)
    requires i < GridSize && g[i] == 0
    requires Elements(clues) == CandidateSet(g, i)
    requires GuessesFail(g, i, clues, |clues|)
    ensures !HasCompletion(g)
  {
    forall v | v in CandidateSet(g, i) ensures !HasCompletion(g[i := v]) {
      assert v in Elements(clues);
    }
    NoCompletionWhenEveryGuessFails(g, i);
  }

  /**
   * Undoing the `n` moves made since `s0` lost its last move, that is the
   * fills since `s0` and the last move of `s0`, leaves `s0` without its last
   * move and `g0` with that move's cell cleared.
   */
  lemma FailedGuessUndone(g0: Board, s0: seq<nat>, g1: Board, s1: seq<nat>, n: nat)
    requires FillsOnly(g0, s0, g1, s1) && |s0| > 0 && n == |s1| - |s0| + 1
    requires forall k | 0 <= k < |s1| :: s1[k] < GridSize
    ensures s1[..|s1| - n] == s0[..|s0| - 1]
    ensures ClearCells(g1, s1[|s1| - n..]) == g0[s0[|s0| - 1] := 0]
  {
    assert s1[|s1| - n..] == [s0[|s0| - 1]] + s1[|s0|..];
    FillsOnlyUndone(g0, s0, g1, s1, s0[|s0| - 1]);
  }

  /**
   * What a call of `solve` promises, from the board `g0` and move stack `s0`
   * it starts on to the board `g` and stack `s` it leaves behind.  A solved
   * call only filled unfilled cells and left none unfilled; a failing call
   * removed the top move of `s0` together with everything it did itself,
   * and cleared that move's cell; an underflowing call started on an empty
   * stack.  Whenever a call does not solve, the board it started on has no
   * solution.
   */
  ghost predicate SolveOutcome(g0: Board, s0: seq<nat>, g: Board, s: seq<nat>, result: SolveResult) {
    && (result == Solved ==> SolvedFrom(g0, s0, g, s))
    && (result == Unsolved ==> |s0| > 0 && s0[|s0| - 1] < GridSize && s == s0[..|s0| - 1] && g == g0[s0[|s0| - 1] := 0])
    && (result == StackUnderflow ==> s0 == [])
    && (result != Solved ==> !HasCompletion(g0))
  }

  /** Propagation that fills the board, or propagation followed by a successful search, solves. */
  lemma SolvedOutcome(g0: Board, s0: seq<nat>, g1: Board, s1: seq<nat>, g: Board, s: seq<nat>)
    requires SoundFill(g0, s0, g1, s1) && MovesAllowed(g1, s1, |s0|, OnlyCandidate)
    requires (g1 == g && s1 == s && ZeroSet(g) == {}) || SolvedFrom(g1, s1, g, s)
    ensures SolveOutcome(g0, s0, g, s, Solved)
  {
    if g1 == g && s1 == s && ZeroSet(g) == {} {
      ForcedMovesAllowed(g, s, |s0|);
      FilledBoardSolves(g0, s0, g, s);
    } else {
      SolvedAfterSoundFill(g0, s0, g1, s1, g, s);
    }
  }

  /**
   * A search that fails after propagation from a non-empty stack leaves,
   * once the forced moves and the caller's guess are undone, the entry
   * stack without its top and the entry board with that cell cleared.
   */
  lemma UnsolvedOutcome(g0: Board, s0: seq<nat>, g1: Board, s1: seq<nat>, n: nat)
    requires SoundFill(g0, s0, g1, s1) && !HasCompletion(g1)
    requires |s0| > 0 && n == |s1| - |s0| + 1
    requires forall k | 0 <= k < |s1| :: s1[k] < GridSize
    ensures n <= |s1|
    ensures SolveOutcome(g0, s0, ClearCells(g1, s1[|s1| - n..]), s1[..|s1| - n], Unsolved)
  {
    FailedGuessUndone(g0, s0, g1, s1, n);
    NoCompletionBeforeSoundFill(g0, s0, g1, s1);
  }

  /** A search that fails after propagation from an empty stack underflows it. */
  lemma UnderflowOutcome(g0: Board, g1: Board, s1: seq<nat>, g: Board, s: seq<nat>)
    requires SoundFill(g0, [], g1, s1) && !HasCompletion(g1)
    ensures SolveOutcome(g0, [], g, s, StackUnderflow)
  {
    NoCompletionBeforeSoundFill(g0, [], g1, s1);
  }

  /**
   * `solve`.  A failing call undoes its own forced moves and one move more:
   * the guess its caller made just before calling it.  On the outermost call
   * that extra move is missing and the undo panics.  Each guess fills one
   * more cell; the measure counts the unfilled cells twice so that it also
   * drops from `solve` to its guessing loop, where no cell need be filled.
   */
  method Solve(p: SudokuPuzzle) returns (result: SolveResult)
    requires p.Valid()
    modifies p, p.grid, p.rows, p.blocks, p.cols
    decreases 2 * |ZeroSet(p.grid[..])| + 1
    ensures p.Valid()
    ensures SolveOutcome(old(p.grid[..]), old(p.moveStack), p.grid[..], p.moveStack, result)
  {
    ghost var g0: Board := p.grid[..];
    ghost var s0 := p.moveStack;
    var movesBeforeFill := p.MovesCount();
    FillForcedClues(p);
    var forceFilledMoves := p.MovesCount() - movesBeforeFill;
    ghost var g1: Board := p.grid[..];
    ghost var s1 := p.moveStack;
    var next := p.GetNextCluelessIndex();
    if next.None? {
      SolvedOutcome(g0, s0, g1, s1, g1, s1);
      return Solved;
    }
    FillsOnlyShrinksZeroSet(g0, s0, g1, s1);
    var solved := TryClues(p, next.value);
    if solved {
      SolvedOutcome(g0, s0, g1, s1, p.grid[..], p.moveStack);
      return Solved;
    }
    if forceFilledMoves + 1 > p.MovesCount() {
      UnderflowOutcome(g0, g1, s1, g1, s1);
      p.UndoMoves(forceFilledMoves);
      return StackUnderflow;
    }
    UnsolvedOutcome(g0, s0, g1, s1, forceFilledMoves + 1);
    p.UndoMoves(forceFilledMoves + 1);
    return Unsolved;
  }

  /**
   * The guessing loop of `solve`: write each candidate of the unfilled cell
   * `i` in turn and solve from there, stopping at the first guess that
   * solves the board.  When none does, the board is as it was.
   */
  method TryClues(p: SudokuPuzzle, i: nat) returns (solved: bool)
    requires p.Valid() && i < GridSize && p.grid[i] == 0
    modifies p, p.grid, p.rows, p.blocks, p.cols
    decreases 2 * |ZeroSet(p.grid[..])|
    ensures p.Valid()
    ensures solved ==> SolvedFrom(old(p.grid[..]), old(p.moveStack), p.grid[..], p.moveStack)
    ensures !solved ==> p.grid[..] == old(p.grid[..]) && p.moveStack == old(p.moveStack)
    ensures !solved ==> !HasCompletion(old(p.grid[..]))
  {
    ghost var g1: Board := p.grid[..];
    ghost var s1 := p.moveStack;
    var clues := p.GetPossibleClues(i);
    for k := 0 to |clues|
      invariant p.Valid() && p.grid[..] == g1 && p.moveStack == s1
      invariant GuessesFail(g1, i, clues, k)
    {
      var clue := clues[k];
      assert clue in CandidateSet(g1, i);
      p.SetSquare(i, clue);
      ghost var g2: Board := p.grid[..];
      ghost var s2 := p.moveStack;
      if p.IsSolved() {
        FillsOnlyReflexive(g2, s2);
        FilledBoardSolves(g2, s2, g2, s2);
        GuessThenSolved(g1, s1, i, clue, g2, s2);
        return true;
      }
      GuessShrinksZeroSet(g1, i, clue);
      var outcome := Solve(p);
      if outcome == Solved {
        GuessThenSolved(g1, s1, i, clue, p.grid[..], p.moveStack);
        return true;
      }
      GuessCleared(g1, i, clue);
      GuessFails(g1, i, clues, k);
    }
    EveryCandidateFails(g1, i, clues);
    return false;
  }

  /** A board that has a solution holds only digits and blanks. */
  lemma CompletableCluesAreDigits(sol: Board, g: Board)
    requires IsCompletionOf(sol, g)
    ensures CluesAreDigits(g)
  {
  }

  /**
   * Solving a puzzle freshly built from a grid, as the solver tests do:
   * whenever the grid has a solution, the solve reports success and leaves
   * a solution of the grid.  On a fresh puzzle a failing solve always ends
   * in the panic of its final undo, never in a `false` return.
   */
  method SolveFresh(g0: Board) returns (result: SolveResult, grid: Board)
    ensures result != Unsolved
    ensures result == Solved ==> ZeroSet(grid) == {} && forall k | 0 <= k < GridSize && g0[k] != 0 :: grid[k] == g0[k]
    ensures HasCompletion(g0) ==> result == Solved && IsCompletionOf(grid, g0)
    ensures result == StackUnderflow ==> !HasCompletion(g0)
    ensures NoConflicts(g0) && CluesAreDigits(g0) && !HasCompletion(g0) ==> result == StackUnderflow
  {
    var p := new SudokuPuzzle.FromArray(g0);
    result := Solve(p);
    grid := p.grid[..];
    if result == Solved {
      forall k | 0 <= k < GridSize && g0[k] != 0 ensures grid[k] == g0[k] {
        FillsOnlyKeepsClue(g0, [], grid, p.moveStack, k);
      }
    }
    if HasCompletion(g0) {
      var sol :| IsCompletionOf(sol, g0);
      CompletableBoardHasNoConflicts(sol, g0);
      CompletableCluesAreDigits(sol, g0);
    }
  }

  /** Undoing every fill since `s` restores the board that the fills started from. */
  lemma FillsOnlyRestored(g: Board, s: seq<nat>, g2: Board, s2: seq<nat>)
    requires FillsOnly(g, s, g2, s2)
    ensures forall k | 0 <= k < |s2[|s|..]| :: s2[|s|..][k] < GridSize
    ensures ClearCells(g2, s2[|s|..]) == g
  {
    var cells := s2[|s|..];
    forall k | 0 <= k < |cells| ensures cells[k] < GridSize {
      assert cells[k] == s2[|s| + k];
    }
    ClearCellsValues(g2, cells);
    forall j | 0 <= j < GridSize ensures ClearCells(g2, cells)[j] == g[j] {
      if j in cells {
        var k :| 0 <= k < |cells| && cells[k] == j;
        assert s2[|s| + k] == j;
      }
    }
  }

  /**
   * A search that fails after propagation leaves, once the forced moves are
   * undone, the entry stack and the entry board, which has no solution.
   */
  lemma RestoredOutcome(g0: Board, s0: seq<nat>, g1: Board, s1: seq<nat>, n: nat)
    requires SoundFill(g0, s0, g1, s1) && !HasCompletion(g1) && n == |s1| - |s0|
    requires forall k | 0 <= k < |s1| :: s1[k] < GridSize
    ensures n <= |s1| && s1[..|s1| - n] == s0
    ensures ClearCells(g1, s1[|s1| - n..]) == g0 && !HasCompletion(g0)
  {
    FillsOnlyRestored(g0, s0, g1, s1);
    assert s1[|s1| - n..] == s1[|s0|..];
    NoCompletionBeforeSoundFill(g0, s0, g1, s1);
  }

  /**
   * `solve` as its `bool` result and its callers intend it: a failing call
   * undoes only its own forced moves, and the guessing loop undoes each
   * failed guess itself, so that a `false` return leaves the puzzle exactly
   * as the call found it, on the outermost call too.
   */
  method SolveRestoring(p: SudokuPuzzle) returns (solved: bool)
    requires p.Valid()
    modifies p, p.grid, p.rows, p.blocks, p.cols
    decreases 2 * |ZeroSet(p.grid[..])| + 1
    ensures p.Valid()
    ensures solved ==> SolvedFrom(old(p.grid[..]), old(p.moveStack), p.grid[..], p.moveStack)
    ensures !solved ==> p.grid[..] == old(p.grid[..]) && p.moveStack == old(p.moveStack)
    ensures !solved ==> !HasCompletion(old(p.grid[..]))
  {
    ghost var g0: Board := p.grid[..];
    ghost var s0 := p.moveStack;
    var movesBeforeFill := p.MovesCount();
    FillForcedClues(p);
    var forceFilledMoves := p.MovesCount() - movesBeforeFill;
    ghost var g1: Board := p.grid[..];
    ghost var s1 := p.moveStack;
    var next := p.GetNextCluelessIndex();
    if next.None? {
      SolvedOutcome(g0, s0, g1, s1, g1, s1);
      return true;
    }
    FillsOnlyShrinksZeroSet(g0, s0, g1, s1);
    solved := TryCluesRestoring(p, next.value);
    if solved {
      SolvedOutcome(g0, s0, g1, s1, p.grid[..], p.moveStack);
      return true;
    }
    RestoredOutcome(g0, s0, g1, s1, forceFilledMoves);
    p.UndoMoves(forceFilledMoves);
  }

  /** The guessing loop of `SolveRestoring`: a failed guess is undone before the next one. */
  method TryCluesRestoring(p: SudokuPuzzle, i: nat) returns (solved: bool)
    requires p.Valid() && i < GridSize && p.grid[i] == 0
    modifies p, p.grid, p.rows, p.blocks, p.cols
    decreases 2 * |ZeroSet(p.grid[..])|
    ensures p.Valid()
    ensures solved ==> SolvedFrom(old(p.grid[..]), old(p.moveStack), p.grid[..], p.moveStack)
    ensures !solved ==> p.grid[..] == old(p.grid[..]) && p.moveStack == old(p.moveStack)
    ensures !solved ==> !HasCompletion(old(p.grid[..]))
  {
    ghost var g1: Board := p.grid[..];
    ghost var s1 := p.moveStack;
    var clues := p.GetPossibleClues(i);
    for k := 0 to |clues|
      invariant p.Valid() && p.grid[..] == g1 && p.moveStack == s1
      invariant GuessesFail(g1, i, clues, k)
    {
      var clue := clues[k];
      assert clue in CandidateSet(g1, i);
      p.SetSquare(i, clue);
      ghost var g2: Board := p.grid[..];
      ghost var s2 := p.moveStack;
      if p.IsSolved() {
        FillsOnlyReflexive(g2, s2);
        FilledBoardSolves(g2, s2, g2, s2);
        GuessThenSolved(g1, s1, i, clue, g2, s2);
        return true;
      }
      GuessShrinksZeroSet(g1, i, clue);
      var found := SolveRestoring(p);
      if found {
        GuessThenSolved(g1, s1, i, clue, p.grid[..], p.moveStack);
        return true;
      }
      p.UndoMove();
      GuessCleared(g1, i, clue);
      GuessFails(g1, i, clues, k);
    }
    EveryCandidateFails(g1, i, clues);
    return false;
  }

  /**
   * `SolveRestoring` on a freshly built puzzle: it succeeds on every grid
   * that has a solution, and otherwise returns `false` with the grid as
   * given.
   */
  method SolveFreshRestoring(g0: Board) returns (solved: bool, grid: Board)
    ensures HasCompletion(g0) ==> solved && IsCompletionOf(grid, g0)
    ensures solved ==> ZeroSet(grid) == {} && forall k | 0 <= k < GridSize && g0[k] != 0 :: grid[k] == g0[k]
    ensures !solved ==> grid == g0 && !HasCompletion(g0)
    ensures NoConflicts(g0) && CluesAreDigits(g0) && !HasCompletion(g0) ==> !solved
  {
    var p := new SudokuPuzzle.FromArray(g0);
    solved := SolveRestoring(p);
    grid := p.grid[..];
    if solved {
      forall k | 0 <= k < GridSize && g0[k] != 0 ensures grid[k] == g0[k] {
        FillsOnlyKeepsClue(g0, [], grid, p.moveStack, k);
      }
    }
    if HasCompletion(g0) {
      var sol :| IsCompletionOf(sol, g0);
      CompletableBoardHasNoConflicts(sol, g0);
      CompletableCluesAreDigits(sol, g0);
    }
  }
}
