/**
 * Solver.setBorder and the discipline every rule of the solver follows: a border only
 * ever goes from UNSET to a set status, and a write that contradicts a set status
 * signals an invalid board instead.
 */
module SetBorder {
  import opened Outcomes
  import opened Enums
  import opened BoardModel
  import opened BoardTools

  /** b is a later state of a: the same borders, and every set border kept its status. */
  ghost predicate Grows(a: seq<BorderStatus>, b: seq<BorderStatus>)
  {
    |a| == |b| && forall i | 0 <= i < |a| :: a[i] != UNSET ==> b[i] == a[i]
  }

  /** Every listed index is a border of bs that has a set status. */
  ghost predicate AllSet(bs: seq<BorderStatus>, idxs: seq<int>)
  {
    forall k | 0 <= k < |idxs| :: 0 <= idxs[k] < |bs| && bs[idxs[k]] != UNSET
  }

  /** Growing keeps decided borders decided. */
  lemma AllSetGrows(a: seq<BorderStatus>, b: seq<BorderStatus>, idxs: seq<int>)
    requires AllSet(a, idxs) && Grows(a, b)
    ensures AllSet(b, idxs)
  {
  }

  /** Every border in `targets` given status st, the others as in bs. */
  function Assign(bs: seq<BorderStatus>, targets: set<int>, st: BorderStatus): (r: seq<BorderStatus>)
    ensures |r| == |bs|
  {
    seq(|bs|, i requires 0 <= i < |bs| => if i in targets then st else bs[i])
  }

  /** Assigning a set status to borders that are UNSET or already have it only grows the board. */
  lemma AssignGrows(bs: seq<BorderStatus>, targets: set<int>, st: BorderStatus)
    requires forall i | i in targets && 0 <= i < |bs| :: bs[i] == UNSET || bs[i] == st
    ensures Grows(bs, Assign(bs, targets, st))
  {
  }

  /** Blanking a set of UNSET borders is a sound step that reports a move exactly when the set is non-empty. */
  lemma BlankUnsetSound(bs: seq<BorderStatus>, t: set<int>)
    requires forall i | i in t :: 0 <= i < |bs| && bs[i] == UNSET
    ensures Sound(bs, (Assign(bs, t, BLANK), Ok(t != {})))
    ensures forall i | 0 <= i < |bs| :: Assign(bs, t, BLANK)[i] != bs[i] ==> bs[i] == UNSET && Assign(bs, t, BLANK)[i] == BLANK
  {
    AssignGrows(bs, t, BLANK);
    if Assign(bs, t, BLANK) == bs {
      assert forall i :: i !in t;
      assert t == {};
    }
  }

  /** A border list that fits a board of positive size whose clue grid is complete. */
  ghost predicate OnBoard(board: Board, bs: seq<BorderStatus>)
  {
    IsShaped(board) && |bs| == NumBorders(board.rows, board.cols)
  }

  /**
   * The outcome of a rule applied to a border list: the borders afterwards and what the
   * rule returned, whether it found a move or raised. An exception leaves the writes made
   * before it in place.
   */
  type Step = (seq<BorderStatus>, Result<bool>)

  /**
   * A step from bs only sets UNSET borders, only ever raises InvalidBoard, and when it
   * returns, it reports a move exactly when it changed some border.
   */
  ghost predicate Sound(bs: seq<BorderStatus>, s: Step)
  {
    && Grows(bs, s.0)
    && (s.1.Ok? ==> (s.1.value <==> s.0 != bs))
    && (s.1.Err? ==> s.1.error == InvalidBoard)
  }

  /** The step that changes nothing and finds no move. */
  function NoMove(bs: seq<BorderStatus>): (s: Step)
    ensures Sound(bs, s) && s.1 == Ok(false)
  {
    (bs, Ok(false))
  }

  /** A returning step followed by another: the second one's borders, and a move if either found one. */
  function Join(a: Step, b: Step): (s: Step)
    requires a.1.Ok?
    ensures s.0 == b.0
    ensures s.1.Err? <==> b.1.Err?
    ensures s.1.Err? ==> s.1 == b.1
    ensures s.1.Ok? ==> (s.1.value <==> a.1.value || b.1.value)
  {
    if b.1.Err? then b else (b.0, Ok(a.1.value || b.1.value))
  }

  /** Joining steps is associative. */
  lemma JoinAssoc(a: Step, b: Step, c: Step)
    requires a.1.Ok? && b.1.Ok?
    ensures Join(Join(a, b), c) == Join(a, Join(b, c))
  {
  }

  /** Two sound steps in a row make a sound step. */
  lemma JoinSound(bs: seq<BorderStatus>, a: Step, b: Step)
    requires a.1.Ok? && Sound(bs, a) && Sound(a.0, b)
    ensures Sound(bs, Join(a, b))
  {
    if b.1.Ok? && b.0 == bs {
      assert forall i | 0 <= i < |bs| :: a.0[i] == bs[i];
      assert a.0 == bs;
    }
  }

  /**
   * Solver.setBorder as a step: an UNSET border takes the new status and the result is true;
   * a border that already has it is left alone and the result is false; any other status
   * raises InvalidBoard, and nothing is written.
   */
  function SetSpec(bs: seq<BorderStatus>, idx: int, st: BorderStatus): (s: Step)
    requires 0 <= idx < |bs|
    ensures |s.0| == |bs|
  {
    if bs[idx] == UNSET then (bs[idx := st], Ok(true))
    else if bs[idx] == st then (bs, Ok(false))
    else (bs, Err(InvalidBoard))
  }

  /** setBorder never writes UNSET, so it is a sound step; it fails exactly on a conflicting status. */
  lemma SetSpecSound(bs: seq<BorderStatus>, idx: int, st: BorderStatus)
    requires 0 <= idx < |bs| && st != UNSET
    ensures Sound(bs, SetSpec(bs, idx, st))
    ensures SetSpec(bs, idx, st).1.Err? <==> bs[idx] != UNSET && bs[idx] != st
    ensures SetSpec(bs, idx, st).1.Ok? ==> SetSpec(bs, idx, st).0[idx] == st
  {
    if bs[idx] == UNSET {
      assert bs[idx := st][idx] != bs[idx];
    }
  }

  /** setBorder on each listed border in turn, stopping at the first conflict. */
  function SetListSpec(bs: seq<BorderStatus>, idxs: seq<int>, st: BorderStatus): (s: Step)
    requires forall k | 0 <= k < |idxs| :: 0 <= idxs[k] < |bs|
    ensures |s.0| == |bs|
    decreases |idxs|
  {
    if idxs == [] then NoMove(bs)
    else
      var a := SetSpec(bs, idxs[0], st);
      if a.1.Err? then a else Join(a, SetListSpec(a.0, idxs[1..], st))
  }

  /**
   * Setting a list of borders is sound; it fails exactly when a listed border already has
   * the other set status, and otherwise every listed border ends with status st and the
   * other borders are untouched.
   */
  lemma {:induction false} SetListSound(bs: seq<BorderStatus>, idxs: seq<int>, st: BorderStatus)
    requires forall k | 0 <= k < |idxs| :: 0 <= idxs[k] < |bs|
    requires st != UNSET
    ensures Sound(bs, SetListSpec(bs, idxs, st))
    ensures SetListSpec(bs, idxs, st).1.Ok? <==> forall k | 0 <= k < |idxs| :: bs[idxs[k]] == UNSET || bs[idxs[k]] == st
    ensures SetListSpec(bs, idxs, st).1.Ok? ==>
              SetListSpec(bs, idxs, st).0 == Assign(bs, set k | 0 <= k < |idxs| :: idxs[k], st)
    decreases |idxs|
  {
    if idxs != [] {
      var a := SetSpec(bs, idxs[0], st);
      SetSpecSound(bs, idxs[0], st);
      if a.1.Ok? {
        var rest := idxs[1..];
        SetListSound(a.0, rest, st);
        JoinSound(bs, a, SetListSpec(a.0, rest, st));
        assert forall k | 0 <= k < |rest| :: a.0[rest[k]] == UNSET || a.0[rest[k]] == st
                 <==> bs[rest[k]] == UNSET || bs[rest[k]] == st;
        assert forall k | 1 <= k < |idxs| :: idxs[k] == rest[k - 1];
        ElementsCons(idxs);
      }
    }
  }

  /** The elements of a non-empty list: its head and the elements of its tail. */
  lemma ElementsCons(idxs: seq<int>)
    requires idxs != []
    ensures (set k | 0 <= k < |idxs| :: idxs[k]) == (set k | 0 <= k < |idxs[1..]| :: idxs[1..][k]) + {idxs[0]}
  {
    var rest := idxs[1..];
    var all := set k | 0 <= k < |idxs| :: idxs[k];
    var tail := set k | 0 <= k < |rest| :: rest[k];
    forall x | x in all ensures x in tail + {idxs[0]} {
      var k :| 0 <= k < |idxs| && idxs[k] == x;
      if k > 0 { assert rest[k - 1] == x; }
    }
    forall x | x in tail ensures x in all {
      var k :| 0 <= k < |rest| && rest[k] == x;
      assert idxs[k + 1] == x;
    }
  }

  /** Solver.setBorder on the board's border list. */
  method SetBorder(board: Board, idx: int, st: BorderStatus) returns (r: Result<bool>)
    requires 0 <= idx < board.borders.Length
    modifies board.borders
    ensures (board.borders[..], r) == SetSpec(old(board.borders[..]), idx, st)
  {
    if board.borders[idx] == UNSET {
      board.borders[idx] := st;
      return Ok(true);
    } else if board.borders[idx] != st {
      return Err(InvalidBoard);
    }
    return Ok(false);
  }

  /** setBorder on every listed border, in order; the first conflict propagates. */
  method SetEach(board: Board, idxs: seq<int>, st: BorderStatus) returns (r: Result<bool>)
    requires forall k | 0 <= k < |idxs| :: 0 <= idxs[k] < board.borders.Length
    modifies board.borders
    ensures (board.borders[..], r) == SetListSpec(old(board.borders[..]), idxs, st)
  {
    ghost var start := board.borders[..];
    var changed := false;
    for n := 0 to |idxs|
      invariant SetListSpec(start, idxs, st) == Join((board.borders[..], Ok(changed)), SetListSpec(board.borders[..], idxs[n..], st))
    {
      assert idxs[n..][1..] == idxs[n + 1..];
      var one := SetBorder(board, idxs[n], st);
      if one.Err? {
        return one;
      }
      changed := changed || one.value;
    }
    return Ok(changed);
  }
}
