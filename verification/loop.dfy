/**
 * Loop prevention. The ACTIVE borders are labelled by connected component (two borders are
 * connected when they share an endpoint). While some border is still UNSET, a component that
 * touches no UNSET border is already a closed loop, so the board is invalid. An UNSET border
 * whose two endpoints lead into the same component would close a loop, so it becomes BLANK.
 */
module LoopRule {
  import opened Outcomes
  import opened Enums
  import opened BoardTools
  import opened BoardModel
  import opened SetBorder

  /** The indices of the borders with status st. */
  function IndicesWith(bs: seq<BorderStatus>, st: BorderStatus): (s: set<int>)
    ensures forall i :: i in s <==> 0 <= i < |bs| && bs[i] == st
  {
    set i | 0 <= i < |bs| && bs[i] == st
  }

  /**
   * The borders that share an endpoint with each border (getConnectedBordersList on the
   * board's dimensions). The labelling below is stated over such a function.
   */
  function Links(rows: int, cols: int): int -> seq<int>
    requires cols >= 1
  {
    b => ConnectedBordersList(rows, cols, b)
  }

  /** Connection is symmetric among the given borders. */
  ghost predicate Symmetric(links: int -> seq<int>, s: set<int>)
  {
    forall b, c | b in s && c in links(b) :: b in links(c)
  }

  /** Border b has an UNSET border among its connected borders. */
  ghost predicate TouchesUnset(links: int -> seq<int>, unset: set<int>, b: int)
  {
    exists c :: c in links(b) && c in unset
  }

  /** Every ACTIVE border connected to a border of s is in s. */
  ghost predicate Closed(links: int -> seq<int>, active: set<int>, s: set<int>)
  {
    forall b, c | b in s && c in links(b) && c in active :: c in s
  }

  /** A non-empty set of ACTIVE borders, closed under connection, none touching an UNSET border. */
  ghost predicate Isolated(links: int -> seq<int>, active: set<int>, unset: set<int>, s: set<int>)
  {
    && s != {} && s <= active && Closed(links, active, s)
    && forall b | b in s :: !TouchesUnset(links, unset, b)
  }

  /** What _getBorderGroupDict returns: the group of each ACTIVE border, the ACTIVE and the UNSET borders. */
  datatype Grouping = Grouping(groupOf: map<int, int>, active: set<int>, unset: set<int>)

  /** Connected ACTIVE borders share a group. */
  ghost predicate GroupsLinked(links: int -> seq<int>, g: Grouping)
  {
    forall b, c | b in g.active && c in links(b) && c in g.active ::
      b in g.groupOf && c in g.groupOf && g.groupOf[b] == g.groupOf[c]
  }

  /** Border connection on a board is symmetric: getConnectedBordersList relates both ways. */
  lemma LinksSymmetric(rows: int, cols: int, s: set<int>)
    requires cols >= 1 && forall b | b in s :: IsValidBorderIdx(rows, cols, b)
    ensures Symmetric(Links(rows, cols), s)
  {
    var links := Links(rows, cols);
    forall b, c | b in s && c in links(b) ensures b in links(c) {
      ConnectedSymmetric(rows, cols, b, c);
    }
  }

  /** The ACTIVE and UNSET index sets of the board, in one pass. */
  method CollectBorders(board: Board) returns (active: set<int>, unset: set<int>)
    ensures active == IndicesWith(board.borders[..], ACTIVE)
    ensures unset == IndicesWith(board.borders[..], UNSET)
  {
    active, unset := {}, {};
    for i := 0 to board.borders.Length
      invariant active == IndicesWith(board.borders[..i], ACTIVE)
      invariant unset == IndicesWith(board.borders[..i], UNSET)
    {
      if board.borders[i] == ACTIVE {
        active := active + {i};
      } else if board.borders[i] == UNSET {
        unset := unset + {i};
      }
    }
    assert board.borders[..board.borders.Length] == board.borders[..];
  }

  /**
   * n lies on one side of every closed set: inside it when idx is, outside it otherwise.
   * Closed sets are unions of components, so n is part of the component of idx.
   */
  ghost predicate Anchored(links: int -> seq<int>, active: set<int>, n: set<int>, idx: int)
  {
    forall s | Closed(links, active, s) :: if idx in s then n <= s else n !! s
  }

  /** A set anchored at a border stays anchored once the border is added. */
  lemma AnchoredAdd(links: int -> seq<int>, active: set<int>, n: set<int>, idx: int)
    requires Anchored(links, active, n, idx)
    ensures Anchored(links, active, n + {idx}, idx)
  {
  }

  /** Two sets anchored at the same border make an anchored union. */
  lemma AnchoredUnion(links: int -> seq<int>, active: set<int>, n1: set<int>, n2: set<int>, idx: int)
    requires Anchored(links, active, n1, idx) && Anchored(links, active, n2, idx)
    ensures Anchored(links, active, n1 + n2, idx)
  {
  }

  /**
   * What is reached from an ACTIVE border c connected to the ACTIVE border idx is anchored
   * at idx too, because connection is symmetric.
   */
  lemma AnchoredStep(links: int -> seq<int>, active: set<int>, n: set<int>, c: int, idx: int)
    requires Symmetric(links, active) && idx in active && c in links(idx)
    requires Anchored(links, active, n, c)
    requires n != {} ==> c in n && c in active
    ensures Anchored(links, active, n, idx)
  {
    forall s | Closed(links, active, s) ensures if idx in s then n <= s else n !! s {
      if n != {} {
        if idx in s {
          assert c in s;
        } else if c in s {
          assert false;
        }
      }
    }
  }

  /** Borders with the same group id are never separated by a closed set: they are in one component. */
  ghost predicate GroupsWhole(links: int -> seq<int>, g: Grouping)
  {
    forall b, c, s | b in g.groupOf && c in g.groupOf && g.groupOf[b] == g.groupOf[c]
                     && Closed(links, g.active, s) && b in s :: c in s
  }

  /** Every group has a border that touches an UNSET border: reps[id] for group id. */
  ghost predicate GroupsReachUnset(links: int -> seq<int>, g: Grouping, reps: seq<int>)
  {
    forall b | b in g.groupOf ::
      && 0 <= g.groupOf[b] < |reps| && reps[g.groupOf[b]] in g.groupOf
      && g.groupOf[reps[g.groupOf[b]]] == g.groupOf[b] && TouchesUnset(links, g.unset, reps[g.groupOf[b]])
  }

  /** No set of ACTIVE borders is isolated. */
  ghost predicate NoneIsolated(links: int -> seq<int>, active: set<int>, unset: set<int>)
  {
    forall s, b | b in s :: !Isolated(links, active, unset, s)
  }

  /**
   * When each group is one component and reaches an UNSET border, every closed set of ACTIVE
   * borders that holds some border b holds that border's group, hence a border touching an
   * UNSET one, so none is isolated.
   */
  lemma NoneIsolatedFromGroups(links: int -> seq<int>, g: Grouping, reps: seq<int>)
    requires g.groupOf.Keys == g.active && GroupsWhole(links, g) && GroupsReachUnset(links, g, reps)
    ensures NoneIsolated(links, g.active, g.unset)
  {
    forall s, b | b in s
      ensures !Isolated(links, g.active, g.unset, s)
    {
      if s <= g.active && Closed(links, g.active, s) {
        var rep := reps[g.groupOf[b]];
        assert rep in s;
      }
    }
  }

  /**
   * A set of new ACTIVE borders outside a closed set has no connection into it, because
   * connection is symmetric.
   */
  lemma FreshApart(links: int -> seq<int>, active: set<int>, before: set<int>, comp: set<int>)
    requires Symmetric(links, active) && Closed(links, active, before)
    requires comp <= active && comp !! before
    ensures forall b, c | b in comp && c in links(b) && c in active :: c !in before
  {
    forall b, c | b in comp && c in links(b) && c in active ensures c !in before {
      assert b in links(c);
    }
  }

  /**
   * The state _process shares with _getBorderGroupDict: the borders visited so far and the
   * group given to each.
   */
  class Labelling {
    const links: int -> seq<int>
    const active: set<int>
    const unset: set<int>
    var processed: set<int>
    var groupOf: map<int, int>

    ghost predicate Valid()
      reads this
    {
      processed <= active && groupOf.Keys == processed && Symmetric(links, active)
    }

    constructor (links: int -> seq<int>, active: set<int>, unset: set<int>)
      requires Symmetric(links, active)
      ensures Valid() && processed == {} && groupOf == map[]
      ensures this.links == links && this.active == active && this.unset == unset
    {
      this.links, this.active, this.unset := links, active, unset;
      processed, groupOf := {}, map[];
    }

    /**
     * _process: label idx and, depth first, every ACTIVE border reachable from it that is not
     * yet labelled, with groupId. Reports whether a border it labelled touches an UNSET border.
     */
    method Process(idx: int, groupId: int) returns (touches: bool, ghost w: int)
      requires Valid() && idx in active
      modifies this
      ensures Valid() && old(processed) <= processed && idx in processed
      ensures idx in old(processed) ==> processed == old(processed) && !touches
      ensures idx !in old(processed) ==> idx in processed - old(processed)
      ensures forall b | b in old(processed) :: groupOf[b] == old(groupOf)[b]
      ensures forall b | b in processed - old(processed) :: groupOf[b] == groupId
      ensures forall b, c | b in processed - old(processed) && c in links(b) && c in active ::
                c in processed
      ensures Anchored(links, active, processed - old(processed), idx)
      ensures touches ==> w in processed - old(processed) && TouchesUnset(links, unset, w)
      ensures !touches ==> forall b | b in processed - old(processed) :: !TouchesUnset(links, unset, b)
      decreases active - processed, 0
    {
      if idx in processed {
        return false, idx;
      }
      ghost var start := processed;
      processed, groupOf := processed + {idx}, groupOf[idx := groupId];
      touches, w := ProcessConnected(idx, groupId);
      ghost var n := processed - (start + {idx});
      AnchoredAdd(links, active, n, idx);
      assert processed - start == n + {idx};
    }

    /**
     * What the loop of _process has established after visiting the borders `seen` connected
     * to idx: the labels from before it (groupOf0, on start) are kept, every border labelled
     * since has groupId, its ACTIVE neighbours and the ACTIVE borders of seen are labelled, the
     * new borders lie in the component of idx, and touches says whether idx or a new border
     * touches an UNSET border, as far as seen goes.
     */
    ghost predicate Labelled(start: set<int>, groupOf0: map<int, int>, groupId: int, idx: int,
                             seen: seq<int>, touches: bool, w: int)
      reads this
    {
      && start <= processed
      && (forall b | b in start :: b in groupOf0 && b in groupOf && groupOf[b] == groupOf0[b])
      && (forall b | b in processed - start :: b in groupOf && groupOf[b] == groupId)
      && (forall b, c | b in processed - start && c in links(b) && c in active :: c in processed)
      && (forall j | 0 <= j < |seen| && seen[j] in active :: seen[j] in processed)
      && Anchored(links, active, processed - start, idx)
      && (touches ==> w in processed - start + {idx} && TouchesUnset(links, unset, w))
      && (!touches ==> (forall j | 0 <= j < |seen| :: seen[j] !in unset)
                       && forall b | b in processed - start :: !TouchesUnset(links, unset, b))
    }

    /** The loop of _process over the borders connected to idx, which is already labelled. */
    method ProcessConnected(idx: int, groupId: int) returns (touches: bool, ghost w: int)
      requires Valid() && idx in processed
      modifies this
      ensures Valid() && old(processed) <= processed
      ensures forall b | b in old(processed) :: groupOf[b] == old(groupOf)[b]
      ensures forall b | b in processed - old(processed) :: groupOf[b] == groupId
      ensures forall b, c | b in processed - old(processed) + {idx} && c in links(b) && c in active ::
                c in processed
      ensures Anchored(links, active, processed - old(processed), idx)
      ensures touches ==> w in processed - old(processed) + {idx} && TouchesUnset(links, unset, w)
      ensures !touches ==> forall b | b in processed - old(processed) + {idx} :: !TouchesUnset(links, unset, b)
      decreases active - processed, 2
    {
      var conn := links(idx);
      ghost var start := processed;
      touches, w := false, idx;
      for k := 0 to |conn|
        invariant Valid() && Labelled(start, old(groupOf), groupId, idx, conn[..k], touches, w)
      {
        assert conn[..k + 1] == conn[..k] + [conn[k]];
        touches, w := Visit(idx, groupId, conn[k], start, old(groupOf), conn[..k], touches, w);
      }
      assert conn[..|conn|] == conn;
      LabelledAll(start, old(groupOf), groupId, idx, touches, w);
    }

    /** Once every border connected to idx is seen, the labelled set is closed and anchored at idx. */
    lemma LabelledAll(start: set<int>, groupOf0: map<int, int>, groupId: int, idx: int, touches: bool, w: int)
      requires Valid() && idx in start
      requires Labelled(start, groupOf0, groupId, idx, links(idx), touches, w)
      ensures forall b, c | b in processed - start + {idx} && c in links(b) && c in active :: c in processed
      ensures !touches ==> forall b | b in processed - start + {idx} :: !TouchesUnset(links, unset, b)
    {
      var conn := links(idx);
      forall c | c in conn && c in active ensures c in processed {
        var j :| 0 <= j < |conn| && conn[j] == c;
      }
      if !touches {
        forall c | c in conn ensures c !in unset {
          var j :| 0 <= j < |conn| && conn[j] == c;
        }
      }
    }

    /**
     * One step of that loop: visit the border c when it is ACTIVE, and note it when it is
     * UNSET; touches0 is the flag so far.
     */
    method Visit(idx: int, groupId: int, c: int, ghost start: set<int>, ghost groupOf0: map<int, int>,
                 ghost seen: seq<int>, touches0: bool, ghost w0: int) returns (touches: bool, ghost w: int)
      requires Valid() && idx in processed && c in links(idx)
      requires Labelled(start, groupOf0, groupId, idx, seen, touches0, w0)
      modifies this
      ensures Valid() && old(processed) <= processed
      ensures Labelled(start, groupOf0, groupId, idx, seen + [c], touches, w)
      decreases active - processed, 1
    {
      ghost var before := processed;
      var t := false;
      ghost var u := idx;
      if c in active {
        t, u := Process(c, groupId);
        AnchoredStep(links, active, processed - before, c, idx);
        AnchoredUnion(links, active, before - start, processed - before, idx);
        assert processed - start == (before - start) + (processed - before);
      }
      touches, w := touches0, w0;
      if t && !touches {
        touches, w := true, u;
      }
      if c in unset && !touches {
        touches, w := true, idx;
      }
    }

    /**
     * What the outer loop of _getBorderGroupDict keeps: the labelled borders are closed under
     * connection, carry ids below count, connected ones share an id, no closed set separates
     * two borders with the same id, and while some border is UNSET, reps[id] is a border of
     * group id that touches one.
     */
    ghost predicate Grouped(count: int, reps: seq<int>)
      reads this
    {
      && Valid()
      && Closed(links, active, processed)
      && (forall b | b in processed :: 0 <= groupOf[b] < count)
      && (forall b, c | b in processed && c in links(b) && c in active :: c in processed && groupOf[b] == groupOf[c])
      && (forall b, c, s | b in processed && c in processed && groupOf[b] == groupOf[c]
                           && Closed(links, active, s) && b in s :: c in s)
      && |reps| == count
      && (unset != {} ==> forall id | 0 <= id < count ::
                            reps[id] in processed && groupOf[reps[id]] == id && TouchesUnset(links, unset, reps[id]))
    }

    /** Once every ACTIVE border is labelled, the labels are exactly the components. */
    lemma GroupedComplete(count: int, reps: seq<int>)
      requires Grouped(count, reps) && processed == active
      ensures LabelsAreComponents(links, Grouping(groupOf, active, unset), reps)
    {
      var g := Grouping(groupOf, active, unset);
      if unset != {} {
        NoneIsolatedFromGroups(links, g, reps);
      }
    }

    /**
     * One round of the outer loop for an ACTIVE border idx not yet labelled: label its
     * component with the next id. The new borders `comp` are that component; when none
     * touches an UNSET border, it is isolated.
     */
    method StartGroup(idx: int, count: int, ghost reps: seq<int>) returns (touches: bool, ghost w: int, ghost comp: set<int>)
      requires Grouped(count, reps) && idx in active && idx !in processed
      modifies this
      ensures Valid() && processed == old(processed) + comp && idx in comp
      ensures touches || unset == {} ==> Grouped(count + 1, reps + [w])
      ensures !touches ==> Isolated(links, active, unset, comp)
    {
      ghost var before := processed;
      ghost var groupOf0 := groupOf;
      touches, w := Process(idx, count);
      comp := processed - before;
      FreshApart(links, active, before, comp);
      assert Closed(links, active, comp);
    }
  }

  /**
   * The outer loop of _getBorderGroupDict over the ACTIVE borders (all below n), in ascending
   * order: each one not yet labelled starts a new component with the next id, numbered from 0.
   * Raises InvalidBoard ("Loop detected.") when a component touches no UNSET border while some
   * border is UNSET; that component is returned as `isolated`. On success the labels are
   * exactly the components, and while some border is UNSET, reps[id] is a border of
   * component id that touches one, so no isolated set exists.
   */
  method LabelComponents(links: int -> seq<int>, active: set<int>, unset: set<int>, n: nat)
    returns (r: Result<map<int, int>>, ghost isolated: set<int>, ghost reps: seq<int>)
    requires Symmetric(links, active) && forall b | b in active :: 0 <= b < n
    ensures r.Err? ==> r.error == InvalidBoard && unset != {} && Isolated(links, active, unset, isolated)
    ensures r.Ok? ==> LabelsAreComponents(links, Grouping(r.value, active, unset), reps)
  {
    var labels := new Labelling(links, active, unset);
    var currId := 0;
    reps, isolated := [], {};
    for i := 0 to n
      invariant labels.Grouped(currId, reps)
      invariant forall b | b in active && b < i :: b in labels.processed
    {
      if i in active && i !in labels.processed {
        var touches;
        ghost var w, comp;
        touches, w, comp := labels.StartGroup(i, currId, reps);
        if !touches && |unset| > 0 {
          return Err(InvalidBoard), comp, reps;
        }
        currId, reps := currId + 1, reps + [w];
      }
    }
    assert labels.processed == active;
    labels.GroupedComplete(currId, reps);
    r := Ok(labels.groupOf);
  }

  /**
   * _getBorderGroupDict: the ACTIVE and UNSET borders of the board, and the component id of
   * each ACTIVE border, or InvalidBoard when an ACTIVE component is a closed loop while some
   * border is still UNSET.
   */
  method GetBorderGroupDict(board: Board) returns (r: Result<Grouping>, ghost isolated: set<int>, ghost reps: seq<int>)
    requires board.Valid()
    ensures var links := Links(board.rows, board.cols);
            var active := IndicesWith(board.borders[..], ACTIVE);
            var unset := IndicesWith(board.borders[..], UNSET);
            && (r.Err? ==> r.error == InvalidBoard && unset != {} && Isolated(links, active, unset, isolated))
            && (r.Ok? ==> r.value.active == active && r.value.unset == unset && LabelsAreComponents(links, r.value, reps))
  {
    var active, unset := CollectBorders(board);
    LinksSymmetric(board.rows, board.cols, active);
    var groups;
    groups, isolated, reps := LabelComponents(Links(board.rows, board.cols), active, unset, board.borders.Length);
    if groups.Err? {
      return Err(groups.error), isolated, reps;
    }
    r := Ok(Grouping(groups.value, active, unset));
  }

  /**
   * The labels cover the ACTIVE borders, connected borders share a label, no closed set splits
   * a label, and while some border is UNSET every label has a border that touches one, so no
   * isolated set exists.
   */
  ghost predicate LabelsAreComponents(links: int -> seq<int>, g: Grouping, reps: seq<int>)
  {
    && g.groupOf.Keys == g.active && GroupsLinked(links, g) && GroupsWhole(links, g)
    && (g.unset != {} ==> GroupsReachUnset(links, g, reps) && NoneIsolated(links, g.active, g.unset))
  }

  /** Two ACTIVE borders are in one component: no closed set holds one without the other. */
  ghost predicate SameComponent(links: int -> seq<int>, active: set<int>, a: int, b: int)
  {
    forall s | Closed(links, active, s) :: a in s <==> b in s
  }

  /** The labels of _getBorderGroupDict are the components: equal ids exactly for borders of one component. */
  lemma GroupsAreComponents(links: int -> seq<int>, g: Grouping, a: int, b: int)
    requires g.groupOf.Keys == g.active && GroupsLinked(links, g) && GroupsWhole(links, g)
    requires a in g.active && b in g.active
    ensures g.groupOf[a] == g.groupOf[b] <==> SameComponent(links, g.active, a, b)
  {
    if SameComponent(links, g.active, a, b) {
      var s := set x | x in g.active && g.groupOf[x] == g.groupOf[a];
      assert Closed(links, g.active, s);
      assert a in s;
    }
  }

  /** The position of the first ACTIVE border in ends, or |ends| when there is none. */
  function FirstActive(ends: seq<int>, active: set<int>): (k: nat)
    ensures k <= |ends| && (k < |ends| ==> ends[k] in active)
    ensures forall j | 0 <= j < k :: ends[j] !in active
    decreases |ends|
  {
    if ends == [] || ends[0] in active then 0 else 1 + FirstActive(ends[1..], active)
  }

  /**
   * One of the `for connBdr in conn[...]` loops of removeLoopMakingMove: the group of the
   * first ACTIVE border of ends, or None when ends has no ACTIVE border.
   */
  method FirstGroup(ends: seq<int>, g: Grouping) returns (r: Option<int>)
    requires g.groupOf.Keys == g.active
    ensures var k := FirstActive(ends, g.active);
            r == if k < |ends| then Some(g.groupOf[ends[k]]) else None
  {
    for k := 0 to |ends|
      invariant forall j | 0 <= j < k :: ends[j] !in g.active
    {
      if ends[k] in g.active {
        FirstActiveAt(ends, g.active, k);
        return Some(g.groupOf[ends[k]]);
      }
    }
    FirstActiveAt(ends, g.active, |ends|);
    return None;
  }

  /** The first ACTIVE position is the one before which nothing is ACTIVE and at which something is. */
  lemma {:induction false} FirstActiveAt(ends: seq<int>, active: set<int>, k: nat)
    requires k <= |ends| && (k < |ends| ==> ends[k] in active)
    requires forall j | 0 <= j < k :: ends[j] !in active
    ensures FirstActive(ends, active) == k
    decreases |ends|
  {
    if k > 0 {
      FirstActiveAt(ends[1..], active, k - 1);
    }
  }

  /**
   * An UNSET border i would close a loop: the first ACTIVE border at each of its endpoints
   * exists and the two are in one component.
   */
  ghost predicate LoopMaking(rows: int, cols: int, active: set<int>, i: int)
    requires cols >= 1
  {
    var conn := ConnectedBorders(rows, cols, i);
    var k1 := FirstActive(conn.0, active);
    var k2 := FirstActive(conn.1, active);
    k1 < |conn.0| && k2 < |conn.1| && SameComponent(Links(rows, cols), active, conn.0[k1], conn.1[k2])
  }

  /** The UNSET borders of bs that would close a loop. */
  ghost function LoopMakingAll(rows: int, cols: int, bs: seq<BorderStatus>): set<int>
    requires cols >= 1
  {
    set i | 0 <= i < |bs| && bs[i] == UNSET && LoopMaking(rows, cols, IndicesWith(bs, ACTIVE), i)
  }

  /** The members of a below n. */
  function Below(a: set<int>, n: int): set<int>
  {
    set i | i in a && i < n
  }

  /** The UNSET borders among the first n of bs that would close a loop. */
  ghost function LoopMakingBelow(rows: int, cols: int, bs: seq<BorderStatus>, n: int): set<int>
    requires cols >= 1
  {
    Below(LoopMakingAll(rows, cols, bs), n)
  }

  /** Some non-empty set of ACTIVE borders of bs is a closed loop touching no UNSET border. */
  ghost predicate HasIsolated(rows: int, cols: int, bs: seq<BorderStatus>)
    requires cols >= 1
  {
    exists s, b :: b in s && Isolated(Links(rows, cols), IndicesWith(bs, ACTIVE), IndicesWith(bs, UNSET), s)
  }

  /**
   * removeLoopMakingMove as a step: InvalidBoard, with nothing written, when some border is
   * UNSET and an ACTIVE component touches none; otherwise every UNSET border that would close
   * a loop becomes BLANK, and the result says whether there was one.
   */
  ghost function RemoveLoopSpec(rows: int, cols: int, bs: seq<BorderStatus>): Step
    requires cols >= 1
  {
    if IndicesWith(bs, UNSET) != {} && HasIsolated(rows, cols, bs) then (bs, Err(InvalidBoard))
    else
      var t := LoopMakingBelow(rows, cols, bs, |bs|);
      (Assign(bs, t, BLANK), Ok(t != {}))
  }

  /**
   * The rule only turns UNSET borders BLANK, reports a move exactly when it blanks one, and
   * raises only InvalidBoard, and only while some border is UNSET.
   */
  lemma RemoveLoopSound(rows: int, cols: int, bs: seq<BorderStatus>)
    requires cols >= 1
    ensures Sound(bs, RemoveLoopSpec(rows, cols, bs))
    ensures RemoveLoopSpec(rows, cols, bs).1.Err? ==> IndicesWith(bs, UNSET) != {}
    ensures forall i | 0 <= i < |bs| :: RemoveLoopSpec(rows, cols, bs).0[i] != bs[i] ==>
              bs[i] == UNSET && RemoveLoopSpec(rows, cols, bs).0[i] == BLANK
  {
    var a := LoopMakingAll(rows, cols, bs);
    assert forall i | i in a :: 0 <= i < |bs| && bs[i] == UNSET;
    BlankUnsetSound(bs, Below(a, |bs|));
  }

  /** What _getBorderGroupDict returns for bs when it does not raise. */
  ghost predicate Labels(rows: int, cols: int, bs: seq<BorderStatus>, g: Grouping)
    requires cols >= 1
  {
    && g.active == IndicesWith(bs, ACTIVE) && g.unset == IndicesWith(bs, UNSET)
    && g.groupOf.Keys == g.active
    && GroupsLinked(Links(rows, cols), g) && GroupsWhole(Links(rows, cols), g)
  }

  /** With the labels of bs, the loop-making test is a comparison of the two first groups. */
  lemma LoopMakingByGroups(rows: int, cols: int, bs: seq<BorderStatus>, g: Grouping, i: int)
    requires cols >= 1 && Labels(rows, cols, bs, g)
    ensures var conn := ConnectedBorders(rows, cols, i);
            var k1 := FirstActive(conn.0, g.active);
            var k2 := FirstActive(conn.1, g.active);
            LoopMaking(rows, cols, g.active, i) <==>
              k1 < |conn.0| && k2 < |conn.1| && g.groupOf[conn.0[k1]] == g.groupOf[conn.1[k2]]
  {
    var conn := ConnectedBorders(rows, cols, i);
    var k1 := FirstActive(conn.0, g.active);
    var k2 := FirstActive(conn.1, g.active);
    if k1 < |conn.0| && k2 < |conn.1| {
      GroupsAreComponents(Links(rows, cols), g, conn.0[k1], conn.1[k2]);
    }
  }

  /** The loop-making borders below i + 1: those below i, and i itself when it is one. */
  lemma LoopMakingBelowNext(rows: int, cols: int, bs: seq<BorderStatus>, i: int)
    requires cols >= 1 && 0 <= i < |bs|
    ensures LoopMakingBelow(rows, cols, bs, i + 1) ==
              LoopMakingBelow(rows, cols, bs, i)
              + (if bs[i] == UNSET && LoopMaking(rows, cols, IndicesWith(bs, ACTIVE), i) then {i} else {})
  {
    BelowNext(LoopMakingAll(rows, cols, bs), i);
  }

  lemma BelowNext(a: set<int>, i: int)
    ensures Below(a, i + 1) == Below(a, i) + (if i in a then {i} else {})
  {
  }

  /** Blanking one more border i, outside the targets so far. */
  lemma AssignOneMore(bs: seq<BorderStatus>, t: set<int>, i: int, st: BorderStatus)
    requires 0 <= i < |bs| && i !in t
    ensures Assign(bs, t + {i}, st) == Assign(bs, t, st)[i := st]
  {
  }

  /**
   * The body of the loop of removeLoopMakingMove for border i, with the labels g of bs0:
   * when i is UNSET, find the group of the first ACTIVE border at each of its endpoints, and
   * blank i when both exist and are equal.
   */
  method BlankIfLoopMaking(board: Board, g: Grouping, i: int, ghost bs0: seq<BorderStatus>) returns (changed: bool)
    requires board.Valid() && |bs0| == board.borders.Length && 0 <= i < |bs0|
    requires Labels(board.rows, board.cols, bs0, g)
    requires board.borders[..] == Assign(bs0, LoopMakingBelow(board.rows, board.cols, bs0, i), BLANK)
    modifies board.borders
    ensures board.borders[..] == Assign(bs0, LoopMakingBelow(board.rows, board.cols, bs0, i + 1), BLANK)
    ensures changed <==> i in LoopMakingBelow(board.rows, board.cols, bs0, i + 1)
  {
    LoopMakingBelowNext(board.rows, board.cols, bs0, i);
    changed := false;
    if i in g.unset {
      var conn := ConnectedBorders(board.rows, board.cols, i);
      var group1 := FirstGroup(conn.0, g);
      var group2 := FirstGroup(conn.1, g);
      LoopMakingByGroups(board.rows, board.cols, bs0, g, i);
      if group1.Some? && group2.Some? && group1 == group2 {
        AssignOneMore(bs0, LoopMakingBelow(board.rows, board.cols, bs0, i), i, BLANK);
        // setBorder cannot raise here: border i is still UNSET, so it reports a change
        var res := SetBorder.SetBorder(board, i, BLANK);
        changed := res == Ok(true);
      }
    }
  }

  /**
   * removeLoopMakingMove: label the ACTIVE components, then blank each UNSET border (in
   * ascending order) whose endpoints lead into the same component.
   */
  method RemoveLoopMakingMove(board: Board) returns (r: Result<bool>)
    requires board.Valid()
    modifies board.borders
    ensures (board.borders[..], r) == RemoveLoopSpec(board.rows, board.cols, old(board.borders[..]))
  {
    ghost var bs0 := board.borders[..];
    var groups;
    ghost var isolated, reps;
    groups, isolated, reps := GetBorderGroupDict(board);
    if groups.Err? {
      assert isolated != {} && exists b :: b in isolated;
      return Err(groups.error);
    }
    var g := groups.value;
    var found := false;
    for i := 0 to board.borders.Length
      invariant board.borders[..] == Assign(bs0, LoopMakingBelow(board.rows, board.cols, bs0, i), BLANK)
      invariant found <==> LoopMakingBelow(board.rows, board.cols, bs0, i) != {}
    {
      var changed := BlankIfLoopMaking(board, g, i, bs0);
      if changed {
        found := true;
      }
    }
    return Ok(found);
  }
}
