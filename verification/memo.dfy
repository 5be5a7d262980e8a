/** The memo of the cascades-style optimizer: a dense sequence of groups
    (equivalence classes of expressions) plus a structural index that maps
    every group expression entered so far to the group it belongs to. Every
    insertion goes through InsertExpression, which either recognises the
    expression as already known (a hit) or registers it (a miss). */
module Memo {
  import opened Results

  /** Group ids are signed in the source; UNDEFINED_GROUP is -1. */
  type GroupID = int

  const UndefinedGroup: GroupID := -1

  /** The operator kinds of the optimizer. The memo only compares
      operators for equality, so it keeps this bare tag list rather than
      depending on the lowering's operator datatype, which lists the same
      kinds together with their fields. */
  datatype OpKind =
    | Scan | Project | ComputeExprs | Filter
    | InnerNLJoin | LeftNLJoin | RightNLJoin | OuterNLJoin
    | InnerHashJoin | LeftHashJoin | RightHashJoin | OuterHashJoin

  /** A Leaf re-enters the memo through the group it came from; any other
      operator carries kind-specific fields, which only matter here through
      equality, so they are kept abstract as `payload`. */
  datatype Operator =
    | Leaf(originGroup: GroupID)
    | Physical(kind: OpKind, payload: nat)

  /** Children are referenced by group id: two expressions are the same
      expression exactly when operator and child groups agree, which is
      Dafny's structural equality. The group id the source stores in the
      object is kept in the memo's index instead. */
  datatype GroupExpression = GroupExpression(op: Operator, childGroups: seq<GroupID>)

  /** A group: its alternatives and, apart from them, its enforcers. */
  datatype Group = Group(id: GroupID, expressions: seq<GroupExpression>, enforcers: seq<GroupExpression>) {

    predicate Contains(e: GroupExpression) {
      e in expressions || e in enforcers
    }

    /** Group::AddExpression: appends, with no deduplication of its own. */
    function AddExpression(e: GroupExpression, enforced: bool): (g: Group)
      ensures g.id == id
      ensures forall x :: g.Contains(x) <==> Contains(x) || x == e
      ensures enforced ==> g.expressions == expressions && g.enforcers == enforcers + [e]
      ensures !enforced ==> g.expressions == expressions + [e] && g.enforcers == enforcers
    {
      if enforced then Group(id, expressions, enforcers + [e])
      else Group(id, expressions + [e], enforcers)
    }
  }

  datatype Memo = Memo(groups: seq<Group>, index: map<GroupExpression, GroupID>) {

    /** Group ids are dense (group i has id i); every indexed expression
        sits in the group the index names, and every expression of a group
        is indexed with that group. Leaves are never indexed. */
    ghost predicate Valid() {
      && (forall i :: 0 <= i < |groups| ==> groups[i].id == i)
      && (forall e :: e in index ==> !e.op.Leaf? && 0 <= index[e] < |groups| && groups[index[e]].Contains(e))
      && (forall i, e :: 0 <= i < |groups| && groups[i].Contains(e) ==> e in index && index[e] == i)
    }

    predicate IsGroup(id: GroupID) {
      0 <= id < |groups|
    }
  }

  /** What InsertExpression hands back: the updated memo, the canonical
      expression it returned (None for the `return false` of the leaf
      branch), and the group the caller's expression belongs to afterwards:
      the id SetGroupID writes onto it in the leaf and hit branches, and on
      a miss the group it was added to. */
  datatype Insertion = Insertion(memo: Memo, canonical: Option<GroupExpression>, groupId: GroupID)

  /** The two assert()s of InsertExpression. */
  datatype MemoError =
    | LeafGroupMismatch(target: GroupID, originGroup: GroupID)
    | TargetGroupMismatch(target: GroupID, existing: GroupID)

  /** Memo(): no groups, empty index. */
  function EmptyMemo(): (m: Memo)
    ensures m.Valid() && |m.groups| == 0 && m.index == map[]
  {
    Memo([], map[])
  }

  /** AddNewGroup: the new id is the previous group count. */
  function AddNewGroup(m: Memo): (r: (Memo, GroupID))
    ensures r.1 == |m.groups|
    ensures |r.0.groups| == |m.groups| + 1
    ensures r.0.groups[..|m.groups|] == m.groups
    ensures r.0.groups[r.1] == Group(r.1, [], [])
    ensures r.0.index == m.index
    ensures m.Valid() ==> r.0.Valid()
  {
    var id := |m.groups|;
    (Memo(m.groups + [Group(id, [], [])], m.index), id)
  }

  /** GetGroupByID: unchecked indexing in the source. */
  function GetGroupByID(m: Memo, id: GroupID): (g: Group)
    requires m.IsGroup(id)
    ensures m.Valid() ==> g.id == id
    ensures m.Valid() ==> forall e :: g.Contains(e) ==> e in m.index && m.index[e] == id
  {
    m.groups[id]
  }

  /** Groups(): the group list, group i at position i. */
  function Groups(m: Memo): (gs: seq<Group>)
    ensures |gs| == |m.groups|
    ensures m.Valid() ==> forall i :: 0 <= i < |gs| ==> gs[i].id == i && gs[i] == GetGroupByID(m, i)
  {
    m.groups
  }

  /** InsertExpression(gexpr, target_group, enforced). The leaf and hit
      branches only compare the target; on a miss it must be UNDEFINED_GROUP
      or an existing group, since the group list is indexed with it
      unchecked. */
  function InsertExpressionInto(m: Memo, e: GroupExpression, target: GroupID, enforced: bool)
    : (r: Result<Insertion, MemoError>)
    requires e.op.Leaf? || e in m.index || target == UndefinedGroup || m.IsGroup(target)
    // leaf: nothing is allocated or indexed; the origin group is authoritative
    ensures e.op.Leaf? ==>
      if target != UndefinedGroup && target != e.op.originGroup
      then r == Err(LeafGroupMismatch(target, e.op.originGroup))
      else r == Ok(Insertion(m, None, e.op.originGroup))
    // hit: the existing representative and its group; the memo is untouched
    ensures !e.op.Leaf? && e in m.index ==>
      if target != UndefinedGroup && target != m.index[e]
      then r == Err(TargetGroupMismatch(target, m.index[e]))
      else r == Ok(Insertion(m, Some(e), m.index[e]))
    // miss: indexed, and placed into a brand-new group or into the target
    ensures !e.op.Leaf? && e !in m.index ==> r.Ok?
    ensures !e.op.Leaf? && e !in m.index ==>
      var ins := r.value;
      && ins.canonical == Some(e)
      && ins.memo.index == m.index[e := ins.groupId]
      && (target == UndefinedGroup ==> ins.groupId == |m.groups| && |ins.memo.groups| == |m.groups| + 1)
      && (target != UndefinedGroup ==> ins.groupId == target && |ins.memo.groups| == |m.groups|)
      && ins.memo.groups[ins.groupId].id == (if target == UndefinedGroup then |m.groups| else m.groups[target].id)
      && (forall x :: ins.memo.groups[ins.groupId].Contains(x) <==>
            x == e || (target != UndefinedGroup && m.groups[target].Contains(x)))
      && (if enforced then e in ins.memo.groups[ins.groupId].enforcers
          else e in ins.memo.groups[ins.groupId].expressions)
      && (forall i :: 0 <= i < |m.groups| && i != ins.groupId ==> ins.memo.groups[i] == m.groups[i])
    ensures m.Valid() && r.Ok? ==> r.value.memo.Valid()
  {
    if e.op.Leaf? then
      if target != UndefinedGroup && target != e.op.originGroup then
        Err(LeafGroupMismatch(target, e.op.originGroup))
      else
        Ok(Insertion(m, None, e.op.originGroup))
    else if e in m.index then
      var existing := m.index[e];
      if target != UndefinedGroup && target != existing then
        Err(TargetGroupMismatch(target, existing))
      else
        Ok(Insertion(m, Some(e), existing))
    else
      var (grown, groupId) :=
        if target == UndefinedGroup then AddNewGroup(m) else (m, target);
      var group := GetGroupByID(grown, groupId).AddExpression(e, enforced);
      var result := Memo(grown.groups[groupId := group], m.index[e := groupId]);
      assert m.Valid() ==> result.Valid() by {
        if m.Valid() {
          MissKeepsValid(m, e, target, enforced, grown, groupId, result);
        }
      }
      Ok(Insertion(result, Some(e), groupId))
  }

  lemma MissKeepsValid(m: Memo, e: GroupExpression, target: GroupID, enforced: bool,
                       grown: Memo, groupId: GroupID, result: Memo)
    requires m.Valid() && !e.op.Leaf? && e !in m.index
    requires target == UndefinedGroup || m.IsGroup(target)
    requires (grown, groupId) == (if target == UndefinedGroup then AddNewGroup(m) else (m, target))
    requires result == Memo(grown.groups[groupId := GetGroupByID(grown, groupId).AddExpression(e, enforced)],
                            m.index[e := groupId])
    ensures result.Valid()
  {
    assert grown.Valid() && grown.index == m.index && grown.IsGroup(groupId);
    MissKeepsIndexSound(grown, e, groupId, enforced, result);
    MissKeepsGroupsIndexed(grown, e, groupId, enforced, result);
  }

  /** After a miss every indexed expression still sits in its group. */
  lemma MissKeepsIndexSound(grown: Memo, e: GroupExpression, groupId: GroupID, enforced: bool, result: Memo)
    requires grown.Valid() && !e.op.Leaf? && e !in grown.index && grown.IsGroup(groupId)
    requires result == Memo(grown.groups[groupId := grown.groups[groupId].AddExpression(e, enforced)],
                            grown.index[e := groupId])
    ensures forall x :: x in result.index ==>
      !x.op.Leaf? && 0 <= result.index[x] < |result.groups| && result.groups[result.index[x]].Contains(x)
  {
  }

  /** After a miss every expression of every group is indexed with it. */
  lemma MissKeepsGroupsIndexed(grown: Memo, e: GroupExpression, groupId: GroupID, enforced: bool, result: Memo)
    requires grown.Valid() && !e.op.Leaf? && e !in grown.index && grown.IsGroup(groupId)
    requires result == Memo(grown.groups[groupId := grown.groups[groupId].AddExpression(e, enforced)],
                            grown.index[e := groupId])
    ensures forall i, x :: 0 <= i < |result.groups| && result.groups[i].Contains(x) ==>
      x in result.index && result.index[x] == i
  {
    forall i, x | 0 <= i < |result.groups| && result.groups[i].Contains(x)
      ensures x in result.index && result.index[x] == i
    {
      if i == groupId && x == e {
      } else {
        assert grown.groups[i].Contains(x);
      }
    }
  }

  /** The convenience overload: InsertExpression(gexpr, enforced). */
  function InsertExpression(m: Memo, e: GroupExpression, enforced: bool): (r: Result<Insertion, MemoError>)
    ensures r.Ok?
    ensures r == InsertExpressionInto(m, e, UndefinedGroup, enforced)
  {
    InsertExpressionInto(m, e, UndefinedGroup, enforced)
  }

  /** In a valid memo an indexed expression belongs to exactly one group. */
  lemma IndexedInExactlyOneGroup(m: Memo, e: GroupExpression)
    requires m.Valid() && e in m.index
    ensures forall i :: 0 <= i < |m.groups| ==> (m.groups[i].Contains(e) <==> i == m.index[e])
  {
  }

  /** Dedup: inserting the same non-leaf expression twice gives the same
      group both times, and the second insertion changes nothing. */
  lemma InsertTwiceIsIdempotent(m: Memo, e: GroupExpression, enforced1: bool, enforced2: bool)
    requires m.Valid() && !e.op.Leaf?
    ensures var first := InsertExpression(m, e, enforced1).value;
            var second := InsertExpression(first.memo, e, enforced2).value;
            && second.groupId == first.groupId
            && second.memo == first.memo
            && second.canonical == Some(e)
  {
    var first := InsertExpression(m, e, enforced1).value;
    assert e in first.memo.index && first.memo.index[e] == first.groupId;
  }

  /** Re-inserting a known expression with an explicit target other than
      its group is an assertion failure, never a silent success. */
  lemma ConflictingTargetFails(m: Memo, e: GroupExpression, target: GroupID, enforced: bool)
    requires m.Valid() && !e.op.Leaf? && e in m.index
    requires target != UndefinedGroup && target != m.index[e]
    ensures InsertExpressionInto(m, e, target, enforced).Err?
  {
  }

  /** Leaves never allocate: the group count and the index stay the same
      and the resulting group id is the leaf's origin group. */
  lemma LeafNeverAllocates(m: Memo, e: GroupExpression, enforced: bool)
    requires e.op.Leaf?
    ensures var r := InsertExpression(m, e, enforced).value;
            r.memo == m && r.groupId == e.op.originGroup
  {
  }

  /** AddNewGroup called n times on an empty memo: the k-th call returns
      k - 1 and the memo then has exactly n groups. */
  function AddNewGroups(m: Memo, n: nat): (r: (Memo, seq<GroupID>))
    ensures |r.1| == n
    ensures |r.0.groups| == |m.groups| + n
    ensures forall k :: 0 <= k < n ==> r.1[k] == |m.groups| + k
    ensures m.Valid() ==> r.0.Valid()
    decreases n
  {
    if n == 0 then (m, [])
    else
      var (m1, id) := AddNewGroup(m);
      var (mn, ids) := AddNewGroups(m1, n - 1);
      (mn, [id] + ids)
  }
}
