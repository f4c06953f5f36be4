/** Team members and their display order. New members go to the end of
    the order; the order changes only through swapping two members or
    renumbering a list of members by position. Image upload is an opaque
    URL supplied by the caller. */
module Team {
  import opened Common
  import Rows

  datatype Member = Member(id: string, name: string, position: string, image: string,
                           linkedin: Option<string>, order: int)

  type Table = seq<Member>

  predicate UniqueIds(t: Table) {
    forall i, j :: 0 <= i < j < |t| ==> t[i].id != t[j].id
  }

  function IdOf(m: Member): string { m.id }

  function FindById(t: Table, id: string): (r: Option<nat>)
    ensures r.Some? ==> r.value < |t| && t[r.value].id == id
    ensures r.Some? ==> forall i :: 0 <= i < r.value ==> t[i].id != id
    ensures r.None? <==> forall i :: 0 <= i < |t| ==> t[i].id != id
  {
    Rows.IndexOfKey(t, IdOf, id)
  }

  function Orders(t: Table): (r: seq<int>)
    ensures |r| == |t| && forall k :: 0 <= k < |t| ==> r[k] == t[k].order
  {
    seq(|t|, k requires 0 <= k < |t| => t[k].order)
  }

  /** A reply, the member record a reply carries, and the resulting table. */
  datatype Step = Step(reply: Reply, member: Option<Member>, table: Table)

  const MemberNotFound := Reply(NotFound, "Team member not found")

  // ---- listing ----

  function OrderRank(m: Member): Rows.Rank {
    Rows.Rank(m.order, 0)
  }

  /** `getAllTeamMembers`: every member once, by ascending order. */
  function GetAllTeamMembers(t: Table): (r: Table)
    ensures multiset(r) == multiset(t)
    ensures forall i, j :: 0 <= i < j < |r| ==> r[i].order <= r[j].order
  {
    var r := Rows.SortBy(t, OrderRank);
    assert forall i, j :: 0 <= i < j < |r| ==> Rows.RankLe(OrderRank(r[i]), OrderRank(r[j]));
    r
  }

  // ---- create, update, delete ----

  /** `createTeamMember`: the new member's order is one past the largest
      existing order (1 on an empty table), so it sorts after everyone.
      `upload` is the URL of an uploaded image, if one was sent. */
  function CreateTeamMember(t: Table, name: string, position: string, linkedin: Option<string>,
                            upload: Option<string>, freshId: string): (out: Step)
    ensures out.reply.status == Created
    ensures |out.table| == |t| + 1 && out.table[..|t|] == t
    ensures out.member == Some(out.table[|t|])
    ensures var m := out.table[|t|];
            && m.id == freshId && m.name == name && m.position == position && m.linkedin == linkedin
            && m.image == (if upload.Some? then upload.value else "")
            && (forall k :: 0 <= k < |t| ==> t[k].order < m.order)
            && (|t| == 0 ==> m.order == 1)
            && (|t| > 0 ==> exists k :: 0 <= k < |t| && t[k].order + 1 == m.order)
  {
    var m := Member(freshId, name, position, if upload.Some? then upload.value else "",
                    linkedin, Rows.NextOrder(Orders(t)));
    Step(Reply(Created, ""), Some(m), t + [m])
  }

  /** `updateTeamMember`: each of name, position and linkedin is overwritten
      only when supplied as a non-empty string, the image only when a file
      was uploaded; the order never changes. */
  function UpdateTeamMember(t: Table, id: string, name: JsValue, position: JsValue, linkedin: JsValue,
                            upload: Option<string>): (out: Step)
    ensures FindById(t, id).None? ==> out == Step(MemberNotFound, None, t)
    ensures FindById(t, id).Some? ==>
              var i := FindById(t, id).value;
              && out.reply.status == Ok
              && |out.table| == |t|
              && var m := out.table[i];
              && out.member == Some(m)
              && m.id == t[i].id && m.order == t[i].order
              && m.name == (if Supplied(name).Some? then name.s else t[i].name)
              && m.position == (if Supplied(position).Some? then position.s else t[i].position)
              && m.linkedin == (if Supplied(linkedin).Some? then Some(linkedin.s) else t[i].linkedin)
              && m.image == (if upload.Some? then upload.value else t[i].image)
              && forall k :: 0 <= k < |t| && k != i ==> out.table[k] == t[k]
  {
    match FindById(t, id)
    case None => Step(MemberNotFound, None, t)
    case Some(i) =>
      var cur := t[i];
      var m := cur.(name := Supplied(name).GetOr(cur.name),
                    position := Supplied(position).GetOr(cur.position),
                    linkedin := if Supplied(linkedin).Some? then Supplied(linkedin) else cur.linkedin,
                    image := upload.GetOr(cur.image));
      Step(Reply(Ok, ""), Some(m), t[i := m])
  }

  /** An update keeps every key and every order, so keys stay unique and
      the display order is untouched; sending the same update again changes
      nothing more. */
  lemma {:induction false} UpdateKeepsOrderAndIsIdempotent(t: Table, id: string, name: JsValue, position: JsValue,
                                                           linkedin: JsValue, upload: Option<string>)
    ensures var t' := UpdateTeamMember(t, id, name, position, linkedin, upload).table;
            && |t'| == |t|
            && Orders(t') == Orders(t)
            && (forall k :: 0 <= k < |t| ==> t'[k].id == t[k].id)
            && (UniqueIds(t) ==> UniqueIds(t'))
            && UpdateTeamMember(t', id, name, position, linkedin, upload).table == t'
  {
    var t' := UpdateTeamMember(t, id, name, position, linkedin, upload).table;
    assert forall k :: 0 <= k < |t| ==> t'[k].id == t[k].id && t'[k].order == t[k].order;
    Rows.SameKeysSameIndex(t, t', IdOf, id);
    var t'' := UpdateTeamMember(t', id, name, position, linkedin, upload).table;
    if FindById(t, id).Some? {
      var i := FindById(t, id).value;
      assert forall k :: 0 <= k < |t| ==> t''[k] == t'[k];
    }
  }

  /** `deleteTeamMember`: removes the one record with that key and keeps the
      others in place. */
  function DeleteTeamMember(t: Table, id: string): (out: Step)
    ensures FindById(t, id).None? ==> out == Step(MemberNotFound, None, t)
    ensures FindById(t, id).Some? ==>
              var i := FindById(t, id).value;
              && out.reply == Reply(Ok, "Team member deleted")
              && |out.table| == |t| - 1
              && out.table[..i] == t[..i] && out.table[i..] == t[i + 1..]
              && multiset(out.table) == multiset(t) - multiset{t[i]}
  {
    match FindById(t, id)
    case None => Step(MemberNotFound, None, t)
    case Some(i) =>
      assert t == t[..i] + [t[i]] + t[i + 1..];
      Step(Reply(Ok, "Team member deleted"), None, t[..i] + t[i + 1..])
  }

  /** With unique keys, a deleted member is gone. */
  lemma {:induction false} DeletedIsGone(t: Table, id: string)
    requires UniqueIds(t)
    ensures FindById(DeleteTeamMember(t, id).table, id).None?
    ensures UniqueIds(DeleteTeamMember(t, id).table)
  {
    var t' := DeleteTeamMember(t, id).table;
    if FindById(t, id).Some? {
      var i := FindById(t, id).value;
      forall k | 0 <= k < |t'|
        ensures t'[k].id != id && (k < i ==> t'[k] == t[k]) && (k >= i ==> t'[k] == t[k + 1])
      {
        if k < i {
          assert t'[k] == t'[..i][k] == t[..i][k];
        } else {
          assert t'[k] == t'[i..][k - i] == t[i + 1..][k - i];
        }
      }
    }
  }

  // ---- swapping ----

  const IdsRequired := Reply(BadRequest, "Both member IDs are required")
  const IdsMustDiffer := Reply(BadRequest, "Member IDs must be different")
  const MembersNotFound := Reply(NotFound, "One or both team members not found")
  const Swapped := Reply(Ok, "Team member order swapped successfully")

  /** `swapTeamMemberOrder`. A missing key is the empty string. Refused
      requests change nothing; a successful one exchanges the two orders
      and nothing else. */
  function SwapTeamMemberOrder(t: Table, id1: string, id2: string): (out: Step)
    ensures id1 == "" || id2 == "" ==> out == Step(IdsRequired, None, t)
    ensures id1 != "" && id2 != "" && id1 == id2 ==> out == Step(IdsMustDiffer, None, t)
    ensures (id1 != "" && id2 != "" && id1 != id2 &&
             (FindById(t, id1).None? || FindById(t, id2).None?)) ==> out == Step(MembersNotFound, None, t)
    ensures out.reply == Swapped <==>
              id1 != "" && id2 != "" && id1 != id2 && FindById(t, id1).Some? && FindById(t, id2).Some?
    ensures out.reply == Swapped ==>
              var i, j := FindById(t, id1).value, FindById(t, id2).value;
              && i != j
              && |out.table| == |t|
              && out.table[i] == t[i].(order := t[j].order)
              && out.table[j] == t[j].(order := t[i].order)
              && (forall k :: 0 <= k < |t| && k != i && k != j ==> out.table[k] == t[k])
              && multiset(Orders(out.table)) == multiset(Orders(t))
  {
    if id1 == "" || id2 == "" then Step(IdsRequired, None, t)
    else if id1 == id2 then Step(IdsMustDiffer, None, t)
    else match (FindById(t, id1), FindById(t, id2))
      case (Some(i), Some(j)) =>
        var t' := t[i := t[i].(order := t[j].order)][j := t[j].(order := t[i].order)];
        assert Orders(t') == Orders(t)[i := t[j].order][j := t[i].order];
        Step(Swapped, None, t')
      case _ => Step(MembersNotFound, None, t)
  }

  /** Swapping the same pair twice restores the table. */
  lemma {:induction false} SwapTwiceRestores(t: Table, id1: string, id2: string)
    ensures var t' := SwapTeamMemberOrder(t, id1, id2).table;
            SwapTeamMemberOrder(t', id1, id2).table == t
  {
    var out := SwapTeamMemberOrder(t, id1, id2);
    if out.reply == Swapped {
      var t' := out.table;
      var i, j := FindById(t, id1).value, FindById(t, id2).value;
      assert forall k :: 0 <= k < |t| ==> t'[k].id == t[k].id;
      Rows.SameKeysSameIndex(t, t', IdOf, id1);
      Rows.SameKeysSameIndex(t, t', IdOf, id2);
      var t'' := SwapTeamMemberOrder(t', id1, id2).table;
      assert forall k :: 0 <= k < |t| ==> t''[k] == t[k];
    }
  }

  // ---- positional reorder ----

  const ListRequired := Reply(BadRequest, "Member IDs array is required")
  const Reordered := Reply(Ok, "Team members reordered successfully")

  /** `update({ id }, { order })`: every row with that key takes the order. */
  function SetOrderWhere(t: Table, id: string, order: int): (t': Table)
    ensures |t'| == |t|
    ensures forall k :: 0 <= k < |t| ==> t'[k] == if t[k].id == id then t[k].(order := order) else t[k]
  {
    seq(|t|, k requires 0 <= k < |t| => if t[k].id == id then t[k].(order := order) else t[k])
  }

  /** What a member looks like once the updates for `ids` have run in list
      order: the last position listing it wins. */
  function AfterReorder(m: Member, ids: seq<string>): Member {
    if m.id in ids then m.(order := Rows.LastIndex(ids, m.id) + 1) else m
  }

  /** `reorderTeamMembers`. `ids` is `None` when the body's list is not an
      array. Each listed member takes its 1-based position as order;
      unlisted members keep theirs. The updates are applied one after the
      other, so a key listed twice keeps its last position. */
  method ReorderTeamMembers(t: Table, ids: Option<seq<string>>) returns (out: Step)
    ensures ids.None? || |ids.value| == 0 ==> out == Step(ListRequired, None, t)
    ensures ids.Some? && |ids.value| > 0 ==>
              && out.reply == Reordered
              && |out.table| == |t|
              && forall k :: 0 <= k < |t| ==> out.table[k] == AfterReorder(t[k], ids.value)
    ensures ids.Some? && Rows.Distinct(ids.value) ==>
              forall k, p :: 0 <= k < |t| && 0 <= p < |ids.value| && t[k].id == ids.value[p] ==>
                out.table[k].order == p + 1
  {
    if ids.None? || |ids.value| == 0 {
      return Step(ListRequired, None, t);
    }
    var list := ids.value;
    var t' := t;
    var n := 0;
    while n < |list|
      invariant 0 <= n <= |list|
      invariant |t'| == |t|
      invariant forall k :: 0 <= k < |t| ==> t'[k] == AfterReorder(t[k], list[..n])
    {
      t' := SetOrderWhere(t', list[n], n + 1);
      forall k | 0 <= k < |t|
        ensures t'[k] == AfterReorder(t[k], list[..n + 1])
      {
        var prefix := list[..n + 1];
        assert prefix[..n] == list[..n];
        assert prefix[n] == list[n];
        if t[k].id == list[n] {
          assert Rows.LastIndex(prefix, t[k].id) == n;
        } else if t[k].id in list[..n] {
          assert Rows.LastIndex(prefix, t[k].id) == Rows.LastIndex(list[..n], t[k].id);
        }
      }
      n := n + 1;
    }
    assert list[..n] == list;
    out := Step(Reordered, None, t');
    if Rows.Distinct(list) {
      forall k, p | 0 <= k < |t| && 0 <= p < |list| && t[k].id == list[p]
        ensures out.table[k].order == p + 1
      {
        Rows.LastIndexOfDistinct(list, p);
      }
    }
  }
}
