/** The database as the services see it: the users and groups tables,
    each a map from external id to row, with the membership edges kept on
    both sides. The invariants are the table constraints declared on the
    entities and the two-sided consistency of the membership relation. */
module Stores {
  import opened Wrappers
  import opened Entities
  import opened Enumeration
  import opened ScimErrors

  datatype Store = Store(users: map<string, UserEntity>, groups: map<string, GroupEntity>)

  const EmptyStore: Store := Store(map[], map[])

  /** Every row is stored under its own external id. */
  predicate KeysMatch(s: Store) {
    && (forall k :: k in s.users ==> s.users[k].externalId == Some(k))
    && (forall k :: k in s.groups ==> s.groups[k].externalId == Some(k))
  }

  /** Row `k` of the users table obeys the table's constraints with respect
      to the other rows: user_name, email and created_at are NOT NULL, and
      user_name and email are UNIQUE. (external_id is the key.) */
  predicate UserRowValid(users: map<string, UserEntity>, k: string)
    requires k in users
  {
    var u := users[k];
    && u.userName.Some? && u.email.Some? && u.createdAt.Some?
    && forall j :: j in users && j != k ==> users[j].userName != u.userName && users[j].email != u.email
  }

  /** Row `k` of the groups table: display_name and created_at are NOT NULL
      and display_name is UNIQUE. */
  predicate GroupRowValid(groups: map<string, GroupEntity>, k: string)
    requires k in groups
  {
    var g := groups[k];
    && g.displayName.Some? && g.createdAt.Some?
    && forall j :: j in groups && j != k ==> groups[j].displayName != g.displayName
  }

  predicate TablesValid(s: Store) {
    && (forall k :: k in s.users ==> UserRowValid(s.users, k))
    && (forall k :: k in s.groups ==> GroupRowValid(s.groups, k))
  }

  /** u is a member of g exactly when g is one of u's groups. */
  predicate Symmetric(s: Store) {
    forall g, u :: g in s.groups && u in s.users ==>
      (u in s.groups[g].members <==> g in s.users[u].groups)
  }

  /** Every member of a group is a stored user (a Java set holds the user
      objects themselves, so a member always exists). */
  predicate MembersResolve(s: Store) {
    forall g :: g in s.groups ==> s.groups[g].members <= s.users.Keys
  }

  /** Every group a user lists is a stored group. Group deletion can break
      this (see GroupService.DeleteGroup); nothing else does. */
  predicate GroupsResolve(s: Store) {
    forall u :: u in s.users ==> s.users[u].groups <= s.groups.Keys
  }

  predicate Consistent(s: Store) {
    KeysMatch(s) && TablesValid(s) && Symmetric(s) && MembersResolve(s)
  }

  /** An external id no stored group has, and that no user still lists. */
  predicate FreshGroupId(s: Store, id: string) {
    id !in s.groups && forall u :: u in s.users ==> id !in s.users[u].groups
  }

  /** Writing `e` as the row under `id` (an insert or an update) passes the
      users table's constraints against every other row. */
  predicate UserWriteOk(s: Store, id: string, e: UserEntity) {
    e.externalId == Some(id) && UserRowValid(s.users[id := e], id)
  }

  /** Writing `g` as the row under `id` passes the groups table's constraints. */
  predicate GroupWriteOk(s: Store, id: string, g: GroupEntity) {
    g.externalId == Some(id) && GroupRowValid(s.groups[id := g], id)
  }

  /** A write the constraints accept keeps every other row valid too:
      uniqueness is symmetric. */
  lemma UserWriteKeepsTables(s: Store, id: string, e: UserEntity)
    requires TablesValid(s) && UserWriteOk(s, id, e)
    ensures TablesValid(s.(users := s.users[id := e]))
  {
    var us := s.users[id := e];
    forall k | k in us ensures UserRowValid(us, k) {
      if k != id {
        assert UserRowValid(s.users, k);
        assert UserRowValid(us, id);
      }
    }
  }

  lemma GroupWriteKeepsTables(s: Store, id: string, g: GroupEntity)
    requires TablesValid(s) && GroupWriteOk(s, id, g)
    ensures TablesValid(s.(groups := s.groups[id := g]))
  {
    var gs := s.groups[id := g];
    forall k | k in gs ensures GroupRowValid(gs, k) {
      if k != id {
        assert GroupRowValid(s.groups, k);
        assert GroupRowValid(gs, id);
      }
    }
  }

  /** The outcome of a transactional service call: the store after commit
      or rollback, and the value returned or the error thrown. */
  datatype Txn<R> = Txn(store: Store, result: Result<R, ServiceError>)

  // -----------------------------------------------------------------------
  // Membership edges on the whole store

  /** Edges between group `gid` and every user in `us` are added on both sides. */
  function AttachAll(s: Store, gid: string, us: set<string>): (r: Store)
    requires gid in s.groups
  {
    Store(
      map k | k in s.users :: if k in us then s.users[k].(groups := s.users[k].groups + {gid}) else s.users[k],
      s.groups[gid := s.groups[gid].(members := s.groups[gid].members + us)])
  }

  /** Edges between group `gid` and every user in `us` are removed on both sides. */
  function DetachAll(s: Store, gid: string, us: set<string>): (r: Store)
    requires gid in s.groups
  {
    Store(
      map k | k in s.users :: if k in us then s.users[k].(groups := s.users[k].groups - {gid}) else s.users[k],
      s.groups[gid := s.groups[gid].(members := s.groups[gid].members - us)])
  }

  /** `group.addMember(user)` on stored rows: only the two rows change. */
  function Attach(s: Store, gid: string, uid: string): (r: Store)
    requires KeysMatch(s) && gid in s.groups && uid in s.users
    ensures r == AttachAll(s, gid, {uid})
    ensures KeysMatch(r) && r.users.Keys == s.users.Keys && r.groups.Keys == s.groups.Keys
  {
    EdgesKeepRows(s, gid, {uid});
    var pair := AddMember(s.groups[gid], s.users[uid]);
    var r := Store(s.users[uid := pair.1], s.groups[gid := pair.0]);
    assert r.users == AttachAll(s, gid, {uid}).users;
    r
  }

  /** `group.removeMember(user)` on stored rows. */
  function Detach(s: Store, gid: string, uid: string): (r: Store)
    requires KeysMatch(s) && gid in s.groups && uid in s.users
    ensures r == DetachAll(s, gid, {uid})
    ensures KeysMatch(r) && r.users.Keys == s.users.Keys && r.groups.Keys == s.groups.Keys
  {
    EdgesKeepRows(s, gid, {uid});
    var pair := RemoveMember(s.groups[gid], s.users[uid]);
    var r := Store(s.users[uid := pair.1], s.groups[gid := pair.0]);
    assert r.users == DetachAll(s, gid, {uid}).users;
    r
  }

  /** Edge changes touch neither the keys nor any column of any row. */
  lemma EdgesKeepRows(s: Store, gid: string, us: set<string>)
    requires gid in s.groups
    ensures var a := AttachAll(s, gid, us);
            var d := DetachAll(s, gid, us);
            && a.users.Keys == d.users.Keys == s.users.Keys
            && a.groups.Keys == d.groups.Keys == s.groups.Keys
            && (forall k :: k in s.users ==> a.users[k].(groups := {}) == d.users[k].(groups := {}) == s.users[k].(groups := {}))
            && (forall k :: k in s.groups ==> a.groups[k].(members := {}) == d.groups[k].(members := {}) == s.groups[k].(members := {}))
  {
  }

  /** Edge changes keep the table constraints: no constrained column moves. */
  lemma EdgesKeepTables(s: Store, gid: string, us: set<string>, r: Store)
    requires TablesValid(s) && gid in s.groups
    requires r == AttachAll(s, gid, us) || r == DetachAll(s, gid, us)
    ensures TablesValid(r)
  {
    EdgesKeepRows(s, gid, us);
    forall k | k in r.users ensures UserRowValid(r.users, k) {
      assert UserRowValid(s.users, k);
    }
    forall k | k in r.groups ensures GroupRowValid(r.groups, k) {
      assert GroupRowValid(s.groups, k);
    }
  }

  /** Edge changes keep every row under its own key. */
  lemma EdgesKeepKeys(s: Store, gid: string, us: set<string>)
    requires KeysMatch(s) && gid in s.groups
    ensures KeysMatch(AttachAll(s, gid, us)) && KeysMatch(DetachAll(s, gid, us))
  {
    EdgesKeepRows(s, gid, us);
  }

  lemma AttachSymmetric(s: Store, gid: string, us: set<string>)
    requires Symmetric(s) && gid in s.groups
    ensures Symmetric(AttachAll(s, gid, us))
  {
    var r := AttachAll(s, gid, us);
    forall g, u | g in r.groups && u in r.users
      ensures u in r.groups[g].members <==> g in r.users[u].groups
    {
      assert u in s.groups[g].members <==> g in s.users[u].groups;
      assert r.users[u].groups == if u in us then s.users[u].groups + {gid} else s.users[u].groups;
      if g == gid {
        assert r.groups[g].members == s.groups[g].members + us;
      } else {
        assert r.groups[g] == s.groups[g];
      }
    }
  }

  lemma DetachSymmetric(s: Store, gid: string, us: set<string>)
    requires Symmetric(s) && gid in s.groups
    ensures Symmetric(DetachAll(s, gid, us))
  {
    var r := DetachAll(s, gid, us);
    forall g, u | g in r.groups && u in r.users
      ensures u in r.groups[g].members <==> g in r.users[u].groups
    {
      assert u in s.groups[g].members <==> g in s.users[u].groups;
      assert r.users[u].groups == if u in us then s.users[u].groups - {gid} else s.users[u].groups;
      if g == gid {
        assert r.groups[g].members == s.groups[g].members - us;
      } else {
        assert r.groups[g] == s.groups[g];
      }
    }
  }

  lemma AttachResolves(s: Store, gid: string, us: set<string>)
    requires MembersResolve(s) && gid in s.groups && us <= s.users.Keys
    ensures MembersResolve(AttachAll(s, gid, us))
  {
    EdgesKeepRows(s, gid, us);
    var a := AttachAll(s, gid, us);
    forall g | g in a.groups ensures a.groups[g].members <= a.users.Keys {
      assert s.groups[g].members <= s.users.Keys;
    }
  }

  lemma DetachResolves(s: Store, gid: string, us: set<string>)
    requires MembersResolve(s) && gid in s.groups
    ensures MembersResolve(DetachAll(s, gid, us))
  {
    EdgesKeepRows(s, gid, us);
    var d := DetachAll(s, gid, us);
    forall g | g in d.groups ensures d.groups[g].members <= d.users.Keys {
      assert s.groups[g].members <= s.users.Keys;
    }
  }

  /** Attaching stored users keeps every invariant, the two-sided one included. */
  lemma {:induction false} AttachKeepsConsistency(s: Store, gid: string, us: set<string>)
    requires Consistent(s) && gid in s.groups && us <= s.users.Keys
    ensures Consistent(AttachAll(s, gid, us))
  {
    EdgesKeepKeys(s, gid, us);
    EdgesKeepTables(s, gid, us, AttachAll(s, gid, us));
    AttachSymmetric(s, gid, us);
    AttachResolves(s, gid, us);
  }

  /** Detaching keeps every invariant as well. */
  lemma {:induction false} DetachKeepsConsistency(s: Store, gid: string, us: set<string>)
    requires Consistent(s) && gid in s.groups
    ensures Consistent(DetachAll(s, gid, us))
  {
    EdgesKeepKeys(s, gid, us);
    EdgesKeepTables(s, gid, us, DetachAll(s, gid, us));
    DetachSymmetric(s, gid, us);
    DetachResolves(s, gid, us);
  }

  /** Attaching one user and then a set is attaching the union at once. */
  lemma AttachCompose(s: Store, gid: string, u: string, us: set<string>)
    requires gid in s.groups
    ensures AttachAll(AttachAll(s, gid, {u}), gid, us) == AttachAll(s, gid, {u} + us)
  {
    var m := AttachAll(s, gid, {u});
    var l := AttachAll(m, gid, us);
    var r := AttachAll(s, gid, {u} + us);
    forall k | k in s.users ensures l.users[k] == r.users[k] {
      assert s.users[k].groups + {gid} + {gid} == s.users[k].groups + {gid};
    }
    assert l.users == r.users;
    assert s.groups[gid].members + {u} + us == s.groups[gid].members + ({u} + us);
    assert l.groups[gid] == r.groups[gid];
    assert l.groups == r.groups;
  }

  lemma DetachCompose(s: Store, gid: string, u: string, us: set<string>)
    requires gid in s.groups
    ensures DetachAll(DetachAll(s, gid, {u}), gid, us) == DetachAll(s, gid, {u} + us)
  {
    var m := DetachAll(s, gid, {u});
    var l := DetachAll(m, gid, us);
    var r := DetachAll(s, gid, {u} + us);
    forall k | k in s.users ensures l.users[k] == r.users[k] {
      assert s.users[k].groups - {gid} - {gid} == s.users[k].groups - {gid};
    }
    assert l.users == r.users;
    assert s.groups[gid].members - {u} - us == s.groups[gid].members - ({u} + us);
    assert l.groups[gid] == r.groups[gid];
    assert l.groups == r.groups;
  }

  lemma AttachNothing(s: Store, gid: string)
    requires gid in s.groups
    ensures AttachAll(s, gid, {}) == s
  {
    assert AttachAll(s, gid, {}).users == s.users;
    assert s.groups[gid].members + {} == s.groups[gid].members;
  }

  lemma DetachNothing(s: Store, gid: string)
    requires gid in s.groups
    ensures DetachAll(s, gid, {}) == s
  {
    assert DetachAll(s, gid, {}).users == s.users;
    assert s.groups[gid].members - {} == s.groups[gid].members;
  }

  // -----------------------------------------------------------------------
  // Any sequence of addMember / removeMember calls

  datatype MembershipOp = AddOp(group: string, user: string) | RemoveOp(group: string, user: string)

  /** One helper call on two stored rows; a call naming a missing row is
      not made (there is no entity to call it on). */
  function ApplyOp(s: Store, op: MembershipOp): (r: Store)
    requires KeysMatch(s)
    ensures KeysMatch(r) && r.users.Keys == s.users.Keys && r.groups.Keys == s.groups.Keys
  {
    if op.group in s.groups && op.user in s.users then
      match op
      case AddOp(g, u) => Attach(s, g, u)
      case RemoveOp(g, u) => Detach(s, g, u)
    else s
  }

  function ApplyOps(s: Store, ops: seq<MembershipOp>): (r: Store)
    requires KeysMatch(s)
    ensures KeysMatch(r) && r.users.Keys == s.users.Keys && r.groups.Keys == s.groups.Keys
    decreases |ops|
  {
    if |ops| == 0 then s else ApplyOps(ApplyOp(s, ops[0]), ops[1..])
  }

  /** The central invariant: no sequence of helper calls starting from a
      symmetric store leaves the two sides disagreeing. */
  lemma {:induction false} HelpersPreserveSymmetry(s: Store, ops: seq<MembershipOp>)
    requires KeysMatch(s) && Symmetric(s)
    ensures Symmetric(ApplyOps(s, ops))
    decreases |ops|
  {
    if |ops| > 0 {
      var s1 := ApplyOp(s, ops[0]);
      assert Symmetric(s1);
      HelpersPreserveSymmetry(s1, ops[1..]);
    }
  }

  // -----------------------------------------------------------------------
  // Row removal

  /** Deleting a user: its row goes, and so do its join-table rows, which
      the user side owns; each group's members lose the user. */
  function RemoveUserRow(s: Store, uid: string): (r: Store)
    ensures r.users == s.users - {uid}
    ensures r.groups.Keys == s.groups.Keys
    ensures forall g :: g in r.groups ==> r.groups[g] == s.groups[g].(members := s.groups[g].members - {uid})
  {
    Store(s.users - {uid},
          map g | g in s.groups :: s.groups[g].(members := s.groups[g].members - {uid}))
  }

  /** Deleting a group row touches nothing else. */
  function RemoveGroupRow(s: Store, gid: string): (r: Store)
    ensures r.groups == s.groups - {gid} && r.users == s.users
  {
    s.(groups := s.groups - {gid})
  }

  // -----------------------------------------------------------------------
  // Table scans

  /** `findAll()` order: every row once, in an order the model leaves open. */
  ghost function UserRows(s: Store): (rows: seq<UserEntity>)
    ensures |rows| == |s.users|
    ensures forall u :: u in rows <==> u in s.users.Values
  {
    var ids := SetToSeq(s.users.Keys);
    var rows := seq(|ids|, i requires 0 <= i < |ids| => s.users[ids[i]]);
    assert forall u :: u in s.users.Values ==> u in rows by {
      forall u | u in s.users.Values ensures u in rows {
        var k :| k in s.users && s.users[k] == u;
        var i :| 0 <= i < |ids| && ids[i] == k;
        assert rows[i] == u;
      }
    }
    rows
  }

  ghost function GroupRows(s: Store): (rows: seq<GroupEntity>)
    ensures |rows| == |s.groups|
    ensures forall g :: g in rows <==> g in s.groups.Values
  {
    var ids := SetToSeq(s.groups.Keys);
    var rows := seq(|ids|, i requires 0 <= i < |ids| => s.groups[ids[i]]);
    assert forall g :: g in s.groups.Values ==> g in rows by {
      forall g | g in s.groups.Values ensures g in rows {
        var k :| k in s.groups && s.groups[k] == g;
        var i :| 0 <= i < |ids| && ids[i] == k;
        assert rows[i] == g;
      }
    }
    rows
  }
}
