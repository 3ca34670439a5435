/**
 * Room membership of one presentation: the `users` Map (connection id to
 * nickname and role, in insertion order), `creatorId`, the two permission
 * gates, and the membership transitions of the join, role-change and
 * disconnect handlers of backend/index.js.
 */
module Members {
  import opened Wrappers
  import opened Seqs

  /** A socket.io connection id. Socket ids are never empty, so a stored one is always truthy. */
  type ConnId = s: string | s != "" witness "socket"

  /** Roles are plain strings: `update-user-role` stores whatever string the client sends. */
  type Role = string

  const CREATOR: Role := "creator"
  const EDITOR: Role := "editor"
  const VIEWER: Role := "viewer"

  datatype Member = Member(nickname: string, role: Role)

  /** A JavaScript `Map<ConnId, Member>`: its entries in insertion order. */
  type Users = seq<(ConnId, Member)>

  /** `Array.from(users.keys())`. */
  function Keys(us: Users): (ks: seq<ConnId>)
    ensures |ks| == |us|
    ensures forall i :: 0 <= i < |us| ==> ks[i] == us[i].0
  {
    if us == [] then [] else [us[0].0] + Keys(us[1..])
  }

  /** A Map never holds a key twice. */
  predicate DistinctKeys(us: Users) {
    forall i, j :: 0 <= i < j < |us| ==> us[i].0 != us[j].0
  }

  /** `users.get(k)`: the value of the first entry with key `k`. */
  function Get(us: Users, k: string): (r: Option<Member>)
    ensures r.Some? ==> k != ""
  {
    if us == [] then None
    else if us[0].0 == k then Some(us[0].1)
    else Get(us[1..], k)
  }

  /** `users.has(k)`. */
  predicate Has(us: Users, k: string) {
    Get(us, k).Some?
  }

  /** `users.set(k, v)`: an existing key keeps its position and gets the new value; a new key is appended. */
  function SetUser(us: Users, k: ConnId, v: Member): Users {
    if us == [] then [(k, v)]
    else if us[0].0 == k then [(k, v)] + us[1..]
    else [us[0]] + SetUser(us[1..], k, v)
  }

  /** `users.delete(k)`. */
  function DeleteUser(us: Users, k: string): Users {
    if us == [] then []
    else if us[0].0 == k then DeleteUser(us[1..], k)
    else [us[0]] + DeleteUser(us[1..], k)
  }

  lemma GetCons(e: (ConnId, Member), rest: Users, k: string)
    ensures Get([e] + rest, k) == if e.0 == k then Some(e.1) else Get(rest, k)
  {
    assert ([e] + rest)[1..] == rest;
  }

  lemma KeysCons(e: (ConnId, Member), rest: Users)
    ensures Keys([e] + rest) == [e.0] + Keys(rest)
  {
    assert ([e] + rest)[1..] == rest;
  }

  /** A key is present exactly when it is one of the entries' keys, and in a Map the value found is that entry's. */
  lemma {:induction false} GetAt(us: Users, k: string)
    ensures Has(us, k) <==> k in Keys(us)
    ensures DistinctKeys(us) ==> forall i :: 0 <= i < |us| && us[i].0 == k ==> Get(us, k) == Some(us[i].1)
  {
    if us != [] {
      GetAt(us[1..], k);
      assert us == [us[0]] + us[1..];
      KeysCons(us[0], us[1..]);
      if DistinctKeys(us) {
        assert DistinctKeys(us[1..]) by {
          forall i, j | 0 <= i < j < |us[1..]| ensures us[1..][i].0 != us[1..][j].0 {
            assert us[1..][i] == us[i + 1] && us[1..][j] == us[j + 1];
          }
        }
        forall i | 0 <= i < |us| && us[i].0 == k ensures Get(us, k) == Some(us[i].1) {
          if i > 0 {
            assert us[1..][i - 1] == us[i];
          }
        }
      }
    }
  }

  /**
   * `users.set(k, v)` then `users.get` reads back `v` at `k` and the old value
   * everywhere else; key order is untouched when `k` was present, and `k` is
   * appended at the end otherwise.
   */
  lemma {:induction false} SetUserSpec(us: Users, k: ConnId, v: Member)
    ensures Get(SetUser(us, k, v), k) == Some(v)
    ensures forall k': string :: k' != k ==> Get(SetUser(us, k, v), k') == Get(us, k')
    ensures Keys(SetUser(us, k, v)) == if Has(us, k) then Keys(us) else Keys(us) + [k]
  {
    if us == [] {
    } else if us[0].0 == k {
      GetCons((k, v), us[1..], k);
      forall k': string | k' != k ensures Get(SetUser(us, k, v), k') == Get(us, k') {
        GetCons((k, v), us[1..], k');
      }
      KeysCons((k, v), us[1..]);
      assert us == [us[0]] + us[1..];
      KeysCons(us[0], us[1..]);
    } else {
      var tail := SetUser(us[1..], k, v);
      SetUserSpec(us[1..], k, v);
      GetCons(us[0], tail, k);
      forall k': string | k' != k ensures Get(SetUser(us, k, v), k') == Get(us, k') {
        GetCons(us[0], tail, k');
      }
      KeysCons(us[0], tail);
      assert us == [us[0]] + us[1..];
      KeysCons(us[0], us[1..]);
    }
  }

  /** `users.set` keeps a Map a Map. */
  lemma SetUserDistinct(us: Users, k: ConnId, v: Member)
    requires DistinctKeys(us)
    ensures DistinctKeys(SetUser(us, k, v))
  {
    SetUserSpec(us, k, v);
    GetAt(us, k);
    var r := SetUser(us, k, v);
    assert Keys(r) == if k in Keys(us) then Keys(us) else Keys(us) + [k];
    forall i, j | 0 <= i < j < |r| ensures r[i].0 != r[j].0 {
      assert Keys(r)[i] == r[i].0 && Keys(r)[j] == r[j].0;
      if j == |us| {
        assert Keys(us)[i] == us[i].0;
      } else {
        assert Keys(us)[i] == us[i].0 && Keys(us)[j] == us[j].0;
      }
    }
  }

  /**
   * `users.delete(k)` drops `k` and leaves every other key's value; it only
   * removes entries, and it changes nothing when `k` is absent.
   */
  lemma {:induction false} DeleteUserSpec(us: Users, k: string)
    ensures !Has(DeleteUser(us, k), k)
    ensures forall k': string :: k' != k ==> Get(DeleteUser(us, k), k') == Get(us, k')
    ensures !Has(us, k) ==> DeleteUser(us, k) == us
  {
    if us != [] {
      DeleteUserSpec(us[1..], k);
      var tail := DeleteUser(us[1..], k);
      if us[0].0 != k {
        GetCons(us[0], tail, k);
        forall k': string | k' != k ensures Get(DeleteUser(us, k), k') == Get(us, k') {
          GetCons(us[0], tail, k');
        }
        assert us == [us[0]] + us[1..];
      }
    }
  }

  /** In a Map, deleting the key at position `i` removes exactly that entry and keeps the others in order. */
  lemma {:induction false} DeleteUserAt(us: Users, i: nat)
    requires DistinctKeys(us) && i < |us|
    ensures DeleteUser(us, us[i].0) == us[..i] + us[i + 1..]
  {
    var k := us[i].0;
    if i == 0 {
      assert !Has(us[1..], k) by {
        GetAt(us[1..], k);
      }
      DeleteUserSpec(us[1..], k);
    } else {
      assert DistinctKeys(us[1..]) by {
        forall a, b | 0 <= a < b < |us[1..]| ensures us[1..][a].0 != us[1..][b].0 {
          assert us[1..][a] == us[a + 1] && us[1..][b] == us[b + 1];
        }
      }
      assert us[1..][i - 1] == us[i];
      DeleteUserAt(us[1..], i - 1);
      assert us[0].0 != k;
      DropCons(us, i);
    }
  }

  /** `users.get(k)?.role`. */
  function RoleOf(us: Users, k: string): Option<Role> {
    match Get(us, k)
    case None => None
    case Some(m) => Some(m.role)
  }

  /** The gate of `add-slide` and `remove-slide`: the actor is the presentation's `creatorId`. */
  predicate CanManageSlides(creatorId: Option<ConnId>, actor: ConnId) {
    creatorId == Some(actor)
  }

  /** The gate of `update-element` and `remove-shape`: the actor's live role is creator or editor. */
  predicate CanEditElements(us: Users, actor: ConnId) {
    RoleOf(us, actor) == Some(CREATOR) || RoleOf(us, actor) == Some(EDITOR)
  }

  /** The membership part of a presentation document. */
  datatype Membership = Membership(creatorId: Option<ConnId>, users: Users) {
    /** `!pres.creatorId && pres.users.size === 0`. */
    predicate Vacant() {
      creatorId.None? && |users| == 0
    }

    /**
     * `creatorId` is null exactly when nobody is in the room, and otherwise
     * names a member whose stored role is creator.
     */
    predicate CreatorConsistent() {
      && (creatorId.None? <==> users == [])
      && (creatorId.Some? ==> RoleOf(users, creatorId.value) == Some(CREATOR))
    }

    /** Every member whose role is creator is `creatorId`; so there is at most one. */
    ghost predicate UniqueCreator() {
      forall k: string :: RoleOf(users, k) == Some(CREATOR) ==> creatorId.Some? && creatorId.value == k
    }
  }

  /** `join-presentation` on a found presentation. */
  function Join(ms: Membership, conn: ConnId, nickname: string): Membership {
    if ms.Vacant() then
      Membership(Some(conn), SetUser(ms.users, conn, Member(nickname, CREATOR)))
    else
      Membership(ms.creatorId, SetUser(ms.users, conn, Member(nickname, VIEWER)))
  }

  /** The guards of `update-user-role` once the presentation is found. */
  predicate RoleChangeAllowed(ms: Membership, actor: ConnId, target: string, newRole: Role) {
    && ms.creatorId == Some(actor)
    && Has(ms.users, target)
    && !(ms.creatorId.value == target && newRole != CREATOR)
  }

  /** `update-user-role` on a found presentation. */
  function UpdateRole(ms: Membership, actor: ConnId, target: string, newRole: Role): Membership {
    if !RoleChangeAllowed(ms, actor, target, newRole) then ms
    else
      var userData := Get(ms.users, target).value;
      Membership(ms.creatorId, SetUser(ms.users, target, userData.(role := newRole)))
  }

  /** `disconnect` of a member: delete it, and if it was the creator hand over to the first remaining key. */
  function Leave(ms: Membership, conn: ConnId): Membership {
    var rest := DeleteUser(ms.users, conn);
    if ms.creatorId == Some(conn) then
      var remaining := Keys(rest);
      if |remaining| > 0 then
        var newCreator := remaining[0];
        var data := Get(rest, newCreator).value;
        Membership(Some(newCreator), SetUser(rest, newCreator, data.(role := CREATOR)))
      else
        Membership(None, rest)
    else
      Membership(ms.creatorId, rest)
  }

  /**
   * Joining sets the joiner's entry to its nickname with role creator and makes
   * it `creatorId` exactly when the presentation had neither a creator nor
   * members; otherwise the joiner is stored as viewer and `creatorId` stays.
   * No other member changes, and a new joiner is appended after all others.
   */
  lemma JoinSpec(ms: Membership, conn: ConnId, nickname: string)
    requires DistinctKeys(ms.users)
    ensures var r := Join(ms, conn, nickname);
      && r.creatorId == (if ms.Vacant() then Some(conn) else ms.creatorId)
      && Get(r.users, conn) == Some(Member(nickname, if ms.Vacant() then CREATOR else VIEWER))
      && (forall k: string :: k != conn ==> Get(r.users, k) == Get(ms.users, k))
      && Keys(r.users) == (if Has(ms.users, conn) then Keys(ms.users) else Keys(ms.users) + [conn])
      && DistinctKeys(r.users)
  {
    var role := if ms.Vacant() then CREATOR else VIEWER;
    SetUserSpec(ms.users, conn, Member(nickname, role));
    SetUserDistinct(ms.users, conn, Member(nickname, role));
  }

  /** While the invariant holds, the joiner becomes creator exactly when the room was empty. */
  lemma JoinCreatorIffEmpty(ms: Membership, conn: ConnId, nickname: string)
    requires DistinctKeys(ms.users) && ms.CreatorConsistent()
    ensures RoleOf(Join(ms, conn, nickname).users, conn) == Some(CREATOR) <==> ms.users == []
    ensures Join(ms, conn, nickname).creatorId == Some(conn) <==> ms.users == [] || ms.creatorId == Some(conn)
  {
    JoinSpec(ms, conn, nickname);
  }

  /**
   * Joining keeps every role-creator member equal to `creatorId`, and keeps
   * `creatorId` consistent unless the joiner is the creator's own connection.
   */
  lemma JoinPreservesInvariants(ms: Membership, conn: ConnId, nickname: string)
    requires DistinctKeys(ms.users)
    ensures ms.UniqueCreator() ==> Join(ms, conn, nickname).UniqueCreator()
    ensures ms.CreatorConsistent() && ms.creatorId != Some(conn) ==> Join(ms, conn, nickname).CreatorConsistent()
  {
    JoinSpec(ms, conn, nickname);
    var r := Join(ms, conn, nickname);
    if ms.UniqueCreator() {
      forall k: string | RoleOf(r.users, k) == Some(CREATOR) ensures r.creatorId.Some? && r.creatorId.value == k {
        if k != conn {
          assert RoleOf(ms.users, k) == Some(CREATOR);
        }
      }
    }
    if ms.CreatorConsistent() && ms.creatorId != Some(conn) {
      assert r.users != [] by {
        assert Get(r.users, conn).Some?;
      }
    }
  }

  /**
   * The creator's own connection joining again is stored as viewer while
   * `creatorId` still names it: `join-presentation` does not keep
   * `creatorId` consistent in that case.
   */
  lemma RejoinDemotesCreator(ms: Membership, conn: ConnId, nickname: string)
    requires DistinctKeys(ms.users) && ms.CreatorConsistent() && ms.creatorId == Some(conn)
    ensures Join(ms, conn, nickname).creatorId == Some(conn)
    ensures RoleOf(Join(ms, conn, nickname).users, conn) == Some(VIEWER)
    ensures !Join(ms, conn, nickname).CreatorConsistent()
  {
    JoinSpec(ms, conn, nickname);
  }

  /**
   * `update-user-role` changes nothing unless the actor is `creatorId`, the
   * target is a member, and the request does not demote the creator; when
   * accepted only the target's role changes: its nickname, every other
   * member, the key order and `creatorId` are untouched.
   */
  lemma UpdateRoleSpec(ms: Membership, actor: ConnId, target: string, newRole: Role)
    requires DistinctKeys(ms.users)
    ensures var r := UpdateRole(ms, actor, target, newRole);
      && (!RoleChangeAllowed(ms, actor, target, newRole) ==> r == ms)
      && r.creatorId == ms.creatorId
      && Keys(r.users) == Keys(ms.users)
      && DistinctKeys(r.users)
      && (RoleChangeAllowed(ms, actor, target, newRole) ==>
            Get(r.users, target) == Some(Get(ms.users, target).value.(role := newRole)))
      && (forall k: string :: k != target ==> Get(r.users, k) == Get(ms.users, k))
  {
    if RoleChangeAllowed(ms, actor, target, newRole) {
      var userData := Get(ms.users, target).value;
      SetUserSpec(ms.users, target, userData.(role := newRole));
      SetUserDistinct(ms.users, target, userData.(role := newRole));
    }
  }

  /**
   * `update-user-role` keeps `creatorId` consistent, and keeps a single
   * creator when the new role is not creator.
   */
  lemma UpdateRolePreservesInvariants(ms: Membership, actor: ConnId, target: string, newRole: Role)
    requires DistinctKeys(ms.users)
    ensures ms.CreatorConsistent() ==> UpdateRole(ms, actor, target, newRole).CreatorConsistent()
    ensures ms.UniqueCreator() && newRole != CREATOR ==> UpdateRole(ms, actor, target, newRole).UniqueCreator()
  {
    UpdateRoleSpec(ms, actor, target, newRole);
    var r := UpdateRole(ms, actor, target, newRole);
    if ms.CreatorConsistent() && r.users == [] {
      assert Keys(ms.users) == [];
    }
    if ms.UniqueCreator() && newRole != CREATOR {
      forall k: string | RoleOf(r.users, k) == Some(CREATOR) ensures r.creatorId.Some? && r.creatorId.value == k {
        if k != target || !RoleChangeAllowed(ms, actor, target, newRole) {
          assert RoleOf(ms.users, k) == Some(CREATOR);
        }
      }
    }
  }

  /** The creator may give another member the role creator, and then two members hold it. */
  lemma PromotionMakesSecondCreator()
    ensures var ms := Membership(Some("a"), [("a", Member("Ann", CREATOR)), ("b", Member("Bob", VIEWER))]);
      && ms.CreatorConsistent() && ms.UniqueCreator()
      && RoleOf(UpdateRole(ms, "a", "b", CREATOR).users, "b") == Some(CREATOR)
      && !UpdateRole(ms, "a", "b", CREATOR).UniqueCreator()
  {
    var ann: (ConnId, Member) := ("a", Member("Ann", CREATOR));
    var bob: (ConnId, Member) := ("b", Member("Bob", VIEWER));
    var ms := Membership(Some("a"), [ann, bob]);
    assert ms.users == [ann] + [bob];
    forall k: string | RoleOf(ms.users, k) == Some(CREATOR) ensures ms.creatorId.Some? && ms.creatorId.value == k {
      GetCons(ann, [bob], k);
      GetCons(bob, [], k);
    }
    GetCons(ann, [bob], "b");
    GetCons(bob, [], "b");
    GetCons(ann, [bob], "a");
    UpdateRoleSpec(ms, "a", "b", CREATOR);
  }

  /** Dropping one entry of a Map leaves a Map. */
  lemma DistinctWithout(us: Users, i: nat)
    requires DistinctKeys(us) && i < |us|
    ensures DistinctKeys(us[..i] + us[i + 1..])
  {
    var rest := us[..i] + us[i + 1..];
    forall a | 0 <= a < |rest| ensures rest[a] == us[if a < i then a else a + 1] {
      DropAt(us, i, a);
    }
  }

  /** Deleting a present key of a Map drops the one entry at its position `i`. */
  lemma DeleteMember(us: Users, conn: ConnId) returns (i: nat)
    requires DistinctKeys(us) && Has(us, conn)
    ensures i < |us| && us[i].0 == conn
    ensures forall j :: 0 <= j < |us| && us[j].0 == conn ==> j == i
    ensures DeleteUser(us, conn) == us[..i] + us[i + 1..]
    ensures DistinctKeys(DeleteUser(us, conn))
  {
    GetAt(us, conn);
    i :| 0 <= i < |us| && Keys(us)[i] == conn;
    DeleteUserAt(us, i);
    DistinctWithout(us, i);
  }

  /**
   * `disconnect` of a member removes exactly that member and keeps the others
   * in their order; a non-creator leaving keeps `creatorId` and every other
   * member.
   */
  lemma LeaveSpec(ms: Membership, conn: ConnId)
    requires DistinctKeys(ms.users) && Has(ms.users, conn)
    ensures var r := Leave(ms, conn);
      && !Has(r.users, conn)
      && |r.users| == |ms.users| - 1
      && DistinctKeys(r.users)
      && (forall i :: 0 <= i < |ms.users| && ms.users[i].0 == conn ==>
            Keys(r.users) == Keys(ms.users[..i] + ms.users[i + 1..]))
      && (ms.creatorId != Some(conn) ==>
            && r.creatorId == ms.creatorId
            && forall k: string :: k != conn ==> Get(r.users, k) == Get(ms.users, k))
  {
    var us := ms.users;
    var i := DeleteMember(us, conn);
    DeleteUserSpec(us, conn);
    var rest := DeleteUser(us, conn);
    var r := Leave(ms, conn);
    if ms.creatorId == Some(conn) && |rest| > 0 {
      var heir := rest[0];
      GetAt(rest, heir.0);
      var v := heir.1.(role := CREATOR);
      assert r.users == SetUser(rest, heir.0, v);
      SetUserSpec(rest, heir.0, v);
      SetUserDistinct(rest, heir.0, v);
      assert heir.0 != conn;
      assert Keys(r.users) == Keys(rest);
    } else {
      assert r.users == rest;
    }
    assert |r.users| == |Keys(r.users)| == |Keys(rest)|;
  }

  /**
   * The creator leaving the last seat clears `creatorId`; otherwise the
   * earliest-inserted remaining member becomes `creatorId` with role creator,
   * keeping its nickname, and every other remaining member is untouched.
   */
  lemma LeaveHandover(ms: Membership, conn: ConnId)
    requires DistinctKeys(ms.users) && Has(ms.users, conn) && ms.creatorId == Some(conn)
    ensures |ms.users| == 1 ==> Leave(ms, conn) == Membership(None, [])
    ensures |ms.users| > 1 ==>
      var r := Leave(ms, conn);
      var heir := if ms.users[0].0 == conn then ms.users[1] else ms.users[0];
      && r.creatorId == Some(heir.0)
      && Get(r.users, heir.0) == Some(heir.1.(role := CREATOR))
      && forall k: string :: k != conn && k != heir.0 ==> Get(r.users, k) == Get(ms.users, k)
  {
    var us := ms.users;
    var i := DeleteMember(us, conn);
    var rest := DeleteUser(us, conn);
    if |rest| > 0 {
      DeleteUserSpec(us, conn);
      var heir := rest[0];
      assert heir == if us[0].0 == conn then us[1] else us[0] by {
        DropAt(us, i, 0);
      }
      GetAt(rest, heir.0);
      var v := heir.1.(role := CREATOR);
      SetUserSpec(rest, heir.0, v);
      assert Leave(ms, conn) == Membership(Some(heir.0), SetUser(rest, heir.0, v));
    }
  }

  /** `disconnect` keeps `creatorId` consistent and keeps a single creator. */
  lemma LeavePreservesInvariants(ms: Membership, conn: ConnId)
    requires DistinctKeys(ms.users) && Has(ms.users, conn)
    ensures ms.CreatorConsistent() ==> Leave(ms, conn).CreatorConsistent()
    ensures ms.CreatorConsistent() && ms.UniqueCreator() ==> Leave(ms, conn).UniqueCreator()
  {
    LeaveSpec(ms, conn);
    if ms.creatorId == Some(conn) {
      LeaveHandover(ms, conn);
    }
    var r := Leave(ms, conn);
    if ms.CreatorConsistent() {
      assert ms.creatorId.Some?;
      if ms.creatorId != Some(conn) {
        assert Has(r.users, ms.creatorId.value);
      } else if |ms.users| > 1 {
        var heir := if ms.users[0].0 == conn then ms.users[1] else ms.users[0];
        assert Has(r.users, heir.0);
      }
      if ms.UniqueCreator() {
        forall k: string | RoleOf(r.users, k) == Some(CREATOR) ensures r.creatorId.Some? && r.creatorId.value == k {
          if ms.creatorId != Some(conn) {
            assert RoleOf(ms.users, k) == Some(CREATOR);
          } else if |ms.users| > 1 {
            var heir := if ms.users[0].0 == conn then ms.users[1] else ms.users[0];
            assert k != heir.0 ==> RoleOf(ms.users, k) == RoleOf(r.users, k);
          }
        }
      }
    }
  }
}
