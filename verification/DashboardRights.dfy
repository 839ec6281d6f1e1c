/**
  What an update of dashboard or folder permissions lets each principal do: the actions behind the
  levels View, Edit and Admin, the store that replaces a principal's actions, and the rights after
  an update, said in the numbers of the request.
*/
module DashboardRights {
  import opened DashboardAcl

  datatype Kind = Dashboards | Folders

  function ViewActions(kind: Kind): set<string>
  {
    match kind
    case Dashboards => {"dashboards:read"}
    case Folders => {"dashboards:read", "folders:read", "alert.rules:read"}
  }

  function EditActions(kind: Kind): set<string>
  {
    ViewActions(kind) + match kind
    case Dashboards => {"dashboards:write", "dashboards:delete"}
    case Folders =>
      {"dashboards:write", "dashboards:delete", "folders:write", "folders:delete", "dashboards:create",
       "alert.rules:create", "alert.rules:write", "alert.rules:delete"}
  }

  function AdminActions(kind: Kind): set<string>
  {
    EditActions(kind) + match kind
    case Dashboards => {"dashboards.permissions:read", "dashboards.permissions:write"}
    case Folders =>
      {"dashboards.permissions:read", "dashboards.permissions:write",
       "folders.permissions:read", "folders.permissions:write"}
  }

  /** The actions of a level; no level, no actions. */
  function ActionsOf(kind: Kind, level: string): set<string>
  {
    if level == "View" then ViewActions(kind)
    else if level == "Edit" then EditActions(kind)
    else if level == "Admin" then AdminActions(kind)
    else {}
  }

  // ----------------------------------------------------------------- the store

  /** One principal's rows on one resource: those not wanted are deleted, the missing ones created. */
  method SetResourcePermission(current: set<string>, actions: set<string>) returns (after: set<string>)
    ensures after == actions
  {
    var missing, remove, rows := actions, {}, current;
    while rows != {}
      invariant rows <= current && remove <= current && missing <= actions
      invariant forall a | a in current && a !in rows :: (a in remove <==> a !in actions) && a !in missing
      invariant forall a | a in actions && a !in missing :: a in current && a !in rows
      invariant remove !! rows
      decreases |rows|
    {
      var a :| a in rows;
      if a in missing {
        missing := missing - {a};
      } else {
        remove := remove + {a};
      }
      rows := rows - {a};
    }
    after := current - remove + missing;
  }

  type Held = map<Principal, set<string>>

  function HeldBy(held: Held, p: Principal): set<string>
  {
    if p in held then held[p] else {}
  }

  /** The transaction over all commands, in actions. */
  function Carried(kind: Kind, held: Held, commands: seq<Command>): Held
  {
    if commands == [] then held
    else
      var c := commands[|commands| - 1];
      Carried(kind, held, commands[..|commands| - 1])[Target(c) := ActionsOf(kind, c.permission)]
  }

  function Rights(kind: Kind, acl: Acl, p: Principal): set<string>
  {
    if p in acl then ActionsOf(kind, acl[p]) else {}
  }

  /** Carrying out commands in actions is replaying them in levels. */
  lemma {:induction false} CarriedIsReplay(kind: Kind, held: Held, acl: Acl, commands: seq<Command>, p: Principal)
    requires HeldBy(held, p) == Rights(kind, acl, p)
    ensures HeldBy(Carried(kind, held, commands), p) == Rights(kind, Replay(acl, commands), p)
  {
    if commands != [] {
      hide ViewActions;
      hide EditActions;
      hide AdminActions;
      CarriedIsReplay(kind, held, acl, commands[..|commands| - 1], p);
    }
  }

  // ---------------------------------------------------------------- the request

  /** The item is about this user, this team or this built-in role. */
  predicate About(item: Entry, p: Principal)
  {
    match p
    case User(id) => item.userID != 0 && item.userID == id
    case Team(id) => item.userID == 0 && item.teamID != 0 && item.teamID == id
    case Role(name) => item.userID == 0 && item.teamID == 0 && (if item.role.Some? then item.role.value else "") == name
  }

  /** The last item about the principal has one of these numbers. */
  ghost predicate LastAsks(items: seq<Entry>, p: Principal, numbers: set<int>)
  {
    exists i :: 0 <= i < |items| && IsLastAbout(items, i, p) && items[i].permission in numbers
  }

  ghost predicate IsLastAbout(items: seq<Entry>, i: nat, p: Principal)
  {
    i < |items| && About(items[i], p) && forall j | i < j < |items| :: !About(items[j], p)
  }

  lemma AboutIsNamed(item: Entry, p: Principal)
    ensures About(item, p) <==> Named(item) == p
  {
  }

  lemma {:induction false} RequestedIsLast(items: seq<Entry>, p: Principal)
    ensures forall i: nat | IsLastAbout(items, i, p) ::
      (p in Requested(items) <==> PermissionName(items[i].permission) != "") &&
      (p in Requested(items) ==> Requested(items)[p] == PermissionName(items[i].permission))
    ensures p in Requested(items) ==> exists i: nat :: IsLastAbout(items, i, p)
  {
    if items != [] {
      hide PermissionName;
      var last := |items| - 1;
      var init := items[..last];
      AboutIsNamed(items[last], p);
      RequestedIsLast(init, p);
      assert forall j | 0 <= j < last :: init[j] == items[j];
      hide About;
      hide Named;
      if About(items[last], p) {
        assert IsLastAbout(items, last, p);
      } else {
        forall i: nat ensures IsLastAbout(items, i, p) <==> IsLastAbout(init, i, p) {
        }
      }
    }
  }

  lemma RightsOfRequest(kind: Kind, items: seq<Entry>, p: Principal, a: string, numbers: set<int>)
    requires forall n :: a in ActionsOf(kind, PermissionName(n)) <==> n in numbers
    ensures a in Rights(kind, Requested(items), p) <==> LastAsks(items, p, numbers)
  {
    hide ActionsOf;
    hide About;
    RequestedIsLast(items, p);
    assert PermissionName(3) == "";
    if LastAsks(items, p, numbers) {
      var i :| 0 <= i < |items| && IsLastAbout(items, i, p) && items[i].permission in numbers;
      NoLevelNoActions(kind);
    }
    if p in Requested(items) {
      var i: nat :| IsLastAbout(items, i, p);
    }
  }

  lemma NoLevelNoActions(kind: Kind)
    ensures ActionsOf(kind, "") == {}
  {
  }

  /** Which numbers give which actions. */
  lemma LevelsAsNumbers(kind: Kind, n: int)
    ensures
      var actions := ActionsOf(kind, PermissionName(n));
      && ("dashboards:read" in actions <==> n in {1, 2, 4})
      && ("dashboards:write" in actions <==> n in {2, 4})
      && ("dashboards:delete" in actions <==> n in {2, 4})
      && ("dashboards.permissions:read" in actions <==> n == 4)
      && ("dashboards.permissions:write" in actions <==> n == 4)
    ensures
      var actions := ActionsOf(Folders, PermissionName(n));
      && ("folders:read" in actions <==> n in {1, 2, 4})
      && ("folders:write" in actions <==> n in {2, 4})
      && ("folders:delete" in actions <==> n in {2, 4})
      && ("folders.permissions:write" in actions <==> n == 4)
  {
  }

  /** Edit includes View, Admin includes Edit, and each adds something. */
  lemma LevelsAreNested(kind: Kind)
    ensures ActionsOf(kind, PermissionName(1)) < ActionsOf(kind, PermissionName(2)) < ActionsOf(kind, PermissionName(4))
  {
    LevelsAsNumbers(kind, 1);
    LevelsAsNumbers(kind, 2);
    LevelsAsNumbers(kind, 4);
  }

  /**
    The rights after an update, in the numbers of the request. Validation accepted the items and
    the old entries list the current principals; then either an unknown principal refuses the
    update, or every principal may read exactly if the last item about it says 1, 2 or 4, write and
    delete if it says 2 or 4, and see and change permissions if it says 4.
  */
  lemma RightsAfterUpdate(known: set<Principal>, kind: Kind, acl: Acl, held: Held, items: seq<Entry>, old_: seq<Entry>,
                          p: Principal)
    requires Principals(known) && forall i | 0 <= i < |items| :: !Mixed(items[i])
    requires forall k | 0 <= k < |old_| :: NamesOne(old_[k]) && old_[k].teamID >= 0
    requires forall q | q in acl :: Mentions(old_, q)
    requires HeldBy(held, p) == Rights(kind, acl, p)
    requires Updated(known, acl, Diff(items, old_)).Some?
    ensures
      var after := HeldBy(Carried(kind, held, Diff(items, old_)), p);
      && ("dashboards:read" in after <==> LastAsks(items, p, {1, 2, 4}))
      && ("dashboards:write" in after <==> LastAsks(items, p, {2, 4}))
      && ("dashboards:delete" in after <==> LastAsks(items, p, {2, 4}))
      && ("dashboards.permissions:read" in after <==> LastAsks(items, p, {4}))
      && ("dashboards.permissions:write" in after <==> LastAsks(items, p, {4}))
      && (kind.Folders? ==>
            && ("folders:read" in after <==> LastAsks(items, p, {1, 2, 4}))
            && ("folders:write" in after <==> LastAsks(items, p, {2, 4}))
            && ("folders:delete" in after <==> LastAsks(items, p, {2, 4}))
            && ("folders.permissions:write" in after <==> LastAsks(items, p, {4})))
  {
    hide ActionsOf;
    hide LastAsks;
    hide Updated;
    hide Diff;
    hide Requested;
    hide PermissionName;
    UpdateIsRequest(known, acl, items, old_);
    UpdatedIsReplay(known, acl, Diff(items, old_));
    CarriedIsReplay(kind, held, acl, Diff(items, old_), p);
    forall n: int {
      LevelsAsNumbers(kind, n);
    }
    RightsOfRequest(kind, items, p, "dashboards:read", {1, 2, 4});
    RightsOfRequest(kind, items, p, "dashboards:write", {2, 4});
    RightsOfRequest(kind, items, p, "dashboards:delete", {2, 4});
    RightsOfRequest(kind, items, p, "dashboards.permissions:read", {4});
    RightsOfRequest(kind, items, p, "dashboards.permissions:write", {4});
    if kind.Folders? {
      RightsOfRequest(kind, items, p, "folders:read", {1, 2, 4});
      RightsOfRequest(kind, items, p, "folders:write", {2, 4});
      RightsOfRequest(kind, items, p, "folders:delete", {2, 4});
      RightsOfRequest(kind, items, p, "folders.permissions:write", {4});
    }
  }

  lemma UpdatedIsReplay(known: set<Principal>, acl: Acl, commands: seq<Command>)
    requires Updated(known, acl, commands).Some?
    ensures Updated(known, acl, commands).value == Replay(acl, commands)
  {
  }
}
