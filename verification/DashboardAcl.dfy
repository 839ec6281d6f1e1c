/**
  Updating a dashboard's permissions by diff: the handler turns the requested entries and the
  current ones into a list of set and clear commands, and the permission service replays them.
*/
module DashboardAcl {
  import opened Wrappers

  /** A requested or existing entry. */
  datatype Entry = Entry(userID: int, teamID: int, role: Option<string>, permission: int)

  datatype Command = Command(userID: int, teamID: int, builtinRole: string, permission: string)

  datatype Principal = User(id: int) | Team(id: int) | Role(name: string)

  type Acl = map<Principal, string>

  function PermissionName(permission: int): string
  {
    if permission == 1 then "View" else if permission == 2 then "Edit" else if permission == 4 then "Admin" else ""
  }

  function RoleName(role: Option<string>): string
  {
    if role.Some? then role.value else ""
  }

  // -------------------------------------------------------- request validation

  datatype UpdateError = UserAndTeam | WithRole

  predicate Mixed(e: Entry)
  {
    (e.userID > 0 && e.teamID > 0) || ((e.userID > 0 || e.teamID > 0) && e.role.Some?)
  }

  /** The first mixed entry decides the error; the update is accepted exactly when there is none. */
  method ValidatePermissionsUpdate(items: seq<Entry>) returns (err: Option<UpdateError>)
    ensures err.None? <==> forall i | 0 <= i < |items| ::
      var item := items[i]; !(item.userID > 0 && item.teamID > 0) && !((item.userID > 0 || item.teamID > 0) && item.role.Some?)
    ensures err.None? <==> forall i | 0 <= i < |items| :: !Mixed(items[i])
    ensures err.Some? ==> exists i ::
      && 0 <= i < |items| && Mixed(items[i])
      && (forall j | 0 <= j < i :: !Mixed(items[j]))
      && (err.value == UserAndTeam <==> items[i].userID > 0 && items[i].teamID > 0)
  {
    for i := 0 to |items|
      invariant forall j | 0 <= j < i :: !Mixed(items[j])
    {
      if items[i].userID > 0 && items[i].teamID > 0 {
        return Some(UserAndTeam);
      }
      if (items[i].userID > 0 || items[i].teamID > 0) && items[i].role.Some? {
        return Some(WithRole);
      }
    }
    return None;
  }

  // ------------------------------------------------------------------ the diff

  function SetCommand(e: Entry): Command
  {
    Command(e.userID, e.teamID, RoleName(e.role), PermissionName(e.permission))
  }

  function ClearCommand(e: Entry): Command
  {
    Command(e.userID, e.teamID, RoleName(e.role), "")
  }

  /** The test by which an existing entry counts as still requested. */
  predicate Matches(item: Entry, o: Entry)
  {
    || (item.userID != 0 && item.userID == o.userID)
    || (item.teamID != 0 && item.teamID == o.teamID)
    || (item.role.Some? && o.role.Some? && item.role.value == o.role.value)
  }

  predicate Kept(items: seq<Entry>, o: Entry)
  {
    exists i :: 0 <= i < |items| && Matches(items[i], o)
  }

  function SetCommands(items: seq<Entry>): (r: seq<Command>)
    ensures |r| == |items| && forall i | 0 <= i < |r| :: r[i] == SetCommand(items[i])
  {
    seq(|items|, i requires 0 <= i < |items| => SetCommand(items[i]))
  }

  function ClearCommands(items: seq<Entry>, old_: seq<Entry>): seq<Command>
  {
    if old_ == [] then []
    else
      var rest, o := ClearCommands(items, old_[..|old_| - 1]), old_[|old_| - 1];
      if Kept(items, o) then rest else rest + [ClearCommand(o)]
  }

  function Diff(items: seq<Entry>, old_: seq<Entry>): seq<Command>
  {
    SetCommands(items) + ClearCommands(items, old_)
  }

  method UpdateDashboardAccessControl(items: seq<Entry>, old_: seq<Entry>) returns (commands: seq<Command>)
    ensures commands == Diff(items, old_)
  {
    commands := [];
    for i := 0 to |items|
      invariant commands == SetCommands(items)[..i]
    {
      var role := "";
      if items[i].role.Some? {
        role := items[i].role.value;
      }
      commands := commands + [Command(items[i].userID, items[i].teamID, role, PermissionName(items[i].permission))];
    }
    for k := 0 to |old_|
      invariant commands == SetCommands(items) + ClearCommands(items, old_[..k])
    {
      var o := old_[k];
      var shouldRemove := true;
      for i := 0 to |items|
        invariant shouldRemove
        invariant forall j | 0 <= j < i :: !Matches(items[j], o)
      {
        if items[i].userID != 0 && items[i].userID == o.userID {
          shouldRemove := false;
          break;
        }
        if items[i].teamID != 0 && items[i].teamID == o.teamID {
          shouldRemove := false;
          break;
        }
        if items[i].role.Some? && o.role.Some? && items[i].role.value == o.role.value {
          shouldRemove := false;
          break;
        }
      }
      assert old_[..k + 1][..k] == old_[..k];
      assert shouldRemove == !Kept(items, o);
      if shouldRemove {
        commands := commands + [Command(o.userID, o.teamID, RoleName(o.role), "")];
      }
    }
    assert old_[..|old_|] == old_;
  }

  // ---------------------------------------------------------------- the replay

  /** Whom the service addresses: a user first, else a team, else a built-in role. */
  function Target(c: Command): Principal
  {
    if c.userID != 0 then User(c.userID) else if c.teamID != 0 then Team(c.teamID) else Role(c.builtinRole)
  }

  function ApplyCommand(acl: Acl, c: Command): Acl
  {
    if c.permission == "" then acl - {Target(c)} else acl[Target(c) := c.permission]
  }

  function Replay(acl: Acl, commands: seq<Command>): Acl
  {
    if commands == [] then acl
    else ApplyCommand(Replay(acl, commands[..|commands| - 1]), commands[|commands| - 1])
  }

  /** A known principal and a level that has a set of actions, or none. */
  predicate Acceptable(known: set<Principal>, c: Command)
  {
    Target(c) in known && c.permission in {"", "View", "Edit", "Admin"}
  }

  /** What the permissions become; None when the update is refused. */
  function Updated(known: set<Principal>, acl: Acl, commands: seq<Command>): Option<Acl>
  {
    if forall i | 0 <= i < |commands| :: Acceptable(known, commands[i]) then Some(Replay(acl, commands)) else None
  }

  /** Every command is validated before the first one is carried out. */
  method SetPermissions(known: set<Principal>, acl: Acl, commands: seq<Command>) returns (r: Option<Acl>)
    ensures r == Updated(known, acl, commands)
  {
    for i := 0 to |commands|
      invariant forall j | 0 <= j < i :: Acceptable(known, commands[j])
    {
      var c := commands[i];
      var found := if c.userID != 0 then User(c.userID) in known
                   else if c.teamID != 0 then Team(c.teamID) in known
                   else Role(c.builtinRole) in known;
      if !found || c.permission !in {"", "View", "Edit", "Admin"} {
        assert !Acceptable(known, c);
        return None;
      }
    }
    var after := acl;
    for i := 0 to |commands|
      invariant after == Replay(acl, commands[..i])
    {
      assert commands[..i + 1][..i] == commands[..i];
      after := ApplyCommand(after, commands[i]);
    }
    assert commands[..|commands|] == commands;
    return Some(after);
  }

  // ---------------------------------------------------------------- properties

  /** The entry names exactly one principal. */
  predicate NamesOne(e: Entry)
  {
    || (e.userID != 0 && e.teamID == 0 && e.role.None?)
    || (e.userID == 0 && e.teamID != 0 && e.role.None?)
    || (e.userID == 0 && e.teamID == 0 && e.role.Some? && e.role.value != "")
  }

  function Named(e: Entry): Principal
  {
    if e.userID != 0 then User(e.userID) else if e.teamID != 0 then Team(e.teamID) else Role(RoleName(e.role))
  }

  function Parts(e: Entry): nat
  {
    (if e.userID != 0 then 1 else 0) + (if e.teamID != 0 then 1 else 0) + (if e.role.Some? then 1 else 0)
  }

  /**
    An entry names one principal exactly when one of its three parts is there and is not an empty
    role; validation lets an entry with more parts through only if one of its ids is negative.
  */
  lemma AcceptedEntriesNameAtMostOne(e: Entry)
    ensures NamesOne(e) <==> Parts(e) == 1 && e.role != Some("")
    ensures !Mixed(e) && Parts(e) > 1 ==> e.userID < 0 || e.teamID < 0
    ensures NamesOne(e) ==> !Mixed(e)
  {
  }

  /** The old entry names one principal, and so does the item, up to a team id beside its user that is not the old one's. */
  predicate Comparable(item: Entry, o: Entry)
  {
    NamesOne(o) && (NamesOne(item) || (item.userID != 0 && item.role.None? && item.teamID != o.teamID))
  }

  /** For such entries the three-way test is equality of principals. */
  lemma MatchesIffSamePrincipal(item: Entry, o: Entry)
    requires Comparable(item, o)
    ensures Matches(item, o) <==> Named(item) == Named(o)
  {
  }

  /** What the request asks for: the last entry that names a principal wins, an unknown level means none. */
  function Requested(items: seq<Entry>): Acl
  {
    if items == [] then map[]
    else
      var e := items[|items| - 1];
      var rest := Requested(items[..|items| - 1]);
      if PermissionName(e.permission) == "" then rest - {Named(e)} else rest[Named(e) := PermissionName(e.permission)]
  }

  ghost predicate Mentions(entries: seq<Entry>, p: Principal)
  {
    exists i :: 0 <= i < |entries| && Named(entries[i]) == p
  }

  lemma {:induction false} ReplayConcat(acl: Acl, a: seq<Command>, b: seq<Command>)
    ensures Replay(acl, a + b) == Replay(Replay(acl, a), b)
  {
    if b == [] {
      assert a + b == a;
    } else {
      assert (a + b)[..|a + b| - 1] == a + b[..|b| - 1];
      ReplayConcat(acl, a, b[..|b| - 1]);
    }
  }

  lemma {:induction false} RequestedKeys(items: seq<Entry>, p: Principal)
    requires p in Requested(items)
    ensures Mentions(items, p)
  {
    var last := |items| - 1;
    if Named(items[last]) != p {
      RequestedKeys(items[..last], p);
      var i :| 0 <= i < last && Named(items[..last][i]) == p;
      assert Named(items[i]) == p;
    }
  }

  ghost predicate SetAt(acl: Acl, items: seq<Entry>, after: Acl, p: Principal)
  {
    (p in after <==> if Mentions(items, p) then p in Requested(items) else p in acl) &&
    (p in after ==> after[p] == if Mentions(items, p) && p in Requested(items) then Requested(items)[p]
                                else if p in acl then acl[p] else "")
  }

  /** The set commands bring every mentioned principal to its requested level and touch no other. */
  lemma {:induction false} ReplaySets(acl: Acl, items: seq<Entry>, p: Principal)
    ensures SetAt(acl, items, Replay(acl, SetCommands(items)), p)
  {
    if items != [] {
      var init, e := items[..|items| - 1], items[|items| - 1];
      assert SetCommands(items)[..|items| - 1] == SetCommands(init);
      ReplaySets(acl, init, p);
      assert Target(SetCommand(e)) == Named(e);
      MentionsSnoc(items, p);
      if p in Requested(init) {
        RequestedKeys(init, p);
      }
    }
  }

  ghost predicate ClearedAt(acl: Acl, after: Acl, cleared: bool, p: Principal)
  {
    (p in after <==> p in acl && !cleared) && (p in after ==> after[p] == acl[p])
  }

  lemma MentionsSnoc(entries: seq<Entry>, p: Principal)
    requires entries != []
    ensures Mentions(entries, p) <==> Mentions(entries[..|entries| - 1], p) || Named(entries[|entries| - 1]) == p
  {
    var init := entries[..|entries| - 1];
    assert forall i | 0 <= i < |init| :: init[i] == entries[i];
    if Mentions(init, p) {
      var i :| 0 <= i < |init| && Named(init[i]) == p;
      assert Named(entries[i]) == p;
    }
  }

  /** Some old entry that names the principal matches no item. */
  ghost predicate Cleared(items: seq<Entry>, old_: seq<Entry>, p: Principal)
  {
    exists k :: 0 <= k < |old_| && Named(old_[k]) == p && !Kept(items, old_[k])
  }

  lemma ClearedSnoc(items: seq<Entry>, old_: seq<Entry>, p: Principal)
    requires old_ != []
    ensures
      var init, o := old_[..|old_| - 1], old_[|old_| - 1];
      Cleared(items, old_, p) <==> Cleared(items, init, p) || (Named(o) == p && !Kept(items, o))
  {
    hide Kept;
    var init := old_[..|old_| - 1];
    assert forall i | 0 <= i < |init| :: init[i] == old_[i];
    if Cleared(items, init, p) {
      var k :| 0 <= k < |init| && Named(init[k]) == p && !Kept(items, init[k]);
      assert Named(old_[k]) == p;
    }
  }

  /** The clear commands remove exactly the principals of the old entries that match no item. */
  lemma {:induction false} ReplayClears(acl: Acl, items: seq<Entry>, old_: seq<Entry>, p: Principal)
    ensures ClearedAt(acl, Replay(acl, ClearCommands(items, old_)), Cleared(items, old_, p), p)
  {
    if old_ != [] {
      hide Kept;
      hide Cleared;
      var init, o := old_[..|old_| - 1], old_[|old_| - 1];
      ReplayClears(acl, items, init, p);
      ClearedSnoc(items, old_, p);
      var rest := ClearCommands(items, init);
      if !Kept(items, o) {
        assert (rest + [ClearCommand(o)])[..|rest|] == rest;
        assert Target(ClearCommand(o)) == Named(o);
        assert Replay(acl, rest + [ClearCommand(o)]) == ApplyCommand(Replay(acl, rest), ClearCommand(o));
      }
    } else {
      assert !Cleared(items, old_, p);
    }
  }

  lemma KeptIffMentioned(items: seq<Entry>, o: Entry)
    requires forall i | 0 <= i < |items| :: Comparable(items[i], o)
    ensures Kept(items, o) <==> Mentions(items, Named(o))
  {
    forall i | 0 <= i < |items| ensures Matches(items[i], o) <==> Named(items[i]) == Named(o) {
      MatchesIffSamePrincipal(items[i], o);
    }
  }

  lemma ClearedIffDropped(items: seq<Entry>, old_: seq<Entry>, p: Principal)
    requires forall i, k | 0 <= i < |items| && 0 <= k < |old_| :: Comparable(items[i], old_[k])
    ensures Cleared(items, old_, p) <==> Mentions(old_, p) && !Mentions(items, p)
  {
    hide Kept;
    hide Comparable;
    forall k | 0 <= k < |old_| ensures Kept(items, old_[k]) <==> Mentions(items, Named(old_[k])) {
      KeptIffMentioned(items, old_[k]);
    }
  }

  /** What the permissions should become: the requested ones, and those of principals nobody mentions. */
  ghost function Wanted(acl: Acl, items: seq<Entry>, old_: seq<Entry>): Acl
  {
    (map p | p in acl && !Mentions(items, p) && !Mentions(old_, p) :: acl[p]) + Requested(items)
  }

  ghost predicate DiffIsRight(acl: Acl, items: seq<Entry>, old_: seq<Entry>)
  {
    && (forall p | p in Requested(items) :: !Cleared(items, old_, p))
    && (forall p | p in acl && Mentions(old_, p) && !Mentions(items, p) :: Cleared(items, old_, p))
  }

  /** After the replay, principal by principal. */
  lemma DiffReplayAt(acl: Acl, items: seq<Entry>, old_: seq<Entry>, p: Principal)
    ensures
      var after, wanted := Replay(acl, Diff(items, old_)), Wanted(acl, items, old_);
      && (p in after ==> p in Requested(items) || p in acl)
      && (p in after && p in wanted ==> after[p] == wanted[p])
      && (p in Requested(items) ==> p in wanted && (p in after <==> !Cleared(items, old_, p)))
      && (p !in Requested(items) ==> (p in after <==> p in acl && !Mentions(items, p) && !Cleared(items, old_, p)))
  {
    hide Cleared;
    var middle := Replay(acl, SetCommands(items));
    ReplayConcat(acl, SetCommands(items), ClearCommands(items, old_));
    ReplaySets(acl, items, p);
    ReplayClears(middle, items, old_, p);
    if p in Requested(items) {
      RequestedKeys(items, p);
    }
  }

  lemma ClearedIsMentioned(items: seq<Entry>, old_: seq<Entry>, p: Principal)
    requires Cleared(items, old_, p)
    ensures Mentions(old_, p)
  {
  }

  /**
    For all entries whatsoever: replaying the diff gives the wanted permissions if and only if no
    requested principal has an old entry that matches no item, and every old principal that is no
    longer requested has one.
  */
  lemma DiffReplayIff(acl: Acl, items: seq<Entry>, old_: seq<Entry>)
    ensures Replay(acl, Diff(items, old_)) == Wanted(acl, items, old_) <==> DiffIsRight(acl, items, old_)
  {
    hide Cleared;
    hide Diff;
    hide Replay;
    var after, wanted := Replay(acl, Diff(items, old_)), Wanted(acl, items, old_);
    if after == wanted {
      forall p | p in Requested(items) ensures !Cleared(items, old_, p) {
        DiffReplayAt(acl, items, old_, p);
      }
      forall p | p in acl && Mentions(old_, p) && !Mentions(items, p) ensures Cleared(items, old_, p) {
        DiffReplayAt(acl, items, old_, p);
        NotWanted(acl, items, old_, p);
      }
    }
    if DiffIsRight(acl, items, old_) {
      forall p: Principal ensures p in after <==> p in wanted ensures p in after ==> after[p] == wanted[p] {
        DiffReplayAt(acl, items, old_, p);
        if Cleared(items, old_, p) {
          ClearedIsMentioned(items, old_, p);
        }
      }
    }
  }

  lemma NotWanted(acl: Acl, items: seq<Entry>, old_: seq<Entry>, p: Principal)
    requires !Mentions(items, p) && Mentions(old_, p)
    ensures p !in Wanted(acl, items, old_)
  {
    if p in Requested(items) {
      RequestedKeys(items, p);
    }
  }

  /** For entries that name one principal each it always does. */
  lemma DiffReplay(acl: Acl, items: seq<Entry>, old_: seq<Entry>)
    requires forall i, k | 0 <= i < |items| && 0 <= k < |old_| :: Comparable(items[i], old_[k])
    ensures Replay(acl, Diff(items, old_)) == Wanted(acl, items, old_)
  {
    hide Cleared;
    hide Diff;
    hide Replay;
    forall p: Principal ensures Cleared(items, old_, p) <==> Mentions(old_, p) && !Mentions(items, p) {
      ClearedIffDropped(items, old_, p);
    }
    forall p | p in Requested(items) ensures Mentions(items, p) {
      RequestedKeys(items, p);
    }
    DiffReplayIff(acl, items, old_);
  }

  /** With the old entries listing every current principal, the result is the request and nothing else. */
  lemma DiffReplayIsRequest(acl: Acl, items: seq<Entry>, old_: seq<Entry>)
    requires forall i, k | 0 <= i < |items| && 0 <= k < |old_| :: Comparable(items[i], old_[k])
    requires forall p | p in acl :: Mentions(old_, p)
    ensures Replay(acl, Diff(items, old_)) == Requested(items)
  {
    DiffReplay(acl, items, old_);
    assert (map p | p in acl && !Mentions(items, p) && !Mentions(old_, p) :: acl[p]) == map[];
  }

  // ---------------------------------------------------------- the whole update

  /** The ids and names that principals have. */
  ghost predicate Principals(known: set<Principal>)
  {
    forall p | p in known :: match p case User(id) => id > 0 case Team(id) => id > 0 case Role(name) => name != ""
  }

  lemma KnownIsComparable(known: set<Principal>, item: Entry, o: Entry)
    requires Principals(known) && !Mixed(item) && Named(item) in known && NamesOne(o) && o.teamID >= 0
    ensures Comparable(item, o)
  {
  }

  /** Some command of the diff is refused. */
  ghost predicate Refused(known: set<Principal>, items: seq<Entry>, old_: seq<Entry>)
  {
    || (exists i :: 0 <= i < |items| && Named(items[i]) !in known)
    || (exists k :: 0 <= k < |old_| && Named(old_[k]) !in known && !Kept(items, old_[k]))
  }

  lemma UpdatedIff(known: set<Principal>, acl: Acl, items: seq<Entry>, old_: seq<Entry>)
    ensures Updated(known, acl, Diff(items, old_)).Some? <==> !Refused(known, items, old_)
  {
    hide Kept;
    var commands := Diff(items, old_);
    var n := |items|;
    forall i | 0 <= i < n ensures Acceptable(known, commands[i]) <==> Named(items[i]) in known {
      assert commands[i] == SetCommand(items[i]);
    }
    if !Refused(known, items, old_) {
      forall i | 0 <= i < |commands| ensures Acceptable(known, commands[i]) {
        if i >= n {
          var k := ClearedComesFrom(items, old_, i - n);
        }
      }
    } else if forall i | 0 <= i < |items| :: Named(items[i]) in known {
      var k :| 0 <= k < |old_| && Named(old_[k]) !in known && !Kept(items, old_[k]);
      var j := ClearCommandOf(items, old_, k);
      assert commands[n + j] == ClearCommand(old_[k]);
      assert !Acceptable(known, commands[n + j]);
    } else {
      var i :| 0 <= i < |items| && Named(items[i]) !in known;
      assert !Acceptable(known, commands[i]);
    }
  }

  lemma {:induction false} ClearCommandOf(items: seq<Entry>, old_: seq<Entry>, k: nat) returns (j: nat)
    requires k < |old_| && !Kept(items, old_[k])
    ensures j < |ClearCommands(items, old_)| && ClearCommands(items, old_)[j] == ClearCommand(old_[k])
  {
    hide Kept;
    var last := |old_| - 1;
    if k == last {
      j := |ClearCommands(items, old_[..last])|;
    } else {
      j := ClearCommandOf(items, old_[..last], k);
    }
  }

  /**
    The update end to end: when validation accepts the items and the old entries list the current
    principals, the service either refuses the diff, because an item or an entry to clear names an
    unknown principal, or the permissions become exactly the requested ones.
  */
  lemma UpdateIsRequest(known: set<Principal>, acl: Acl, items: seq<Entry>, old_: seq<Entry>)
    requires Principals(known) && forall i | 0 <= i < |items| :: !Mixed(items[i])
    requires forall k | 0 <= k < |old_| :: NamesOne(old_[k]) && old_[k].teamID >= 0
    requires forall p | p in acl :: Mentions(old_, p)
    ensures Updated(known, acl, Diff(items, old_)) ==
      if Refused(known, items, old_) then None else Some(Requested(items))
  {
    UpdatedIff(known, acl, items, old_);
    if !Refused(known, items, old_) {
      forall i, k | 0 <= i < |items| && 0 <= k < |old_| ensures Comparable(items[i], old_[k]) {
        KnownIsComparable(known, items[i], old_[k]);
      }
      DiffReplayIsRequest(acl, items, old_);
    }
  }

  lemma {:induction false} ClearedComesFrom(items: seq<Entry>, old_: seq<Entry>, k: nat) returns (i: nat)
    requires k < |ClearCommands(items, old_)|
    ensures i < |old_| && !Kept(items, old_[i]) && ClearCommands(items, old_)[k] == ClearCommand(old_[i])
  {
    var last := |old_| - 1;
    var rest := ClearCommands(items, old_[..last]);
    if k < |rest| {
      i := ClearedComesFrom(items, old_[..last], k);
    } else {
      i := last;
    }
  }

  /** No principal is both set and cleared, so the order between the two groups does not matter. */
  lemma NeverSetAndCleared(items: seq<Entry>, old_: seq<Entry>, i: nat, k: nat)
    requires forall i, k | 0 <= i < |items| && 0 <= k < |old_| :: Comparable(items[i], old_[k])
    requires i < |items| && k < |ClearCommands(items, old_)|
    ensures Target(SetCommands(items)[i]) != Target(ClearCommands(items, old_)[k])
  {
    var j := ClearedComesFrom(items, old_, k);
    MatchesIffSamePrincipal(items[i], old_[j]);
    assert !Matches(items[i], old_[j]);
  }

  /**
    The diff relies on validation: alone, it is wrong on an entry that names two principals, since
    it keeps an old team entry that it never sets. Validation refuses such an entry.
  */
  lemma TwoPrincipalsLeaveResidue()
    ensures
      var items := [Entry(1, 2, None, 1)];
      var old_ := [Entry(0, 2, None, 4)];
      var acl: Acl := map[Team(2) := "Admin"];
      Mixed(items[0]) && Team(2) in Replay(acl, Diff(items, old_)) && Team(2) !in Requested(items)
  {
    var items := [Entry(1, 2, None, 1)];
    var old_ := [Entry(0, 2, None, 4)];
    var acl: Acl := map[Team(2) := "Admin"];
    assert Matches(items[0], old_[0]);
    assert ClearCommands(items, old_) == [];
    assert Diff(items, old_) == [SetCommand(items[0])];
    assert Diff(items, old_)[..0] == [];
    assert Replay(acl, Diff(items, old_)) == ApplyCommand(acl, SetCommand(items[0]));
    assert items[..0] == [];
    assert Requested(items) == map[User(1) := "View"];
  }
}
