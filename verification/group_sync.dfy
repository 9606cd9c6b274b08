/** The Confluence group sync: the users the wiki lists are folded into a map
    from group name to the emails of the group's members, and each entry of the
    map becomes one external user group. The two remote listings and the
    username-to-email lookup are parameters; the client that makes them is not
    part of this model. Names and emails are whatever JSON values the wiki
    returns, so Python's hashing rule (containers cannot be dict keys or set
    members) is an error path here. */
module GroupSync {
  import opened Wrappers
  import opened OrderedDict
  import opened Json
  import opened Documents

  /** Group name to member emails, in the order the names were first seen. */
  type GroupMap = Dict<Json, set<Json>>

  /** `get_user_email_from_username__server`: a username to an email or `None`. */
  type EmailLookup = Json -> Json

  /** `paginated_groups_by_user_retrieval(user)`: the groups listed for a user. */
  type GroupListing = Json -> seq<Json>

  /** `v[key]` on a decoded JSON value: a dict answers or raises `KeyError`,
      anything else raises `TypeError`. */
  function Subscript(v: Json, key: string): (r: Result<Json, SyncError>)
    ensures r.Ok? <==> v.JObj? && key in Keys(v.entries)
    ensures r.Ok? ==> Get(v.entries, key) == Some(r.value)
    ensures v.JObj? && r.Err? ==> r.error == MissingKey(key)
  {
    match v
    case JObj(es) =>
      (match Get(es, key)
       case Some(x) => Ok(x)
       case None => Err(MissingKey(key)))
    case _ => Err(WrongType("indices must be integers"))
  }

  /** Python can hash the value: every JSON scalar, no list or dict. */
  predicate Hashable(v: Json) {
    !IsContainer(v)
  }

  /** Lines 18-27: the user's email, else the email found for the username. A
      falsy result means there is none; `get` on anything but a dict raises. */
  function UserEmail(user: Json, lookup: EmailLookup): (r: Result<Json, SyncError>)
    ensures r.Ok? <==> user.JObj?
    ensures r.Ok? ==>
              var email, name := Get(user.entries, "email").GetOr(JNull), Get(user.entries, "username").GetOr(JNull);
              && (Truthy(email) ==> r.value == email)
              && (!Truthy(email) && Truthy(name) ==> r.value == lookup(name))
              && (!Truthy(email) && !Truthy(name) ==> !Truthy(r.value))
  {
    match user
    case JObj(es) =>
      var email := Get(es, "email").GetOr(JNull);
      if Truthy(email) then Ok(email)
      else
        var name := Get(es, "username").GetOr(JNull);
        if Truthy(name) then Ok(lookup(name)) else Ok(email)
    case _ => Err(MissingAttribute("get"))
  }

  /** The member set the map holds for a name, empty when the name is absent. */
  function Members(m: GroupMap, name: Json): set<Json> {
    Get(m, name).GetOr({})
  }

  /** Lines 34-35 for one group: its name becomes a key (`setdefault`) and the
      email joins its set. */
  function AddMember(m: GroupMap, group: Json, email: Json): (r: Result<GroupMap, SyncError>)
    ensures r.Ok? <==> Subscript(group, "name").Ok? && Hashable(Subscript(group, "name").value) && Hashable(email)
    ensures r.Ok? ==> forall n :: Members(r.value, n) == Members(m, n) + (if n == Subscript(group, "name").value then {email} else {})
    ensures r.Ok? ==> forall n :: n in Keys(r.value) <==> n in Keys(m) || n == Subscript(group, "name").value
    ensures r.Ok? && UniqueKeys(m) ==> UniqueKeys(r.value)
  {
    var id :- Subscript(group, "name");
    if !Hashable(id) || !Hashable(email) then Err(WrongType("unhashable type"))
    else Ok(Put(m, id, Members(m, id) + {email}))
  }

  /** Some group of the listing is named `name`. */
  predicate InGroup(groups: seq<Json>, name: Json) {
    exists i :: 0 <= i < |groups| && Subscript(groups[i], "name") == Ok(name)
  }

  lemma InGroupCons(groups: seq<Json>, name: Json)
    requires |groups| > 0
    ensures InGroup(groups, name) <==> Subscript(groups[0], "name") == Ok(name) || InGroup(groups[1..], name)
  {
    if InGroup(groups, name) {
      var i :| 0 <= i < |groups| && Subscript(groups[i], "name") == Ok(name);
      if i > 0 {
        assert groups[1..][i - 1] == groups[i];
      }
    }
    if InGroup(groups[1..], name) {
      var i :| 0 <= i < |groups[1..]| && Subscript(groups[1..][i], "name") == Ok(name);
      assert groups[i + 1] == groups[1..][i];
    }
  }

  /** The email joins the first group, then the rest: it has joined them all. */
  lemma JoinGroups(m: GroupMap, m1: GroupMap, r: GroupMap, groups: seq<Json>, email: Json)
    requires |groups| > 0 && Subscript(groups[0], "name").Ok?
    requires forall n :: Members(m1, n) == Members(m, n) + (if n == Subscript(groups[0], "name").value then {email} else {})
    requires forall n :: n in Keys(m1) <==> n in Keys(m) || n == Subscript(groups[0], "name").value
    requires forall n :: Members(r, n) == Members(m1, n) + (if InGroup(groups[1..], n) then {email} else {})
    requires forall n :: n in Keys(r) <==> n in Keys(m1) || InGroup(groups[1..], n)
    ensures forall n :: Members(r, n) == Members(m, n) + (if InGroup(groups, n) then {email} else {})
    ensures forall n :: n in Keys(r) <==> n in Keys(m) || InGroup(groups, n)
  {
    forall n ensures InGroup(groups, n) <==> Subscript(groups[0], "name") == Ok(n) || InGroup(groups[1..], n) {
      InGroupCons(groups, n);
    }
  }

  /** Lines 32-35: the email joins every group listed for the user. */
  function AddToGroups(m: GroupMap, groups: seq<Json>, email: Json): (r: Result<GroupMap, SyncError>)
    ensures r.Ok? ==> forall n :: Members(r.value, n) == Members(m, n) + (if InGroup(groups, n) then {email} else {})
    ensures r.Ok? ==> forall n :: n in Keys(r.value) <==> n in Keys(m) || InGroup(groups, n)
    ensures r.Ok? && UniqueKeys(m) ==> UniqueKeys(r.value)
    decreases |groups|
  {
    if |groups| == 0 then Ok(m)
    else
      var m1 :- AddMember(m, groups[0], email);
      var r := AddToGroups(m1, groups[1..], email);
      if r.Ok? then
        JoinGroups(m, m1, r.value, groups, email);
        r
      else r
  }

  /** One `user_result` of lines 16-35. */
  function AddUser(m: GroupMap, userResult: Json, lookup: EmailLookup, groupsOf: GroupListing): (r: Result<GroupMap, SyncError>)
    ensures Subscript(userResult, "user").Err? ==> r == Err(Subscript(userResult, "user").error)
    ensures Subscript(userResult, "user").Ok? && UserEmail(Subscript(userResult, "user").value, lookup).Ok? ==>
              var email := UserEmail(Subscript(userResult, "user").value, lookup).value;
              !Truthy(email) ==> r == Ok(m)
  {
    var user :- Subscript(userResult, "user");
    var email :- UserEmail(user, lookup);
    if !Truthy(email) then Ok(m)
    else AddToGroups(m, groupsOf(user), email)
  }

  /** Lines 16-35 from a given map over the remaining users. */
  function AddUsers(m: GroupMap, userResults: seq<Json>, lookup: EmailLookup, groupsOf: GroupListing): (r: Result<GroupMap, SyncError>)
    decreases |userResults|
  {
    if |userResults| == 0 then Ok(m)
    else
      var m1 :- AddUser(m, userResults[0], lookup, groupsOf);
      AddUsers(m1, userResults[1..], lookup, groupsOf)
  }

  /** `_build_group_member_email_map`. */
  function BuildGroupMemberEmailMap(userResults: seq<Json>, lookup: EmailLookup, groupsOf: GroupListing): Result<GroupMap, SyncError> {
    AddUsers([], userResults, lookup, groupsOf)
  }

  // ---------------------------------------------------------------------------
  // the reference: who belongs to a group

  /** The email a user result gives, when it gives a usable one. */
  function QualifiedEmail(userResult: Json, lookup: EmailLookup): Option<Json> {
    match Subscript(userResult, "user")
    case Err(_) => None
    case Ok(user) =>
      match UserEmail(user, lookup)
      case Err(_) => None
      case Ok(email) => if Truthy(email) then Some(email) else None
  }

  /** The emails of the users, among `userResults`, with an email and a group
      named `name`. */
  function GroupMembers(userResults: seq<Json>, name: Json, lookup: EmailLookup, groupsOf: GroupListing): set<Json>
    decreases |userResults|
  {
    if |userResults| == 0 then {}
    else
      var ur := userResults[0];
      var own := match QualifiedEmail(ur, lookup)
        case Some(e) => if InGroup(groupsOf(Subscript(ur, "user").value), name) then {e} else {}
        case None => {};
      own + GroupMembers(userResults[1..], name, lookup, groupsOf)
  }

  /** A user without a usable email, even after the username lookup, leaves the
      map as it was. */
  lemma UserWithoutEmailIgnored(m: GroupMap, userResult: Json, lookup: EmailLookup, groupsOf: GroupListing)
    requires Subscript(userResult, "user").Ok?
    requires UserEmail(Subscript(userResult, "user").value, lookup).Ok?
    requires QualifiedEmail(userResult, lookup).None?
    ensures AddUser(m, userResult, lookup, groupsOf) == Ok(m)
  {
  }

  /** One user adds its email to exactly the groups listed for it. */
  lemma AddUserMembers(m: GroupMap, userResult: Json, lookup: EmailLookup, groupsOf: GroupListing)
    requires AddUser(m, userResult, lookup, groupsOf).Ok?
    ensures var r := AddUser(m, userResult, lookup, groupsOf).value;
      && (forall n :: Members(r, n) == Members(m, n) + GroupMembers([userResult], n, lookup, groupsOf))
      && (forall n :: n in Keys(r) <==> n in Keys(m) || GroupMembers([userResult], n, lookup, groupsOf) != {})
      && (UniqueKeys(m) ==> UniqueKeys(r))
  {
    assert [userResult][1..] == [];
  }

  lemma {:induction false} GroupMembersCons(userResults: seq<Json>, name: Json, lookup: EmailLookup, groupsOf: GroupListing)
    requires |userResults| > 0
    ensures GroupMembers(userResults, name, lookup, groupsOf) ==
              GroupMembers([userResults[0]], name, lookup, groupsOf) + GroupMembers(userResults[1..], name, lookup, groupsOf)
  {
    assert [userResults[0]][1..] == [];
  }

  /** Over the remaining users, each group's set grows by exactly its members
      among them, and a name becomes a key exactly when it gets a member. */
  lemma {:induction false} AddUsersMembers(m: GroupMap, userResults: seq<Json>, lookup: EmailLookup, groupsOf: GroupListing)
    requires AddUsers(m, userResults, lookup, groupsOf).Ok?
    ensures var r := AddUsers(m, userResults, lookup, groupsOf).value;
      && (forall n :: Members(r, n) == Members(m, n) + GroupMembers(userResults, n, lookup, groupsOf))
      && (forall n :: n in Keys(r) <==> n in Keys(m) || GroupMembers(userResults, n, lookup, groupsOf) != {})
      && (UniqueKeys(m) ==> UniqueKeys(r))
    decreases |userResults|
  {
    if |userResults| > 0 {
      var m1 := AddUser(m, userResults[0], lookup, groupsOf).value;
      AddUserMembers(m, userResults[0], lookup, groupsOf);
      AddUsersMembers(m1, userResults[1..], lookup, groupsOf);
      forall n ensures GroupMembers(userResults, n, lookup, groupsOf) ==
                         GroupMembers([userResults[0]], n, lookup, groupsOf) + GroupMembers(userResults[1..], n, lookup, groupsOf) {
        GroupMembersCons(userResults, n, lookup, groupsOf);
      }
    }
  }

  /** The map holds, under each name, exactly the members of that group, and
      no name without a member; a name is a key at most once. */
  lemma MapIsMembership(userResults: seq<Json>, lookup: EmailLookup, groupsOf: GroupListing)
    requires BuildGroupMemberEmailMap(userResults, lookup, groupsOf).Ok?
    ensures var r := BuildGroupMemberEmailMap(userResults, lookup, groupsOf).value;
      && UniqueKeys(r)
      && forall n :: Get(r, n) == if GroupMembers(userResults, n, lookup, groupsOf) == {} then None
                                  else Some(GroupMembers(userResults, n, lookup, groupsOf))
  {
    var empty: GroupMap := [];
    var r := AddUsers(empty, userResults, lookup, groupsOf).value;
    AddUsersMembers(empty, userResults, lookup, groupsOf);
    forall n ensures Get(r, n) == if GroupMembers(userResults, n, lookup, groupsOf) == {} then None
                                  else Some(GroupMembers(userResults, n, lookup, groupsOf)) {
      var g := GroupMembers(userResults, n, lookup, groupsOf);
      assert Members(empty, n) == {} && n !in Keys(empty);
      assert Members(r, n) == g;
      assert n in Keys(r) <==> g != {};
      GetMembers(r, n);
    }
  }

  /** The value under a key is its member set. */
  lemma GetMembers(m: GroupMap, n: Json)
    ensures Get(m, n) == if n in Keys(m) then Some(Members(m, n)) else None
  {
  }

  // ---------------------------------------------------------------------------
  // the sync

  /** `ExternalUserGroup`: `list(set)` has no defined order, so the emails are
      kept as the set. */
  datatype ExternalUserGroup = ExternalUserGroup(id: Json, userEmails: set<Json>)

  /** Lines 52-59: one group per entry, in the order of the map. */
  function ToGroups(m: GroupMap): (r: seq<ExternalUserGroup>)
    ensures |r| == |m|
    ensures forall i :: 0 <= i < |m| ==> r[i] == ExternalUserGroup(m[i].0, m[i].1)
  {
    seq(|m|, i requires 0 <= i < |m| => ExternalUserGroup(m[i].0, m[i].1))
  }

  /** `confluence_group_sync`: the connector's `wiki_base` setting is read
      before the client is built, so its absence is a `KeyError`. */
  function ConfluenceGroupSync(config: Dict<string, Json>, userResults: seq<Json>, lookup: EmailLookup, groupsOf: GroupListing): (r: Result<seq<ExternalUserGroup>, SyncError>)
    ensures "wiki_base" !in Keys(config) ==> r == Err(MissingKey("wiki_base"))
    ensures "wiki_base" in Keys(config) ==> r.Ok? == BuildGroupMemberEmailMap(userResults, lookup, groupsOf).Ok?
  {
    if "wiki_base" !in Keys(config) then Err(MissingKey("wiki_base"))
    else
      var m :- BuildGroupMemberEmailMap(userResults, lookup, groupsOf);
      Ok(ToGroups(m))
  }

  /** The groups synced are exactly the groups with a member: each appears
      once, named by its group name and holding that group's members. */
  lemma SyncedGroupsAreMemberships(config: Dict<string, Json>, userResults: seq<Json>, lookup: EmailLookup, groupsOf: GroupListing)
    requires ConfluenceGroupSync(config, userResults, lookup, groupsOf).Ok?
    ensures var gs := ConfluenceGroupSync(config, userResults, lookup, groupsOf).value;
      && (forall i :: 0 <= i < |gs| ==>
            gs[i].userEmails == GroupMembers(userResults, gs[i].id, lookup, groupsOf) && gs[i].userEmails != {})
      && (forall i, j :: 0 <= i < j < |gs| ==> gs[i].id != gs[j].id)
      && (forall n :: GroupMembers(userResults, n, lookup, groupsOf) != {} ==> exists i :: 0 <= i < |gs| && gs[i].id == n)
  {
    var m := BuildGroupMemberEmailMap(userResults, lookup, groupsOf).value;
    MapIsMembership(userResults, lookup, groupsOf);
    GroupsOfMembership(m, n => GroupMembers(userResults, n, lookup, groupsOf));
  }

  /** The groups of a map that holds, under each name with members, exactly
      those members. */
  lemma GroupsOfMembership(m: GroupMap, members: Json -> set<Json>)
    requires UniqueKeys(m)
    requires forall n :: Get(m, n) == if members(n) == {} then None else Some(members(n))
    ensures var gs := ToGroups(m);
      && (forall i :: 0 <= i < |gs| ==> gs[i].userEmails == members(gs[i].id) && gs[i].userEmails != {})
      && (forall i, j :: 0 <= i < j < |gs| ==> gs[i].id != gs[j].id)
      && (forall n :: members(n) != {} ==> exists i :: 0 <= i < |gs| && gs[i].id == n)
  {
    var gs := ToGroups(m);
    UniqueKeysDistinct(m);
    forall i | 0 <= i < |gs|
      ensures gs[i].userEmails == members(gs[i].id) && gs[i].userEmails != {}
    {
      GetFirstPair(m, i);
    }
    forall n | members(n) != {}
      ensures exists i :: 0 <= i < |gs| && gs[i].id == n
    {
      KeyPosition(m, n);
    }
  }

  /** A key of the map is the key of some pair. */
  lemma KeyPosition(m: GroupMap, n: Json)
    requires n in Keys(m)
    ensures exists i :: 0 <= i < |m| && m[i].0 == n
  {
    var i :| 0 <= i < |Keys(m)| && Keys(m)[i] == n;
  }

  /** With unique keys, the value stored under the key of a pair is that pair's. */
  lemma GetFirstPair(m: GroupMap, i: int)
    requires UniqueKeys(m) && 0 <= i < |m|
    ensures Get(m, m[i].0) == Some(m[i].1)
  {
    UniqueKeysDistinct(m);
    assert Keys(m)[i] == m[i].0;
    var j :| 0 <= j < |m| && m[j] == (m[i].0, Get(m, m[i].0).value);
    assert i == j;
  }
}
