/**
`SearchOrgUsers` (database/queries/users.sql) with its null-skipping aggregates, and the two
statements that write user names.
*/
module Users {
  import opened Wrappers
  import opened Naming
  import opened Paging
  import Ilike

  type UserId = nat
  type Org = nat

  datatype User = User(
    email: string,
    name: Option<string>,
    avatarUrl: Option<string>,
    phone: Option<string>,
    country: Option<string>,
    createdAt: int)

  datatype Directory = Directory(users: map<UserId, User>, members: set<(Org, UserId)>)

  // ---------- The filter ----------

  /** One condition; a missing key is NULL. */
  datatype Condition = Condition(field: Option<string>, operation: Option<string>, value: Option<string>)

  /** One element of `filterFields`: a condition and its alternatives. */
  datatype Group = Group(first: Condition, alternatives: seq<Condition>)

  datatype Target = Email | Name

  function Coalesce(s: Option<string>, default: string): string { if s.None? then default else s.value }

  function TargetOf(c: Condition): Option<Target> {
    var field := Lower(Coalesce(c.field, ""));
    if field == "email" then Some(Email)
    else if field == "name" || field == "firstname" || field == "lastname" then Some(Name)
    else None
  }

  /** The comparison a condition makes with a text that is not NULL. */
  predicate Compares(ilike: (string, string) -> bool, text: string, c: Condition) {
    var op, val := Lower(Coalesce(c.operation, "eq")), Coalesce(c.value, "");
    if op == "cn" then ilike(text, "%" + val + "%")
    else if op == "sw" then ilike(text, val + "%")
    else if op == "ew" then ilike(text, "%" + val)
    else text == val
  }

  /** The CASE for one condition, in three-valued logic: None is NULL. */
  function Holds(ilike: (string, string) -> bool, u: User, c: Condition): Option<bool> {
    match TargetOf(c)
    case Some(Email) => Some(Compares(ilike, u.email, c))
    case Some(Name) => if u.name.None? then None else Some(Compares(ilike, u.name.value, c))
    case None => Some(false)
  }

  /** BOOL_OR: NULLs are skipped, and without any other input the result is NULL. */
  function BoolOr(xs: seq<Option<bool>>): Option<bool> {
    if xs == [] then None
    else
      var rest := BoolOr(xs[1..]);
      if xs[0].None? then rest else if rest.None? then xs[0] else Some(xs[0].value || rest.value)
  }

  function BoolAnd(xs: seq<Option<bool>>): Option<bool> {
    if xs == [] then None
    else
      var rest := BoolAnd(xs[1..]);
      if xs[0].None? then rest else if rest.None? then xs[0] else Some(xs[0].value && rest.value)
  }

  /** `a OR b` in three-valued logic. */
  function Or(a: Option<bool>, b: Option<bool>): Option<bool> {
    if a == Some(true) || b == Some(true) then Some(true)
    else if a.None? || b.None? then None else Some(false)
  }

  function Conditions(g: Group): seq<Condition> { [g.first] + g.alternatives }

  function AllHold(ilike: (string, string) -> bool, u: User, cs: seq<Condition>): seq<Option<bool>> {
    seq(|cs|, i requires 0 <= i < |cs| => Holds(ilike, u, cs[i]))
  }

  function AllRecognized(cs: seq<Condition>): seq<Option<bool>> {
    seq(|cs|, i requires 0 <= i < |cs| => Some(TargetOf(cs[i]).Some?))
  }

  function GroupMatch(ilike: (string, string) -> bool, u: User, g: Group): Option<bool> {
    BoolOr(AllHold(ilike, u, Conditions(g)))
  }

  function HasRecognized(g: Group): Option<bool> { BoolOr(AllRecognized(Conditions(g))) }

  /** `(NOT g.has_recognized) OR g.group_match`. */
  function GroupVerdict(ilike: (string, string) -> bool, u: User, g: Group): Option<bool> {
    var has := HasRecognized(g);
    Or(if has.None? then None else Some(!has.value), GroupMatch(ilike, u, g))
  }

  /** The LEFT JOIN LATERAL gives one all-NULL record when there is no group. */
  function Verdicts(ilike: (string, string) -> bool, u: User, groups: seq<Group>): seq<Option<bool>> {
    if groups == [] then [None]
    else seq(|groups|, i requires 0 <= i < |groups| => GroupVerdict(ilike, u, groups[i]))
  }

  /** HAVING COALESCE(BOOL_AND(...), TRUE). */
  predicate Kept(ilike: (string, string) -> bool, u: User, groups: seq<Group>) {
    var all := BoolAnd(Verdicts(ilike, u, groups));
    all.None? || all.value
  }

  // ---------- What the filter means ----------

  ghost predicate Recognized(g: Group) { exists c :: c in Conditions(g) && TargetOf(c).Some? }

  /** Some condition of the group is true. */
  ghost predicate SomeTrue(ilike: (string, string) -> bool, u: User, g: Group) {
    exists c :: c in Conditions(g) && Holds(ilike, u, c) == Some(true)
  }

  /** Every group with a recognised field has a true condition. */
  ghost predicate AndOfOrs(ilike: (string, string) -> bool, u: User, groups: seq<Group>) {
    forall g <- groups :: Recognized(g) ==> SomeTrue(ilike, u, g)
  }

  /** All conditions of the group are about the name. */
  ghost predicate NameOnly(g: Group) { forall c <- Conditions(g) :: TargetOf(c) == Some(Name) }

  lemma {:induction false} BoolOrExactly(xs: seq<Option<bool>>)
    ensures BoolOr(xs) == Some(true) <==> Some(true) in xs
    ensures BoolOr(xs) == None <==> forall x <- xs :: x == None
  {
    if xs != [] {
      BoolOrExactly(xs[1..]);
      assert xs[0] in xs && forall x :: x in xs <==> x == xs[0] || x in xs[1..];
    }
  }

  lemma {:induction false} BoolAndExactly(xs: seq<Option<bool>>)
    ensures BoolAnd(xs) == Some(false) <==> Some(false) in xs
  {
    if xs != [] {
      BoolAndExactly(xs[1..]);
      assert Some(false) in xs <==> xs[0] == Some(false) || Some(false) in xs[1..];
    }
  }

  /** For a value without wildcards the operations are substring, prefix, suffix and equality. */
  lemma OperationsMean(text: string, c: Condition, val: string)
    requires c.value == Some(val) && Ilike.Literal(val)
    ensures var op := Lower(Coalesce(c.operation, "eq"));
            var holds := Compares((t, p) => Ilike.ILike(t, p), text, c);
            && (op == "cn" ==> (holds <==> Ilike.Contains(Lower(text), Lower(val))))
            && (op == "sw" ==> (holds <==> Ilike.StartsWith(Lower(text), Lower(val))))
            && (op == "ew" ==> (holds <==> Ilike.EndsWith(Lower(text), Lower(val))))
            && (op !in {"cn", "sw", "ew"} ==> (holds <==> text == val))
  {
    Ilike.IlikeMeans(text, val);
  }

  /**
  One group: the verdict is false exactly for a recognised group with no true condition, unless all
  of it is NULL.
  */
  lemma VerdictExactly(ilike: (string, string) -> bool, u: User, g: Group)
    ensures GroupVerdict(ilike, u, g) == Some(false) <==>
              Recognized(g) && !SomeTrue(ilike, u, g) && !(u.name.None? && NameOnly(g))
  {
    hide TargetOf, Compares;
    var cs := Conditions(g);
    var holds, known := AllHold(ilike, u, cs), AllRecognized(cs);
    BoolOrExactly(holds);
    BoolOrExactly(known);
    assert Some(true) in holds <==> SomeTrue(ilike, u, g) by {
      if c :| c in cs && Holds(ilike, u, c) == Some(true) {
        var i :| 0 <= i < |cs| && cs[i] == c;
        assert holds[i] == Some(true);
      }
    }
    assert Some(true) in known <==> Recognized(g) by {
      if c :| c in cs && TargetOf(c).Some? {
        var i :| 0 <= i < |cs| && cs[i] == c;
        assert known[i] == Some(true);
      }
    }
    assert known[0] != None;
    assert (forall x <- holds :: x == None) <==> u.name.None? && NameOnly(g) by {
      if forall x <- holds :: x == None {
        forall c <- cs ensures Holds(ilike, u, c) == None {
          var i :| 0 <= i < |cs| && cs[i] == c;
          assert holds[i] in holds;
        }
        assert cs[0] in cs;
      }
    }
  }

  /** Exactly who is kept, NULL names included. */
  lemma KeptExactly(ilike: (string, string) -> bool, u: User, groups: seq<Group>)
    ensures Kept(ilike, u, groups) <==>
              forall g <- groups :: Recognized(g) ==> SomeTrue(ilike, u, g) || (u.name.None? && NameOnly(g))
  {
    hide GroupVerdict, Recognized, SomeTrue, NameOnly;
    BoolAndExactly(Verdicts(ilike, u, groups));
    if groups != [] {
      var vs := Verdicts(ilike, u, groups);
      forall g <- groups ensures GroupVerdict(ilike, u, g) == Some(false) ==> Some(false) in vs {
        var i :| 0 <= i < |groups| && groups[i] == g;
        assert vs[i] == GroupVerdict(ilike, u, g);
      }
      forall g <- groups { VerdictExactly(ilike, u, g); }
    }
  }

  /** With a non-null name the aggregates mean a plain AND of ORs. */
  lemma KeptIsAndOfOrs(ilike: (string, string) -> bool, u: User, groups: seq<Group>)
    requires u.name.Some?
    ensures Kept(ilike, u, groups) <==> AndOfOrs(ilike, u, groups)
  {
    hide Kept, Recognized, SomeTrue, NameOnly;
    KeptExactly(ilike, u, groups);
  }

  /** For a NULL name the two differ exactly when some group asks about the name only and no other group fails. */
  lemma KeptDiffersExactly(ilike: (string, string) -> bool, u: User, groups: seq<Group>)
    requires u.name.None?
    ensures (Kept(ilike, u, groups) <==> AndOfOrs(ilike, u, groups)) <==>
              || (forall g <- groups :: !NameOnly(g))
              || (exists g :: g in groups && !NameOnly(g) && Recognized(g) && !SomeTrue(ilike, u, g))
  {
    hide Kept;
    KeptExactly(ilike, u, groups);
    forall g <- groups | NameOnly(g) ensures Recognized(g) && !SomeTrue(ilike, u, g) {
      assert g.first in Conditions(g);
    }
  }

  // ---------- The filter in terms of fields, operations and values ----------

  /** What a field name makes a condition compare; a NULL name satisfies nothing. */
  ghost predicate Compared(u: User, field: string, text: string) {
    || (field == "email" && text == u.email)
    || ((field == "name" || field == "firstname" || field == "lastname") && u.name == Some(text))
  }

  /** One of the four field names, in any case. */
  predicate KnownField(c: Condition) {
    c.field.Some? && Lower(c.field.value) in {"email", "name", "firstname", "lastname"}
  }

  /** The condition's operation, in any case, on the text its field compares: `eq` by default and for other names. */
  ghost predicate Meets(u: User, c: Condition, ilike: (string, string) -> bool) {
    exists text ::
      && c.field.Some? && Compared(u, Lower(c.field.value), text)
      && var val := if c.value.Some? then c.value.value else "";
         match c.operation
         case None => text == val
         case Some(op) =>
           if Lower(op) == "cn" then ilike(text, "%" + val + "%")
           else if Lower(op) == "sw" then ilike(text, val + "%")
           else if Lower(op) == "ew" then ilike(text, "%" + val)
           else text == val
  }

  ghost predicate GroupMeets(u: User, g: Group, ilike: (string, string) -> bool) {
    Meets(u, g.first, ilike) || exists c :: c in g.alternatives && Meets(u, c, ilike)
  }

  predicate KnownGroup(g: Group) { KnownField(g.first) || exists c :: c in g.alternatives && KnownField(c) }

  lemma ConditionMeans(ilike: (string, string) -> bool, u: User, c: Condition)
    ensures Holds(ilike, u, c) == Some(true) <==> Meets(u, c, ilike)
    ensures TargetOf(c).Some? <==> KnownField(c)
    ensures TargetOf(c) == Some(Name) <==> KnownField(c) && Lower(c.field.value) != "email"
  {
    LowerOfDefaults();
    if Holds(ilike, u, c) == Some(true) {
      var text := if TargetOf(c) == Some(Email) then u.email else u.name.value;
      assert Compared(u, Lower(c.field.value), text);
    }
  }

  lemma LowerOfDefaults()
    ensures Lower("") == "" && Lower("eq") == "eq"
  {
  }

  predicate NameGroup(g: Group) {
    forall c <- [g.first] + g.alternatives :: KnownField(c) && Lower(c.field.value) != "email"
  }

  /**
  Who is kept: with a name, exactly those who meet a condition of each group that has a known field.
  Without one, groups about the name only make no difference.
  */
  lemma KeptMeans(ilike: (string, string) -> bool, u: User, groups: seq<Group>)
    ensures Kept(ilike, u, groups) <==>
              forall g <- groups :: KnownGroup(g) ==> GroupMeets(u, g, ilike) || (u.name.None? && NameGroup(g))
    ensures AndOfOrs(ilike, u, groups) <==> forall g <- groups :: KnownGroup(g) ==> GroupMeets(u, g, ilike)
    ensures u.name.Some? ==>
              (Kept(ilike, u, groups) <==> forall g <- groups :: KnownGroup(g) ==> GroupMeets(u, g, ilike))
  {
    hide Holds, TargetOf, Meets, KnownField, Kept;
    forall g: Group
      ensures Recognized(g) <==> KnownGroup(g)
      ensures SomeTrue(ilike, u, g) <==> GroupMeets(u, g, ilike)
      ensures NameOnly(g) <==> NameGroup(g)
    {
      forall c: Condition { ConditionMeans(ilike, u, c); }
      assert forall c: Condition :: c in Conditions(g) <==> c == g.first || c in g.alternatives;
    }
    hide Recognized, SomeTrue, KnownGroup, GroupMeets, NameOnly, NameGroup;
    KeptExactly(ilike, u, groups);
  }

  // ---------- The answer ----------

  datatype UserHit = UserHit(id: UserId, email: string, name: Option<string>, createdAt: int, total: nat)

  function KeptMembers(ilike: (string, string) -> bool, d: Directory, org: Org, groups: seq<Group>): set<UserId> {
    set id | id in d.users && (org, id) in d.members && Kept(ilike, d.users[id], groups)
  }

  function Created(d: Directory): map<UserId, int> { map id | id in d.users :: d.users[id].createdAt }

  function UserHits(d: Directory, order: seq<UserId>): seq<UserHit>
    requires forall i :: 0 <= i < |order| ==> order[i] in d.users
  {
    seq(|order|, i requires 0 <= i < |order| =>
      UserHit(order[i], d.users[order[i]].email, d.users[order[i]].name, d.users[order[i]].createdAt, |order|))
  }

  /** SearchOrgUsers: None when the OFFSET is out of range. `order` is the order the query returned. */
  function SearchOrgUsers(
    d: Directory, pageNum: Option<int>, pageSize: Option<int>, order: seq<UserId>): Option<seq<UserHit>>
    requires forall i :: 0 <= i < |order| ==> order[i] in d.users
  {
    if !OffsetInRange(PageSize(pageSize), PageNumber(pageNum)) then None
    else Some(Page(UserHits(d, order), PageSize(pageSize), PageNumber(pageNum)))
  }

  /** The search fails exactly when its OFFSET is no int4. */
  lemma SearchFailsExactly(d: Directory, pageNum: Option<int>, pageSize: Option<int>, order: seq<UserId>)
    requires forall i :: 0 <= i < |order| ==> order[i] in d.users
    ensures SearchOrgUsers(d, pageNum, pageSize, order).None? <==> PageSize(pageSize) * PageNumber(pageNum) > 2147483647
  {
    hide PageSize, PageNumber;
  }

  /** The answers to page 0, 1, ..., n - 1, one after the other. */
  function AnsweredPages(d: Directory, pageSize: Option<int>, order: seq<UserId>, n: nat): seq<UserHit>
    requires forall i :: 0 <= i < |order| ==> order[i] in d.users
  {
    if n == 0 then []
    else
      var page := SearchOrgUsers(d, Some(n - 1), pageSize, order);
      AnsweredPages(d, pageSize, order, n - 1) + (if page.Some? then page.value else [])
  }

  lemma {:induction false} AnsweredPagesArePages(d: Directory, pageSize: Option<int>, order: seq<UserId>, n: nat)
    requires forall i :: 0 <= i < |order| ==> order[i] in d.users
    requires n > 0 ==> OffsetInRange(PageSize(pageSize), n - 1)
    ensures AnsweredPages(d, pageSize, order, n) == Pages(UserHits(d, order), PageSize(pageSize), n)
  {
    if n > 0 {
      var size := PageSize(pageSize);
      assert size * (n - 1) == size * (n - 2) + size;
      AnsweredPagesArePages(d, pageSize, order, n - 1);
    }
  }

  // ---------- The statements that write names ----------

  datatype UserCall =
    | Upsert(email: string, name: string, id: UserId, now: int)
    | UpdateProfile(
        user: UserId,
        newName: Option<string>,
        avatarUrl: Option<string>,
        phone: Option<string>,
        country: Option<string>)
    | Join(org: Org, member: UserId)

  function OrElse(a: Option<string>, b: Option<string>): Option<string> { if a.Some? then a else b }

  /** At most one user has the address: the UNIQUE constraint on email. */
  ghost predicate Sound(d: Directory) {
    && (forall a <- d.users, b <- d.users :: d.users[a].email == d.users[b].email ==> a == b)
    && (forall id <- d.users :: d.users[id].name.Some?)
  }

  /** INSERT ... ON CONFLICT (email) DO UPDATE SET name = COALESCE(users.name, EXCLUDED.name). */
  function Upserted(d: Directory, email: string, name: string, id: UserId, now: int): Directory {
    var same := set other | other in d.users && d.users[other].email == email;
    if same != {} then
      d.(users := map u | u in d.users ::
           if u in same then d.users[u].(name := OrElse(d.users[u].name, Some(name))) else d.users[u])
    else d.(users := d.users[id := User(email, Some(name), None, None, None, now)])
  }

  function ProfileUpdated(
    d: Directory, id: UserId, name: Option<string>, avatarUrl: Option<string>, phone: Option<string>,
    country: Option<string>): Directory
  {
    if id !in d.users then d
    else
      var u := d.users[id];
      d.(users := d.users[id := u.(
        name := OrElse(name, u.name),
        avatarUrl := OrElse(avatarUrl, u.avatarUrl),
        phone := OrElse(phone, u.phone),
        country := OrElse(country, u.country))])
  }

  /** An id that is already in use cannot be generated for a new user. */
  function Apply(d: Directory, call: UserCall): Directory {
    match call
    case Upsert(email, name, id, now) => if id in d.users then d else Upserted(d, email, name, id, now)
    case UpdateProfile(user, name, avatar, phone, country) => ProfileUpdated(d, user, name, avatar, phone, country)
    case Join(org, member) => if member in d.users then d.(members := d.members + {(org, member)}) else d
  }

  function Run(d: Directory, calls: seq<UserCall>): Directory
    decreases |calls|
  {
    if calls == [] then d else Run(Apply(d, calls[0]), calls[1..])
  }

  /**
  A verified address gets one new user, with that name, when nobody has the address. Otherwise its
  user keeps everything, and takes the name only in place of a NULL one.
  */
  lemma UpsertLeaves(d: Directory, email: string, name: string, id: UserId, now: int)
    requires id !in d.users
    ensures var d' := Apply(d, Upsert(email, name, id, now));
            var known := exists u :: u in d.users && d.users[u].email == email;
            && d'.members == d.members
            && (known ==> d'.users.Keys == d.users.Keys)
            && (!known ==> d'.users.Keys == d.users.Keys + {id}
                           && d'.users[id] == User(email, Some(name), None, None, None, now))
            && (forall u <- d.users ::
                  d'.users[u] == if d.users[u].email == email && d.users[u].name == None
                                 then d.users[u].(name := Some(name)) else d.users[u])
  {
    var same := set other | other in d.users && d.users[other].email == email;
    assert forall u :: u in same <==> u in d.users && d.users[u].email == email;
  }

  /** What is given replaces what the user had, the rest stays, and nobody else changes. */
  lemma ProfileLeaves(d: Directory, call: UserCall)
    requires call.UpdateProfile?
    ensures var d' := Apply(d, call);
            && d'.members == d.members && d'.users.Keys == d.users.Keys
            && (forall other <- d.users :: other != call.user ==> d'.users[other] == d.users[other])
            && (call.user in d.users ==>
                  var was, now := d.users[call.user], d'.users[call.user];
                  && now.email == was.email && now.createdAt == was.createdAt
                  && now.name == (match call.newName case None => was.name case Some(s) => Some(s))
                  && now.avatarUrl == (match call.avatarUrl case None => was.avatarUrl case Some(s) => Some(s))
                  && now.phone == (match call.phone case None => was.phone case Some(s) => Some(s))
                  && now.country == (match call.country case None => was.country case Some(s) => Some(s)))
  {
  }

  /** A membership is added for a user who is there. */
  lemma JoinLeaves(d: Directory, org: Org, member: UserId)
    ensures var d' := Apply(d, Join(org, member));
            && d'.users == d.users
            && forall o, u :: (o, u) in d'.members <==>
                 (o, u) in d.members || (o == org && u == member && member in d.users)
  {
  }

  lemma ApplyKeepsSound(d: Directory, call: UserCall)
    requires Sound(d)
    ensures Sound(Apply(d, call))
  {
    if call.Upsert? && call.id !in d.users {
      var same := set other | other in d.users && d.users[other].email == call.email;
      assert forall other <- d.users :: d.users[other].email == call.email ==> other in same;
    }
  }

  lemma {:induction false} RunKeepsSound(d: Directory, calls: seq<UserCall>)
    requires Sound(d)
    ensures Sound(Run(d, calls))
    decreases |calls|
  {
    hide Sound, Apply;
    if calls != [] {
      ApplyKeepsSound(d, calls[0]);
      RunKeepsSound(Apply(d, calls[0]), calls[1..]);
    }
  }

  class UserTable {
    var users: map<UserId, User>
    var members: set<(Org, UserId)>

    function State(): Directory
      reads this
    {
      Directory(users, members)
    }

    constructor ()
      ensures State() == Directory(map[], {}) && Sound(State())
    {
      users, members := map[], {};
    }

    /** `id` is the generated key of a new user. */
    method UpsertUserByVerifiedEmail(email: string, name: string, id: UserId, now: int) returns (user: UserId)
      requires Sound(State()) && id !in users
      modifies this
      ensures State() == Apply(old(State()), Upsert(email, name, id, now)) && Sound(State())
      ensures user in users && users[user].email == email && users[user].name.Some?
      ensures user in old(users) ==> users == old(users)
      ensures user !in old(users) ==>
                user == id && users == old(users)[id := User(email, Some(name), None, None, None, now)]
    {
      ApplyKeepsSound(State(), Upsert(email, name, id, now));
      var same := set other | other in users && users[other].email == email;
      if same == {} {
        users := users[id := User(email, Some(name), None, None, None, now)];
        user := id;
      } else {
        user :| user in same;
        assert forall other <- same :: other == user;
        users := users[user := users[user].(name := OrElse(users[user].name, Some(name)))];
      }
    }

    method UpdateUserProfile(
      id: UserId, name: Option<string>, avatarUrl: Option<string>, phone: Option<string>, country: Option<string>)
      requires Sound(State())
      modifies this
      ensures State() == Apply(old(State()), UpdateProfile(id, name, avatarUrl, phone, country)) && Sound(State())
      ensures id in old(users) ==>
                && id in users
                && users[id].name == (if name.Some? then name else old(users)[id].name)
                && users[id].avatarUrl == (if avatarUrl.Some? then avatarUrl else old(users)[id].avatarUrl)
                && users[id].phone == (if phone.Some? then phone else old(users)[id].phone)
                && users[id].country == (if country.Some? then country else old(users)[id].country)
    {
      ApplyKeepsSound(State(), UpdateProfile(id, name, avatarUrl, phone, country));
      if id in users {
        var u := users[id];
        users := users[id := u.(name := OrElse(name, u.name), avatarUrl := OrElse(avatarUrl, u.avatarUrl),
                                phone := OrElse(phone, u.phone), country := OrElse(country, u.country))];
      }
    }
  }

  /**
  In every directory these statements can build, the search over all its pages returns exactly
  the org's members that satisfy the AND of ORs, each once, newest first, each with the total.
  */
  lemma SearchReturnsTheAndOfOrs(
    ilike: (string, string) -> bool, calls: seq<UserCall>, org: Org, groups: seq<Group>, order: seq<UserId>,
    pageSize: Option<int>, n: nat)
    requires var d := Run(Directory(map[], {}), calls);
             NewestFirst(order, KeptMembers(ilike, d, org, groups), Created(d))
    requires PageSize(pageSize) * n >= |order| && (n > 0 ==> PageSize(pageSize) * (n - 1) <= 2147483647)
    ensures var d := Run(Directory(map[], {}), calls);
            var hits := AnsweredPages(d, pageSize, order, n);
            && (forall id :: (exists i :: 0 <= i < |hits| && hits[i].id == id) <==>
                               && id in d.users && (org, id) in d.members
                               && forall g <- groups :: KnownGroup(g) ==> GroupMeets(d.users[id], g, ilike))
            && (forall i, j :: 0 <= i < j < |hits| ==>
                  hits[i].id != hits[j].id && hits[i].createdAt >= hits[j].createdAt)
            && (forall i :: 0 <= i < |hits| ==>
                  && hits[i].total == |hits| && hits[i].name.Some? && hits[i].id in d.users
                  && var u := d.users[hits[i].id];
                     hits[i].email == u.email && hits[i].name == u.name && hits[i].createdAt == u.createdAt)
  {
    hide Kept, Run, KnownGroup, GroupMeets;
    var start := Directory(map[], {});
    var d := Run(start, calls);
    RunKeepsSound(start, calls);
    PagesTile(UserHits(d, order), PageSize(pageSize), n);
    AnsweredPagesArePages(d, pageSize, order, n);
    var hits := AnsweredPages(d, pageSize, order, n);
    assert hits == UserHits(d, order);
    forall id
      ensures (exists i :: 0 <= i < |hits| && hits[i].id == id) <==>
                && id in d.users && (org, id) in d.members
                && forall g <- groups :: KnownGroup(g) ==> GroupMeets(d.users[id], g, ilike)
    {
      if id in d.users {
        KeptMeans(ilike, d.users[id], groups);
      }
      assert id in order <==> id in KeptMembers(ilike, d, org, groups);
      if id in order {
        var i :| 0 <= i < |order| && order[i] == id;
        assert hits[i].id == id;
      }
    }
  }
}
