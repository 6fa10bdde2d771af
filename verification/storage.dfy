/** The in-memory store `MemStorage`: two insertion-ordered maps keyed by
    id, and one auto-incrementing id counter per map. Every operation is a
    pure function from the old store to the new store and its answer. */
module Storage {
  import opened Wrappers
  import opened Schema
  import OrderedMap

  datatype MemStorage = MemStorage(
    users: seq<(int, User)>,
    summaries: seq<(int, Summary)>,
    userIdCounter: int,
    summaryIdCounter: int)

  /** What a `create…` call hands back: the store after the call and the
      row it returned. */
  datatype Created<T> = Created(store: MemStorage, value: T)

  /** The invariant every reachable store keeps: the entry at position `i`
      is stored under key `i + 1` and carries id `i + 1`, and each counter
      is the next id to issue. */
  predicate Valid(st: MemStorage) {
    && st.userIdCounter == |st.users| + 1
    && st.summaryIdCounter == |st.summaries| + 1
    && (forall i :: 0 <= i < |st.users| ==> st.users[i].0 == i + 1 && st.users[i].1.id == i + 1)
    && (forall i :: 0 <= i < |st.summaries| ==> st.summaries[i].0 == i + 1 && st.summaries[i].1.id == i + 1)
  }

  /** The constructor: both maps empty, both counters at 1. */
  function New(): (st: MemStorage)
    ensures st.users == [] && st.summaries == []
    ensures st.userIdCounter == 1 && st.summaryIdCounter == 1
    ensures Valid(st)
  {
    MemStorage([], [], 1, 1)
  }

  /** `getUser(id)`: exactly the ids issued so far are present, each with
      the user created under it. */
  function GetUser(st: MemStorage, id: int): (r: Option<User>)
    ensures Valid(st) ==> (r.Some? <==> 1 <= id < st.userIdCounter)
    ensures Valid(st) && r.Some? ==> r.value == st.users[id - 1].1 && r.value.id == id
  {
    assert Valid(st) ==> OrderedMap.KeysDistinct(st.users);
    assert Valid(st) && 1 <= id < st.userIdCounter ==> st.users[id - 1].0 == id;
    OrderedMap.Get(st.users, id)
  }

  /** Position of the first user named `name` at or after `from`. */
  function FindUsername(us: seq<User>, name: string, from: nat): (r: Option<nat>)
    requires from <= |us|
    ensures r.Some? ==> from <= r.value < |us| && us[r.value].username == name
    ensures r.Some? ==> forall j :: from <= j < r.value ==> us[j].username != name
    ensures r.None? ==> forall j :: from <= j < |us| ==> us[j].username != name
    decreases |us| - from
  {
    if from == |us| then None
    else if us[from].username == name then Some(from)
    else FindUsername(us, name, from + 1)
  }

  /** `getUserByUsername(name)`: the first user with that name in insertion
      order, or none when no user has it. */
  function GetUserByUsername(st: MemStorage, name: string): (r: Option<User>)
    ensures r.None? <==> forall i :: 0 <= i < |st.users| ==> st.users[i].1.username != name
    ensures r.Some? ==> r.value.username == name
    ensures r.Some? ==>
      exists i :: 0 <= i < |st.users| && st.users[i].1 == r.value && (forall j :: 0 <= j < i ==> st.users[j].1.username != name)
  {
    var us := OrderedMap.Values(st.users);
    match FindUsername(us, name, 0)
    case None => None
    case Some(i) => Some(us[i])
  }

  /** `createUser(insertUser)`: the user gets the current counter as id,
      the counter moves on, and nothing about summaries changes. */
  function CreateUser(st: MemStorage, iu: InsertUser): (c: Created<User>)
    ensures c.value.id == st.userIdCounter && ToInsertUser(c.value) == iu
    ensures c.store.userIdCounter == st.userIdCounter + 1
    ensures c.store.summaries == st.summaries && c.store.summaryIdCounter == st.summaryIdCounter
    ensures GetUser(c.store, c.value.id) == Some(c.value)
    ensures forall id :: id != c.value.id ==> GetUser(c.store, id) == GetUser(st, id)
    ensures Valid(st) ==> Valid(c.store) && c.store.users == st.users + [(c.value.id, c.value)]
  {
    var id := st.userIdCounter;
    var user := WithUserId(iu, id);
    var st' := st.(users := OrderedMap.Set(st.users, id, user), userIdCounter := id + 1);
    assert Valid(st) ==> !OrderedMap.HasKey(st.users, id);
    Created(st', user)
  }

  /** `createSummary(insertSummary)` at clock reading `now`: the row is the
      input plus a fresh id and the timestamp, it is stored under that id,
      and nothing about users changes. */
  function CreateSummary(st: MemStorage, ins: InsertSummary, now: int): (c: Created<Summary>)
    ensures c.value.id == st.summaryIdCounter && c.value.createdAt == Some(now)
    ensures ToInsertSummary(c.value) == ins
    ensures c.store.summaryIdCounter == st.summaryIdCounter + 1
    ensures c.store.users == st.users && c.store.userIdCounter == st.userIdCounter
    ensures OrderedMap.Get(c.store.summaries, c.value.id) == Some(c.value)
    ensures Valid(st) ==> Valid(c.store) && c.store.summaries == st.summaries + [(c.value.id, c.value)]
  {
    var id := st.summaryIdCounter;
    var s := WithSummaryId(ins, id, now);
    var st' := st.(summaries := OrderedMap.Set(st.summaries, id, s), summaryIdCounter := id + 1);
    assert Valid(st) ==> !OrderedMap.HasKey(st.summaries, id);
    Created(st', s)
  }

  /** `Array.prototype.filter` with `summary.userId === userId`. */
  function FilterByUser(ss: seq<Summary>, k: int): (r: seq<Summary>)
    ensures |r| <= |ss|
    ensures forall x :: x in r ==> x in ss && x.userId == Some(k)
    ensures forall x :: x in ss && x.userId == Some(k) ==> x in r
  {
    if ss == [] then []
    else if ss[0].userId == Some(k) then [ss[0]] + FilterByUser(ss[1..], k)
    else FilterByUser(ss[1..], k)
  }

  /** `getSummariesByUserId(k)`: exactly the stored summaries of user `k`. */
  function GetSummariesByUserId(st: MemStorage, k: int): (r: seq<Summary>)
    ensures forall x :: x in r ==> x.userId == Some(k)
    ensures forall i :: 0 <= i < |st.summaries| && st.summaries[i].1.userId == Some(k) ==> st.summaries[i].1 in r
    ensures forall x :: x in r ==> exists i :: 0 <= i < |st.summaries| && st.summaries[i].1 == x
  {
    var vs := OrderedMap.Values(st.summaries);
    assert forall i :: 0 <= i < |st.summaries| ==> st.summaries[i].1 == vs[i];
    FilterByUser(vs, k)
  }

  /** Filtering distributes over concatenation, so the filter keeps the
      relative order of what it keeps. */
  lemma {:induction false} FilterAppend(a: seq<Summary>, b: seq<Summary>, k: int)
    ensures FilterByUser(a + b, k) == FilterByUser(a, k) + FilterByUser(b, k)
  {
    if a == [] {
      assert a + b == b;
    } else {
      assert (a + b)[0] == a[0];
      assert (a + b)[1..] == a[1..] + b;
      FilterAppend(a[1..], b, k);
    }
  }

  /** Ids that strictly increase along the input strictly increase along the
      filtered output. */
  lemma {:induction false} FilterKeepsOrder(ss: seq<Summary>, k: int)
    requires forall i, j :: 0 <= i < j < |ss| ==> ss[i].id < ss[j].id
    ensures forall i, j :: 0 <= i < j < |FilterByUser(ss, k)| ==>
      FilterByUser(ss, k)[i].id < FilterByUser(ss, k)[j].id
  {
    if ss != [] {
      var tail := ss[1..];
      assert forall i, j :: 0 <= i < j < |tail| ==> tail[i].id < tail[j].id by {
        forall i, j | 0 <= i < j < |tail|
          ensures tail[i].id < tail[j].id
        {
          assert tail[i] == ss[i + 1] && tail[j] == ss[j + 1];
        }
      }
      FilterKeepsOrder(tail, k);
      if ss[0].userId == Some(k) {
        HeadBelowFiltered(ss, k);
        ConsKeepsOrder(ss[0], FilterByUser(tail, k));
      }
    }
  }

  /** The first summary of an id-ascending list has a smaller id than
      anything the filter keeps from the rest. */
  lemma HeadBelowFiltered(ss: seq<Summary>, k: int)
    requires ss != []
    requires forall i, j :: 0 <= i < j < |ss| ==> ss[i].id < ss[j].id
    ensures forall x :: x in FilterByUser(ss[1..], k) ==> ss[0].id < x.id
  {
    forall x | x in FilterByUser(ss[1..], k)
      ensures ss[0].id < x.id
    {
      assert x in ss[1..];
      var j :| 0 <= j < |ss[1..]| && ss[1..][j] == x;
      assert ss[j + 1] == x;
    }
  }

  /** Putting a smaller id in front of an ascending list keeps it
      ascending. */
  lemma ConsKeepsOrder(x: Summary, rest: seq<Summary>)
    requires forall i, j :: 0 <= i < j < |rest| ==> rest[i].id < rest[j].id
    requires forall y :: y in rest ==> x.id < y.id
    ensures forall i, j :: 0 <= i < j < |[x] + rest| ==> ([x] + rest)[i].id < ([x] + rest)[j].id
  {
    var r := [x] + rest;
    forall i, j | 0 <= i < j < |r|
      ensures r[i].id < r[j].id
    {
      assert r[j] == rest[j - 1];
      if i == 0 {
        assert rest[j - 1] in rest;
      } else {
        assert r[i] == rest[i - 1];
      }
    }
  }

  /** In a valid store the summaries of a user come back in insertion
      order: their ids strictly increase. */
  lemma SummariesInInsertionOrder(st: MemStorage, k: int)
    requires Valid(st)
    ensures forall i, j :: 0 <= i < j < |GetSummariesByUserId(st, k)| ==>
      GetSummariesByUserId(st, k)[i].id < GetSummariesByUserId(st, k)[j].id
  {
    var vs := OrderedMap.Values(st.summaries);
    assert forall i :: 0 <= i < |vs| ==> vs[i].id == i + 1;
    FilterKeepsOrder(vs, k);
  }

  /** A new summary joins the end of its user's list and no other user's
      list changes. */
  lemma CreateSummaryThenList(st: MemStorage, ins: InsertSummary, now: int, k: int)
    requires Valid(st)
    ensures var c := CreateSummary(st, ins, now);
      GetSummariesByUserId(c.store, k)
        == GetSummariesByUserId(st, k) + (if ins.userId == Some(k) then [c.value] else [])
  {
    var c := CreateSummary(st, ins, now);
    var vs := OrderedMap.Values(st.summaries);
    var vs' := OrderedMap.Values(c.store.summaries);
    assert vs' == vs + [c.value];
    FilterAppend(vs, [c.value], k);
    assert FilterByUser([c.value], k) == (if ins.userId == Some(k) then [c.value] else []) by {
      assert [c.value][1..] == [];
    }
  }

  /** Creating users one after another, as a sequence of `createUser`
      calls. */
  function CreateUsers(st: MemStorage, ius: seq<InsertUser>): (c: Created<seq<User>>)
    ensures |c.value| == |ius|
    ensures c.store.userIdCounter == st.userIdCounter + |ius|
    ensures forall i :: 0 <= i < |ius| ==> c.value[i].id == st.userIdCounter + i
    ensures forall i :: 0 <= i < |ius| ==> ToInsertUser(c.value[i]) == ius[i]
    ensures Valid(st) ==> Valid(c.store)
    decreases |ius|
  {
    if ius == [] then Created(st, [])
    else
      var first := CreateUser(st, ius[0]);
      var rest := CreateUsers(first.store, ius[1..]);
      Created(rest.store, [first.value] + rest.value)
  }

  /** From a fresh store the returned ids are 1, 2, 3, … and pairwise
      distinct, and each one looks up the user it was issued to. */
  lemma {:induction false} FreshIdsAreSequential(ius: seq<InsertUser>)
    ensures var c := CreateUsers(New(), ius);
      && (forall i :: 0 <= i < |ius| ==> c.value[i].id == i + 1)
      && (forall i, j :: 0 <= i < j < |ius| ==> c.value[i].id != c.value[j].id)
      && (forall i :: 0 <= i < |ius| ==> GetUser(c.store, c.value[i].id) == Some(c.value[i]))
  {
    var c := CreateUsers(New(), ius);
    forall i | 0 <= i < |ius|
      ensures GetUser(c.store, c.value[i].id) == Some(c.value[i])
    {
      CreatedUsersAreStored(New(), ius, i);
    }
  }

  /** Every user made by a run of `createUser` calls on a valid store is
      stored under its id afterwards. */
  lemma {:induction false} CreatedUsersAreStored(st: MemStorage, ius: seq<InsertUser>, i: nat)
    requires Valid(st) && i < |ius|
    ensures GetUser(CreateUsers(st, ius).store, CreateUsers(st, ius).value[i].id) == Some(CreateUsers(st, ius).value[i])
    decreases |ius|
  {
    var first := CreateUser(st, ius[0]);
    var rest := CreateUsers(first.store, ius[1..]);
    if i > 0 {
      CreatedUsersAreStored(first.store, ius[1..], i - 1);
    } else {
      assert GetUser(first.store, first.value.id) == Some(first.value);
      var u := first.value;
      assert u.id < first.store.userIdCounter;
      CreateUsersKeepsUsers(first.store, ius[1..], u.id);
    }
  }

  /** A run of `createUser` calls on a valid store keeps every user already
      stored. */
  lemma {:induction false} CreateUsersKeepsUsers(st: MemStorage, ius: seq<InsertUser>, id: int)
    requires Valid(st) && 1 <= id < st.userIdCounter
    ensures GetUser(CreateUsers(st, ius).store, id) == GetUser(st, id)
    decreases |ius|
  {
    if ius != [] {
      var first := CreateUser(st, ius[0]);
      CreateUsersKeepsUsers(first.store, ius[1..], id);
    }
  }

  /** A user is never returned for an id the store has not issued. */
  lemma NeverIssuedIsAbsent(st: MemStorage, id: int)
    requires Valid(st) && (id < 1 || id >= st.userIdCounter)
    ensures GetUser(st, id) == None
  {
  }

  /** `createUser` accepts a duplicate username; the lookup by name keeps
      answering with the earlier user. */
  lemma DuplicateUsernameKeepsFirst(st: MemStorage, iu: InsertUser)
    requires Valid(st) && GetUserByUsername(st, iu.username).Some?
    ensures var c := CreateUser(st, iu);
      && c.value.username == iu.username
      && GetUserByUsername(c.store, iu.username) == GetUserByUsername(st, iu.username)
  {
    var c := CreateUser(st, iu);
    var us := OrderedMap.Values(st.users);
    var us' := OrderedMap.Values(c.store.users);
    assert us' == us + [c.value];
    FindUsernameAppend(us, c.value, iu.username, 0);
  }

  /** Appending a user does not move the first match of a name that
      already had one. */
  lemma {:induction false} FindUsernameAppend(us: seq<User>, u: User, name: string, from: nat)
    requires from <= |us| && FindUsername(us, name, from).Some?
    ensures FindUsername(us + [u], name, from) == FindUsername(us, name, from)
    decreases |us| - from
  {
    assert (us + [u])[from] == us[from];
    if us[from].username != name {
      FindUsernameAppend(us, u, name, from + 1);
    }
  }

  /** In a valid store the user found by name has the smallest id among the
      users with that name. */
  lemma ByUsernameIsEarliest(st: MemStorage, name: string)
    requires Valid(st) && GetUserByUsername(st, name).Some?
    ensures forall i :: 0 <= i < |st.users| && st.users[i].1.username == name ==>
      GetUserByUsername(st, name).value.id <= st.users[i].1.id
  {
  }
}
