/**
 * The membership registry: `conv:<id>:users` (a set of user ids per
 * conversation) and `user:<id>:convs` (a hash of conversation id to marker
 * per user), and how create, join and leave write both directions.
 */
module Membership {
  import opened Redis

  /** The value main.go stores as the presence marker in `user:<id>:convs`. */
  const Marker: string := "1"

  datatype Registry = Registry(convUsers: SetSpace, userConvs: HashSpace)

  /** `u` is in the member set of conversation `c`. */
  predicate InConv(reg: Registry, c: string, u: string) {
    u in SMembers(reg.convUsers, c)
  }

  /** `c` is a field of the conversation hash of user `u`. */
  predicate Lists(reg: Registry, u: string, c: string) {
    c in HKeys(reg.userConvs, u)
  }

  /** The two directions agree: a user is in a member set iff their hash lists that conversation. */
  ghost predicate Consistent(reg: Registry) {
    forall c, u :: InConv(reg, c, u) <==> Lists(reg, u, c)
  }

  ghost predicate WellFormed(reg: Registry) {
    SetsWellFormed(reg.convUsers) && HashesWellFormed(reg.userConvs) && Consistent(reg)
  }

  /** HSET user:<u>:convs id 1 for every `u` in `users`. */
  function AddConv(h: HashSpace, users: set<string>, id: string): HashSpace {
    map u | u in h.Keys + users :: if u in users then HGetAll(h, u)[id := Marker] else h[u]
  }

  /** join: SADD conv:<c>:users u, then HSET user:<u>:convs c 1. */
  function Join(reg: Registry, c: string, u: string): Registry {
    Registry(SAdd(reg.convUsers, c, {u}), HSet(reg.userConvs, u, c, Marker))
  }

  /** leave: SREM conv:<c>:users u, then HDEL user:<u>:convs c. */
  function Leave(reg: Registry, c: string, u: string): Registry {
    Registry(SRem(reg.convUsers, c, u), HDel(reg.userConvs, u, c))
  }

  /** create: HSET for each member, then one SADD of all of them. */
  function Create(reg: Registry, id: string, users: set<string>): Registry {
    Registry(SAdd(reg.convUsers, id, users), AddConv(reg.userConvs, users, id))
  }

  /** One more HSET in create's loop adds one more user to AddConv. */
  lemma AddConvStep(h: HashSpace, users: set<string>, id: string, v: string)
    ensures HSet(AddConv(h, users, id), v, id, Marker) == AddConv(h, users + {v}, id)
  {
    var lhs := HSet(AddConv(h, users, id), v, id, Marker);
    var rhs := AddConv(h, users + {v}, id);
    assert lhs.Keys == rhs.Keys;
    forall u | u in lhs ensures lhs[u] == rhs[u] {
      if u == v && v in users {
        assert HGetAll(h, u)[id := Marker][id := Marker] == HGetAll(h, u)[id := Marker];
      }
    }
  }

  /** join keeps the registry consistent and makes `u` a member of `c` in both directions. */
  lemma JoinKeepsWellFormed(reg: Registry, c: string, u: string)
    requires WellFormed(reg)
    ensures WellFormed(Join(reg, c, u))
    ensures InConv(Join(reg, c, u), c, u) && Lists(Join(reg, c, u), u, c)
  {
    var r := Join(reg, c, u);
    SetCommands(reg.convUsers, c, {u}, u);
    HashCommands(reg.userConvs, u, c, Marker);
    forall c', u' ensures InConv(r, c', u') <==> Lists(r, u', c') {
      assert InConv(reg, c', u') <==> Lists(reg, u', c');
      if u' == u {
        assert HKeys(r.userConvs, u) == HKeys(reg.userConvs, u) + {c};
      }
    }
  }

  /** leave keeps the registry consistent and removes `u` from `c` in both directions. */
  lemma LeaveKeepsWellFormed(reg: Registry, c: string, u: string)
    requires WellFormed(reg)
    ensures WellFormed(Leave(reg, c, u))
    ensures !InConv(Leave(reg, c, u), c, u) && !Lists(Leave(reg, c, u), u, c)
  {
    var r := Leave(reg, c, u);
    SetCommands(reg.convUsers, c, {}, u);
    HashCommands(reg.userConvs, u, c, Marker);
    forall c', u' ensures InConv(r, c', u') <==> Lists(r, u', c') {
      assert InConv(reg, c', u') <==> Lists(reg, u', c');
      if u' == u {
        assert HKeys(r.userConvs, u) == HKeys(reg.userConvs, u) - {c};
      }
    }
  }

  /**
   * create with a fresh id keeps the registry consistent; the new member
   * set is exactly `users`, and every one of them lists the conversation.
   */
  lemma CreateKeepsWellFormed(reg: Registry, id: string, users: set<string>)
    requires WellFormed(reg) && id !in reg.convUsers && users != {}
    ensures WellFormed(Create(reg, id, users))
    ensures SMembers(Create(reg, id, users).convUsers, id) == users
    ensures forall u :: Lists(Create(reg, id, users), u, id) <==> u in users
  {
    var r := Create(reg, id, users);
    SetCommands(reg.convUsers, id, users, id);
    forall u | u in r.userConvs.Keys ensures r.userConvs[u] != map[] {
      if u in users { assert id in r.userConvs[u]; }
    }
    forall c, u ensures InConv(r, c, u) <==> Lists(r, u, c) {
      assert InConv(reg, c, u) <==> Lists(reg, u, c);
      if u in users {
        assert HKeys(r.userConvs, u) == HKeys(reg.userConvs, u) + {id};
      } else {
        assert HKeys(r.userConvs, u) == HKeys(reg.userConvs, u);
      }
    }
  }

  /** Joining twice is joining once. */
  lemma JoinIdempotent(reg: Registry, c: string, u: string)
    ensures Join(Join(reg, c, u), c, u) == Join(reg, c, u)
  {
    SAddIdempotent(reg.convUsers, c, {u});
    HSetIdempotent(reg.userConvs, u, c, Marker);
  }

  /** join followed by leave, for a user who was not a member, restores both directions. */
  lemma JoinThenLeaveRestores(reg: Registry, c: string, u: string)
    requires WellFormed(reg) && !InConv(reg, c, u)
    ensures Leave(Join(reg, c, u), c, u) == reg
  {
    assert !Lists(reg, u, c);
    SRemUndoesSAdd(reg.convUsers, c, u);
    HDelUndoesHSet(reg.userConvs, u, c, Marker);
  }
}
