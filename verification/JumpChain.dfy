/**
  Flattening a saved session's jump hosts: the bounded, cycle-checked search against the plain recursive
  definition, for every catalog, cyclic ones included.
 */
module JumpChain {
  import opened Wrappers

  type Id = string
  type Alias = string
  type Auth = string

  const MAX_SSH_JUMP_HOSTS := 8

  /** One host to pass through. */
  datatype Hop = Hop(host: string, port: nat, username: string, auth: Auth)

  /** A jump host stored with the session; `None` for a field that is blank or incomplete. */
  datatype Profile = Profile(host: Option<string>, port: nat, username: Option<string>, auth: Option<Auth>)

  /** A saved session; the trimmed user name and the authentication are `None` when unusable. */
  datatype Session = Session(
    id: Id,
    isSsh: bool,
    host: string,
    port: nat,
    username: Option<string>,
    auth: Option<Auth>,
    profiles: seq<Profile>,
    jumpHosts: seq<Alias>)

  /** What an alias resolves to: a session of the catalog, with optional overrides. */
  datatype Resolved = Resolved(session: Session, username: Option<string>, port: Option<nat>)

  /** `resolveSavedJumpAlias` on one catalog; aliases outside the map do not resolve. */
  type Catalog = map<Alias, Resolved>

  datatype Request = Request(host: string, port: nat, username: string, auth: Auth, jumpHosts: seq<Hop>)

  predicate Complete(s: Session) {
    s.isSsh && s.username.Some? && s.port != 0 && s.auth.Some?
  }

  function ProfileHop(p: Profile): (hop: Option<Hop>) {
    if p.auth.None? || p.port == 0 || p.username.None? || p.host.None? then None
    else Some(Hop(p.host.value, p.port, p.username.value, p.auth.value))
  }

  /** All profiles as hops, or nothing if one is incomplete. */
  function ProfileHops(profiles: seq<Profile>): (hops: Option<seq<Hop>>)
    ensures hops.Some? ==> |hops.value| == |profiles|
  {
    if profiles == [] then Some([])
    else
      var first, rest := ProfileHop(profiles[0]), ProfileHops(profiles[1..]);
      if first.None? || rest.None? then None else Some([first.value] + rest.value)
  }

  function RequestFor(s: Session, jumpHosts: seq<Hop>): (r: Request)
    requires Complete(s)
  {
    Request(s.host, s.port, s.username.value, s.auth.value, jumpHosts)
  }

  function HopTo(r: Resolved): (hop: Hop)
    requires Complete(r.session)
  {
    Hop(r.session.host,
        if r.port.Some? then r.port.value else r.session.port,
        if r.username.Some? then r.username.value else r.session.username.value,
        r.session.auth.value)
  }

  // ----- The plain definition -----

  /**
    The hops of a session when its aliases are expanded without any bound: each host's own hops, then the
    host. `depth` limits how far the definition is unfolded; a session has a flattening if some depth is
    enough for it, so a session that leads back to itself has none.
   */
  function Plain(s: Session, catalog: Catalog, depth: nat): (hops: Option<seq<Hop>>)
    decreases depth, 1, 0
  {
    if depth == 0 || !Complete(s) then None
    else if s.profiles != [] then ProfileHops(s.profiles)
    else PlainAliases(s.jumpHosts, catalog, depth - 1)
  }

  function PlainAliases(aliases: seq<Alias>, catalog: Catalog, depth: nat): (hops: Option<seq<Hop>>)
    ensures hops.Some? ==> |hops.value| >= |aliases|
    decreases depth, 2, |aliases|
  {
    if aliases == [] then Some([])
    else if aliases[0] !in catalog then None
    else
      var r := catalog[aliases[0]];
      var before := Plain(r.session, catalog, depth);
      var after := PlainAliases(aliases[1..], catalog, depth);
      if before.None? || after.None? then None
      else Some(before.value + [HopTo(r)] + after.value)
  }

  // ----- The same, refusing to visit an id twice on one path -----

  function Acyclic(s: Session, catalog: Catalog, visited: set<Id>, depth: nat): (hops: Option<seq<Hop>>)
    ensures hops.Some? ==> Complete(s)
    decreases depth, 1, 0
  {
    if depth == 0 || !Complete(s) || s.id in visited then None
    else if s.profiles != [] then ProfileHops(s.profiles)
    else AcyclicAliases(s.jumpHosts, catalog, visited + {s.id}, depth - 1)
  }

  function AcyclicAliases(aliases: seq<Alias>, catalog: Catalog, visited: set<Id>, depth: nat): (hops: Option<seq<Hop>>)
    ensures hops.Some? ==> |hops.value| >= |aliases|
    decreases depth, 2, |aliases|
  {
    if aliases == [] then Some([])
    else if aliases[0] !in catalog then None
    else
      var r := catalog[aliases[0]];
      var before := Acyclic(r.session, catalog, visited, depth);
      var after := AcyclicAliases(aliases[1..], catalog, visited, depth);
      if before.None? || after.None? then None
      else Some(before.value + [HopTo(r)] + after.value)
  }

  // ----- The search -----

  /** `requestFromSavedSession` as a function: the jump hosts, or nothing. */
  function Search(s: Session, catalog: Catalog, visited: set<Id>, remaining: nat): (hops: Option<seq<Hop>>)
    ensures hops.Some? ==> Complete(s) && |hops.value| <= remaining
    decreases remaining, 1, 0
  {
    if !s.isSsh || s.id in visited then None
    else if |s.profiles| > remaining || (s.profiles == [] && |s.jumpHosts| > remaining) then None
    else if !Complete(s) then None
    else if s.profiles != [] then ProfileHops(s.profiles)
    else SearchAliases(s.jumpHosts, catalog, visited + {s.id}, remaining, [])
  }

  /** The loop over the aliases, with the hosts pushed so far. */
  function SearchAliases(aliases: seq<Alias>, catalog: Catalog, visited: set<Id>,
                         remaining: nat, pushed: seq<Hop>): (hops: Option<seq<Hop>>)
    requires |pushed| <= remaining
    ensures hops.Some? ==> |hops.value| <= remaining
    decreases remaining, 0, |aliases|
  {
    if aliases == [] then Some(pushed)
    else if |pushed| >= remaining || aliases[0] !in catalog then None
    else
      var r := catalog[aliases[0]];
      var before := Search(r.session, catalog, visited, remaining - |pushed| - 1);
      if before.None? || |pushed| + |before.value| >= remaining then None
      else SearchAliases(aliases[1..], catalog, visited, remaining, pushed + before.value + [HopTo(r)])
  }

  /** `requestFromSavedSession`: the loop pushes hosts and gives up as soon as the budget is used. */
  method RequestFromSavedSession(s: Session, catalog: Catalog, visited: set<Id>, remainingHops: nat)
    returns (request: Option<Request>)
    ensures request == var hops := Search(s, catalog, visited, remainingHops);
                       if hops.None? then None
                       else Some(Request(s.host, s.port, s.username.value, s.auth.value, hops.value))
    decreases remainingHops
  {
    if !s.isSsh || s.id in visited {
      return None;
    }
    if |s.profiles| > remainingHops || (s.profiles == [] && |s.jumpHosts| > remainingHops) {
      return None;
    }
    if s.username.None? || s.port == 0 || s.auth.None? {
      return None;
    }
    var nextVisited := visited + {s.id};
    if s.profiles != [] {
      var direct := ProfileHops(s.profiles);
      return if direct.Some? then Some(RequestFor(s, direct.value)) else None;
    }
    var jumpHosts: seq<Hop> := [];
    for i := 0 to |s.jumpHosts|
      invariant |jumpHosts| <= remainingHops
      invariant SearchAliases(s.jumpHosts, catalog, nextVisited, remainingHops, [])
             == SearchAliases(s.jumpHosts[i..], catalog, nextVisited, remainingHops, jumpHosts)
    {
      var alias := s.jumpHosts[i];
      assert s.jumpHosts[i..][0] == alias && s.jumpHosts[i..][1..] == s.jumpHosts[i + 1..];
      if |jumpHosts| >= remainingHops {
        return None;
      }
      if alias !in catalog {
        return None;
      }
      var resolved := catalog[alias];
      var jumpRequest :=
        RequestFromSavedSession(resolved.session, catalog, nextVisited, remainingHops - |jumpHosts| - 1);
      if jumpRequest.None? {
        return None;
      }
      var jump := jumpRequest.value;
      if |jumpHosts| + |jump.jumpHosts| >= remainingHops {
        return None;
      }
      jumpHosts := jumpHosts + jump.jumpHosts;
      jumpHosts := jumpHosts + [Hop(jump.host,
                                    if resolved.port.Some? then resolved.port.value else jump.port,
                                    if resolved.username.Some? then resolved.username.value else jump.username,
                                    jump.auth)];
    }
    return Some(RequestFor(s, jumpHosts));
  }

  // ----- The search finds exactly the acyclic flattenings within the budget -----

  lemma {:induction false} MoreDepth(s: Session, catalog: Catalog, visited: set<Id>, d: nat, e: nat)
    requires d <= e && Acyclic(s, catalog, visited, d).Some?
    ensures Acyclic(s, catalog, visited, e) == Acyclic(s, catalog, visited, d)
    decreases d, 1, 0
  {
    if s.profiles == [] {
      MoreDepthAliases(s.jumpHosts, catalog, visited + {s.id}, d - 1, e - 1);
    }
  }

  lemma {:induction false} MoreDepthAliases(aliases: seq<Alias>, catalog: Catalog, visited: set<Id>, d: nat, e: nat)
    requires d <= e && AcyclicAliases(aliases, catalog, visited, d).Some?
    ensures AcyclicAliases(aliases, catalog, visited, e) == AcyclicAliases(aliases, catalog, visited, d)
    decreases d, 2, |aliases|
  {
    if aliases != [] {
      MoreDepth(catalog[aliases[0]].session, catalog, visited, d, e);
      MoreDepthAliases(aliases[1..], catalog, visited, d, e);
    }
  }

  /** What the search returns is a flattening, and a depth of one more than the budget is enough for it. */
  lemma {:induction false} SearchIsSound(s: Session, catalog: Catalog, visited: set<Id>, remaining: nat)
    requires Search(s, catalog, visited, remaining).Some?
    ensures Acyclic(s, catalog, visited, remaining + 1) == Search(s, catalog, visited, remaining)
    decreases remaining, 1, 0
  {
    if s.profiles == [] {
      SearchAliasesIsSound(s.jumpHosts, catalog, visited + {s.id}, remaining, []);
      assert [] + AcyclicAliases(s.jumpHosts, catalog, visited + {s.id}, remaining).value
          == AcyclicAliases(s.jumpHosts, catalog, visited + {s.id}, remaining).value;
    }
  }

  lemma {:induction false} SearchAliasesIsSound(aliases: seq<Alias>, catalog: Catalog, visited: set<Id>,
                                                remaining: nat, pushed: seq<Hop>)
    requires |pushed| <= remaining && SearchAliases(aliases, catalog, visited, remaining, pushed).Some?
    ensures var rest := AcyclicAliases(aliases, catalog, visited, remaining);
            rest.Some? && SearchAliases(aliases, catalog, visited, remaining, pushed) == Some(pushed + rest.value)
    decreases remaining, 0, |aliases|
  {
    if aliases == [] {
      assert pushed + [] == pushed;
    } else {
      var r := catalog[aliases[0]];
      var left := remaining - |pushed| - 1;
      var before := Search(r.session, catalog, visited, left);
      SearchIsSound(r.session, catalog, visited, left);
      MoreDepth(r.session, catalog, visited, left + 1, remaining);
      var next := pushed + before.value + [HopTo(r)];
      SearchAliasesIsSound(aliases[1..], catalog, visited, remaining, next);
      var after := AcyclicAliases(aliases[1..], catalog, visited, remaining).value;
      assert next + after == pushed + (before.value + [HopTo(r)] + after);
    }
  }

  /** Every flattening within the budget is found. */
  lemma {:induction false} SearchIsComplete(s: Session, catalog: Catalog, visited: set<Id>, depth: nat, remaining: nat)
    requires Acyclic(s, catalog, visited, depth).Some?
    requires |Acyclic(s, catalog, visited, depth).value| <= remaining
    ensures Search(s, catalog, visited, remaining) == Acyclic(s, catalog, visited, depth)
    decreases depth, 1, 0
  {
    if s.profiles == [] {
      var hops := AcyclicAliases(s.jumpHosts, catalog, visited + {s.id}, depth - 1).value;
      SearchAliasesIsComplete(s.jumpHosts, catalog, visited + {s.id}, depth - 1, remaining, []);
      assert [] + hops == hops;
    }
  }

  lemma {:induction false} SearchAliasesIsComplete(aliases: seq<Alias>, catalog: Catalog, visited: set<Id>,
                                                   depth: nat, remaining: nat, pushed: seq<Hop>)
    requires AcyclicAliases(aliases, catalog, visited, depth).Some?
    requires |pushed| + |AcyclicAliases(aliases, catalog, visited, depth).value| <= remaining
    ensures SearchAliases(aliases, catalog, visited, remaining, pushed)
         == Some(pushed + AcyclicAliases(aliases, catalog, visited, depth).value)
    decreases depth, 2, |aliases|
  {
    if aliases == [] {
      assert pushed + [] == pushed;
    } else {
      var r := catalog[aliases[0]];
      var before := Acyclic(r.session, catalog, visited, depth).value;
      var after := AcyclicAliases(aliases[1..], catalog, visited, depth).value;
      SearchIsComplete(r.session, catalog, visited, depth, remaining - |pushed| - 1);
      var next := pushed + before + [HopTo(r)];
      SearchAliasesIsComplete(aliases[1..], catalog, visited, depth, remaining, next);
      assert next + after == pushed + (before + [HopTo(r)] + after);
    }
  }

  /** For every catalog and budget: the search succeeds with exactly the acyclic flattenings that fit. */
  lemma SearchIsExact(s: Session, catalog: Catalog, visited: set<Id>, remaining: nat, hops: seq<Hop>)
    ensures Search(s, catalog, visited, remaining) == Some(hops)
       <==> |hops| <= remaining && exists depth :: Acyclic(s, catalog, visited, depth) == Some(hops)
  {
    if Search(s, catalog, visited, remaining) == Some(hops) {
      SearchIsSound(s, catalog, visited, remaining);
    } else if |hops| <= remaining {
      forall depth | Acyclic(s, catalog, visited, depth) == Some(hops) ensures false {
        SearchIsComplete(s, catalog, visited, depth, remaining);
      }
    }
  }

  // ----- The visited set refuses exactly the paths that meet an id twice -----

  lemma {:induction false} AcyclicIsPlain(s: Session, catalog: Catalog, visited: set<Id>, depth: nat)
    requires Acyclic(s, catalog, visited, depth).Some?
    ensures Plain(s, catalog, depth) == Acyclic(s, catalog, visited, depth)
    decreases depth, 1, 0
  {
    if s.profiles == [] {
      AcyclicAliasesArePlain(s.jumpHosts, catalog, visited + {s.id}, depth - 1);
    }
  }

  lemma {:induction false} AcyclicAliasesArePlain(aliases: seq<Alias>, catalog: Catalog, visited: set<Id>, depth: nat)
    requires AcyclicAliases(aliases, catalog, visited, depth).Some?
    ensures PlainAliases(aliases, catalog, depth) == AcyclicAliases(aliases, catalog, visited, depth)
    decreases depth, 2, |aliases|
  {
    if aliases != [] {
      AcyclicIsPlain(catalog[aliases[0]].session, catalog, visited, depth);
      AcyclicAliasesArePlain(aliases[1..], catalog, visited, depth);
    }
  }

  /** `t` is one of the hosts that `s` jumps through. */
  ghost predicate Leads(s: Session, t: Session, catalog: Catalog) {
    s.profiles == [] && exists a :: a in s.jumpHosts && a in catalog && catalog[a].session == t
  }

  ghost predicate IsPath(path: seq<Session>, catalog: Catalog) {
    path != [] && forall i :: 0 <= i < |path| - 1 ==> Leads(path[i], path[i + 1], catalog)
  }

  /** The last id on the path is in the set or earlier on the path. */
  ghost predicate Revisits(path: seq<Session>, visited: set<Id>) {
    var end := |path| - 1;
    end >= 0 && (path[end].id in visited || exists i :: 0 <= i < end && path[i].id == path[end].id)
  }

  /** A condition on the catalog alone: some path down from `s` meets an id twice. */
  ghost predicate MeetsAnIdTwice(s: Session, catalog: Catalog) {
    exists path: seq<Session> :: IsPath(path, catalog) && path[0] == s && Revisits(path, {})
  }

  lemma IsPathFrom(path: seq<Session>, k: nat, catalog: Catalog)
    requires IsPath(path, catalog) && k < |path|
    ensures IsPath(path[k..], catalog) && (k > 0 ==> Leads(path[k - 1], path[k], catalog))
  {
    forall i | 0 <= i < |path| - k - 1 ensures Leads(path[k..][i], path[k..][i + 1], catalog) {
      assert Leads(path[k + i], path[k + i + 1], catalog);
    }
  }

  lemma PathCons(s: Session, path: seq<Session>, catalog: Catalog)
    requires IsPath(path, catalog) && Leads(s, path[0], catalog)
    ensures IsPath([s] + path, catalog)
  {
    var longer := [s] + path;
    forall i | 0 <= i < |longer| - 1 ensures Leads(longer[i], longer[i + 1], catalog) {
      if i > 0 {
        assert Leads(path[i - 1], path[i], catalog);
      }
    }
  }

  lemma RevisitsTail(path: seq<Session>, visited: set<Id>)
    requires |path| > 1
    ensures Revisits(path, visited) <==> Revisits(path[1..], visited + {path[0].id})
  {
    var end := |path| - 1;
    if i :| 0 <= i < end && path[i].id == path[end].id {
      assert i > 0 ==> path[1..][i - 1].id == path[1..][end - 1].id;
    }
    if i :| 0 <= i < end - 1 && path[1..][i].id == path[1..][end - 1].id {
      assert path[i + 1].id == path[end].id;
    }
  }

  lemma {:induction false} RefusedAlias(aliases: seq<Alias>, alias: Alias, catalog: Catalog,
                                        visited: set<Id>, depth: nat)
    requires alias in aliases && alias in catalog
    requires Acyclic(catalog[alias].session, catalog, visited, depth).None?
    ensures AcyclicAliases(aliases, catalog, visited, depth).None?
  {
    if aliases[0] != alias {
      RefusedAlias(aliases[1..], alias, catalog, visited, depth);
    }
  }

  /** A path that revisits an id leaves its first session without an acyclic flattening. */
  lemma {:induction false} RevisitIsRefused(path: seq<Session>, catalog: Catalog, visited: set<Id>, depth: nat)
    requires IsPath(path, catalog) && Revisits(path, visited)
    ensures Acyclic(path[0], catalog, visited, depth).None?
    decreases path
  {
    if |path| > 1 && depth > 0 {
      var s := path[0];
      IsPathFrom(path, 1, catalog);
      RevisitsTail(path, visited);
      RevisitIsRefused(path[1..], catalog, visited + {s.id}, depth - 1);
      var alias :| alias in s.jumpHosts && alias in catalog && catalog[alias].session == path[1];
      RefusedAlias(s.jumpHosts, alias, catalog, visited + {s.id}, depth - 1);
    }
  }

  /** A plain flattening that is refused has a path that revisits an id. */
  lemma {:induction false} RefusedHasRevisit(s: Session, catalog: Catalog, visited: set<Id>, depth: nat)
    returns (path: seq<Session>)
    requires Plain(s, catalog, depth).Some? && Acyclic(s, catalog, visited, depth).None?
    ensures IsPath(path, catalog) && path[0] == s && Revisits(path, visited)
    decreases depth, 1, 0
  {
    if s.id in visited {
      path := [s];
    } else {
      var rest := RefusedAliasesHaveRevisit(s.jumpHosts, catalog, visited + {s.id}, depth - 1);
      PathCons(s, rest, catalog);
      path := [s] + rest;
      assert path[1..] == rest;
      RevisitsTail(path, visited);
    }
  }

  lemma {:induction false} RefusedAliasesHaveRevisit(aliases: seq<Alias>, catalog: Catalog,
                                                     visited: set<Id>, depth: nat)
    returns (path: seq<Session>)
    requires PlainAliases(aliases, catalog, depth).Some? && AcyclicAliases(aliases, catalog, visited, depth).None?
    ensures IsPath(path, catalog) && Revisits(path, visited)
    ensures exists a :: a in aliases && a in catalog && catalog[a].session == path[0]
    decreases depth, 2, |aliases|
  {
    var first := catalog[aliases[0]].session;
    if Acyclic(first, catalog, visited, depth).None? {
      path := RefusedHasRevisit(first, catalog, visited, depth);
    } else {
      path := RefusedAliasesHaveRevisit(aliases[1..], catalog, visited, depth);
    }
  }

  /**
    The main result, for every catalog and budget: `requestFromSavedSession` succeeds exactly for the
    sessions whose plain, unbounded flattening exists, has at most the budgeted number of hops, and meets
    no id twice on one path; and it returns that flattening.
   */
  lemma JumpChainsAreExact(s: Session, catalog: Catalog, budget: nat, hops: seq<Hop>)
    ensures Search(s, catalog, {}, budget) == Some(hops)
       <==> && |hops| <= budget
            && (exists depth :: Plain(s, catalog, depth) == Some(hops))
            && !MeetsAnIdTwice(s, catalog)
  {
    SearchIsExact(s, catalog, {}, budget, hops);
    if depth :| Acyclic(s, catalog, {}, depth) == Some(hops) {
      AcyclicIsPlain(s, catalog, {}, depth);
      forall path: seq<Session> | IsPath(path, catalog) && path[0] == s && Revisits(path, {}) ensures false {
        RevisitIsRefused(path, catalog, {}, depth);
      }
    }
    if depth :| Plain(s, catalog, depth) == Some(hops) {
      if Acyclic(s, catalog, {}, depth).None? {
        var _ := RefusedHasRevisit(s, catalog, {}, depth);
      } else {
        AcyclicIsPlain(s, catalog, {}, depth);
      }
    }
  }

  // ----- The hops themselves -----

  lemma AliasesCons(first: Alias, rest: seq<Alias>, catalog: Catalog, depth: nat)
    requires first in catalog && Plain(catalog[first].session, catalog, depth).Some?
    requires PlainAliases(rest, catalog, depth).Some?
    ensures Complete(catalog[first].session)
    ensures PlainAliases([first] + rest, catalog, depth) ==
            Some(Plain(catalog[first].session, catalog, depth).value + [HopTo(catalog[first])]
                 + PlainAliases(rest, catalog, depth).value)
  {
    assert ([first] + rest)[1..] == rest;
  }

  lemma AliasesUncons(aliases: seq<Alias>, catalog: Catalog, depth: nat)
    requires PlainAliases(aliases, catalog, depth).Some? && aliases != []
    ensures aliases[0] in catalog && Plain(catalog[aliases[0]].session, catalog, depth).Some?
    ensures PlainAliases(aliases[1..], catalog, depth).Some? && PlainAliases([], catalog, depth) == Some([])
    ensures aliases == [aliases[0]] + aliases[1..]
  {
  }

  lemma Regroup(a: seq<Hop>, x: seq<Hop>, b: seq<Hop>, c: seq<Hop>, y: seq<Hop>, d: seq<Hop>)
    ensures a + x + (b + c + y + d) == (a + x + b) + c + y + d
  {
  }

  lemma {:induction false} AliasSplits(aliases: seq<Alias>, catalog: Catalog, depth: nat, i: nat)
    requires PlainAliases(aliases, catalog, depth).Some? && i < |aliases|
    ensures aliases[i] in catalog && Complete(catalog[aliases[i]].session)
    ensures var r := catalog[aliases[i]];
            var before, own := PlainAliases(aliases[..i], catalog, depth), Plain(r.session, catalog, depth);
            var after := PlainAliases(aliases[i + 1..], catalog, depth);
            && before.Some? && own.Some? && after.Some?
            && PlainAliases(aliases, catalog, depth).value == before.value + own.value + [HopTo(r)] + after.value
    decreases i
  {
    hide Plain, PlainAliases, HopTo, Complete;
    var first, rest := aliases[0], aliases[1..];
    AliasesUncons(aliases, catalog, depth);
    AliasesCons(first, rest, catalog, depth);
    var own := Plain(catalog[first].session, catalog, depth).value;
    if i == 0 {
      assert aliases[..0] == [] && aliases[1..] == rest;
      assert [] + own == own;
    } else {
      AliasSplits(rest, catalog, depth, i - 1);
      assert rest[i - 1] == aliases[i] && rest[i..] == aliases[i + 1..];
      assert aliases[..i] == [first] + rest[..i - 1];
      AliasesCons(first, rest[..i - 1], catalog, depth);
      var r := catalog[aliases[i]];
      Regroup(own, [HopTo(catalog[first])], PlainAliases(rest[..i - 1], catalog, depth).value,
              Plain(r.session, catalog, depth).value, [HopTo(r)], PlainAliases(rest[i..], catalog, depth).value);
    }
  }

  /**
    Each alias contributes, in its turn, the hops of the session it stands for and then that session
    itself, under the alias's user name and port where it has them.
   */
  lemma AliasBecomesHop(aliases: seq<Alias>, catalog: Catalog, depth: nat, i: nat)
    requires PlainAliases(aliases, catalog, depth).Some? && i < |aliases|
    ensures aliases[i] in catalog && catalog[aliases[i]].session.username.Some?
    ensures catalog[aliases[i]].session.auth.Some?
    ensures var r := catalog[aliases[i]];
            var before, own := PlainAliases(aliases[..i], catalog, depth), Plain(r.session, catalog, depth);
            var after := PlainAliases(aliases[i + 1..], catalog, depth);
            var port := if r.port == None then r.session.port else r.port.value;
            var username := if r.username == None then r.session.username.value else r.username.value;
            && before.Some? && own.Some? && after.Some?
            && PlainAliases(aliases, catalog, depth).value ==
               before.value + own.value + [Hop(r.session.host, port, username, r.session.auth.value)] + after.value
  {
    AliasSplits(aliases, catalog, depth, i);
    hide Plain, PlainAliases;
  }

  /** Whether a session without aliases is found, and with which hops: those stored with it, as they are. */
  lemma StoredHopsAreTaken(s: Session, catalog: Catalog, visited: set<Id>, budget: nat)
    requires s.profiles != [] || s.jumpHosts == []
    ensures Search(s, catalog, visited, budget).Some? <==>
            && s.isSsh && s.username != None && s.port != 0 && s.auth != None && s.id !in visited
            && |s.profiles| <= budget
            && forall p :: p in s.profiles ==> p.host != None && p.port != 0 && p.username != None && p.auth != None
    ensures Search(s, catalog, visited, budget).Some? ==>
              var hops := Search(s, catalog, visited, budget).value;
              && |hops| == |s.profiles|
              && forall i :: 0 <= i < |hops| ==>
                   var p := s.profiles[i];
                   && p.host.Some? && p.username.Some? && p.auth.Some?
                   && hops[i] == Hop(p.host.value, p.port, p.username.value, p.auth.value)
  {
    ProfilesBecomeHops(s.profiles);
  }

  lemma {:induction false} ProfilesBecomeHops(profiles: seq<Profile>)
    ensures ProfileHops(profiles).Some? <==>
            forall p :: p in profiles ==> p.host != None && p.port != 0 && p.username != None && p.auth != None
    ensures ProfileHops(profiles).Some? ==>
              forall i :: 0 <= i < |profiles| ==>
                var p := profiles[i];
                && p.host.Some? && p.username.Some? && p.auth.Some?
                && ProfileHops(profiles).value[i] == Hop(p.host.value, p.port, p.username.value, p.auth.value)
  {
    if profiles != [] {
      ProfilesBecomeHops(profiles[1..]);
      assert profiles == [profiles[0]] + profiles[1..];
    }
  }

  // ----- Cycles, and catalogs with unique ids -----

  lemma {:induction false} FlattenedAlias(aliases: seq<Alias>, alias: Alias, catalog: Catalog, depth: nat)
    requires alias in aliases && PlainAliases(aliases, catalog, depth).Some?
    ensures alias in catalog && Plain(catalog[alias].session, catalog, depth).Some?
  {
    if aliases[0] != alias {
      FlattenedAlias(aliases[1..], alias, catalog, depth);
    }
  }

  /** Each step down a path needs less depth than the one before. */
  lemma {:induction false} PathNeedsDepth(path: seq<Session>, k: nat, catalog: Catalog, depth: nat)
    requires IsPath(path, catalog) && k < |path| && Plain(path[0], catalog, depth).Some?
    ensures k < depth && Plain(path[k], catalog, depth - k).Some?
    decreases k
  {
    if k > 0 {
      IsPathFrom(path, 1, catalog);
      var alias :| alias in path[0].jumpHosts && alias in catalog && catalog[alias].session == path[1];
      FlattenedAlias(path[0].jumpHosts, alias, catalog, depth - 1);
      PathNeedsDepth(path[1..], k - 1, catalog, depth - 1);
    }
  }

  lemma {:induction false} CycleHasNoFlattening(path: seq<Session>, catalog: Catalog, depth: nat)
    requires IsPath(path, catalog) && |path| > 1 && path[0] == path[|path| - 1]
    ensures Plain(path[0], catalog, depth).None?
    decreases depth
  {
    if Plain(path[0], catalog, depth).Some? {
      PathNeedsDepth(path, |path| - 1, catalog, depth);
      CycleHasNoFlattening(path, catalog, depth - (|path| - 1));
    }
  }

  /** A session that leads to a cycle of any length has no flattening, and is refused whatever the budget. */
  lemma CyclesAreRefused(path: seq<Session>, k: nat, catalog: Catalog, visited: set<Id>, budget: nat)
    requires IsPath(path, catalog) && k < |path| - 1 && path[k] == path[|path| - 1]
    ensures forall depth: nat :: Plain(path[0], catalog, depth).None?
    ensures Search(path[0], catalog, visited, budget).None?
  {
    forall depth: nat ensures Plain(path[0], catalog, depth).None? {
      if Plain(path[0], catalog, depth).Some? {
        PathNeedsDepth(path, k, catalog, depth);
        IsPathFrom(path, k, catalog);
        CycleHasNoFlattening(path[k..], catalog, depth - k);
      }
    }
    if Search(path[0], catalog, visited, budget).Some? {
      SearchIsSound(path[0], catalog, visited, budget);
      AcyclicIsPlain(path[0], catalog, visited, budget + 1);
    }
  }

  /** The root and every session in the catalog, no two of which share an id. */
  ghost predicate UniqueIds(universe: set<Session>, catalog: Catalog) {
    && (forall a :: a in catalog ==> catalog[a].session in universe)
    && (forall s, t :: s in universe && t in universe && s.id == t.id ==> s == t)
  }

  /** With unique ids only a cycle meets an id twice, so no session with a flattening is refused for that. */
  lemma UniqueIdsRefuseOnlyCycles(universe: set<Session>, s: Session, catalog: Catalog, depth: nat)
    requires UniqueIds(universe, catalog) && s in universe && Plain(s, catalog, depth).Some?
    ensures !MeetsAnIdTwice(s, catalog)
  {
    forall path: seq<Session> | IsPath(path, catalog) && path[0] == s && Revisits(path, {}) ensures false {
      var end := |path| - 1;
      var i :| 0 <= i < end && path[i].id == path[end].id;
      forall j | 0 <= j <= end ensures path[j] in universe {
        if j > 0 {
          assert Leads(path[j - 1], path[j], catalog);
        }
      }
      CyclesAreRefused(path, i, catalog, {}, 0);
    }
  }

  /**
    The refused chain without a cycle is real: two sessions that share an id are taken for one, although
    the plain definition flattens them.
   */
  lemma SharedIdsAreTakenForACycle(host: Session, alias: Alias)
    requires Complete(host) && host.profiles == [] && host.jumpHosts == []
    ensures var s := host.(jumpHosts := [alias]);
            var catalog: Catalog := map[alias := Resolved(host, None, None)];
            && Plain(s, catalog, 2) == Some([HopTo(catalog[alias])])
            && Search(s, catalog, {}, MAX_SSH_JUMP_HOSTS).None?
  {
    var s := host.(jumpHosts := [alias]);
    var catalog: Catalog := map[alias := Resolved(host, None, None)];
    assert [alias][1..] == [];
    assert Plain(host, catalog, 1) == Some([]);
    assert PlainAliases([], catalog, 1) == Some([]);
    assert PlainAliases([alias], catalog, 1) == Some([] + [HopTo(catalog[alias])] + []);
    assert [] + [HopTo(catalog[alias])] + [] == [HopTo(catalog[alias])];
    assert Plain(s, catalog, 2) == PlainAliases([alias], catalog, 1);
    assert Search(host, catalog, {s.id}, MAX_SSH_JUMP_HOSTS - 1).None?;
  }
}
