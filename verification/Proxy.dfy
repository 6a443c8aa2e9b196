/**
 The proxy's routing table, its longest-match lookup, and the names the server
 certificate is issued for (`src/proxy/router.rs`, `src/proxy/certs.rs`,
 `src/proxy/watcher.rs`, `src/commands/proxy/routes.rs`).
 */
module Proxy {
  import opened Wrappers
  import opened Text
  import opened Labels

  datatype Route = Route(domain: string, upstream: string)

  // ---- lookup ---------------------------------------------------------

  predicate IsExactFor(r: Route, host: string) {
    '*' !in r.domain && r.domain == host
  }

  predicate IsWildcardFor(r: Route, host: string) {
    "*." <= r.domain && IsSuffix(r.domain[1..], host)
  }

  /** A route without a star is exact for its own domain and nothing else. */
  lemma ExactHosts(r: Route, host: string)
    ensures IsExactFor(r, host) <==> host == r.domain && forall i | 0 <= i < |host| :: host[i] != '*'
  {
  }

  /** The hosts of a wildcard are those that end in a dot and what follows its star. */
  lemma WildcardHosts(r: Route, host: string, parent: string)
    requires r.domain == "*." + parent
    ensures IsWildcardFor(r, host) <==> exists sub: string :: host == sub + ("." + parent)
  {
    assert r.domain[1..] == "." + parent;
    if IsWildcardFor(r, host) {
      assert host == host[..|host| - |parent| - 1] + ("." + parent);
    }
  }

  /** The first route for exactly this host. */
  function FindExact(host: string, routes: seq<Route>): Option<Route> {
    if routes == [] then None
    else if IsExactFor(routes[0], host) then Some(routes[0])
    else FindExact(host, routes[1..])
  }

  /** The last of the longest matching wildcards: what `max_by_key` picks. */
  function BestWildcard(host: string, routes: seq<Route>): Option<Route> {
    if routes == [] then None
    else
      var last := routes[|routes| - 1];
      var best := BestWildcard(host, routes[..|routes| - 1]);
      if IsWildcardFor(last, host) && (best.None? || ByteLength(last.domain) >= ByteLength(best.value.domain)) then
        Some(last)
      else
        best
  }

  function MatchRoute(host: string, routes: seq<Route>): Option<Route> {
    var exact := FindExact(host, routes);
    if exact.Some? then exact else BestWildcard(host, routes)
  }

  /** `i` is the first exact route for the host. */
  ghost predicate IsFirstExact(host: string, routes: seq<Route>, i: nat) {
    i < |routes| && IsExactFor(routes[i], host) && forall j | 0 <= j < i :: !IsExactFor(routes[j], host)
  }

  /** `i` is a longest matching wildcard, and the last of that length. */
  ghost predicate IsBestWildcard(host: string, routes: seq<Route>, i: nat) {
    && i < |routes| && IsWildcardFor(routes[i], host)
    && forall j | 0 <= j < |routes| && IsWildcardFor(routes[j], host) ::
         |routes[j].domain| <= |routes[i].domain| && (j > i ==> |routes[j].domain| < |routes[i].domain|)
  }

  lemma {:induction false} FindExactCorrect(host: string, routes: seq<Route>)
    ensures FindExact(host, routes).None? ==> forall i | 0 <= i < |routes| :: !IsExactFor(routes[i], host)
    ensures FindExact(host, routes).Some? ==>
      exists i: nat :: IsFirstExact(host, routes, i) && routes[i] == FindExact(host, routes).value
  {
    if routes == [] {
    } else {
      if IsExactFor(routes[0], host) {
        assert IsFirstExact(host, routes, 0);
      } else {
        FindExactCorrect(host, routes[1..]);
        if FindExact(host, routes).Some? {
          var i: nat :| IsFirstExact(host, routes[1..], i) && routes[1..][i] == FindExact(host, routes).value;
          assert forall j | 0 < j < |routes| :: routes[j] == routes[1..][j - 1];
          assert routes[i + 1] == routes[1..][i];
          assert IsFirstExact(host, routes, i + 1);
        } else {
          assert forall j | 0 < j < |routes| :: routes[j] == routes[1..][j - 1];
        }
      }
    }
  }

  /** The shorter of two texts that end the same text has fewer bytes. */
  lemma {:induction false} SuffixBytes(a: string, b: string)
    requires IsSuffix(a, b)
    ensures ByteLength(a) <= ByteLength(b)
    ensures a != b ==> ByteLength(a) < ByteLength(b)
    decreases |b|
  {
    if a == b {
    } else {
      SuffixBytes(a, b[1..]);
    }
  }

  /** Of two wildcards for the same host the longer one has more bytes. */
  lemma LongerInBytes(host: string, a: Route, b: Route)
    requires IsWildcardFor(a, host) && IsWildcardFor(b, host)
    ensures ByteLength(a.domain) <= ByteLength(b.domain) <==> |a.domain| <= |b.domain|
  {
    var x, y := a.domain[1..], b.domain[1..];
    if |x| <= |y| {
      assert IsSuffix(x, y);
      SuffixBytes(x, y);
    } else {
      assert IsSuffix(y, x);
      SuffixBytes(y, x);
    }
  }

  /** One more route: what is best among all, given what is best among the others. */
  lemma BestWildcardStep(host: string, routes: seq<Route>, i: nat)
    requires routes != [] && IsBestWildcard(host, routes[..|routes| - 1], i)
    ensures
      var last := routes[|routes| - 1];
      if IsWildcardFor(last, host) && |last.domain| >= |routes[i].domain| then
        IsBestWildcard(host, routes, |routes| - 1)
      else
        IsBestWildcard(host, routes, i)
  {
    hide IsWildcardFor;
    var front := routes[..|routes| - 1];
    assert forall j | 0 <= j < |front| :: routes[j] == front[j];
  }

  lemma {:induction false} BestWildcardCorrect(host: string, routes: seq<Route>)
    ensures BestWildcard(host, routes).None? ==> forall i | 0 <= i < |routes| :: !IsWildcardFor(routes[i], host)
    ensures BestWildcard(host, routes).Some? ==>
      exists i: nat :: IsBestWildcard(host, routes, i) && routes[i] == BestWildcard(host, routes).value
    decreases |routes|
  {
    if routes == [] {
    } else {
      hide IsWildcardFor, ByteLength;
      var n := |routes| - 1;
      var front, last := routes[..n], routes[n];
      BestWildcardCorrect(host, front);
      assert forall j | 0 <= j < n :: routes[j] == front[j];
      var best := BestWildcard(host, front);
      if best.Some? {
        var i: nat :| IsBestWildcard(host, front, i) && front[i] == best.value;
        BestWildcardStep(host, routes, i);
        if IsWildcardFor(last, host) {
          LongerInBytes(host, best.value, last);
        }
        hide IsBestWildcard;
      } else if IsWildcardFor(last, host) {
        assert IsBestWildcard(host, routes, n);
      }
    }
  }

  /**
   An exact route wins, the first one if there are several; otherwise a longest
   matching wildcard is chosen; nothing is found only if nothing matches.
   */
  lemma MatchRouteCorrect(host: string, routes: seq<Route>)
    ensures MatchRoute(host, routes).Some? <==>
      exists i | 0 <= i < |routes| :: IsExactFor(routes[i], host) || IsWildcardFor(routes[i], host)
    ensures MatchRoute(host, routes).Some? ==>
      exists i: nat | i < |routes| :: routes[i] == MatchRoute(host, routes).value && IsMatch(host, routes, i)
  {
    FindExactCorrect(host, routes);
    BestWildcardCorrect(host, routes);
    if FindExact(host, routes).Some? {
      var i: nat :| IsFirstExact(host, routes, i) && routes[i] == FindExact(host, routes).value;
      assert IsMatch(host, routes, i);
    } else if BestWildcard(host, routes).Some? {
      var i: nat :| IsBestWildcard(host, routes, i) && routes[i] == BestWildcard(host, routes).value;
      assert IsMatch(host, routes, i);
    }
  }

  /** The priority rules allow the `i`-th route. */
  ghost predicate IsMatch(host: string, routes: seq<Route>, i: nat) {
    || IsFirstExact(host, routes, i)
    || (IsBestWildcard(host, routes, i) && forall j | 0 <= j < |routes| :: !IsExactFor(routes[j], host))
  }

  // ---- certificate names ----------------------------------------------

  /** What follows the first dot. */
  function Parent(s: string): Option<string> {
    match Find(s, '.')
    case None => None
    case Some(i) => Some(s[i + 1..])
  }

  /** The wildcard a domain asks for: its own, or that of its parent if the domain has three labels. */
  function WildcardOf(domain: string): Option<string> {
    if "*." <= domain then Some(domain)
    else if |Split(domain, '.')| >= 3 then
      match Parent(domain)
      case Some(parent) => Some("*." + parent)
      case None => None
    else None
  }

  ghost function WildcardSans(domains: seq<string>): set<string> {
    set d | d in domains && WildcardOf(d).Some? :: WildcardOf(d).value
  }

  method ComputeWildcardSans(domains: seq<string>) returns (out: set<string>)
    ensures out == WildcardSans(domains)
  {
    out := {};
    for i := 0 to |domains|
      invariant out == WildcardSans(domains[..i])
    {
      assert domains[..i + 1] == domains[..i] + [domains[i]];
      var wildcard := WildcardOf(domains[i]);
      if wildcard.Some? {
        out := out + {wildcard.value};
      }
    }
    assert domains[..|domains|] == domains;
  }

  /** A wildcard covers exactly the names one label below it (RFC 6125, section 6.4.3). */
  predicate DomainMatchesWildcard(domain: string, wildcard: string) {
    "*." <= wildcard && Parent(domain) == Some(wildcard[2..])
  }

  predicate CoveredByWildcard(domain: string, wildcards: set<string>) {
    exists w | w in wildcards :: DomainMatchesWildcard(domain, w)
  }

  /** Every name the certificate needs. */
  ghost function NeededSans(domains: seq<string>): set<string> {
    var wildcards := WildcardSans(domains);
    wildcards + set d | d in domains && '*' !in d && !CoveredByWildcard(d, wildcards)
  }

  method ComputeNeededSans(domains: seq<string>) returns (needed: set<string>)
    ensures needed == NeededSans(domains)
  {
    var wildcards := ComputeWildcardSans(domains);
    var exact: set<string> := {};
    for i := 0 to |domains|
      invariant exact == set d | d in domains[..i] && '*' !in d && !CoveredByWildcard(d, wildcards)
    {
      assert domains[..i + 1] == domains[..i] + [domains[i]];
      if '*' !in domains[i] && !CoveredByWildcard(domains[i], wildcards) {
        exact := exact + {domains[i]};
      }
    }
    assert domains[..|domains|] == domains;
    needed := wildcards + exact;
  }

  /** A certificate with these names is good for the host. */
  ghost predicate Covers(sans: set<string>, host: string) {
    host in sans || exists w :: w in sans && DomainMatchesWildcard(host, w)
  }

  /** `host` is one label in front of `parent`. */
  ghost predicate OneLabelBelow(host: string, parent: string) {
    exists l: string :: '.' !in l && host == l + "." + parent
  }

  lemma OneLabelBelowIsParent(host: string, parent: string)
    ensures OneLabelBelow(host, parent) <==> Parent(host) == Some(parent)
  {
    if OneLabelBelow(host, parent) {
      var l: string :| '.' !in l && host == l + "." + parent;
      assert forall k | 0 <= k < |l| :: host[k] == l[k];
      FindIs(host, '.', |l|);
      assert host[|l| + 1..] == parent;
    }
    if Parent(host) == Some(parent) {
      var i := Find(host, '.').value;
      var l := host[..i];
      assert '.' !in l;
      assert host == l + "." + parent;
    }
  }

  /** A name the certificate has for the sake of domain `d` is good for the star-free host. */
  ghost predicate Serves(d: string, host: string) {
    || d == host
    || ("*." <= d && OneLabelBelow(host, d[2..]))
    || (!("*." <= d) && |Split(d, '.')| >= 3 && Parent(d).Some? && OneLabelBelow(host, Parent(d).value))
  }

  /**
   A star-free host is covered exactly when some domain is the host itself, a
   wildcard one label above it, or a domain of three or more labels with the
   same parent.
   */
  lemma CoversExactly(domains: seq<string>, host: string)
    requires '*' !in host
    ensures Covers(NeededSans(domains), host) <==> exists d :: d in domains && Serves(d, host)
  {
    var sans := NeededSans(domains);
    if Covers(sans, host) {
      if host in sans {
        assert host !in WildcardSans(domains) by {
          assert forall w | w in WildcardSans(domains) :: "*." <= w && w[0] == '*';
        }
        assert host in domains && Serves(host, host);
      } else {
        var w :| w in sans && DomainMatchesWildcard(host, w);
        assert w[0] == '*';
        var d :| d in domains && WildcardOf(d) == Some(w);
        OneLabelBelowIsParent(host, w[2..]);
        assert !("*." <= d) ==> Parent(d) == Some(w[2..]);
        assert Serves(d, host);
      }
    }
    if d :| d in domains && Serves(d, host) {
      if d == host {
        assert host in sans || CoveredByWildcard(host, WildcardSans(domains));
      } else {
        var w := WildcardOf(d).value;
        assert w in WildcardSans(domains);
        OneLabelBelowIsParent(host, w[2..]);
        assert DomainMatchesWildcard(host, w);
      }
    }
  }

  function Domains(routes: seq<Route>): (r: seq<string>)
    ensures |r| == |routes| && forall i | 0 <= i < |r| :: r[i] == routes[i].domain
  {
    if routes == [] then [] else [routes[0].domain] + Domains(routes[1..])
  }

  /**
   The certificate made from the routes covers every star-free host the router
   serves by an exact route or by a wildcard one label above the host.
   */
  lemma CertificateCoversRouter(routes: seq<Route>, host: string)
    requires '*' !in host && MatchRoute(host, routes).Some?
    requires var domain := MatchRoute(host, routes).value.domain;
      domain == host || ("*." <= domain && OneLabelBelow(host, domain[2..]))
    ensures Covers(NeededSans(Domains(routes)), host)
  {
    MatchRouteCorrect(host, routes);
    var route := MatchRoute(host, routes).value;
    var i: nat :| i < |routes| && routes[i] == route && IsMatch(host, routes, i);
    assert Domains(routes)[i] == route.domain;
    assert Serves(route.domain, host);
    CoversExactly(Domains(routes), host);
  }

  /** Behind the first dot stand the labels but the first. */
  lemma ParentLabels(s: string)
    ensures Parent(s).Some? ==> Split(Parent(s).value, '.') == Split(s, '.')[1..]
    ensures Parent(s).None? ==> |Split(s, '.')| == 1
  {
    hide Split, Find;
    match Find(s, '.')
    case None => SplitOne(s, '.');
    case Some(i) => FirstLabel(s, i);
  }

  lemma FirstLabel(s: string, i: nat)
    requires i < |s| && s[i] == '.' && '.' !in s[..i]
    ensures Split(s, '.') == [s[..i]] + Split(s[i + 1..], '.')
  {
    hide Split;
    var first, rest := s[..i], s[i + 1..];
    assert s == first + ['.'] + rest;
    SplitConcat(first, rest, '.');
    SplitOne(first, '.');
  }

  ghost predicate HasNoEmptyLabel(domain: string) {
    forall i | 0 <= i < |Split(domain, '.')| :: Split(domain, '.')[i] != ""
  }

  /**
   A wildcard that no domain asked for by itself stands above the labels but
   the first of some domain, and these are at least two; they are not empty
   if that domain has no empty label.
   */
  lemma NoBareTldWildcard(domains: seq<string>, w: string)
    requires w in WildcardSans(domains) && w !in domains
    ensures "*." <= w && |Split(w[2..], '.')| >= 2
    ensures exists d :: d in domains && Split(w[2..], '.') == Split(d, '.')[1..]
    ensures (forall d | d in domains :: HasNoEmptyLabel(d)) ==> HasNoEmptyLabel(w[2..])
  {
    var d :| d in domains && WildcardOf(d) == Some(w);
    hide Split;
    ParentLabels(d);
    assert w[2..] == Parent(d).value;
    if forall d | d in domains :: HasNoEmptyLabel(d) {
      assert HasNoEmptyLabel(d);
    }
  }

  /** With a dot at its end a domain of two labels counts as one of three, and gets a wildcard above its top label. */
  lemma TrailingDotWildcard()
    ensures WildcardOf("a.test.") == Some("*.test.")
    ensures Split("test.", '.') == ["test", ""]
  {
    hide Split;
    SplitConcat("test", "", '.');
    SplitOne("test", '.');
    SplitOne("", '.');
    assert "test" + ['.'] + "" == "test.";
    FirstLabel("a.test.", 1);
    FindIs("a.test.", '.', 1);
    assert "a.test."[2..] == "test." && "*." + "test." == "*.test.";
  }

  // ---- the table ------------------------------------------------------

  /** The routes whose domain is not in `domains`, in order. */
  function Without(routes: seq<Route>, domains: set<string>): (r: seq<Route>)
    ensures forall x :: x in r <==> x in routes && x.domain !in domains
  {
    if routes == [] then []
    else (if routes[0].domain in domains then [] else [routes[0]]) + Without(routes[1..], domains)
  }

  ghost predicate OnePerDomain(routes: seq<Route>) {
    forall i, j | 0 <= i < j < |routes| :: routes[i].domain != routes[j].domain
  }

  lemma {:induction false} WithoutKeeps(routes: seq<Route>, domains: set<string>)
    requires OnePerDomain(routes)
    ensures OnePerDomain(Without(routes, domains))
  {
    if routes == [] {
    } else {
      var rest := Without(routes[1..], domains);
      WithoutKeeps(routes[1..], domains);
      forall x | x in rest
        ensures x.domain != routes[0].domain
      {
        var k :| 0 <= k < |routes[1..]| && routes[1..][k] == x;
        assert routes[k + 1] == x;
      }
    }
  }

  lemma {:induction false} WithoutConcat(a: seq<Route>, b: seq<Route>, domains: set<string>)
    ensures Without(a + b, domains) == Without(a, domains) + Without(b, domains)
    decreases |a|
  {
    if a == [] {
      assert a + b == b;
    } else {
      assert (a + b)[1..] == a[1..] + b;
      WithoutConcat(a[1..], b, domains);
    }
  }

  lemma {:induction false} WithoutTwice(routes: seq<Route>, first: set<string>, second: set<string>)
    ensures Without(Without(routes, first), second) == Without(routes, first + second)
  {
    if routes == [] {
    } else {
      WithoutTwice(routes[1..], first, second);
      var head := if routes[0].domain in first then [] else [routes[0]];
      WithoutConcat(head, Without(routes[1..], first), second);
    }
  }

  lemma {:induction false} WithoutAll(routes: seq<Route>, domains: set<string>)
    requires forall r | r in routes :: r.domain in domains
    ensures Without(routes, domains) == []
  {
    if routes == [] {
    } else {
      assert routes[0] in routes;
      WithoutAll(routes[1..], domains);
    }
  }

  function DomainSet(routes: seq<Route>): set<string> {
    set r | r in routes :: r.domain
  }

  /** Replaces or adds the route of one domain. */
  function Put(routes: seq<Route>, r: Route): seq<Route> {
    Without(routes, {r.domain}) + [r]
  }

  function PutAll(routes: seq<Route>, entries: seq<Route>): seq<Route>
    decreases |entries|
  {
    if entries == [] then routes else PutAll(Put(routes, entries[0]), entries[1..])
  }

  /** A change to the table; each one happens under the table's write lock or in one command. */
  datatype Change =
    | Started(entries: seq<Route>)
    | Stopped(domains: set<string>)
    | Added(route: Route)
    | Removed(domain: string)
    | Synced(discovered: seq<Route>)
    | Unsynced(domains: set<string>)

  function Changed(routes: seq<Route>, change: Change): seq<Route> {
    match change
    case Started(entries) => PutAll(routes, entries)
    case Stopped(domains) => Without(routes, domains)
    case Added(route) => Put(routes, route)
    case Removed(domain) => Without(routes, {domain})
    case Synced(discovered) => Without(routes, DomainSet(discovered)) + discovered
    case Unsynced(domains) => Without(routes, domains)
  }

  function AfterChanges(routes: seq<Route>, changes: seq<Change>): seq<Route>
    decreases |changes|
  {
    if changes == [] then routes else AfterChanges(Changed(routes, changes[0]), changes[1..])
  }

  lemma PutKeeps(routes: seq<Route>, r: Route)
    requires OnePerDomain(routes)
    ensures OnePerDomain(Put(routes, r))
  {
    WithoutKeeps(routes, {r.domain});
    var rest := Without(routes, {r.domain});
    assert forall i | 0 <= i < |rest| :: rest[i] in rest && rest[i].domain != r.domain;
  }

  lemma {:induction false} PutAllKeeps(routes: seq<Route>, entries: seq<Route>)
    requires OnePerDomain(routes)
    ensures OnePerDomain(PutAll(routes, entries))
    decreases |entries|
  {
    if entries == [] {
    } else {
      PutKeeps(routes, entries[0]);
      PutAllKeeps(Put(routes, entries[0]), entries[1..]);
    }
  }

  /** A sync keeps one route per domain exactly when the discovered domains are distinct. */
  lemma SyncKeepsExactly(routes: seq<Route>, discovered: seq<Route>)
    requires OnePerDomain(routes)
    ensures OnePerDomain(Changed(routes, Synced(discovered))) <==> OnePerDomain(discovered)
  {
    var kept := Without(routes, DomainSet(discovered));
    var after := kept + discovered;
    WithoutKeeps(routes, DomainSet(discovered));
    if OnePerDomain(discovered) {
      forall i, j | 0 <= i < j < |after|
        ensures after[i].domain != after[j].domain
      {
        if i < |kept| <= j {
          assert kept[i] in kept && discovered[j - |kept|] in discovered;
        }
      }
    }
    if OnePerDomain(after) {
      assert forall i | 0 <= i < |discovered| :: discovered[i] == after[|kept| + i];
    }
  }

  /** A domain that is discovered twice has two routes. */
  lemma SyncDoubles(r: Route)
    ensures !OnePerDomain(Changed([], Synced([r, r])))
  {
    var after := Changed([], Synced([r, r]));
    assert after == [r, r];
    assert after[0].domain == after[1].domain;
  }

  /** Any interleaving of changes, with distinct domains in each sync, keeps one route per domain. */
  lemma {:induction false} ChangesKeep(routes: seq<Route>, changes: seq<Change>)
    requires OnePerDomain(routes)
    requires forall k | 0 <= k < |changes| && changes[k].Synced? :: OnePerDomain(changes[k].discovered)
    ensures OnePerDomain(AfterChanges(routes, changes))
    decreases |changes|
  {
    if changes == [] {
    } else {
      match changes[0] {
        case Started(entries) => PutAllKeeps(routes, entries);
        case Stopped(domains) => WithoutKeeps(routes, domains);
        case Added(route) => PutKeeps(routes, route);
        case Removed(domain) => WithoutKeeps(routes, {domain});
        case Synced(discovered) => SyncKeepsExactly(routes, discovered);
        case Unsynced(domains) => WithoutKeeps(routes, domains);
      }
      ChangesKeep(Changed(routes, changes[0]), changes[1..]);
    }
  }

  /** The last entry for a domain. */
  function LastFor(entries: seq<Route>, domain: string): Option<Route> {
    if entries == [] then None
    else
      var later := LastFor(entries[1..], domain);
      if later.Some? then later else if entries[0].domain == domain then Some(entries[0]) else None
  }

  lemma {:induction false} OthersStay(routes: seq<Route>, entries: seq<Route>)
    ensures Without(PutAll(routes, entries), DomainSet(entries)) == Without(routes, DomainSet(entries))
    decreases |entries|
  {
    if entries == [] {
    } else {
      var e, rest := entries[0], entries[1..];
      var put, all := Put(routes, e), DomainSet(entries);
      assert all == DomainSet(rest) + {e.domain} == {e.domain} + all;
      OthersStay(put, rest);
      WithoutTwice(PutAll(put, rest), DomainSet(rest), {e.domain});
      WithoutTwice(put, DomainSet(rest), {e.domain});
      WithoutConcat(Without(routes, {e.domain}), [e], all);
      WithoutTwice(routes, {e.domain}, all);
      WithoutAll([e], all);
    }
  }

  lemma {:induction false} LastForIs(entries: seq<Route>, domain: string)
    ensures LastFor(entries, domain).Some? <==> domain in DomainSet(entries)
  {
    if entries == [] {
    } else {
      LastForIs(entries[1..], domain);
      assert DomainSet(entries) == DomainSet(entries[1..]) + {entries[0].domain};
    }
  }

  lemma {:induction false} LastEntryDecides(routes: seq<Route>, entries: seq<Route>, domain: string, r: Route)
    requires domain in DomainSet(entries)
    ensures r in PutAll(routes, entries) && r.domain == domain <==> LastFor(entries, domain) == Some(r)
    decreases |entries|
  {
    var e, rest := entries[0], entries[1..];
    var put := Put(routes, e);
    LastForIs(rest, domain);
    if domain in DomainSet(rest) {
      LastEntryDecides(put, rest, domain, r);
    } else {
      assert domain == e.domain by {
        LastForIs(entries, domain);
      }
      OthersStay(put, rest);
      assert r.domain == domain ==> (r in PutAll(put, rest) <==> r in Without(PutAll(put, rest), DomainSet(rest)));
      assert r.domain == domain ==> (r in put <==> r in Without(put, DomainSet(rest)));
    }
  }

  /**
   After a start each domain of the container has exactly the route of its last
   entry, and the routes of all other domains stay as they were, in order.
   */
  lemma StartedRoutes(routes: seq<Route>, entries: seq<Route>, r: Route)
    ensures var after := Changed(routes, Started(entries));
      && Without(after, DomainSet(entries)) == Without(routes, DomainSet(entries))
      && (r.domain in DomainSet(entries) ==> (r in after <==> LastFor(entries, r.domain) == Some(r)))
  {
    OthersStay(routes, entries);
    if r.domain in DomainSet(entries) {
      LastEntryDecides(routes, entries, r.domain, r);
    }
  }

  /** Which routes the table holds after a change, for each kind of change. */
  lemma ChangedHolds(routes: seq<Route>, change: Change, r: Route)
    ensures r in Changed(routes, change) <==>
      match change
      case Started(entries) =>
        if exists e :: e in entries && e.domain == r.domain then LastFor(entries, r.domain) == Some(r) else r in routes
      case Stopped(domains) => r in routes && r.domain !in domains
      case Added(route) => r == route || (r in routes && r.domain != route.domain)
      case Removed(domain) => r in routes && r.domain != domain
      case Synced(discovered) =>
        r in discovered || (r in routes && forall d | d in discovered :: d.domain != r.domain)
      case Unsynced(domains) => r in routes && r.domain !in domains
  {
    match change
    case Started(entries) =>
      StartedRoutes(routes, entries, r);
      var after := Changed(routes, change);
      assert r in Without(after, DomainSet(entries)) <==> r in Without(routes, DomainSet(entries));
    case _ =>
  }

  ghost predicate NoneBehind(entries: seq<Route>, i: nat, domain: string) {
    forall j | i < j < |entries| :: entries[j].domain != domain
  }

  /** New routes come last, in their order. */
  lemma NewRoutesLast(routes: seq<Route>, route: Route, discovered: seq<Route>)
    ensures IsSuffix([route], Changed(routes, Added(route)))
    ensures IsSuffix(discovered, Changed(routes, Synced(discovered)))
  {
  }

  /** The last entry for a domain has no later one behind it. */
  lemma {:induction false} LastForIsLast(entries: seq<Route>, domain: string, r: Route)
    ensures LastFor(entries, domain) == Some(r) <==>
      exists i: nat | i < |entries| :: entries[i] == r && r.domain == domain && NoneBehind(entries, i, domain)
    decreases |entries|
  {
    if entries == [] {
    } else {
      var rest := entries[1..];
      LastForIsLast(rest, domain, r);
      LastForIs(rest, domain);
      assert forall j | 1 <= j < |entries| :: entries[j] == rest[j - 1];
      if LastFor(rest, domain) == Some(r) {
        var i: nat :| i < |rest| && rest[i] == r && r.domain == domain && NoneBehind(rest, i, domain);
        assert entries[i + 1] == r;
      }
      if LastFor(rest, domain) == None && entries[0] == r && r.domain == domain {
        assert forall j | 0 <= j < |rest| :: rest[j] in rest && rest[j].domain in DomainSet(rest);
        assert entries[0] == r;
      }
      if i: nat :| i < |entries| && entries[i] == r && r.domain == domain && NoneBehind(entries, i, domain) {
        if i > 0 {
          assert rest[i - 1] == r;
          assert forall j | i - 1 < j < |rest| :: rest[j].domain == entries[j + 1].domain;
        } else {
          assert forall x | x in rest :: x.domain != domain by {
            forall x | x in rest
              ensures x.domain != domain
            {
              var k :| 0 <= k < |rest| && rest[k] == x;
              assert entries[k + 1] == x;
            }
          }
        }
      }
    }
  }

  /** Undoing a sync leaves exactly the routes of the other domains, in order. */
  lemma UnsyncAfterSync(routes: seq<Route>, discovered: seq<Route>, domains: set<string>)
    requires DomainSet(discovered) <= domains
    ensures Changed(Changed(routes, Synced(discovered)), Unsynced(domains)) == Without(routes, domains)
  {
    WithoutConcat(Without(routes, DomainSet(discovered)), discovered, domains);
    WithoutTwice(routes, DomainSet(discovered), domains);
    assert DomainSet(discovered) + domains == domains;
    assert forall r | r in discovered :: r.domain in DomainSet(discovered);
    WithoutAll(discovered, domains);
  }

  // ---- the program ----------------------------------------------------

  /** The table that the event watcher and the commands change. */
  class RouteTable {
    var routes: seq<Route>

    constructor ()
      ensures routes == []
    {
      routes := [];
    }

    method Retain(dropped: set<string>)
      modifies this
      ensures routes == Without(old(routes), dropped)
    {
      var kept: seq<Route> := [];
      for i := 0 to |routes|
        invariant routes == old(routes)
        invariant kept == Without(routes[..i], dropped)
      {
        WithoutConcat(routes[..i], [routes[i]], dropped);
        assert routes[..i + 1] == routes[..i] + [routes[i]];
        if routes[i].domain !in dropped {
          kept := kept + [routes[i]];
        }
      }
      assert routes[..|routes|] == routes;
      routes := kept;
    }

    /** A container started; without an address nothing changes. */
    method HandleStart(entries: seq<(string, string)>, ip: Option<string>)
      modifies this
      ensures routes == match ip
        case None => old(routes)
        case Some(address) => Changed(old(routes), Started(Upstreams(entries, address)))
    {
      if entries == [] || ip.None? {
        return;
      }
      ghost var all := Upstreams(entries, ip.value);
      for i := 0 to |entries|
        invariant PutAll(old(routes), all) == PutAll(routes, all[i..])
      {
        assert all[i..][1..] == all[i + 1..];
        Retain({entries[i].0});
        routes := routes + [Route(entries[i].0, ip.value + ":" + entries[i].1)];
      }
    }

    method HandleStop(entries: seq<(string, string)>)
      modifies this
      ensures routes == Changed(old(routes), Stopped(set e | e in entries :: e.0))
    {
      if entries == [] {
        assert (set e | e in entries :: e.0) == {};
        WithoutNothing(routes);
        return;
      }
      Retain(set e | e in entries :: e.0);
    }

    method Add(domain: string, upstream: string)
      modifies this
      ensures routes == Changed(old(routes), Added(Route(domain, upstream)))
    {
      Retain({domain});
      routes := routes + [Route(domain, upstream)];
    }

    method Remove(domain: string) returns (removed: bool)
      modifies this
      ensures routes == Changed(old(routes), Removed(domain))
      ensures removed <==> exists r :: r in old(routes) && r.domain == domain
    {
      var before := |routes|;
      WithoutShorter(routes, {domain});
      Retain({domain});
      removed := |routes| < before;
    }

    method Sync(discovered: seq<Route>)
      modifies this
      ensures routes == Changed(old(routes), Synced(discovered))
    {
      if discovered == [] {
        assert DomainSet(discovered) == {} && routes + discovered == routes;
        WithoutNothing(routes);
        return;
      }
      Retain(DomainSet(discovered));
      routes := routes + discovered;
    }

    method Unsync(domains: set<string>)
      modifies this
      ensures routes == Changed(old(routes), Unsynced(domains))
    {
      if domains == {} {
        WithoutNothing(routes);
        return;
      }
      Retain(domains);
    }
  }

  /** Each domain is routed to the address and the port of its label. */
  lemma UpstreamsAre(entries: seq<(string, string)>, ip: string, domain: string, upstream: string)
    ensures Route(domain, upstream) in Upstreams(entries, ip) <==>
      exists port :: (domain, port) in entries && upstream == ip + (":" + port)
  {
    var routes := Upstreams(entries, ip);
    if Route(domain, upstream) in routes {
      var i :| 0 <= i < |routes| && routes[i] == Route(domain, upstream);
      assert entries[i] == (domain, entries[i].1) && entries[i] in entries;
      assert ip + ":" + entries[i].1 == ip + (":" + entries[i].1);
    }
    if port :| (domain, port) in entries && upstream == ip + (":" + port) {
      var i :| 0 <= i < |entries| && entries[i] == (domain, port);
      assert ip + ":" + port == ip + (":" + port);
      assert routes[i] == Route(domain, upstream);
    }
  }

  function Upstreams(entries: seq<(string, string)>, ip: string): seq<Route> {
    seq(|entries|, i requires 0 <= i < |entries| => Route(entries[i].0, ip + ":" + entries[i].1))
  }

  lemma {:induction false} WithoutNothing(routes: seq<Route>)
    ensures Without(routes, {}) == routes
  {
    if routes == [] {
    } else {
      WithoutNothing(routes[1..]);
    }
  }

  lemma {:induction false} WithoutShorter(routes: seq<Route>, domains: set<string>)
    ensures |Without(routes, domains)| <= |routes|
    ensures |Without(routes, domains)| < |routes| <==> exists r :: r in routes && r.domain in domains
  {
    if routes == [] {
    } else {
      assert routes[0] in routes;
      WithoutShorter(routes[1..], domains);
    }
  }
}
