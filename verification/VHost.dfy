/**
 * Listen validation at start-up (src/Server/Bootstrap/ServerBootstrap.cpp) and the choice of a
 * virtual host for a request (src/Server/VHost/VHostResolver.cpp).
 */
module VHost {
  import opened StringOps

  const BLANKS := " \t\n\r\U{000C}\U{000B}"
  const WILDCARD := "0.0.0.0"

  datatype Listen = Listen(host: string, interface: string, port: int)

  /** A server: `id` stands for everything in its configuration but the listens. */
  datatype VirtualHost = VirtualHost(id: nat, listens: seq<Listen>)

  datatype ListenKey = ListenKey(interface: string, port: int)

  function KeyOf(l: Listen): ListenKey {
    ListenKey(l.interface, l.port)
  }

  function NormalizeListenHost(host: string): string {
    ToLower(Trim(host, BLANKS))
  }

  function ExtractHost(value: string): string {
    var trimmed := Trim(value, BLANKS);
    if trimmed == "" then ""
    else
      var colon := FindChar(trimmed, ':', 0);
      ToLower(Trim(if colon.Some? then trimmed[..colon.value] else trimmed, BLANKS))
  }

  // ---------- validation ----------

  datatype Verdict = Accepted | NoListen | DuplicateHost | WildcardConflict

  function Flat(servers: seq<VirtualHost>): seq<Listen> {
    if servers == [] then [] else servers[0].listens + Flat(servers[1..])
  }

  /** Two listens that may not both be configured. */
  ghost predicate Clash(a: Listen, b: Listen) {
    || (a.interface == b.interface && a.port == b.port && NormalizeListenHost(a.host) == NormalizeListenHost(b.host))
    || (a.port == b.port && (a.interface == "0.0.0.0") != (b.interface == "0.0.0.0"))
  }

  ghost predicate ClashFree(listens: seq<Listen>) {
    forall i, j | 0 <= i < j < |listens| :: !Clash(listens[i], listens[j])
  }

  /** Every server listens, and no two listens clash. */
  ghost predicate Compatible(servers: seq<VirtualHost>) {
    (forall i | 0 <= i < |servers| :: servers[i].listens != []) && ClashFree(Flat(servers))
  }

  lemma {:induction false} FlatSplits(a: seq<VirtualHost>, b: seq<VirtualHost>)
    ensures Flat(a + b) == Flat(a) + Flat(b)
  {
    if a == [] {
      assert a + b == b;
    } else {
      assert (a + b)[1..] == a[1..] + b;
      FlatSplits(a[1..], b);
    }
  }

  /** The hosts, and the ports with and without a wildcard, among some listens. */
  ghost function HostsOf(listens: seq<Listen>, key: ListenKey): set<string> {
    if listens == [] then {}
    else
      var l := listens[|listens| - 1];
      HostsOf(listens[..|listens| - 1], key) + if KeyOf(l) == key then {NormalizeListenHost(l.host)} else {}
  }

  ghost function PortsOf(listens: seq<Listen>, wildcard: bool): set<int> {
    if listens == [] then {}
    else
      var l := listens[|listens| - 1];
      PortsOf(listens[..|listens| - 1], wildcard) + if (l.interface == WILDCARD) == wildcard then {l.port} else {}
  }

  lemma {:induction false} HostsOfHolds(listens: seq<Listen>, l: Listen)
    ensures NormalizeListenHost(l.host) in HostsOf(listens, KeyOf(l)) <==>
            exists i | 0 <= i < |listens| ::
              KeyOf(listens[i]) == KeyOf(l) && NormalizeListenHost(listens[i].host) == NormalizeListenHost(l.host)
  {
    hide NormalizeListenHost, KeyOf;
    if listens != [] {
      var n := |listens| - 1;
      HostsOfHolds(listens[..n], l);
      assert forall i | 0 <= i < n :: listens[..n][i] == listens[i];
    }
  }

  lemma {:induction false} PortsOfHolds(listens: seq<Listen>, wildcard: bool, port: int)
    ensures port in PortsOf(listens, wildcard) <==>
            exists i | 0 <= i < |listens| :: listens[i].port == port && (listens[i].interface == WILDCARD) == wildcard
  {
    if listens != [] {
      var n := |listens| - 1;
      PortsOfHolds(listens[..n], wildcard, port);
      assert forall i | 0 <= i < n :: listens[..n][i] == listens[i];
    }
  }

  /** What the three sets are asked about a listen. */
  ghost predicate Refused(listens: seq<Listen>, l: Listen) {
    || NormalizeListenHost(l.host) in HostsOf(listens, KeyOf(l))
    || l.port in PortsOf(listens, l.interface != WILDCARD)
  }

  lemma {:induction false} RefusedIsClash(listens: seq<Listen>, l: Listen)
    ensures Refused(listens, l) <==> exists i | 0 <= i < |listens| :: Clash(listens[i], l)
  {
    hide NormalizeListenHost, HostsOf, PortsOf;
    HostsOfHolds(listens, l);
    PortsOfHolds(listens, l.interface != WILDCARD, l.port);
    if exists i | 0 <= i < |listens| :: Clash(listens[i], l) {
      var i :| 0 <= i < |listens| && Clash(listens[i], l);
    }
    if NormalizeListenHost(l.host) in HostsOf(listens, KeyOf(l)) {
      var i :| 0 <= i < |listens| && KeyOf(listens[i]) == KeyOf(l)
               && NormalizeListenHost(listens[i].host) == NormalizeListenHost(l.host);
      assert Clash(listens[i], l);
    }
    if l.port in PortsOf(listens, l.interface != WILDCARD) {
      var i :| 0 <= i < |listens| && listens[i].port == l.port
               && (listens[i].interface == WILDCARD) == (l.interface != WILDCARD);
      assert Clash(listens[i], l);
    }
  }

  lemma {:induction false} ClashFreeGrows(listens: seq<Listen>, l: Listen)
    ensures ClashFree(listens + [l]) <==> ClashFree(listens) && !Refused(listens, l)
  {
    hide Clash, Refused;
    RefusedIsClash(listens, l);
    var more := listens + [l];
    if ClashFree(more) {
      forall i, j | 0 <= i < j < |listens| ensures !Clash(listens[i], listens[j]) {
        assert !Clash(more[i], more[j]);
      }
      forall i | 0 <= i < |listens| ensures !Clash(listens[i], l) {
        assert !Clash(more[i], more[|listens|]);
      }
    }
  }

  lemma {:induction false} ClashStays(a: seq<Listen>, b: seq<Listen>)
    requires a <= b && ClashFree(b)
    ensures ClashFree(a)
  {
    hide Clash;
    forall i, j | 0 <= i < j < |a| ensures !Clash(a[i], a[j]) {
      assert !Clash(b[i], b[j]);
    }
  }

  function HostsAt(hostsByListen: map<ListenKey, set<string>>, key: ListenKey): set<string> {
    if key in hostsByListen then hostsByListen[key] else {}
  }

  /** The sets hold exactly what the listens seen so far put there. */
  ghost predicate Tracks(listens: seq<Listen>, hostsByListen: map<ListenKey, set<string>>, wildcardPorts: set<int>,
                         specificPorts: set<int>)
  {
    && (forall key :: HostsAt(hostsByListen, key) == HostsOf(listens, key))
    && wildcardPorts == PortsOf(listens, true) && specificPorts == PortsOf(listens, false)
  }

  lemma {:induction false} OfGrows(seen: seq<Listen>, l: Listen, key: ListenKey, wildcard: bool)
    ensures HostsOf(seen + [l], key)
         == HostsOf(seen, key) + if KeyOf(l) == key then {NormalizeListenHost(l.host)} else {}
    ensures PortsOf(seen + [l], wildcard)
         == PortsOf(seen, wildcard) + if (l.interface == WILDCARD) == wildcard then {l.port} else {}
  {
    hide NormalizeListenHost, KeyOf;
    assert (seen + [l])[..|seen|] == seen;
  }

  lemma {:induction false} TracksGrows(seen: seq<Listen>, l: Listen, hosts: map<ListenKey, set<string>>, wildcard: set<int>,
                                       specific: set<int>)
    requires Tracks(seen, hosts, wildcard, specific)
    ensures var key := KeyOf(l);
            Tracks(seen + [l], hosts[key := HostsAt(hosts, key) + {NormalizeListenHost(l.host)}],
                   if l.interface == WILDCARD then wildcard + {l.port} else wildcard,
                   if l.interface == WILDCARD then specific else specific + {l.port})
  {
    hide NormalizeListenHost, KeyOf, HostsOf, PortsOf;
    var all, k := seen + [l], KeyOf(l);
    var grown := hosts[k := HostsAt(hosts, k) + {NormalizeListenHost(l.host)}];
    forall key ensures HostsAt(grown, key) == HostsOf(all, key) {
      OfGrows(seen, l, key, true);
      assert HostsAt(hosts, key) == HostsOf(seen, key);
    }
    OfGrows(seen, l, k, true);
    OfGrows(seen, l, k, false);
  }

  /** One listen against the sets, and its insertion into them. */
  method CheckListen(l: Listen, hostsByListen: map<ListenKey, set<string>>, wildcardPorts: set<int>,
                     specificPorts: set<int>, ghost seen: seq<Listen>)
    returns (verdict: Verdict, hosts': map<ListenKey, set<string>>, wildcard': set<int>, specific': set<int>)
    requires Tracks(seen, hostsByListen, wildcardPorts, specificPorts)
    ensures verdict != NoListen && (verdict == Accepted <==> !Refused(seen, l))
    ensures verdict == Accepted ==> Tracks(seen + [l], hosts', wildcard', specific')
    ensures verdict == DuplicateHost ==> NormalizeListenHost(l.host) in HostsOf(seen, KeyOf(l))
    ensures verdict == WildcardConflict ==> l.port in PortsOf(seen, l.interface != WILDCARD)
  {
    hide NormalizeListenHost;
    hosts', wildcard', specific' := hostsByListen, wildcardPorts, specificPorts;
    var key := KeyOf(l);
    var hostKey := NormalizeListenHost(l.host);
    var seenHosts := HostsAt(hostsByListen, key);
    if hostKey in seenHosts {
      return DuplicateHost, hosts', wildcard', specific';
    }
    hosts' := hosts'[key := seenHosts + {hostKey}];
    if l.interface == WILDCARD {
      if l.port in specificPorts {
        return WildcardConflict, hosts', wildcard', specific';
      }
      wildcard' := wildcard' + {l.port};
    } else {
      if l.port in wildcardPorts {
        return WildcardConflict, hosts', wildcard', specific';
      }
      specific' := specific' + {l.port};
    }
    TracksGrows(seen, l, hostsByListen, wildcardPorts, specificPorts);
    verdict := Accepted;
  }

  /** validateListenCompatibility; a verdict other than Accepted is an exception. */
  method ValidateListenCompatibility(servers: seq<VirtualHost>) returns (verdict: Verdict)
    ensures verdict == Accepted <==> Compatible(servers)
    ensures verdict == NoListen ==> exists i | 0 <= i < |servers| :: servers[i].listens == []
  {
    hide Refused, Tracks, ClashFree;
    var hosts: map<ListenKey, set<string>>, wildcard: set<int>, specific: set<int> := map[], {}, {};
    ghost var seen: seq<Listen> := [];
    NothingTracked();
    for i := 0 to |servers|
      invariant seen == Flat(servers[..i]) && ClashFree(seen) && Tracks(seen, hosts, wildcard, specific)
      invariant forall k | 0 <= k < i :: servers[k].listens != []
    {
      var listens := servers[i].listens;
      if listens == [] {
        return NoListen;
      }
      ghost var before := seen;
      for j := 0 to |listens|
        invariant seen == before + listens[..j] && ClashFree(seen) && Tracks(seen, hosts, wildcard, specific)
      {
        assert before + listens[..j + 1] == seen + [listens[j]];
        FlatPrefix(servers, i, j);
        ClashFreeGrows(seen, listens[j]);
        var v, hosts', wildcard', specific' := CheckListen(listens[j], hosts, wildcard, specific, seen);
        if v != Accepted {
          if ClashFree(Flat(servers)) {
            ClashStays(seen + [listens[j]], Flat(servers));
          }
          return v;
        }
        hosts, wildcard, specific := hosts', wildcard', specific';
        seen := seen + [listens[j]];
      }
      FlatNext(servers, i);
      assert listens[..|listens|] == listens;
    }
    assert servers[..|servers|] == servers;
    return Accepted;
  }

  lemma {:induction false} NothingTracked()
    ensures Tracks([], map[], {}, {}) && ClashFree([])
  {
  }

  lemma {:induction false} FlatNext(servers: seq<VirtualHost>, i: nat)
    requires i < |servers|
    ensures Flat(servers[..i + 1]) == Flat(servers[..i]) + servers[i].listens
  {
    assert servers[..i + 1] == servers[..i] + [servers[i]];
    FlatSplits(servers[..i], [servers[i]]);
    assert Flat([servers[i]]) == servers[i].listens + Flat([]);
  }

  lemma {:induction false} FlatPrefix(servers: seq<VirtualHost>, i: nat, j: nat)
    requires i < |servers| && j < |servers[i].listens|
    ensures Flat(servers[..i]) + servers[i].listens[..j + 1] <= Flat(servers)
  {
    FlatNext(servers, i);
    FlatSplits(servers[..i + 1], servers[i + 1..]);
    assert servers[..i + 1] + servers[i + 1..] == servers;
  }

  // ---------- the choice for a request ----------

  /** How strongly a listen speaks for a key and a header host: 0 names the host, 3 is for another key. */
  function ListenRank(l: Listen, key: ListenKey, header: string): nat {
    if KeyOf(l) != key then 3
    else
      var host := ExtractHost(l.host);
      if host == "" then 1 else if host == header then 0 else 2
  }

  function RankOf(listens: seq<Listen>, key: ListenKey, header: string): (r: nat)
    ensures r <= 3
  {
    if listens == [] then 3
    else
      var before := RankOf(listens[..|listens| - 1], key, header);
      var last := ListenRank(listens[|listens| - 1], key, header);
      if last < before then last else before
  }

  function Rank(v: VirtualHost, key: ListenKey, header: string): nat {
    RankOf(v.listens, key, header)
  }

  /** A server ranks as its strongest listen does. */
  lemma {:induction false} RankIsLeast(listens: seq<Listen>, key: ListenKey, header: string, r: nat)
    requires r < 3
    ensures RankOf(listens, key, header) <= r <==> exists l :: l in listens && ListenRank(l, key, header) <= r
  {
    hide ListenRank;
    if listens != [] {
      var front, last := listens[..|listens| - 1], listens[|listens| - 1];
      RankIsLeast(front, key, header, r);
      assert listens == front + [last];
    }
  }

  function FirstOf(vhosts: seq<VirtualHost>, rank: nat, key: ListenKey, header: string): Option<VirtualHost> {
    if vhosts == [] then None
    else
      var before := FirstOf(vhosts[..|vhosts| - 1], rank, key, header);
      if before.Some? then before
      else if Rank(vhosts[|vhosts| - 1], key, header) == rank then Some(vhosts[|vhosts| - 1])
      else None
  }

  function LastOf(vhosts: seq<VirtualHost>, rank: nat, key: ListenKey, header: string): Option<VirtualHost> {
    if vhosts == [] then None
    else if Rank(vhosts[|vhosts| - 1], key, header) == rank then Some(vhosts[|vhosts| - 1])
    else LastOf(vhosts[..|vhosts| - 1], rank, key, header)
  }

  /** The last without a host name, else the first at all. */
  function Default(vhosts: seq<VirtualHost>, key: ListenKey, header: string): Option<VirtualHost> {
    var last := LastOf(vhosts, 1, key, header);
    if last.Some? then last else FirstOf(vhosts, 2, key, header)
  }

  /** The first that names the host, else the default. */
  function Chosen(vhosts: seq<VirtualHost>, key: ListenKey, hostHeader: string): Option<VirtualHost> {
    var header := ExtractHost(hostHeader);
    var named := FirstOf(vhosts, 0, key, header);
    if named.Some? then named else Default(vhosts, key, header)
  }

  function Update(default: Option<VirtualHost>, v: VirtualHost, rank: nat): Option<VirtualHost> {
    if rank == 1 || (rank == 2 && default.None?) then Some(v) else default
  }

  lemma {:induction false} DefaultGrows(vhosts: seq<VirtualHost>, v: VirtualHost, key: ListenKey, header: string)
    requires Rank(v, key, header) != 0
    ensures Default(vhosts + [v], key, header) == Update(Default(vhosts, key, header), v, Rank(v, key, header))
    ensures FirstOf(vhosts, 0, key, header).None? ==> FirstOf(vhosts + [v], 0, key, header).None?
  {
    hide Rank;
    var more := vhosts + [v];
    assert more[..|more| - 1] == vhosts && more[|more| - 1] == v;
  }

  lemma {:induction false} FirstStays(vhosts: seq<VirtualHost>, i: nat, rank: nat, key: ListenKey, header: string)
    requires i < |vhosts| && FirstOf(vhosts[..i], rank, key, header).None? && Rank(vhosts[i], key, header) == rank
    ensures FirstOf(vhosts, rank, key, header) == Some(vhosts[i])
    decreases |vhosts|
  {
    hide Rank;
    if i < |vhosts| - 1 {
      var front := vhosts[..|vhosts| - 1];
      assert front[..i] == vhosts[..i];
      FirstStays(front, i, rank, key, header);
    }
  }

  lemma {:induction false} RankGrows(listens: seq<Listen>, j: nat, key: ListenKey, header: string)
    requires j < |listens|
    ensures var r, l := RankOf(listens[..j], key, header), ListenRank(listens[j], key, header);
            RankOf(listens[..j + 1], key, header) == if l < r then l else r
    ensures RankOf(listens[..j + 1], key, header) == 0 ==> RankOf(listens, key, header) == 0
    decreases |listens|
  {
    hide ListenRank;
    assert listens[..j + 1][..j] == listens[..j];
    if j + 1 < |listens| {
      var front := listens[..|listens| - 1];
      assert front[..j + 1] == listens[..j + 1] && front[..j] == listens[..j];
      RankGrows(front, j, key, header);
    } else {
      assert listens[..j + 1] == listens;
    }
  }

  /** VHostResolver::find; None is a null pointer. */
  method Find(vhosts: seq<VirtualHost>, key: ListenKey, hostHeader: string) returns (found: Option<VirtualHost>)
    ensures found == Chosen(vhosts, key, hostHeader)
  {
    hide ExtractHost, FirstOf, LastOf, Default, RankOf;
    var default: Option<VirtualHost> := None;
    var headerHost := ExtractHost(hostHeader);
    NothingChosen(key, headerHost);
    for i := 0 to |vhosts|
      invariant FirstOf(vhosts[..i], 0, key, headerHost).None? && default == Default(vhosts[..i], key, headerHost)
    {
      var vhost := vhosts[i];
      var listens := vhost.listens;
      ghost var before := default;
      NothingRanked(key, headerHost);
      for j := 0 to |listens|
        invariant RankOf(listens[..j], key, headerHost) != 0
        invariant default == Update(before, vhost, RankOf(listens[..j], key, headerHost))
      {
        var listen := listens[j];
        RankGrows(listens, j, key, headerHost);
        if listen.interface != key.interface || listen.port != key.port {
          continue;
        }
        var listenHost := ExtractHost(listen.host);
        if default.None? || listenHost == "" {
          default := Some(vhost);
        }
        if headerHost != "" {
          if listenHost != "" && listenHost == headerHost {
            FirstStays(vhosts, i, 0, key, headerHost);
            return Some(vhost);
          }
        }
      }
      assert listens[..|listens|] == listens && vhosts[..i + 1] == vhosts[..i] + [vhost];
      DefaultGrows(vhosts[..i], vhost, key, headerHost);
    }
    assert vhosts[..|vhosts|] == vhosts;
    return default;
  }

  lemma {:induction false} NothingChosen(key: ListenKey, header: string)
    ensures FirstOf([], 0, key, header).None? && Default([], key, header).None?
  {
  }

  lemma {:induction false} NothingRanked(key: ListenKey, header: string)
    ensures RankOf([], key, header) == 3
  {
  }

  // ---------- independence of the order of servers ----------

  ghost predicate SameServers(a: seq<VirtualHost>, b: seq<VirtualHost>) {
    multiset(a) == multiset(b)
  }

  /** Every order of the servers gives the same choice. */
  ghost predicate OrderFree(vhosts: seq<VirtualHost>, key: ListenKey, hostHeader: string) {
    forall b | SameServers(vhosts, b) :: Chosen(b, key, hostHeader) == Chosen(vhosts, key, hostHeader)
  }

  /** A server that listens on the key and that no other outranks. */
  ghost predicate Leads(vhosts: seq<VirtualHost>, v: VirtualHost, key: ListenKey, header: string) {
    v in vhosts && Rank(v, key, header) < 3 && forall w | w in vhosts :: Rank(v, key, header) <= Rank(w, key, header)
  }

  /** At most one server leads. */
  ghost predicate Undisputed(vhosts: seq<VirtualHost>, key: ListenKey, header: string) {
    forall v, w | Leads(vhosts, v, key, header) && Leads(vhosts, w, key, header) :: v == w
  }

  lemma {:induction false} FirstOfIs(vhosts: seq<VirtualHost>, rank: nat, key: ListenKey, header: string)
    ensures var r := FirstOf(vhosts, rank, key, header);
            if r.Some? then r.value in vhosts && Rank(r.value, key, header) == rank
            else forall v | v in vhosts :: Rank(v, key, header) != rank
    ensures var r := LastOf(vhosts, rank, key, header);
            if r.Some? then r.value in vhosts && Rank(r.value, key, header) == rank
            else forall v | v in vhosts :: Rank(v, key, header) != rank
  {
    hide Rank;
    if vhosts != [] {
      var front, last := vhosts[..|vhosts| - 1], vhosts[|vhosts| - 1];
      FirstOfIs(front, rank, key, header);
      assert vhosts == front + [last];
    }
  }

  lemma {:induction false} RankRange(v: VirtualHost, key: ListenKey, header: string)
    ensures Rank(v, key, header) <= 3
  {
  }

  /** The choice is a leading server, and there is none only if no server listens on the key. */
  lemma {:induction false} ChosenLeads(vhosts: seq<VirtualHost>, key: ListenKey, hostHeader: string)
    ensures var c, h := Chosen(vhosts, key, hostHeader), ExtractHost(hostHeader);
            if c.Some? then Leads(vhosts, c.value, key, h) else forall v | v in vhosts :: Rank(v, key, h) == 3
  {
    hide Rank, ExtractHost, FirstOf, LastOf;
    var h := ExtractHost(hostHeader);
    FirstOfIs(vhosts, 0, key, h);
    FirstOfIs(vhosts, 1, key, h);
    FirstOfIs(vhosts, 2, key, h);
    forall v | v in vhosts ensures Rank(v, key, h) <= 3 {
      RankRange(v, key, h);
    }
  }

  lemma {:induction false} SameMembers(a: seq<VirtualHost>, b: seq<VirtualHost>)
    requires SameServers(a, b)
    ensures forall v :: v in a <==> v in b
  {
    forall v ensures v in a <==> v in b {
      assert v in multiset(a) <==> v in multiset(b);
    }
  }

  lemma {:induction false} SameLeaders(a: seq<VirtualHost>, b: seq<VirtualHost>, key: ListenKey, header: string)
    requires SameServers(a, b)
    ensures forall v :: Leads(a, v, key, header) <==> Leads(b, v, key, header)
  {
    hide Rank;
    SameMembers(a, b);
  }

  lemma {:induction false} UndisputedIsOrderFree(a: seq<VirtualHost>, b: seq<VirtualHost>, key: ListenKey, hostHeader: string)
    requires SameServers(a, b) && Undisputed(a, key, ExtractHost(hostHeader))
    ensures Chosen(b, key, hostHeader) == Chosen(a, key, hostHeader)
  {
    hide Rank, ExtractHost, Chosen;
    var h := ExtractHost(hostHeader);
    SameMembers(a, b);
    SameLeaders(a, b, key, h);
    ChosenLeads(a, key, hostHeader);
    ChosenLeads(b, key, hostHeader);
  }

  lemma {:induction false} Without(s: seq<VirtualHost>, v: VirtualHost) returns (rest: seq<VirtualHost>)
    requires v in s
    ensures multiset(s) == multiset(rest) + multiset{v}
    ensures forall w | w in s && w != v :: w in rest
  {
    var i :| 0 <= i < |s| && s[i] == v;
    rest := s[..i] + s[i + 1..];
    assert s == s[..i] + [v] + s[i + 1..];
  }

  /** The order with one server moved to the front and another to the end. */
  lemma {:induction false} MoveToEnds(vhosts: seq<VirtualHost>, v: VirtualHost, w: VirtualHost) returns (b: seq<VirtualHost>)
    requires v in vhosts && w in vhosts && v != w
    ensures SameServers(vhosts, b) && |b| >= 2 && b[0] == v && b[|b| - 1] == w
  {
    var rest := Without(vhosts, v);
    var middle := Without(rest, w);
    b := [v] + middle + [w];
  }

  lemma {:induction false} EndsDecide(b: seq<VirtualHost>, rank: nat, key: ListenKey, header: string)
    requires b != []
    ensures Rank(b[0], key, header) == rank ==> FirstOf(b, rank, key, header) == Some(b[0])
    ensures Rank(b[|b| - 1], key, header) == rank ==> LastOf(b, rank, key, header) == Some(b[|b| - 1])
  {
    hide Rank;
    if |b| > 1 {
      EndsDecide(b[..|b| - 1], rank, key, header);
    } else {
      assert b[..0] == [];
    }
  }

  /** With two leading servers, the outer ones of an order decide. */
  lemma {:induction false} EndIsChosen(b: seq<VirtualHost>, key: ListenKey, hostHeader: string)
    requires |b| >= 2
    requires Leads(b, b[0], key, ExtractHost(hostHeader)) && Leads(b, b[|b| - 1], key, ExtractHost(hostHeader))
    ensures Chosen(b, key, hostHeader)
         == Some(if Rank(b[0], key, ExtractHost(hostHeader)) == 1 then b[|b| - 1] else b[0])
  {
    hide Rank, ExtractHost, FirstOf, LastOf;
    var h := ExtractHost(hostHeader);
    FirstOfIs(b, 0, key, h);
    FirstOfIs(b, 1, key, h);
    EndsDecide(b, Rank(b[0], key, h), key, h);
  }

  /** The choice does not depend on the order of the servers exactly if at most one of them leads. */
  lemma {:induction false} OrderFreeExactly(vhosts: seq<VirtualHost>, key: ListenKey, hostHeader: string)
    ensures OrderFree(vhosts, key, hostHeader) <==> Undisputed(vhosts, key, ExtractHost(hostHeader))
  {
    hide Rank, ExtractHost, Chosen, SameServers, Leads;
    var h := ExtractHost(hostHeader);
    if Undisputed(vhosts, key, h) {
      forall b | SameServers(vhosts, b) ensures Chosen(b, key, hostHeader) == Chosen(vhosts, key, hostHeader) {
        UndisputedIsOrderFree(vhosts, b, key, hostHeader);
      }
    } else {
      var v, w :| Leads(vhosts, v, key, h) && Leads(vhosts, w, key, h) && v != w;
      LeaderIsServer(vhosts, v, w, key, h);
      var a := MoveToEnds(vhosts, v, w);
      var b := MoveToEnds(vhosts, w, v);
      SameLeaders(vhosts, a, key, h);
      SameLeaders(vhosts, b, key, h);
      EndIsChosen(a, key, hostHeader);
      EndIsChosen(b, key, hostHeader);
      assert Chosen(a, key, hostHeader) != Chosen(b, key, hostHeader);
    }
  }

  lemma {:induction false} LeaderIsServer(vhosts: seq<VirtualHost>, v: VirtualHost, w: VirtualHost, key: ListenKey, header: string)
    requires Leads(vhosts, v, key, header) && Leads(vhosts, w, key, header)
    ensures v in vhosts && w in vhosts && Rank(v, key, header) == Rank(w, key, header)
  {
  }

  // ---------- the choice, told from the listens ----------

  const SPACE := " \t\n\r\U{000C}\U{000B}"

  predicate OnKey(l: Listen, key: ListenKey) {
    l.interface == key.interface && l.port == key.port
  }

  /** Some listen of the server is for this key, */
  ghost predicate Listens(v: VirtualHost, key: ListenKey) {
    exists l :: l in v.listens && OnKey(l, key)
  }

  /** and has no host, */
  ghost predicate TakesAll(v: VirtualHost, key: ListenKey) {
    exists l :: l in v.listens && OnKey(l, key) && ExtractHost(l.host) == ""
  }

  /** or this one. */
  ghost predicate Names(v: VirtualHost, key: ListenKey, host: string) {
    host != "" && exists l :: l in v.listens && OnKey(l, key) && ExtractHost(l.host) == host
  }

  lemma {:induction false} RankMeans(v: VirtualHost, key: ListenKey, host: string)
    ensures Rank(v, key, host) == 0 <==> Names(v, key, host)
    ensures Rank(v, key, host) <= 1 <==> Names(v, key, host) || TakesAll(v, key)
    ensures Rank(v, key, host) <= 2 <==> Listens(v, key)
  {
    hide ExtractHost, RankOf;
    RankIsLeast(v.listens, key, host, 0);
    RankIsLeast(v.listens, key, host, 1);
    RankIsLeast(v.listens, key, host, 2);
  }

  lemma {:induction false} LastStays(vhosts: seq<VirtualHost>, i: nat, rank: nat, key: ListenKey, header: string)
    requires i < |vhosts| && Rank(vhosts[i], key, header) == rank
    requires forall j | i < j < |vhosts| :: Rank(vhosts[j], key, header) != rank
    ensures LastOf(vhosts, rank, key, header) == Some(vhosts[i])
    decreases |vhosts|
  {
    hide Rank;
    if i < |vhosts| - 1 {
      LastStays(vhosts[..|vhosts| - 1], i, rank, key, header);
    }
  }

  /** Whatever the servers: the first one that names the header's host; else the last that takes every host; else
      the first that listens on the key; none exactly if nobody does. */
  lemma {:induction false} ChosenByListens(vhosts: seq<VirtualHost>, key: ListenKey, hostHeader: string)
    ensures var c, h := Chosen(vhosts, key, hostHeader), ExtractHost(hostHeader);
            && (forall i | 0 <= i < |vhosts| && Names(vhosts[i], key, h) && (forall j | 0 <= j < i :: !Names(vhosts[j], key, h)) ::
                  c == Some(vhosts[i]))
            && ((forall v | v in vhosts :: !Names(v, key, h)) ==>
                  forall i | 0 <= i < |vhosts| && TakesAll(vhosts[i], key) && (forall j | i < j < |vhosts| :: !TakesAll(vhosts[j], key)) ::
                    c == Some(vhosts[i]))
            && ((forall v | v in vhosts :: !Names(v, key, h) && !TakesAll(v, key)) ==>
                  forall i | 0 <= i < |vhosts| && Listens(vhosts[i], key) && (forall j | 0 <= j < i :: !Listens(vhosts[j], key)) ::
                    c == Some(vhosts[i]))
            && (c.None? <==> forall v | v in vhosts :: !Listens(v, key))
  {
    hide Rank, ExtractHost, FirstOf, LastOf, Names, TakesAll, Listens;
    var h := ExtractHost(hostHeader);
    forall v ensures Rank(v, key, h) == 0 <==> Names(v, key, h)
      ensures Rank(v, key, h) <= 1 <==> Names(v, key, h) || TakesAll(v, key)
      ensures Rank(v, key, h) <= 2 <==> Listens(v, key)
    {
      RankMeans(v, key, h);
    }
    FirstOfIs(vhosts, 0, key, h);
    FirstOfIs(vhosts, 1, key, h);
    FirstOfIs(vhosts, 2, key, h);
    forall i | 0 <= i < |vhosts| && Names(vhosts[i], key, h) && (forall j | 0 <= j < i :: !Names(vhosts[j], key, h))
      ensures FirstOf(vhosts, 0, key, h) == Some(vhosts[i])
    {
      FirstOfIs(vhosts[..i], 0, key, h);
      FirstStays(vhosts, i, 0, key, h);
    }
    if forall v | v in vhosts :: !Names(v, key, h) {
      forall i | 0 <= i < |vhosts| && TakesAll(vhosts[i], key) && (forall j | i < j < |vhosts| :: !TakesAll(vhosts[j], key))
        ensures LastOf(vhosts, 1, key, h) == Some(vhosts[i])
      {
        LastStays(vhosts, i, 1, key, h);
      }
      if forall v | v in vhosts :: !TakesAll(v, key) {
        forall i | 0 <= i < |vhosts| && Listens(vhosts[i], key) && (forall j | 0 <= j < i :: !Listens(vhosts[j], key))
          ensures FirstOf(vhosts, 2, key, h) == Some(vhosts[i])
        {
          FirstOfIs(vhosts[..i], 2, key, h);
          FirstStays(vhosts, i, 2, key, h);
        }
      }
    }
  }

  lemma {:induction false} TrimLeftStops(a: string, c: char, b: string, chars: string)
    requires c !in chars
    ensures TrimLeft(a + [c] + b, chars) == TrimLeft(a, chars) + [c] + b
    decreases |a|
  {
    if a == "" {
      assert a + [c] + b == [c] + b;
    } else {
      assert (a + [c] + b)[1..] == a[1..] + [c] + b;
      TrimLeftStops(a[1..], c, b, chars);
    }
  }

  lemma {:induction false} TrimRightStops(a: string, c: char, b: string, chars: string)
    requires c !in chars
    ensures TrimRight(a + [c] + b, chars) == a + [c] + TrimRight(b, chars)
    decreases |b|
  {
    if b == "" {
      assert a + [c] + b == a + [c];
    } else {
      assert (a + [c] + b)[..|a + [c] + b| - 1] == a + [c] + b[..|b| - 1];
      TrimRightStops(a, c, b[..|b| - 1], chars);
    }
  }

  lemma {:induction false} FirstColon(a: string, b: string, from: nat)
    requires ':' !in a && from <= |a|
    ensures FindChar(a + ":" + b, ':', from) == Some(|a|)
    decreases |a| - from
  {
    if from < |a| {
      assert (a + ":" + b)[from] == a[from];
      FirstColon(a, b, from + 1);
    } else {
      assert (a + ":" + b)[|a|] == ':';
    }
  }

  /** A host is what stands before the first colon, without the blanks around it and in lower case. */
  lemma {:induction false} HostBeforeColon(host: string, port: string)
    requires ':' !in host
    ensures ExtractHost(host) == ToLower(Trim(host, SPACE))
    ensures ExtractHost(host + ":" + port) == ToLower(Trim(host, SPACE))
  {
    hide FindChar, TrimLeft, TrimRight, ToLower;
    HostsReadAlike(host);
    TrimLeftStops(host, ':', port, BLANKS);
    var t := TrimLeft(host, BLANKS);
    TrimRightStops(t, ':', port, BLANKS);
    TrimIsPart(host, BLANKS);
    FirstColon(t, TrimRight(port, BLANKS), 0);
    var whole := Trim(host + ":" + port, BLANKS);
    assert whole == t + ":" + TrimRight(port, BLANKS);
    assert whole[..|t|] == t;
    TrimLeftAgain(host, BLANKS);
  }

  lemma {:induction false} TrimLeftAgain(s: string, chars: string)
    ensures TrimLeft(TrimLeft(s, chars), chars) == TrimLeft(s, chars)
  {
  }

  // ---------- the choice among validated servers ----------

  ghost predicate ColonFree(servers: seq<VirtualHost>) {
    forall v, l | v in servers && l in v.listens :: ':' !in l.host
  }

  lemma {:induction false} TrimIsPart(s: string, chars: string)
    ensures forall c | c in TrimLeft(s, chars) :: c in s
    ensures forall c | c in TrimRight(s, chars) :: c in s
    ensures TrimRight(s, chars) <= s
    decreases |s|
  {
    if s != [] {
      TrimIsPart(s[1..], chars);
      TrimIsPart(s[..|s| - 1], chars);
    }
  }

  lemma {:induction false} TrimTwice(s: string, chars: string)
    ensures Trim(Trim(s, chars), chars) == Trim(s, chars)
    ensures forall c | c in Trim(s, chars) :: c in s
  {
    TrimIsPart(s, chars);
    TrimIsPart(TrimLeft(s, chars), chars);
  }

  lemma {:induction false} NoCharFound(s: string, c: char, from: nat)
    requires c !in s
    ensures FindChar(s, c, from).None?
    decreases |s| - from
  {
    if from < |s| {
      assert s[from] in s;
      NoCharFound(s, c, from + 1);
    }
  }

  /** Without a colon, validation and choice read a configured host alike. */
  lemma {:induction false} HostsReadAlike(host: string)
    requires ':' !in host
    ensures ExtractHost(host) == NormalizeListenHost(host)
  {
    TrimTwice(host, BLANKS);
    NoCharFound(Trim(host, BLANKS), ':', 0);
  }

  lemma {:induction false} RankHasListen(listens: seq<Listen>, key: ListenKey, header: string) returns (l: Listen)
    requires RankOf(listens, key, header) < 3
    ensures l in listens && ListenRank(l, key, header) == RankOf(listens, key, header)
  {
    hide ListenRank;
    var front, last := listens[..|listens| - 1], listens[|listens| - 1];
    assert listens == front + [last];
    if ListenRank(last, key, header) < RankOf(front, key, header) {
      l := last;
    } else {
      l := RankHasListen(front, key, header);
    }
  }

  lemma {:induction false} InFlat(servers: seq<VirtualHost>, i: nat, l: Listen)
    requires i < |servers| && l in servers[i].listens
    ensures l in Flat(servers)
  {
    if i > 0 {
      InFlat(servers[1..], i - 1, l);
    }
  }

  lemma {:induction false} ServersDoNotClash(servers: seq<VirtualHost>, i: nat, j: nat, a: Listen, b: Listen)
    requires i < j < |servers| && ClashFree(Flat(servers)) && a in servers[i].listens && b in servers[j].listens
    ensures !Clash(a, b)
  {
    hide Clash;
    InFlat(servers[..j], i, a);
    InFlat(servers[j..], 0, b);
    FlatSplits(servers[..j], servers[j..]);
    assert servers[..j] + servers[j..] == servers;
    var p :| 0 <= p < |Flat(servers[..j])| && Flat(servers[..j])[p] == a;
    var q :| 0 <= q < |Flat(servers[j..])| && Flat(servers[j..])[q] == b;
    assert Flat(servers)[p] == a && Flat(servers)[|Flat(servers[..j])| + q] == b;
  }

  /** Among validated servers at most one names a host, and at most one takes every host. */
  lemma {:induction false} NamedOnce(servers: seq<VirtualHost>, i: nat, j: nat, key: ListenKey, header: string)
    requires Compatible(servers) && ColonFree(servers) && i < j < |servers|
    requires Rank(servers[i], key, header) < 2
    ensures Rank(servers[i], key, header) != Rank(servers[j], key, header)
  {
    hide ExtractHost, NormalizeListenHost, RankOf, Flat;
    if Rank(servers[i], key, header) == Rank(servers[j], key, header) {
      var a := RankHasListen(servers[i].listens, key, header);
      var b := RankHasListen(servers[j].listens, key, header);
      HostsReadAlike(a.host);
      HostsReadAlike(b.host);
      ServersDoNotClash(servers, i, j, a, b);
      assert false;
    }
  }

  ghost predicate AtMostOneListens(servers: seq<VirtualHost>, key: ListenKey, header: string) {
    forall v, w | v in servers && w in servers && Rank(v, key, header) < 3 && Rank(w, key, header) < 3 :: v == w
  }

  ghost predicate SomeAt(servers: seq<VirtualHost>, rank: nat, key: ListenKey, header: string) {
    exists v :: v in servers && Rank(v, key, header) == rank
  }

  /**
   * For validated servers with colon-free hosts: the one that names the header's host is chosen,
   * else the one that takes every host, whatever the order; without either the order matters
   * exactly if several servers listen on the key.
   */
  lemma {:induction false} ValidatedChoice(servers: seq<VirtualHost>, key: ListenKey, hostHeader: string)
    requires Compatible(servers) && ColonFree(servers)
    ensures var h := ExtractHost(hostHeader);
            OrderFree(servers, key, hostHeader)
            <==> SomeAt(servers, 0, key, h) || SomeAt(servers, 1, key, h) || AtMostOneListens(servers, key, h)
    ensures forall v | v in servers && Rank(v, key, ExtractHost(hostHeader)) == 0 ::
              Chosen(servers, key, hostHeader) == Some(v)
    ensures forall v | v in servers && Rank(v, key, ExtractHost(hostHeader)) == 1 && !SomeAt(servers, 0, key, ExtractHost(hostHeader)) ::
              Chosen(servers, key, hostHeader) == Some(v)
  {
    hide Rank, ExtractHost, Chosen, Compatible, ColonFree, OrderFree;
    var h := ExtractHost(hostHeader);
    OrderFreeExactly(servers, key, hostHeader);
    ChosenLeads(servers, key, hostHeader);
    forall v, w | v in servers && w in servers && Rank(v, key, h) == Rank(w, key, h) < 2 ensures v == w {
      var i :| 0 <= i < |servers| && servers[i] == v;
      var j :| 0 <= j < |servers| && servers[j] == w;
      if i < j {
        NamedOnce(servers, i, j, key, h);
      } else if j < i {
        NamedOnce(servers, j, i, key, h);
      }
    }
    LeadersByRank(servers, key, h);
  }

  lemma {:induction false} ServersByListens(servers: seq<VirtualHost>, key: ListenKey, hostHeader: string)
    requires Compatible(servers) && ColonFree(servers)
    ensures var h := ExtractHost(hostHeader);
            && (forall v | v in servers && Names(v, key, h) :: Chosen(servers, key, hostHeader) == Some(v))
            && ((forall v | v in servers :: !Names(v, key, h)) ==>
                  forall v | v in servers && TakesAll(v, key) :: Chosen(servers, key, hostHeader) == Some(v))
  {
    hide Rank, ExtractHost, Chosen, Compatible, ColonFree, OrderFree, Names, TakesAll;
    var h := ExtractHost(hostHeader);
    ValidatedChoice(servers, key, hostHeader);
    forall v ensures Rank(v, key, h) == 0 <==> Names(v, key, h)
      ensures Rank(v, key, h) <= 1 <==> Names(v, key, h) || TakesAll(v, key)
    {
      RankMeans(v, key, h);
    }
  }

  /** For validated servers with colon-free hosts, told from the listens: a server with a listen for the key and
      the header's host is chosen; without one, a server with a listen for the key and a blank host is; and none
      exactly if nobody listens there. Case and blanks around a host do not matter, nor does a port behind it. */
  lemma {:induction false} ValidatedListens(servers: seq<VirtualHost>, key: ListenKey, host: string, port: string)
    requires Compatible(servers) && ColonFree(servers) && ':' !in host
    ensures var h := ToLower(Trim(host, SPACE));
            forall header | header == host || header == host + ":" + port ::
              var c := Chosen(servers, key, header);
              && (forall v, l | v in servers && l in v.listens && l.interface == key.interface && l.port == key.port
                                && h != "" && ToLower(Trim(l.host, SPACE)) == h :: c == Some(v))
              && ((forall v, l | v in servers && l in v.listens && l.interface == key.interface && l.port == key.port ::
                     h == "" || ToLower(Trim(l.host, SPACE)) != h) ==>
                    forall v, l | v in servers && l in v.listens && l.interface == key.interface && l.port == key.port
                                  && Trim(l.host, SPACE) == "" :: c == Some(v))
              && (c.None? <==> forall v, l | v in servers && l in v.listens :: l.interface != key.interface || l.port != key.port)
  {
    hide Chosen, ExtractHost, Compatible, Trim;
    HostBeforeColon(host, port);
    forall v, l | v in servers && l in v.listens
      ensures ExtractHost(l.host) == ToLower(Trim(l.host, SPACE))
      ensures ExtractHost(l.host) == "" <==> Trim(l.host, SPACE) == ""
    {
      HostBeforeColon(l.host, "");
    }
    forall header | header == host || header == host + ":" + port
      ensures ExtractHost(header) == ToLower(Trim(host, SPACE))
    {
      ServersByListens(servers, key, header);
      ChosenByListens(servers, key, header);
    }
    ServersByListens(servers, key, host);
    ChosenByListens(servers, key, host);
    ServersByListens(servers, key, host + ":" + port);
    ChosenByListens(servers, key, host + ":" + port);
  }

  lemma {:induction false} LeadersByRank(servers: seq<VirtualHost>, key: ListenKey, h: string)
    requires forall v, w | v in servers && w in servers && Rank(v, key, h) == Rank(w, key, h) < 2 :: v == w
    ensures Undisputed(servers, key, h)
            <==> SomeAt(servers, 0, key, h) || SomeAt(servers, 1, key, h) || AtMostOneListens(servers, key, h)
  {
    hide Rank;
    forall v | v in servers ensures Rank(v, key, h) <= 3 {
      RankRange(v, key, h);
    }
    if !SomeAt(servers, 0, key, h) && !SomeAt(servers, 1, key, h) {
      forall v | v in servers ensures Leads(servers, v, key, h) <==> Rank(v, key, h) < 3 {
      }
    }
  }

  lemma {:induction false} PortNamed(c: char)
    requires c != ' ' && c != '\t' && c != '\n' && c != '\r' && c != '\U{000C}' && c != '\U{000B}'
    ensures ExtractHost(['x', ':', c]) == "x" && NormalizeListenHost(['x', ':', c]) == ['x', ':', LowerChar(c)]
  {
    var s := ['x', ':', c];
    assert TrimLeft(s, BLANKS) == s && TrimRight(s, BLANKS) == s;
    assert FindChar(s, ':', 0) == FindChar(s, ':', 1) == Some(1);
    assert s[..1] == "x";
    assert TrimLeft("x", BLANKS) == "x" && TrimRight("x", BLANKS) == "x";
    LowerThree(s);
  }

  lemma {:induction false} LowerThree(s: string)
    requires |s| == 3
    ensures ToLower(s) == [LowerChar(s[0]), LowerChar(s[1]), LowerChar(s[2])] && ToLower(s[..1]) == [LowerChar(s[0])]
  {
  }

  lemma {:induction false} FlatOfTwo(v: VirtualHost, w: VirtualHost)
    ensures Flat([v, w]) == v.listens + w.listens
  {
    FlatSplits([v], [w]);
    assert [v] + [w] == [v, w];
    assert Flat([v]) == v.listens + Flat([]) && Flat([w]) == w.listens + Flat([]);
  }

  /** With a port in the host names, validated servers can still depend on their order. */
  lemma {:induction false} ColonsDispute()
    ensures var key := ListenKey(WILDCARD, 80);
            var servers := [VirtualHost(0, [Listen("x:1", WILDCARD, 80)]), VirtualHost(1, [Listen("x:2", WILDCARD, 80)])];
            Compatible(servers) && !OrderFree(servers, key, "x:1")
  {
    hide ExtractHost, NormalizeListenHost, OrderFree;
    var key := ListenKey(WILDCARD, 80);
    var a, b := Listen("x:1", WILDCARD, 80), Listen("x:2", WILDCARD, 80);
    var v, w := VirtualHost(0, [a]), VirtualHost(1, [b]);
    PortNamed('1');
    PortNamed('2');
    FlatOfTwo(v, w);
    assert !Clash(a, b);
    OrderFreeExactly([v, w], key, "x:1");
    RankIsLeast([a], key, "x", 0);
    RankIsLeast([b], key, "x", 0);
    assert a in [a] && b in [b];
    assert Leads([v, w], v, key, "x") && Leads([v, w], w, key, "x");
  }
}
