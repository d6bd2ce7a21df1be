/**
 * The crawler of `dht.js`: it asks DHT nodes for peers of one info hash
 * (`get_peers`), follows the nodes they return, and reports each peer
 * address once. It keeps a set of visited nodes, the requests in transit
 * (at most `MaxTransit` before new ones wait in a queue) and a LIFO queue.
 *
 * Addresses are the `host:port` strings the code passes around. The node
 * records of a reply are 26 bytes each (BEP 5, "Contact Information"
 * section): a 20-byte node id, then 4 bytes of IPv4 address and a 2-byte
 * big-endian port, rendered by `compact2string`.
 */
module Crawler {
  import opened Wrappers
  import opened Bytes
  import FolderStore

  type Addr = seq<char>

  /** `MAX_TRANSIT`: with more requests than this in transit, new ones are queued. */
  const MaxTransit := 100

  /** `BOOTSTRAP_NODES`, asked first. */
  const Bootstrap: seq<Addr> := ["dht.transmissionbt.com:6881", "router.bittorrent.com:6881", "router.utorrent.com:6881"]

  // ------------------------------------------------------------ addresses

  predicate NoColon(s: seq<char>)
  {
    forall k :: 0 <= k < |s| ==> s[k] != ':'
  }

  /** The text after the first `:`, or `None` when there is none. */
  function AfterColon(s: seq<char>): (r: Option<seq<char>>)
    ensures r.None? <==> NoColon(s)
  {
    if s == [] then None else if s[0] == ':' then Some(s[1..]) else AfterColon(s[1..])
  }

  /** The text up to the first `:` (all of it when there is none). */
  function UpToColon(s: seq<char>): (r: seq<char>)
    ensures NoColon(r) && |r| <= |s| && r == s[..|r|]
  {
    if s == [] || s[0] == ':' then [] else [s[0]] + UpToColon(s[1..])
  }

  predicate AllDigits(s: seq<char>)
  {
    forall k :: 0 <= k < |s| ==> '0' <= s[k] <= '9'
  }

  /**
   * `Number(addr.split(':')[1])`, restricted to plain decimal digit runs:
   * the empty field is 0, a digit run is its value, and anything else,
   * including a missing second field, is `None` (`NaN`). The hexadecimal,
   * exponent and whitespace-padded spellings that `Number` also accepts
   * are read as `None` here.
   */
  function Port(addr: Addr): Option<int>
  {
    match AfterColon(addr)
    case None => None
    case Some(rest) =>
      var field := UpToColon(rest);
      if AllDigits(field) then Some(FolderStore.Value(field)) else None
  }

  /** `validAddress(addr)`: the port is strictly between 0 and 65535. */
  predicate ValidAddress(addr: Addr)
  {
    var p := Port(addr);
    p.Some? && 0 < p.value < 65535
  }

  /** `host:port` with a colon-free host is valid exactly when `0 < port < 65535`. */
  lemma ValidHostPort(host: seq<char>, port: nat)
    requires NoColon(host)
    ensures ValidAddress(host + ":" + FolderStore.Decimal(port)) <==> 0 < port < 65535
  {
    var digits := FolderStore.Decimal(port);
    var addr := host + ":" + digits;
    AfterHost(host, digits);
    assert NoColon(digits);
    UpToNoColon(digits);
    FolderStore.ValueOfDecimal(port);
  }

  lemma {:induction false} AfterHost(host: seq<char>, tail: seq<char>)
    requires NoColon(host)
    ensures AfterColon(host + ":" + tail) == Some(tail)
  {
    if host != [] {
      assert (host + ":" + tail)[1..] == host[1..] + ":" + tail;
      AfterHost(host[1..], tail);
    }
  }

  lemma {:induction false} UpToNoColon(s: seq<char>)
    requires NoColon(s)
    ensures UpToColon(s) == s
  {
    if s != [] {
      UpToNoColon(s[1..]);
    }
  }

  /** `compact2string` of a 6-byte contact: `a.b.c.d:port`, the port big-endian. */
  function Render(contact: Bytes): (r: Addr)
    requires |contact| == 6
  {
    Dotted(contact) + ":" + FolderStore.Decimal(PortOf(contact))
  }

  /** `buf.readUInt16BE(4)`. */
  function PortOf(contact: Bytes): nat
    requires |contact| == 6
  {
    contact[4] as int * 256 + contact[5] as int
  }

  function Dotted(contact: Bytes): (r: seq<char>)
    requires |contact| == 6
    ensures NoColon(r)
  {
    FolderStore.Decimal(contact[0]) + "." + FolderStore.Decimal(contact[1]) + "."
      + FolderStore.Decimal(contact[2]) + "." + FolderStore.Decimal(contact[3])
  }

  /** A rendered contact is valid exactly when its port is neither 0 nor 65535. */
  lemma RenderValid(contact: Bytes)
    requires |contact| == 6
    ensures ValidAddress(Render(contact)) <==> 0 < PortOf(contact) < 65535
  {
    ValidHostPort(Dotted(contact), PortOf(contact));
  }

  /** `addrs.filter(validAddress)`. */
  function Valids(addrs: seq<Addr>): (r: seq<Addr>)
    ensures |r| <= |addrs|
    ensures forall k :: 0 <= k < |r| ==> ValidAddress(r[k]) && r[k] in addrs
    ensures forall a :: a in addrs && ValidAddress(a) ==> a in r
  {
    if addrs == [] then []
    else
      var rest := Valids(addrs[1..]);
      assert forall a :: a in addrs[1..] ==> a in addrs;
      if ValidAddress(addrs[0]) then [addrs[0]] + rest else rest
  }

  /** The contact part of each whole 26-byte record, in order. */
  function Records(compact: Bytes): (r: seq<Bytes>)
    ensures |r| == |compact| / 26
    ensures forall k :: 0 <= k < |r| ==> |r[k]| == 6
  {
    if |compact| < 26 then [] else Records(compact[..|compact| - 26]) + [compact[|compact| - 6..]]
  }

  function Renders(contacts: seq<Bytes>): (r: seq<Addr>)
    requires forall k :: 0 <= k < |contacts| ==> |contacts[k]| == 6
    ensures |r| == |contacts|
    ensures forall k :: 0 <= k < |r| ==> r[k] == Render(contacts[k])
  {
    if contacts == [] then [] else Renders(contacts[..|contacts| - 1]) + [Render(contacts[|contacts| - 1])]
  }

  /**
   * What `parseNodeInfo(compact)` returns: the valid rendered contacts,
   * or nothing when the length is not a multiple of 26 (the short slice
   * of the last record makes `compact2string` throw).
   */
  function NodeInfo(compact: Bytes): seq<Addr>
  {
    if |compact| % 26 != 0 then [] else Valids(Renders(Records(compact)))
  }

  /** `a` is the valid rendering of one whole 26-byte record of `compact`. */
  ghost predicate RecordAddress(compact: Bytes, a: Addr)
  {
    exists k :: 0 <= k < |compact| / 26 && a == Render(Records(compact)[k]) && ValidAddress(a)
  }

  /** Each node address parsed is a valid rendering of one record, and every record with a usable port is there. */
  lemma NodeInfoSpec(compact: Bytes)
    requires |compact| % 26 == 0
    ensures forall a :: a in NodeInfo(compact) <==> RecordAddress(compact, a)
    ensures |NodeInfo(compact)| <= |compact| / 26
  {
    var rs := Renders(Records(compact));
    var r := Valids(rs);
    assert NodeInfo(compact) == r;
    forall a | a in r
      ensures RecordAddress(compact, a)
    {
      var k :| 0 <= k < |rs| && rs[k] == a;
      assert a == Render(Records(compact)[k]);
    }
    forall a | RecordAddress(compact, a)
      ensures a in r
    {
      var k :| 0 <= k < |compact| / 26 && a == Render(Records(compact)[k]) && ValidAddress(a);
      assert rs[k] == a;
    }
  }

  /** After `n` whole records, bytes left over make the length no multiple of 26; none left over makes it one. */
  lemma RecordCount(compact: Bytes, n: nat)
    requires 26 * n <= |compact| < 26 * n + 26
    ensures |compact| % 26 == 0 <==> |compact| == 26 * n
    ensures |compact| > 26 * n ==> NodeInfo(compact) == []
  {
    ModStep(n, |compact| - 26 * n);
  }

  lemma ModStep(n: nat, r: int)
    requires 0 <= r < 26
    ensures (26 * n + r) % 26 == r
  {
  }

  lemma RecordsSnoc(compact: Bytes, i: nat)
    requires i + 26 <= |compact|
    ensures Records(compact[..i + 26]) == Records(compact[..i]) + [compact[i + 20..i + 26]]
    ensures Renders(Records(compact[..i + 26])) == Renders(Records(compact[..i])) + [Render(compact[i + 20..i + 26])]
  {
    assert compact[..i + 26][..i] == compact[..i];
    assert compact[..i + 26][i + 20..] == compact[i + 20..i + 26];
    var rs := Records(compact[..i + 26]);
    assert rs[..|rs| - 1] == Records(compact[..i]);
  }

  /** `parseNodeInfo(compact)`: one `compact2string` per 26-byte step, then the filter. */
  method ParseNodeInfo(compact: Bytes) returns (nodes: seq<Addr>)
    ensures nodes == NodeInfo(compact)
  {
    var all: seq<Addr> := [];
    var i := 0;
    ghost var n := 0;
    while i < |compact|
      invariant i <= |compact| && i == 26 * n
      invariant all == Renders(Records(compact[..i]))
    {
      if i + 26 > |compact| {
        RecordCount(compact, n);
        return [];
      }
      RecordsSnoc(compact, i);
      all := all + [Render(compact[i + 20..i + 26])];
      i := i + 26;
      n := n + 1;
    }
    RecordCount(compact, n);
    assert compact[..i] == compact;
    nodes := Valids(all);
  }

  /** `parsePeerInfo(values)`: `addrs` is what `compact2string` made of them, `None` when it threw. */
  function PeerInfo(addrs: Option<seq<Addr>>): seq<Addr>
  {
    if addrs.None? then [] else Valids(addrs.value)
  }

  // ------------------------------------------------------------ the frontier

  /** The crawl state that `getPeers` and `resume` work on; `sent` logs `socket.send`. */
  datatype Frontier = Frontier(queue: seq<Addr>, intransit: map<Addr, int>, visited: set<Addr>, paused: bool, sent: seq<Addr>)

  /**
   * `getPeers(addr)`: while paused or with more than `MaxTransit` in
   * transit, queue the address unless visited and report false; otherwise
   * send to it unless visited, and report true.
   */
  function GetPeersOf(f: Frontier, addr: Addr, now: int): (r: (Frontier, bool))
    ensures r.1 ==> r.0.queue == f.queue && r.0.paused == f.paused && r.0.visited == f.visited
    ensures !r.1 <==> f.paused || |f.intransit| > MaxTransit
  {
    if f.paused || |f.intransit| > MaxTransit then
      (f.(queue := if addr in f.visited then f.queue else f.queue + [addr]), false)
    else if addr in f.visited then
      (f, true)
    else
      (f.(intransit := f.intransit[addr := now], sent := f.sent + [addr]), true)
  }

  /** `while (queue.length && getPeers(queue.pop()));` */
  function Drain(f: Frontier, now: int): Frontier
    decreases |f.queue|
  {
    if f.queue == [] then f
    else
      var addr := f.queue[|f.queue| - 1];
      var r := GetPeersOf(f.(queue := f.queue[..|f.queue| - 1]), addr, now);
      if r.1 then Drain(r.0, now) else r.0
  }

  /** `resume()`: unpause, then drain the queue. */
  function ResumeOf(f: Frontier, now: int): Frontier
  {
    Drain(f.(paused := false), now)
  }

  /** `nodes.forEach(getPeers)`. */
  function Visit(f: Frontier, nodes: seq<Addr>, now: int): Frontier
    decreases nodes
  {
    if nodes == [] then f else Visit(GetPeersOf(f, nodes[0], now).0, nodes[1..], now)
  }

  /** The in-transit bound as the code keeps it: the check precedes the insertion, so one more fits. */
  predicate Bounded(f: Frontier)
  {
    |f.intransit| <= MaxTransit + 1
  }

  /** `getPeers` keeps the bound, sends only to an unvisited address, and never queues a visited one. */
  lemma GetPeersSpec(f: Frontier, addr: Addr, now: int)
    requires Bounded(f)
    ensures Bounded(GetPeersOf(f, addr, now).0)
    ensures GetPeersOf(f, addr, now).0.sent == f.sent + (if GetPeersOf(f, addr, now).1 && addr !in f.visited then [addr] else [])
    ensures !GetPeersOf(f, addr, now).1 ==> GetPeersOf(f, addr, now).0.queue == f.queue + (if addr in f.visited then [] else [addr])
    ensures GetPeersOf(f, addr, now).0.visited == f.visited
  {
    if !f.paused && |f.intransit| <= MaxTransit && addr !in f.visited {
      assert f.intransit[addr := now].Keys <= f.intransit.Keys + {addr};
      CardUnion(f.intransit.Keys, addr);
      SubsetCard(f.intransit[addr := now].Keys, f.intransit.Keys + {addr});
    }
  }

  lemma CardUnion(s: set<Addr>, x: Addr)
    ensures |s + {x}| <= |s| + 1
  {
  }

  lemma {:induction false} SubsetCard(a: set<Addr>, b: set<Addr>)
    requires a <= b
    ensures |a| <= |b|
    decreases b
  {
    if a != {} {
      var x :| x in a;
      SubsetCard(a - {x}, b - {x});
    }
  }

  /** Draining keeps the bound and the visited set, and stops with an empty queue or over the transit limit. */
  lemma {:induction false} DrainStops(f: Frontier, now: int)
    requires !f.paused && Bounded(f)
    ensures Bounded(Drain(f, now)) && Drain(f, now).visited == f.visited && !Drain(f, now).paused
    ensures Drain(f, now).queue == [] || |Drain(f, now).intransit| > MaxTransit
    decreases |f.queue|
  {
    if f.queue != [] {
      var g := f.(queue := f.queue[..|f.queue| - 1]);
      GetPeersSpec(g, f.queue[|f.queue| - 1], now);
      var r := GetPeersOf(g, f.queue[|f.queue| - 1], now);
      if r.1 {
        DrainStops(r.0, now);
      }
    }
  }

  /** Draining sends only to queued addresses that were not visited. */
  lemma {:induction false} DrainSends(f: Frontier, now: int)
    ensures |f.sent| <= |Drain(f, now).sent|
    ensures forall k :: |f.sent| <= k < |Drain(f, now).sent| ==> Drain(f, now).sent[k] in f.queue && Drain(f, now).sent[k] !in f.visited
    decreases |f.queue|
  {
    DrainPrefix(f, now);
    if f.queue != [] {
      var addr := f.queue[|f.queue| - 1];
      var g := f.(queue := f.queue[..|f.queue| - 1]);
      var r := GetPeersOf(g, addr, now);
      if r.1 {
        DrainSends(r.0, now);
        DrainPrefix(r.0, now);
        var d := Drain(r.0, now);
        assert forall a :: a in r.0.queue ==> a in f.queue;
        assert r.0.sent == f.sent || (r.0.sent == f.sent + [addr] && addr !in f.visited);
        forall k | |f.sent| <= k < |d.sent|
          ensures d.sent[k] in f.queue && d.sent[k] !in f.visited
        {
          if k == |f.sent| && r.0.sent != f.sent {
            assert d.sent[..|r.0.sent|][k] == d.sent[k];
          }
        }
      }
    }
  }

  /** With room in transit, the next request after `resume` goes to the most recently queued unvisited address. */
  lemma DrainLifo(f: Frontier, now: int)
    requires !f.paused && |f.intransit| <= MaxTransit && f.queue != []
    requires f.queue[|f.queue| - 1] !in f.visited
    ensures |Drain(f, now).sent| > |f.sent| && Drain(f, now).sent[|f.sent|] == f.queue[|f.queue| - 1]
  {
    var addr := f.queue[|f.queue| - 1];
    var r := GetPeersOf(f.(queue := f.queue[..|f.queue| - 1]), addr, now);
    assert r.0.sent == f.sent + [addr];
    DrainPrefix(r.0, now);
  }

  /** Draining only appends to the send log. */
  lemma {:induction false} DrainPrefix(f: Frontier, now: int)
    ensures |f.sent| <= |Drain(f, now).sent| && Drain(f, now).sent[..|f.sent|] == f.sent
    decreases |f.queue|
  {
    if f.queue != [] {
      var addr := f.queue[|f.queue| - 1];
      var r := GetPeersOf(f.(queue := f.queue[..|f.queue| - 1]), addr, now);
      if r.1 {
        DrainPrefix(r.0, now);
        var d := Drain(r.0, now);
        assert r.0.sent[..|f.sent|] == f.sent;
        assert d.sent[..|f.sent|] == d.sent[..|r.0.sent|][..|f.sent|];
      }
    }
  }

  /** Peer addresses not seen before, each once, in order of arrival. */
  function Fresh(seen: set<Addr>, addrs: seq<Addr>): seq<Addr>
  {
    if addrs == [] then []
    else
      var init, x := addrs[..|addrs| - 1], addrs[|addrs| - 1];
      Fresh(seen, init) + (if x in seen || x in init then [] else [x])
  }

  /** The addresses of a list, as a set. */
  function Elems(s: seq<Addr>): (r: set<Addr>)
    ensures forall a :: a in r <==> a in s
  {
    if s == [] then {} else Elems(s[..|s| - 1]) + {s[|s| - 1]}
  }

  /**
   * The `forEach` of `peer` over `addrs`, starting from the peers `seen`
   * so far: the addresses remembered afterwards, and the ones emitted.
   */
  method ReportEach(seen: set<Addr>, addrs: seq<Addr>) returns (peers: set<Addr>, news: seq<Addr>)
    ensures peers == seen + Elems(addrs)
    ensures news == Fresh(seen, addrs)
  {
    peers, news := seen, [];
    var i := 0;
    while i < |addrs|
      invariant i <= |addrs|
      invariant peers == seen + Elems(addrs[..i])
      invariant news == Fresh(seen, addrs[..i])
    {
      FreshStep(seen, addrs, i);
      ElemsStep(addrs, i);
      assert (addrs[i] in peers) == (addrs[i] in seen || addrs[i] in addrs[..i]);
      if addrs[i] !in peers {
        news := news + [addrs[i]];
        peers := peers + {addrs[i]};
      }
      i := i + 1;
    }
    assert addrs[..i] == addrs;
  }

  lemma FreshStep(seen: set<Addr>, addrs: seq<Addr>, i: nat)
    requires i < |addrs|
    ensures Fresh(seen, addrs[..i + 1]) ==
            Fresh(seen, addrs[..i]) + (if addrs[i] in seen || addrs[i] in addrs[..i] then [] else [addrs[i]])
  {
    assert addrs[..i + 1][..i] == addrs[..i];
  }

  lemma ElemsStep(s: seq<Addr>, i: nat)
    requires i < |s|
    ensures Elems(s[..i + 1]) == Elems(s[..i]) + {s[i]}
  {
    assert s[..i + 1][..i] == s[..i];
  }

  predicate Distinct(s: seq<Addr>)
  {
    forall i, j :: 0 <= i < j < |s| ==> s[i] != s[j]
  }

  /** The fresh addresses are new, pairwise different, and are exactly the unseen ones. */
  lemma {:induction false} FreshSpec(seen: set<Addr>, addrs: seq<Addr>)
    ensures Distinct(Fresh(seen, addrs))
    ensures forall k :: 0 <= k < |Fresh(seen, addrs)| ==> Fresh(seen, addrs)[k] !in seen && Fresh(seen, addrs)[k] in addrs
    ensures forall a :: a in addrs && a !in seen ==> a in Fresh(seen, addrs)
  {
    if addrs != [] {
      var init, x := addrs[..|addrs| - 1], addrs[|addrs| - 1];
      FreshSpec(seen, init);
      var p := Fresh(seen, init);
      assert forall a :: a in addrs ==> a == x || a in init;
      assert forall a :: a in init ==> a in addrs;
      if !(x in seen || x in init) {
        assert forall k :: 0 <= k < |p| ==> p[k] != x;
      }
    }
  }

  // ------------------------------------------------------------ the crawler

  class DHT {
    /** `peers`: every peer address reported. */
    var peers: set<Addr>
    var visited: set<Addr>
    /** `intransit`: address to the time of its request. */
    var intransit: map<Addr, int>
    var queue: seq<Addr>
    var paused: bool
    /** Addresses a `get_peers` query was sent to, in order. */
    var sent: seq<Addr>
    /** The `peer` events, in order. */
    var emitted: seq<Addr>

    function Snapshot(): Frontier
      reads this
    {
      Frontier(queue, intransit, visited, paused, sent)
    }

    /** Each peer is reported once, and every reported peer is remembered; the transit bound holds. */
    ghost predicate Valid()
      reads this
    {
      Distinct(emitted) && (forall k :: 0 <= k < |emitted| ==> emitted[k] in peers) && Bounded(Snapshot())
    }

    /** `new DHT(infoHash, {bootstrap})`: empty, then `getPeers` on each bootstrap node unless disabled. */
    constructor (bootstrap: bool, now: int)
      ensures Valid() && peers == {} && emitted == []
      ensures Snapshot() == Visit(Frontier([], map[], {}, false, []), if bootstrap then Bootstrap else [], now)
    {
      peers := {};
      visited := {};
      intransit := map[];
      queue := [];
      paused := false;
      sent := [];
      emitted := [];
      new;
      if bootstrap {
        VisitAll(Bootstrap, now);
      }
    }

    method GetPeers(addr: Addr, now: int) returns (ok: bool)
      requires Valid()
      modifies this`queue, this`intransit, this`sent
      ensures Valid()
      ensures (Snapshot(), ok) == GetPeersOf(old(Snapshot()), addr, now)
    {
      GetPeersSpec(Snapshot(), addr, now);
      if paused || |intransit| > MaxTransit {
        if addr !in visited {
          queue := queue + [addr];
        }
        return false;
      }
      if addr in visited {
        return true;
      }
      intransit := intransit[addr := now];
      sent := sent + [addr];
      return true;
    }

    /** `resume()`: the queue is popped until empty or until `getPeers` reports false. */
    method Resume(now: int)
      requires Valid()
      modifies this`queue, this`intransit, this`sent, this`paused
      ensures Valid()
      ensures Snapshot() == ResumeOf(old(Snapshot()), now)
    {
      paused := false;
      while queue != []
        invariant Valid() && !paused
        invariant Drain(Snapshot(), now) == ResumeOf(old(Snapshot()), now)
        decreases |queue|
      {
        var addr := queue[|queue| - 1];
        queue := queue[..|queue| - 1];
        var ok := GetPeers(addr, now);
        if !ok {
          return;
        }
      }
    }

    method Pause()
      modifies this`paused
      ensures paused
    {
      paused := true;
    }

    /** `nodes.forEach(node)`: `getPeers` on each. */
    method VisitAll(nodes: seq<Addr>, now: int)
      requires Valid()
      modifies this`queue, this`intransit, this`sent
      ensures Valid()
      ensures Snapshot() == Visit(old(Snapshot()), nodes, now)
    {
      var i := 0;
      while i < |nodes|
        invariant i <= |nodes| && Valid()
        invariant Visit(Snapshot(), nodes[i..], now) == Visit(old(Snapshot()), nodes, now)
      {
        assert nodes[i..][1..] == nodes[i + 1..];
        var _ := GetPeers(nodes[i], now);
        i := i + 1;
      }
    }

    /** `values.forEach(peer)`: report each address not reported before. */
    method Report(addrs: seq<Addr>)
      requires Valid()
      modifies this`peers, this`emitted
      ensures Valid()
      ensures emitted == old(emitted) + Fresh(old(peers), addrs)
      ensures peers == old(peers) + Elems(addrs)
    {
      ghost var seen0 := peers;
      var seen, news := ReportEach(peers, addrs);
      peers, emitted := seen, emitted + news;
      ReportValid(old(emitted), seen0, addrs);
      assert Distinct(emitted);
    }

    /**
     * A UDP message from `addr`: the sender becomes visited and leaves the
     * transit set; a decodable reply's peers are reported and its nodes
     * asked, then the queue is drained unless paused. `reply` is the
     * decoded message: `None` when bencode throws, otherwise the addresses
     * `compact2string` made of `r.values` (`None` when it threw) and the
     * bytes of `r.nodes`.
     */
    method OnMessage(addr: Addr, now: int, reply: Option<(Option<seq<Addr>>, Bytes)>)
      requires Valid()
      modifies this
      ensures Valid() && visited == old(visited) + {addr}
      ensures reply.None? ==> (queue == old(queue) && sent == old(sent) && emitted == old(emitted)
        && intransit == old(intransit) - {addr} && paused == old(paused))
      ensures reply.Some? ==> emitted == old(emitted) + Fresh(old(peers), PeerInfo(reply.value.0))
      ensures reply.Some? ==>
        var f := Visit(Frontier(old(queue), old(intransit) - {addr}, old(visited) + {addr}, old(paused), old(sent)), NodeInfo(reply.value.1), now);
        Snapshot() == if f.paused then f else ResumeOf(f, now)
    {
      Heard(addr);
      if reply.Some? {
        Follow(reply.value.0, reply.value.1, now);
      }
    }

    /** The sender of a message is visited and no longer in transit. */
    method Heard(addr: Addr)
      requires Valid()
      modifies this`visited, this`intransit
      ensures Valid() && visited == old(visited) + {addr} && intransit == old(intransit) - {addr}
    {
      visited := visited + {addr};
      intransit := intransit - {addr};
      SubsetCard(intransit.Keys, old(intransit).Keys);
    }

    /** A decoded reply: report its peers, ask its nodes, then drain the queue unless paused. */
    method Follow(values: Option<seq<Addr>>, compact: Bytes, now: int)
      requires Valid()
      modifies this`queue, this`intransit, this`sent, this`paused, this`peers, this`emitted
      ensures Valid()
      ensures emitted == old(emitted) + Fresh(old(peers), PeerInfo(values))
      ensures var f := Visit(old(Snapshot()), NodeInfo(compact), now);
        Snapshot() == if f.paused then f else ResumeOf(f, now)
    {
      Report(PeerInfo(values));
      var nodes := ParseNodeInfo(compact);
      VisitAll(nodes, now);
      if !paused {
        Resume(now);
      }
    }

    /** The once-a-second sweep: requests older than two seconds leave the transit set, then the queue is drained unless paused. */
    method Sweep(now: int)
      requires Valid()
      modifies this`queue, this`intransit, this`sent, this`paused
      ensures Valid()
      ensures |old(sent)| <= |sent| && forall a :: a in intransit.Keys - old(intransit).Keys ==> a in sent[|old(sent)|..]
      ensures var f := Frontier(old(queue), Fresh2s(old(intransit), now), old(visited), old(paused), old(sent));
        Snapshot() == if f.paused then f else ResumeOf(f, now)
    {
      intransit := Fresh2s(intransit, now);
      SubsetCard(intransit.Keys, old(intransit).Keys);
      if !paused {
        Resume(now);
        ResumeNew(Frontier(old(queue), Fresh2s(old(intransit), now), old(visited), old(paused), old(sent)), now);
      }
    }
  }

  /** The transit entries that `now - time > 2000` does not expire. */
  function Fresh2s(intransit: map<Addr, int>, now: int): (r: map<Addr, int>)
    ensures r.Keys <= intransit.Keys
    ensures forall a :: a in r <==> a in intransit && now - intransit[a] <= 2000
  {
    map a | a in intransit && now - intransit[a] <= 2000 :: intransit[a]
  }

  /** New transit entries after `resume` are addresses it sent to. */
  lemma {:induction false} ResumeNew(f: Frontier, now: int)
    ensures |f.sent| <= |ResumeOf(f, now).sent|
    ensures forall a :: a in ResumeOf(f, now).intransit.Keys - f.intransit.Keys ==> a in ResumeOf(f, now).sent[|f.sent|..]
  {
    DrainNew(f.(paused := false), now);
  }

  lemma {:induction false} DrainNew(f: Frontier, now: int)
    ensures |f.sent| <= |Drain(f, now).sent|
    ensures forall a :: a in Drain(f, now).intransit.Keys - f.intransit.Keys ==> a in Drain(f, now).sent[|f.sent|..]
    decreases |f.queue|
  {
    DrainPrefix(f, now);
    if f.queue != [] {
      var addr := f.queue[|f.queue| - 1];
      var r := GetPeersOf(f.(queue := f.queue[..|f.queue| - 1]), addr, now);
      if r.1 {
        DrainNew(r.0, now);
        DrainPrefix(r.0, now);
        var d := Drain(r.0, now);
        assert forall a :: a in d.sent[|r.0.sent|..] ==> a in d.sent[|f.sent|..];
        if addr in r.0.intransit.Keys - f.intransit.Keys {
          assert r.0.sent == f.sent + [addr];
          assert d.sent[|f.sent|] == addr;
        }
      }
    }
  }

  /** Reporting keeps each peer reported once and remembered. */
  lemma ReportValid(emitted: seq<Addr>, seen: set<Addr>, addrs: seq<Addr>)
    requires Distinct(emitted) && forall k :: 0 <= k < |emitted| ==> emitted[k] in seen
    ensures Distinct(emitted + Fresh(seen, addrs))
    ensures forall k :: 0 <= k < |emitted + Fresh(seen, addrs)| ==>
      (emitted + Fresh(seen, addrs))[k] in seen + Elems(addrs)
  {
    FreshSpec(seen, addrs);
    var e := emitted + Fresh(seen, addrs);
    forall i, j | 0 <= i < j < |e|
      ensures e[i] != e[j]
    {
      if j >= |emitted| && i < |emitted| {
        assert e[j] !in seen;
      }
    }
    forall k | 0 <= k < |e|
      ensures e[k] in seen + Elems(addrs)
    {
      if k >= |emitted| {
        var a := e[k];
        assert a in addrs;
        var m :| 0 <= m < |addrs| && addrs[m] == a;
      }
    }
  }
}
