/**
 * The linear blocklist scan `isPeerBlocked` (`lib/dht.js`, and the same
 * method on `TorrentStream` in `lib/TorrentStream.js`) and the routing of
 * DHT `peer` events: a blocked address is reported, any other is
 * connected to.
 *
 * Addresses arrive as the numbers `ip.toLong` makes of them; a block
 * entry's bounds are `None` when missing or empty (falsy).
 */
module PeerBlock {
  import opened Wrappers

  /** One entry of `opts.blocklist`: `startAddress`, `endAddress` and `reason`. */
  datatype Entry = Entry(startAddress: Option<int>, endAddress: Option<int>, reason: Option<string>)

  /** What a match reports: the entry's reason, or `true` when it has none (or an empty one). */
  datatype Reason = Because(text: string) | True

  function ReasonOf(e: Entry): (r: Reason)
    ensures r.Because? <==> e.reason.Some? && e.reason.value != ""
  {
    if e.reason.Some? && e.reason.value != "" then Because(e.reason.value) else True
  }

  /** Entry `e` blocks `addr`: both bounds present, both inclusive. */
  predicate Matches(e: Entry, addr: int)
  {
    e.startAddress.Some? && e.endAddress.Some? && e.startAddress.value <= addr <= e.endAddress.value
  }

  /** The reason of the first matching entry, or `None` (`null`) when none matches. */
  function FirstMatch(list: seq<Entry>, addr: int): Option<Reason>
  {
    if list == [] then None
    else if Matches(list[0], addr) then Some(ReasonOf(list[0]))
    else FirstMatch(list[1..], addr)
  }

  /** The first match decides: `None` iff no entry matches, otherwise the reason of the earliest match. */
  lemma {:induction false} FirstMatchSpec(list: seq<Entry>, addr: int)
    ensures FirstMatch(list, addr).None? <==> forall k :: 0 <= k < |list| ==> !Matches(list[k], addr)
    ensures FirstMatch(list, addr).Some? ==>
      exists k :: 0 <= k < |list| && Matches(list[k], addr) && FirstMatch(list, addr).value == ReasonOf(list[k])
        && forall j :: 0 <= j < k ==> !Matches(list[j], addr)
  {
    if list != [] {
      FirstMatchSpec(list[1..], addr);
      if !Matches(list[0], addr) {
        assert forall k :: 1 <= k < |list| ==> list[k] == list[1..][k - 1];
        if FirstMatch(list, addr).Some? {
          var k :| 0 <= k < |list[1..]| && Matches(list[1..][k], addr) && FirstMatch(list[1..], addr).value == ReasonOf(list[1..][k])
            && forall j :: 0 <= j < k ==> !Matches(list[1..][j], addr);
          assert list[k + 1] == list[1..][k];
          assert forall j :: 1 <= j < k + 1 ==> list[j] == list[1..][j - 1];
        }
      }
    }
  }

  /** `isPeerBlocked(addr)`: the scan, skipping entries without both bounds and stopping at the first match. */
  method IsPeerBlocked(addr: int, blocklist: seq<Entry>) returns (blocked: Option<Reason>)
    ensures blocked == FirstMatch(blocklist, addr)
  {
    blocked := None;
    var i := 0;
    while i < |blocklist|
      invariant i <= |blocklist|
      invariant FirstMatch(blocklist, addr) == FirstMatch(blocklist[i..], addr)
    {
      var block := blocklist[i];
      assert blocklist[i..][1..] == blocklist[i + 1..];
      if block.startAddress.None? || block.endAddress.None? {
        i := i + 1;
        continue;
      }
      if block.startAddress.value <= addr <= block.endAddress.value {
        blocked := Some(ReasonOf(block));
        break;
      }
      i := i + 1;
    }
  }

  /** `TorrentStream.prototype.isPeerBlocked(addr, blocklist)`: a list given by the caller, or the configured one. */
  method IsPeerBlockedIn(addr: int, given: Option<seq<Entry>>, configured: seq<Entry>) returns (blocked: Option<Reason>)
    ensures blocked == FirstMatch(if given.Some? then given.value else configured, addr)
  {
    var list := if given.Some? then given.value else configured;
    blocked := IsPeerBlocked(addr, list);
  }

  /** What the engine hears about a DHT peer. */
  datatype Event = BlockedPeer(addr: string, reason: Reason) | Peer(addr: string)

  /** The `peer` handler of `lib/dht.js`, with the engine's events and connections as logs. */
  class Router {
    const blocklist: seq<Entry>
    var events: seq<Event>
    var connected: seq<string>

    constructor (blocklist: seq<Entry>)
      ensures this.blocklist == blocklist && events == [] && connected == []
    {
      this.blocklist := blocklist;
      events := [];
      connected := [];
    }

    /**
     * A peer `addr` (numerically `long`): with a non-empty blocklist and a
     * match, `blocked-peer` with the reason and no connection; otherwise
     * `peer` and a connection.
     */
    method OnPeer(addr: string, long: int)
      modifies this`events, this`connected
      ensures |blocklist| > 0 && FirstMatch(blocklist, long).Some? ==>
        events == old(events) + [BlockedPeer(addr, FirstMatch(blocklist, long).value)] && connected == old(connected)
      ensures !(|blocklist| > 0 && FirstMatch(blocklist, long).Some?) ==>
        events == old(events) + [Peer(addr)] && connected == old(connected) + [addr]
    {
      var blocked: Option<Reason> := None;
      if |blocklist| > 0 {
        blocked := IsPeerBlocked(long, blocklist);
      }
      if blocked.Some? {
        events := events + [BlockedPeer(addr, blocked.value)];
      } else {
        events := events + [Peer(addr)];
        connected := connected + [addr];
      }
    }
  }

  /** A peer is connected to exactly when no entry covers its address. */
  lemma ConnectedIffUncovered(blocklist: seq<Entry>, long: int)
    ensures !(|blocklist| > 0 && FirstMatch(blocklist, long).Some?) <==>
      forall k :: 0 <= k < |blocklist| ==> !Matches(blocklist[k], long)
  {
    FirstMatchSpec(blocklist, long);
  }
}
