/**
 * DNS lookup and compare (`resolve_dns` and `process_dns`).
 *
 * For each address that is not a network range, the script asks for the host
 * name of the address (`socket.gethostbyaddr`), then for the addresses of that
 * host name (`socket.gethostbyname_ex`), records the comma-joined list, and
 * reports whether the original address is among them. Ranges are skipped
 * without any lookup. The two name-service calls are parameters here: each is
 * a function from its argument to its answer, `None` standing for a lookup
 * that raised.
 */
module Dns {
  import opened Wrappers
  import opened Text
  import opened Inventory

  /** The three values `resolve_dns` returns for one address. */
  datatype DnsResult = DnsResult(hostName: string, reverseLookup: string, verdict: string)

  /** Host name and verdict of an address that is a network range. */
  const SkipNetworkRange: string := "SKIP-NETWORK RANGE"
  const NoMatch: string := "NO MATCH"
  const Match: string := "MATCH"

  /** The host name of an address, or `None` when the lookup raises. */
  type ByAddress = string -> Option<string>
  /** The addresses of a host name, in the resolver's order, or `None` when the lookup raises. */
  type ByName = string -> Option<seq<string>>

  /**
   * `resolve_dns`. A range gets the skip marker as host name and verdict and
   * `N/A` as reverse lookup. Otherwise everything starts as `N/A`, `N/A`,
   * `NO MATCH`; a found host name replaces the first, a found address list
   * replaces the second by its comma join, and the verdict is `MATCH` exactly
   * when the address is in that list.
   */
  function ResolveDns(address: string, byAddr: ByAddress, byName: ByName): (r: DnsResult)
    ensures IsRange(address) ==> r == DnsResult(SkipNetworkRange, NotApplicable, SkipNetworkRange)
    ensures !IsRange(address) && byAddr(address).None? ==> r == DnsResult(NotApplicable, NotApplicable, NoMatch)
    ensures !IsRange(address) && byAddr(address).Some? ==> r.hostName == byAddr(address).value
    ensures !IsRange(address) && byAddr(address).Some? && byName(byAddr(address).value).None? ==>
              r.reverseLookup == NotApplicable && r.verdict == NoMatch
    ensures !IsRange(address) && byAddr(address).Some? && byName(byAddr(address).value) == Some([]) ==>
              r.reverseLookup == "" && r.verdict == NoMatch
    ensures r.verdict == Match <==>
              && !IsRange(address)
              && byAddr(address).Some?
              && byName(byAddr(address).value).Some?
              && address in byName(byAddr(address).value).value
    ensures r.verdict == SkipNetworkRange <==> IsRange(address)
    ensures r.verdict in {SkipNetworkRange, Match, NoMatch}
  {
    if IsRange(address) then
      DnsResult(SkipNetworkRange, NotApplicable, SkipNetworkRange)
    else
      match byAddr(address)
      case None => DnsResult(NotApplicable, NotApplicable, NoMatch)
      case Some(host) =>
        match byName(host)
        case None => DnsResult(host, NotApplicable, NoMatch)
        case Some(ips) => DnsResult(host, Join(',', ips), if address in ips then Match else NoMatch)
  }

  /** A range is decided without consulting the resolver: any two resolvers give the same result. */
  lemma RangeNeedsNoLookup(address: string, a1: ByAddress, n1: ByName, a2: ByAddress, n2: ByName)
    requires IsRange(address)
    ensures ResolveDns(address, a1, n1) == ResolveDns(address, a2, n2)
  {
  }

  /** When the address has no host name, the forward lookup of names is never consulted. */
  lemma FailedAddressLookupStops(address: string, byAddr: ByAddress, n1: ByName, n2: ByName)
    requires byAddr(address).None?
    ensures ResolveDns(address, byAddr, n1) == ResolveDns(address, byAddr, n2)
  {
  }

  /**
   * The reverse lookup column holds the resolver's address list: splitting it
   * at commas gives the list back, as long as the list is non-empty and no
   * address contains a comma.
   */
  lemma ReverseLookupListed(address: string, byAddr: ByAddress, byName: ByName)
    requires !IsRange(address) && byAddr(address).Some?
    requires var ips := byName(byAddr(address).value);
      ips.Some? && |ips.value| >= 1 && forall k :: 0 <= k < |ips.value| ==> ',' !in ips.value[k]
    ensures Split(ResolveDns(address, byAddr, byName).reverseLookup, ',') == byName(byAddr(address).value).value
  {
    SplitJoin(byName(byAddr(address).value).value, ',');
  }

  /**
   * An example: 9.9.9.9 resolves to dns9.quad9.net, whose addresses
   * are 9.9.9.9 and 149.112.112.112; the verdict is `MATCH`.
   */
  lemma Quad9(address: string, host: string, byAddr: ByAddress, byName: ByName)
    requires address == "9.9.9.9" && host == "dns9.quad9.net"
    requires byAddr(address) == Some(host)
    requires byName(host) == Some(["9.9.9.9", "149.112.112.112"])
    ensures ResolveDns(address, byAddr, byName)
         == DnsResult("dns9.quad9.net", "9.9.9.9,149.112.112.112", Match)
  {
    assert !IsRange(address) by {
      assert forall k :: 0 <= k < |address| ==> address[k] != '/' && address[k] != '-';
    }
    assert Join(',', ["9.9.9.9", "149.112.112.112"]) == "9.9.9.9,149.112.112.112";
  }

  /** The write-back of `process_dns`: the three DNS columns take the result, nothing else changes. */
  function WithDns(r: Row, d: DnsResult): (s: Row)
    ensures s.fwNetHostName == d.hostName && s.fwNetReverseLookup == d.reverseLookup && s.nslookUpMatch == d.verdict
    ensures s.(fwNetHostName := r.fwNetHostName, fwNetReverseLookup := r.fwNetReverseLookup,
               nslookUpMatch := r.nslookUpMatch) == r
  {
    r.(fwNetHostName := d.hostName, fwNetReverseLookup := d.reverseLookup, nslookUpMatch := d.verdict)
  }

  /**
   * The DNS step applied to one row: resolve its address, write the result back.
   * Only the three DNS columns change, and the verdict is the skip marker exactly for ranges.
   */
  function DnsRow(r: Row, byAddr: ByAddress, byName: ByName): (s: Row)
    ensures s.(fwNetHostName := r.fwNetHostName, fwNetReverseLookup := r.fwNetReverseLookup,
               nslookUpMatch := r.nslookUpMatch) == r
    ensures s.nslookUpMatch == SkipNetworkRange <==> IsRange(r.netAddress)
  {
    WithDns(r, ResolveDns(r.netAddress, byAddr, byName))
  }

  /**
   * Running the DNS step twice with the same resolver gives the same row as
   * running it once: the lookup reads only the address, which it never writes.
   */
  lemma DnsRowIdempotent(r: Row, byAddr: ByAddress, byName: ByName)
    ensures DnsRow(DnsRow(r, byAddr, byName), byAddr, byName) == DnsRow(r, byAddr, byName)
  {
    var s := DnsRow(r, byAddr, byName);
    assert s.netAddress == r.netAddress;
  }

  /** The lookups `process_dns` submits: one result per row, from that row's address. */
  method ResolveAll(table: array<Row>, byAddr: ByAddress, byName: ByName) returns (results: seq<DnsResult>)
    ensures |results| == table.Length
    ensures forall m :: 0 <= m < table.Length ==> results[m] == ResolveDns(table[m].netAddress, byAddr, byName)
  {
    results := [];
    for k := 0 to table.Length
      invariant |results| == k
      invariant forall m :: 0 <= m < k ==> results[m] == ResolveDns(table[m].netAddress, byAddr, byName)
    {
      results := results + [ResolveDns(table[k].netAddress, byAddr, byName)];
    }
  }

  /**
   * `process_dns`: every row is resolved (the script submits them all to a
   * thread pool and waits for each), then each result is written back into
   * the row it came from.
   */
  method ProcessDns(table: array<Row>, byAddr: ByAddress, byName: ByName)
    modifies table
    ensures forall k :: 0 <= k < table.Length ==> table[k] == DnsRow(old(table[k]), byAddr, byName)
  {
    var results := ResolveAll(table, byAddr, byName);
    for k := 0 to table.Length
      invariant forall m :: 0 <= m < k ==> table[m] == WithDns(old(table[m]), results[m])
      invariant forall m :: k <= m < table.Length ==> table[m] == old(table[m])
    {
      table[k] := WithDns(table[k], results[k]);
    }
  }
}
