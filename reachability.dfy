/**
 * Ping tests (`ping_objects` and its inner `ping`).
 *
 * Every address that is not a network range is pinged twice with the system
 * `ping` command under a five-second timeout; the row is pingable exactly when
 * the command exits with status zero in time. The operating system name and
 * the outcome of running a command are parameters here.
 */
module Reachability {
  import opened Inventory

  /** How running a command ended. Only `ExitedZero` counts as success. */
  datatype ProbeOutcome =
    | ExitedZero       // the command finished with exit status 0
    | ExitedNonZero    // the command finished with another status
    | TimedOut         // the timeout expired first
    | Failed           // the command could not be started or raised otherwise

  /** Runs a command line with a timeout in seconds. */
  type Runner = (seq<string>, nat) -> ProbeOutcome

  /** Stored for a network range instead of a ping result. */
  const SkipNetworkRange: string := "SKIP - NETWORK RANGE"
  const No: string := "NO"
  /** Seconds allowed for one ping command. */
  const PingTimeout: nat := 5

  /** ASCII lower case, as `str.lower` treats the letters `A`-`Z`. */
  function Lower(s: string): (t: string)
    ensures |t| == |s|
    ensures forall k :: 0 <= k < |s| ==> !('A' <= t[k] <= 'Z')
    ensures forall k :: 0 <= k < |s| ==> (t[k] == s[k] <==> !('A' <= s[k] <= 'Z'))
    ensures forall k :: 0 <= k < |s| && 'A' <= s[k] <= 'Z' ==> t[k] as int == s[k] as int + 32
  {
    seq(|s|, k requires 0 <= k < |s| =>
      if 'A' <= s[k] <= 'Z' then ((s[k] as int) - ('A' as int) + ('a' as int)) as char else s[k])
  }

  /** The platform test: the system name, lower-cased, is `windows`. */
  predicate IsWindows(system: string)
  {
    Lower(system) == "windows"
  }

  /** The count flag of `ping`: `-n` on Windows, `-c` elsewhere. */
  function CountFlag(system: string): (f: string)
    ensures f == "-n" <==> IsWindows(system)
    ensures f == "-c" <==> !IsWindows(system)
  {
    if IsWindows(system) then "-n" else "-c"
  }

  /** The command line: `ping`, the count flag, two echo requests, the address. */
  function PingCommand(ip: string, system: string): (cmd: seq<string>)
    ensures |cmd| == 4 && cmd[0] == "ping" && cmd[2] == "2" && cmd[3] == ip
    ensures cmd[1] == CountFlag(system)
  {
    ["ping", CountFlag(system), "2", ip]
  }

  /** `ping(ip)`: `YES` when the command exits with status zero within the timeout, `NO` otherwise. */
  function Ping(ip: string, system: string, run: Runner): (r: string)
    ensures r == Yes <==> run(PingCommand(ip, system), PingTimeout) == ExitedZero
    ensures r == No <==> run(PingCommand(ip, system), PingTimeout) != ExitedZero
  {
    match run(PingCommand(ip, system), PingTimeout)
    case ExitedZero => Yes
    case ExitedNonZero => No
    case TimedOut => No
    case Failed => No
  }

  /** The value `ping_objects` stores for one address: ranges are never pinged. */
  function Pingable(ip: string, system: string, run: Runner): (r: string)
    ensures IsRange(ip) <==> r == SkipNetworkRange
    ensures !IsRange(ip) ==> r == Ping(ip, system, run)
    ensures r in {Yes, No, SkipNetworkRange}
  {
    if '/' !in ip && '-' !in ip then Ping(ip, system, run) else SkipNetworkRange
  }

  /** A range is decided without running any command: any two runners give the same value. */
  lemma RangeNotPinged(ip: string, system: string, run1: Runner, run2: Runner)
    requires IsRange(ip)
    ensures Pingable(ip, system, run1) == Pingable(ip, system, run2)
  {
  }

  /** The value depends on the runner only through the outcome of the one ping command. */
  lemma OnlyThePingCommandMatters(ip: string, system: string, run1: Runner, run2: Runner)
    requires run1(PingCommand(ip, system), PingTimeout) == run2(PingCommand(ip, system), PingTimeout)
    ensures Pingable(ip, system, run1) == Pingable(ip, system, run2)
  {
  }

  /** The platform test ignores letter case: `Windows` selects `-n`, `Linux` selects `-c`. */
  lemma PlatformFlags(windows: string, linux: string)
    requires windows == "Windows" && linux == "Linux"
    ensures CountFlag(windows) == "-n" && CountFlag(linux) == "-c"
  {
    assert Lower(windows) == "windows";
    assert Lower(linux)[0] == 'l';
  }

  /** The write-back of `ping_objects`: only the pingable column changes. */
  function PingRow(r: Row, system: string, run: Runner): (s: Row)
    ensures s.fwNetPingable == Pingable(r.netAddress, system, run)
    ensures s.(fwNetPingable := r.fwNetPingable) == r
  {
    r.(fwNetPingable := Pingable(r.netAddress, system, run))
  }

  /** Pinging a row again with the same runner stores the same value: the address is never written. */
  lemma PingRowIdempotent(r: Row, system: string, run: Runner)
    ensures PingRow(PingRow(r, system, run), system, run) == PingRow(r, system, run)
  {
    assert PingRow(r, system, run).netAddress == r.netAddress;
  }

  /** `ping_objects`: each row's pingable column is set from its own address. */
  method PingObjects(table: array<Row>, system: string, run: Runner)
    modifies table
    ensures forall k :: 0 <= k < table.Length ==> table[k] == PingRow(old(table[k]), system, run)
  {
    for k := 0 to table.Length
      invariant forall m :: 0 <= m < k ==> table[m] == PingRow(old(table[m]), system, run)
      invariant forall m :: k <= m < table.Length ==> table[m] == old(table[m])
    {
      table[k] := PingRow(table[k], system, run);
    }
  }
}
