# Firewall network-object inventory: a verified model

`FW_PROCESS_OBJECTS.py` keeps an inventory of firewall network objects. It
reconciles the previous snapshot of the inventory with the current one
(`calculate_deltas`), looks up each host address in DNS and checks that the
name resolves back to it (`resolve_dns`, `process_dns`), splits every address
into the octets of its lower and upper bound (`calculate_ranges` inside
`calculate_subnets`), and pings every host address (`ping` inside
`ping_objects`). This project models those four steps in Dafny and proves what
they promise.

Files and modules:

- `wrappers.dfy` (`Wrappers`): the `Option` type.
- `inventory.dfy` (`Inventory`): one inventory row, with the table's column
  names as field names, the `N/A` and `YES` flags, and the range test shared by
  the DNS and ping steps (an address holding `/` or `-`).
- `text.dfy` (`Text`): the parts of Python's `str.split`, `str.join`, `str()`
  and `int()` the script relies on, with their round trips.
- `deltas.dfy` (`Deltas`): `Reconcile`, a specification of the reconciled
  table, with its properties, and `CalculateDeltas`, which performs the
  script's column updates on arrays one step at a time and is proved to
  compute `Reconcile`.
- `subnets.dfy` (`Subnets`): IPv4 parsing as `ipaddress.ip_network(...,
  strict=False)` performs it, the hyphen and network branches of
  `calculate_ranges`, and `CalculateSubnets`, which writes the eight values of
  each row into the eight octet columns in place.
- `dns.dfy` (`Dns`): `ResolveDns` and the write-back loop `ProcessDns`.
- `reachability.dfy` (`Reachability`): the ping command line, the verdict,
  and the loop `PingObjects`.

The clock, the name service, the operating system name and the running of a
command are parameters: `today: string` stands for the formatted date; the
two lookups are functions `string -> Option<...>` whose `None` stands for a
lookup that raised; `system` is the value of `platform.system()`; a `Runner`
maps a command line and a timeout to how the command ended.

Three points where the code is easily misread, and what the model does:

- The eight values of `calculate_ranges` are the four lower integers followed
  by the four upper integers, and they are stored position by position into
  `netIPOct1L, netIPOct1U, netIPOct2L, netIPOct2U, netIPOct3L, netIPOct3U,
  netIPOct4L, netIPOct4U`. So `netIPOct1U` receives the second lower octet and
  `netIPOct3L` the first upper octet. They are not interleaved lower/upper per
  octet (`Subnets.ColumnLayout`, `Subnets.TenSlash24Columns`).
- Rows whose composite key repeats within one snapshot are not collapsed to
  the last one. Every previous row is kept, and every current row whose key is
  new is appended, duplicates included (`Deltas.SelectCount`,
  `Deltas.ReconcileOrder`).
- The comments at lines 91 and 95 swap the words: `gethostbyaddr` is the
  lookup by address (a reverse lookup), and `gethostbyname_ex` is the lookup by
  name. The column `fwNetReverseLookup` holds the result of the latter. The
  model names the two lookups `byAddr` and `byName`.

## Model

| member | source | states |
|---|---|---|
| Deltas.CalculateDeltas | FW_PROCESS_OBJECTS.py:21-70 | The table the script builds step by step is exactly `Reconcile(prev, curr, today)`. |
| Deltas.PreviousRows | FW_PROCESS_OBJECTS.py:44-47 | The previous snapshot with the removed keys flagged, equal to `Marked`. |
| Deltas.NewRows | FW_PROCESS_OBJECTS.py:42-52 | The new current rows stamped as new, equal to `NewObjects`. |
| Deltas.FinishRows | FW_PROCESS_OBJECTS.py:55-65 | Each combined row with its update date refreshed, then its missing flag filled. |
| Deltas.FlagRemoved | FW_PROCESS_OBJECTS.py:47 | Each previous row whose key is among the removed keys gets dropped flag `YES`; other rows are unchanged. |
| Deltas.SelectRows | FW_PROCESS_OBJECTS.py:50 | The loop picks the current rows whose key is new, in their order (equal to `Select`). |
| Deltas.Select | FW_PROCESS_OBJECTS.py:50 | The selection is no longer than the input, and every selected row is an input row whose key is in the key set. |
| Deltas.SelectMembership | FW_PROCESS_OBJECTS.py:50 | A row is selected if and only if it is an input row with its key in the key set. |
| Deltas.SelectCount | FW_PROCESS_OBJECTS.py:50 | Duplicates are kept: a row occurs in the selection as often as in the input when its key is in the key set, and never otherwise. |
| Deltas.KeyDistinguishes | FW_PROCESS_OBJECTS.py:34-35 | Two rows have the same key if and only if they have the same address and environment, provided addresses hold no bar. |
| Deltas.Reconcile | FW_PROCESS_OBJECTS.py:21-70 | One output row per previous row plus one per current row with a new key, and every output row has a dropped flag. |
| Deltas.StampNew | FW_PROCESS_OBJECTS.py:50-52 | Every new row gets dropped flag `N/A` and date added `today`; nothing else changes. |
| Deltas.RefreshDates | FW_PROCESS_OBJECTS.py:58-62 | A row flagged `YES` keeps its update date; every other row gets `today`. |
| Deltas.FillDroppedFlags | FW_PROCESS_OBJECTS.py:65 | A missing dropped flag becomes `N/A`; present flags stay. |
| Deltas.ReconcileOrder | FW_PROCESS_OBJECTS.py:47-55 | Previous rows first, in order, each unchanged except dropped flag and update date. Then the new current rows, in order, each unchanged except dropped flag, date added and update date. |
| Deltas.PreviousRowKept | FW_PROCESS_OBJECTS.py:47-65 | A previous row changes at most its dropped flag and update date. |
| Deltas.AddedRowKept | FW_PROCESS_OBJECTS.py:50-65 | An appended row changes at most its dropped flag, date added and update date. |
| Deltas.AddedRows | FW_PROCESS_OBJECTS.py:42-50 | A current row is appended if and only if its key is absent from the previous snapshot. |
| Deltas.ReconcileKeyAt | FW_PROCESS_OBJECTS.py:34-55 | The k-th output row has the key of the row it came from. |
| Deltas.ReconcileKeys | FW_PROCESS_OBJECTS.py:38-55 | The output's key set is the union of both snapshots' key sets. |
| Deltas.ReconcileDropped | FW_PROCESS_OBJECTS.py:44-65 | A previous row is `YES` if and only if its key left or it was already `YES`. A staying row keeps its flag, with a missing flag read as `N/A`. Appended rows are `N/A` and added today. |
| Deltas.ReconcileDates | FW_PROCESS_OBJECTS.py:58-65 | Every row has a dropped flag. A `YES` row keeps its previous update date and every other row is dated today. |
| Deltas.ReturningDroppedRow | FW_PROCESS_OBJECTS.py:47-62 | A previous `YES` row whose key reappears stays exactly as it was, and no row with its key is appended. |
| Deltas.SelfReconcile | FW_PROCESS_OBJECTS.py:21-70 | Reconciling a snapshot with itself keeps every row in place, flagged `N/A` and dated today. |
| Deltas.ScenarioOneAdded | FW_PROCESS_OBJECTS.py:42-62 | One carried-over row and one new row: two rows, both `N/A` and dated today, and the new one added today. |
| Deltas.ScenarioDropped | FW_PROCESS_OBJECTS.py:44-62 | A row missing from the current snapshot is flagged `YES` and keeps its update date. |
| Text.ParseAll | FW_PROCESS_OBJECTS.py:141-142 | `map(int, ...)` succeeds if and only if every piece is a digit string, and then yields one value per piece. |
| Text.ParseShow | FW_PROCESS_OBJECTS.py:145-146 | `int(str(n)) == n`, and `str(n)` has no leading zero. |
| Text.ParseAllShows | FW_PROCESS_OBJECTS.py:145-146 | `map(int, ...)` over printed numbers gives back the numbers. |
| Text.SplitJoin | FW_PROCESS_OBJECTS.py:98 | Splitting a join of separator-free pieces at the separator gives back the pieces. |
| Text.Split | FW_PROCESS_OBJECTS.py:140-142 | `str.split` with one separator always yields at least one piece. |
| Text.JoinSplit | FW_PROCESS_OBJECTS.py:140-142 | Joining the pieces of a split with the same separator gives back the string. |
| Text.ParseNat | FW_PROCESS_OBJECTS.py:141-142 | `int()` of one piece succeeds if and only if the piece is a non-empty ASCII digit string. |
| Text.Show | FW_PROCESS_OBJECTS.py:145-146 | `str()` of a non-negative integer is a non-empty digit string. |
| Subnets.ParseOctet | FW_PROCESS_OBJECTS.py:144 | An accepted octet is below 256. |
| Subnets.ParseAddress | FW_PROCESS_OBJECTS.py:144 | An accepted IPv4 address is below 2^32. |
| Subnets.ParsePrefix | FW_PROCESS_OBJECTS.py:144 | An accepted prefix, mask or hostmask yields a prefix length of at most 32. |
| Subnets.NetmaskPrefix | FW_PROCESS_OBJECTS.py:144 | A found prefix length has exactly the given netmask, and a prefix length is found whenever some length in range has that netmask. |
| Subnets.HostmaskPrefix | FW_PROCESS_OBJECTS.py:144 | A found prefix length has exactly the given hostmask, and a prefix length is found whenever some length in range has that hostmask. |
| Subnets.FormatNotDigits | FW_PROCESS_OBJECTS.py:144 | A dotted address after `/` is never read as a decimal prefix length. |
| Subnets.DottedPrefix | FW_PROCESS_OBJECTS.py:144 | A dotted address after `/` is read as a netmask, and only failing that as a hostmask. |
| Subnets.NetmaskPrefixOf | FW_PROCESS_OBJECTS.py:144 | The netmask of each length from 0 to 32 is found at exactly that length. |
| Subnets.HostmaskPrefixOf | FW_PROCESS_OBJECTS.py:144 | The hostmask of each length from 0 to 32 is found at exactly that length. |
| Subnets.NetmaskRead | FW_PROCESS_OBJECTS.py:144 | A printed netmask after `/` reads as its prefix length, for every length from 0 to 32. |
| Subnets.HostmaskNotNetmask | FW_PROCESS_OBJECTS.py:144 | The hostmask of a length from 1 to 31 lies between 1 and 2^31 - 1 and is no netmask. |
| Subnets.HostmaskRead | FW_PROCESS_OBJECTS.py:144 | A printed hostmask after `/` reads as its prefix length, for every length from 1 to 31. |
| Subnets.ExtremeMasks | FW_PROCESS_OBJECTS.py:144 | The all-zero mask reads as /0 and the all-one mask as /32: both are taken as netmasks. |
| Subnets.RangeTest | FW_PROCESS_OBJECTS.py:85 | A printed address is not a range, while an address with a prefix length and a hyphen range both are. |
| Subnets.ParseNetwork | FW_PROCESS_OBJECTS.py:144 | An accepted network has an address below 2^32 and a prefix length of at most 32. |
| Subnets.NetworkAddress | FW_PROCESS_OBJECTS.py:144-145 | The network address is aligned to its block size 2^(32-p), at most the address, and its block holds the address and fits below 2^32. |
| Subnets.Broadcast | FW_PROCESS_OBJECTS.py:146 | The broadcast address is at least the address, below 2^32, and exceeds the network address by the hostmask. |
| Subnets.Octets | FW_PROCESS_OBJECTS.py:145-146 | Four octets below 256 that recombine to the address. |
| Subnets.ParseFormat | FW_PROCESS_OBJECTS.py:145-146 | Printing an address and reading it back gives the same address, and its four octets as integers. |
| Subnets.FormatPieces | FW_PROCESS_OBJECTS.py:145-146 | `str()` of an address is the four decimal octets joined by dots, with no `/` and no `-`. |
| Subnets.HyphenBounds | FW_PROCESS_OBJECTS.py:139-142 | The hyphen branch succeeds only with exactly one `-`, and then gives at least one integer per half. |
| Subnets.CidrBounds | FW_PROCESS_OBJECTS.py:143-146 | The network branch succeeds if and only if `ip_network` accepts the address, and then gives the four octets of the network address and of the broadcast address. |
| Subnets.Bounds | FW_PROCESS_OBJECTS.py:139-146 | Each half holds at least one integer, and an address without `-` has bounds if and only if `ip_network` accepts it. |
| Subnets.RangesAsWritten | FW_PROCESS_OBJECTS.py:137-150 | As written, an address without `-` always gives eight values, the same ones as the corrected decomposition. |
| Subnets.CalculateRanges | FW_PROCESS_OBJECTS.py:137-150 | Always eight values. |
| Subnets.CidrRanges | FW_PROCESS_OBJECTS.py:143-150 | An accepted network gives the network address octets followed by the broadcast octets. A rejected one gives eight `N/A`. |
| Subnets.NetworkRanges | FW_PROCESS_OBJECTS.py:143-147 | The same, stated for a known network. |
| Subnets.NetworkOfPrefixedAddress | FW_PROCESS_OBJECTS.py:144 | `ip_network` reads a printed address with a decimal prefix length as that address and length. |
| Subnets.NetworkOfBareAddress | FW_PROCESS_OBJECTS.py:144 | A bare address is read as a /32. |
| Subnets.BareHostRanges | FW_PROCESS_OBJECTS.py:143-147 | A bare host address gives its own four octets, twice. |
| Subnets.PrefixedRanges | FW_PROCESS_OBJECTS.py:143-147 | An address with a prefix length gives the octets of its block's first and last addresses. |
| Subnets.NetworkCells | FW_PROCESS_OBJECTS.py:145-147 | A network gives eight values. |
| Subnets.SameBlockSameCells | FW_PROCESS_OBJECTS.py:145-146 | Two networks with the same network address and prefix length give the same eight values. |
| Subnets.HostBitsTolerated | FW_PROCESS_OBJECTS.py:144 | With `strict=False`, host bits are cleared: an address with a prefix gives the same ranges as its network address with that prefix. |
| Subnets.AlignedAddressKept | FW_PROCESS_OBJECTS.py:144-145 | An address with no host bits is its own network address. |
| Subnets.TenSlash24 | FW_PROCESS_OBJECTS.py:137-150 | `10.0.0.0/24` gives 10,0,0,0,10,0,0,255. |
| Subnets.HyphenRanges | FW_PROCESS_OBJECTS.py:139-147 | A hyphen range gives the integers of its halves verbatim, with no ordering check. With four per half that is the result, otherwise eight `N/A`. |
| Subnets.QuadRange | FW_PROCESS_OBJECTS.py:139-147 | Any two printed quads joined by `-` give those eight integers, lower quad first, in whatever order the quads are. |
| Subnets.ShownRange | FW_PROCESS_OBJECTS.py:139-147 | Two printed lists of integers joined by `-` give all their integers as written; the corrected decomposition keeps them only with four per list. |
| Subnets.RangeTextSplits | FW_PROCESS_OBJECTS.py:140-142 | A range text splits at `-` into its two halves, and each half at `.` into its pieces. |
| Subnets.HyphenRejected | FW_PROCESS_OBJECTS.py:139-150 | One `-` with a piece `int()` rejects (empty, a letter, a sign) gives eight `N/A`, as written and corrected. |
| Subnets.HalvesText | FW_PROCESS_OBJECTS.py:140 | An address with one `-` is the range text of the pieces of its two halves. |
| Subnets.HyphenAccepted | FW_PROCESS_OBJECTS.py:139-150 | A hyphenated address gives integers only if it is two lists of digit strings around one `-`; for the corrected decomposition, two lists of four. |
| Subnets.EmptyLowerHalf | FW_PROCESS_OBJECTS.py:139-150 | `-1.2.3.4` gives eight `N/A`. |
| Subnets.LetterInRange | FW_PROCESS_OBJECTS.py:139-150 | `1.2.x.4-5.6.7.8` gives eight `N/A`. |
| Subnets.EightAcrossHalves | FW_PROCESS_OBJECTS.py:139-156 | As written, `1.2.3-4.5.6.7.8` gives eight integers that fill the eight columns; the corrected decomposition gives eight `N/A`. |
| Subnets.ManyHyphens | FW_PROCESS_OBJECTS.py:140-150 | Two or more `-` cannot unpack into two halves: eight `N/A`. |
| Subnets.NotAnIp | FW_PROCESS_OBJECTS.py:137-150 | `not-an-ip` gives eight `N/A`. |
| Subnets.TooFewDots | FW_PROCESS_OBJECTS.py:144-150 | A non-range address with fewer than three dots gives eight `N/A`. |
| Subnets.Ipv6Network | FW_PROCESS_OBJECTS.py:144-150 | The IPv6 network `2001:db8::/32` gives eight `N/A`. |
| Subnets.ReversedRangeKept | FW_PROCESS_OBJECTS.py:139-142 | The range 10.0.0.9-10.0.0.5 is kept as given: the last lower integer is 9 and the last upper one is 5. |
| Subnets.UnevenRangeAsWritten | FW_PROCESS_OBJECTS.py:139-156 | As written, `1.2.3-4.5.6.7` yields seven values for eight columns. The corrected decomposition yields eight `N/A`. |
| Subnets.StoreRanges | FW_PROCESS_OBJECTS.py:152-156 | The eight values go into the eight columns in order, and no other column changes. |
| Subnets.ColumnLayout | FW_PROCESS_OBJECTS.py:152-156 | Lower integers go to `netIPOct1L..netIPOct2U`, upper to `netIPOct3L..netIPOct4U`, `N/A` on failure, and no other column changes. |
| Subnets.TenSlash24Columns | FW_PROCESS_OBJECTS.py:152-156 | For `10.0.0.0/24`, `netIPOct1U` is 0, `netIPOct3L` is 10 and `netIPOct4U` is 255. |
| Subnets.SubnetRow | FW_PROCESS_OBJECTS.py:156 | Filling a row's octet columns keeps its address. |
| Subnets.SubnetRowIdempotent | FW_PROCESS_OBJECTS.py:156 | Filling the octet columns again changes nothing. |
| Subnets.CalculateSubnets | FW_PROCESS_OBJECTS.py:134-159 | Every row's octet columns are filled from its own address, in place. |
| Dns.ResolveDns | FW_PROCESS_OBJECTS.py:75-111 | A range gives `SKIP-NETWORK RANGE`, `N/A`, `SKIP-NETWORK RANGE`. A failed address lookup gives `N/A`, `N/A`, `NO MATCH`. A found host name is stored; a failed name lookup leaves the reverse lookup `N/A`, and an empty address list makes it empty, both with `NO MATCH`. The verdict is `MATCH` if and only if the address is among the addresses of its host name. |
| Dns.RangeNeedsNoLookup | FW_PROCESS_OBJECTS.py:84-88 | A range's result does not depend on the resolver. |
| Dns.FailedAddressLookupStops | FW_PROCESS_OBJECTS.py:90-111 | When the address lookup fails, the name lookup is not consulted. |
| Dns.ReverseLookupListed | FW_PROCESS_OBJECTS.py:96-98 | The reverse lookup column splits at commas back into the resolver's address list. |
| Dns.Quad9 | FW_PROCESS_OBJECTS.py:90-107 | 9.9.9.9 → dns9.quad9.net → `9.9.9.9,149.112.112.112`, verdict `MATCH`. |
| Dns.WithDns | FW_PROCESS_OBJECTS.py:124-126 | The three DNS columns take the result and no other column changes. |
| Dns.DnsRow | FW_PROCESS_OBJECTS.py:119-126 | Only the three DNS columns of a row change, and its verdict is the skip marker if and only if its address is a range. |
| Dns.DnsRowIdempotent | FW_PROCESS_OBJECTS.py:119-126 | Repeating the DNS step with the same resolver changes nothing more. |
| Dns.ResolveAll | FW_PROCESS_OBJECTS.py:118-121 | One result per row, each resolved from that row's address. |
| Dns.ProcessDns | FW_PROCESS_OBJECTS.py:115-130 | Every row is resolved from its own address and the result is written back into that row. |
| Reachability.Lower | FW_PROCESS_OBJECTS.py:166 | Same length, no upper-case ASCII letter left, exactly the upper-case letters change, and each becomes the letter 32 code points later. |
| Reachability.CountFlag | FW_PROCESS_OBJECTS.py:166 | `-n` if and only if the system is Windows in any letter case, otherwise `-c`. |
| Reachability.PingCommand | FW_PROCESS_OBJECTS.py:167 | `ping`, the count flag, `2`, the address. |
| Reachability.PlatformFlags | FW_PROCESS_OBJECTS.py:166 | `Windows` selects `-n` and `Linux` selects `-c`. |
| Reachability.Ping | FW_PROCESS_OBJECTS.py:165-177 | `YES` if and only if the ping command exits with status zero within 5 seconds, `NO` otherwise. |
| Reachability.Pingable | FW_PROCESS_OBJECTS.py:180 | `SKIP - NETWORK RANGE` if and only if the address is a range, otherwise the ping verdict. Always one of the three values. |
| Reachability.RangeNotPinged | FW_PROCESS_OBJECTS.py:180 | A range's value does not depend on the runner. |
| Reachability.OnlyThePingCommandMatters | FW_PROCESS_OBJECTS.py:165-180 | The value depends only on the outcome of the one ping command. |
| Reachability.PingRow | FW_PROCESS_OBJECTS.py:180 | Only `fwNetPingable` changes. |
| Reachability.PingRowIdempotent | FW_PROCESS_OBJECTS.py:180 | Pinging a row again with the same runner stores the same value. |
| Reachability.PingObjects | FW_PROCESS_OBJECTS.py:162-183 | Every row's pingable column is set from its own address, in place. |

## Left out

- Reading and writing CSV files (`pd.read_csv`, the script's final save) and the `__main__` driver that chains the steps: file I/O.
- Logging and `print`: output only, with no effect on the table.
- The thread pool of `process_dns`: resolutions are independent and each result is written back into its own row, so the model resolves the rows one after another.
- Real DNS, real `ping` processes and `platform.system()`: they become the parameters `byAddr`, `byName`, `run` and `system`. The captured ping output only goes to the log.
- `datetime.now()`: it becomes the parameter `today`. Both calls in `calculate_deltas` are assumed to read the same day.
- The helper column `unique_key`, which the script adds to both snapshots and keeps in the output: the model computes the key with `Deltas.Key` instead of storing it.
- Missing values other than an empty `fwNetDropped`, and non-string addresses: every other cell is a string.
- Text.ParseAll: Python's `int()` also accepts surrounding whitespace, a sign, `_` between digits and non-ASCII digits. The model accepts only ASCII digit strings.
- Subnets.ParseNetwork: follows the rules of current `ipaddress` (no leading zeros in an octet). IPv6 networks are not parsed: a non-range address without three dots always fails, which gives the same eight `N/A` the script gives for IPv6.
- Subnets.CalculateRanges: for a hyphen range whose halves do not hold four integers each, the model gives eight `N/A` where the script either fails (halves holding other than eight integers in total, see Findings) or stores the eight integers in the eight columns (halves of, say, three and five integers, as in `1.2.3-4.5.6.7.8`, shown by `Subnets.EightAcrossHalves`). `Subnets.RangesAsWritten` keeps the script's values for both cases.
- Subnets.CalculateSubnets: on a table with no rows the script's eight-column assignment receives an empty list and fails; the model leaves the empty table as it is.

## Findings

| source | as written | input that shows it | evidently intended | confidence | as-written member | corrected member |
|---|---|---|---|---|---|---|
| FW_PROCESS_OBJECTS.py:139-156 | The hyphen branch returns however many integers the two halves hold. When they hold other than eight in total, the eight-column assignment receives a list of another length; that assignment is outside the `try`, so the whole step fails. | `1.2.3-4.5.6.7` (7 values) | A malformed range gives eight `N/A`, like any other address that cannot be decomposed | not executed; the length is proved, the failure of the assignment is inferred from pandas | Subnets.UnevenRangeAsWritten | Subnets.CalculateRanges |
