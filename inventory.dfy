/**
 * One row of the firewall network-object inventory table, with the columns the
 * script reads and writes, and the literal flag values it stores in them.
 */
module Inventory {
  import opened Wrappers

  /** A value in one of the eight `netIPOct..` columns: an integer, or the `'N/A'` sentinel. */
  datatype Cell = Num(value: int) | NA

  /**
   * One inventory row. The field names are the table's column names.
   * `fwNetDropped` is optional because the column may hold no value
   * (a missing value in the loaded table) until it is normalised.
   */
  datatype Row = Row(
    netAddress: string,
    fwNetEnv: string,
    fwNetDateAdded: string,
    fwNetDropped: Option<string>,
    netUpdDate: string,
    fwNetHostName: string,
    fwNetReverseLookup: string,
    nslookUpMatch: string,
    netIPOct1L: Cell, netIPOct1U: Cell,
    netIPOct2L: Cell, netIPOct2U: Cell,
    netIPOct3L: Cell, netIPOct3U: Cell,
    netIPOct4L: Cell, netIPOct4U: Cell,
    fwNetPingable: string)

  /** The dropped flag of a row that left the inventory. */
  const Yes: string := "YES"
  /** The generic "not applicable" sentinel. */
  const NotApplicable: string := "N/A"

  /**
   * The network ranges are the addresses the DNS and ping steps skip:
   * those containing a `/` (CIDR block) or a `-` (hyphenated range).
   */
  predicate IsRange(address: string)
  {
    '/' in address || '-' in address
  }
}
