/** The key under which the resolver caches answers and the dialler counts connects. */
module DnsKey {
  import opened Bytes

  /** A trimmed, lower-cased host and a port. */
  datatype Key = Key(host: string, port: u16)
}
