/**
 * The pickled store that both tools read: the collector falls back to `{}`
 * when it cannot be read, the exporter stops.
 */
module Stores {
  import opened OrderedDicts

  /** The outcome of unpickling the stored dictionary: any failure reads as `Absent`. */
  datatype Stored = Loaded(store: Dict) | Absent
}
