/**
 * A snapshot of the key-value cache the gateway reads sessions, permission
 * lists and masking rules from: the stored texts, and the keys that are live.
 */
module Cache {
  import opened Wrappers

  datatype Snapshot = Snapshot(values: map<string, string>, live: set<string>) {

    /** get(key): the stored text, or null when there is none. */
    function Get(key: string): Option<string> {
      if key in values then Some(values[key]) else None
    }

    /** hasKey(key): whether the key is live. */
    predicate HasKey(key: string) {
      key in live
    }
  }
}
