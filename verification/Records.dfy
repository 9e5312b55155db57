module Records {
  /** A stored row; `value` stands for its JSON document. */
  datatype Record = Record(table: string, key: string, path: string, value: string, updatedAtMs: nat, lsn: nat)
}
