/** The activity_logs table as an append-only sequence
    (src/Models/ActivityLog.php, `log`). The client address and user agent
    the log call also records are not modelled. */
module Audit {
  import opened Php

  /** A JSON scalar inside action_details. */
  datatype Scalar = SBool(b: bool) | SInt(i: int) | SStr(s: string) | SNull

  datatype Entry = Entry(
    userType: string,
    userId: Option<int>,
    username: Option<string>,
    action: string,
    details: map<string, Scalar>,
    apiKeyId: Option<nat>)

  class Log {
    var entries: seq<Entry>

    constructor (entries: seq<Entry>)
      ensures this.entries == entries
    {
      this.entries := entries;
    }

    /** Appends the entries a request writes, oldest first. */
    method Append(es: seq<Entry>)
      modifies this
      ensures entries == old(entries) + es
    {
      entries := entries + es;
    }
  }
}
