/**
 The types the storage and the state machine exchange with the consensus
 library they plug into: log entries (a client command or a cluster
 configuration, each stamped with the term it was created in) and the
 replicated state machine that a snapshot captures. The library's own
 configuration and client bookkeeping are type parameters here.
 */
module RaftTypes {
  import opened Bytes

  datatype LogEntryType<Cmd, Cfg> = Command(command: Cmd) | Config(config: Cfg)

  datatype LogEntry<Cmd, Cfg> = LogEntry(term: u32, entryType: LogEntryType<Cmd, Cfg>)
  {
    predicate IsConfig()
    {
      entryType.Config?
    }
  }

  /** The application state machine together with the cluster configuration and the last command id seen per client. */
  datatype RaftStateMachine<S, Cfg, Ids> = RaftStateMachine(inner: S, config: Cfg, clientLastCommandIds: Ids)
}
