/**
 * Server configuration: where data is persisted and the two bind addresses.
 * Only the storage directory is required; the defaults leave it empty.
 */
module Config {
  import opened Errors

  datatype Config = Config(storageDir: string, raftBind: string, rpcBind: string)

  /** The defaults: consensus traffic on port 11000, RPC on port 12000, no storage directory. */
  function DefaultConfig(): (c: Config)
    ensures c.storageDir == ""
    ensures c.raftBind == ":11000" && c.rpcBind == ":12000"
  {
    Config("", ":11000", ":12000")
  }

  /**
   * A configuration is rejected exactly when it names no storage directory;
   * the bind addresses are not examined.
   */
  function ValidateConfig(c: Config): (r: Option<Error>)
    ensures r.Some? <==> c.storageDir == ""
    ensures r.Some? ==> r.value == StorageDirMissing
  {
    if c.storageDir == "" then Some(StorageDirMissing) else None
  }

  /** Validation looks only at the storage directory. */
  lemma ValidateIgnoresBinds(c: Config, raft: string, rpc: string)
    ensures ValidateConfig(c.(raftBind := raft, rpcBind := rpc)) == ValidateConfig(c)
  {
  }

  /** The defaults alone are rejected, and become valid once any storage directory is set. */
  lemma DefaultNeedsStorageDir(dir: string)
    requires dir != ""
    ensures ValidateConfig(DefaultConfig()) == Some(StorageDirMissing)
    ensures ValidateConfig(DefaultConfig().(storageDir := dir)) == None
  {
  }
}
