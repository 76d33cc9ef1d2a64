/** Start-up configuration (src/utils/config.rs). The environment is read elsewhere:
    each variable arrives as an optional string, absent when it is unset or not valid
    Unicode. */
module Configuration {
  import opened Wrappers

  datatype Config = Config(port: string, host: string, difficulty: nat, blockchain_file: string)

  const DefaultPort: string := "8080"
  const DefaultHost: string := "0.0.0.0"
  const DefaultDifficulty: nat := 2
  const DefaultBlockchainFile: string := "blockchain.json"

  /** The range check on the parsed difficulty: values from 1 to 10 are kept, anything
      else becomes the default 2. */
  function NormalizeDifficulty(parsed: nat): (d: nat)
    ensures 1 <= d <= 10
    ensures 1 <= parsed <= 10 ==> d == parsed
    ensures parsed == 0 || parsed > 10 ==> d == DefaultDifficulty
  {
    if parsed == 0 || parsed > 10 then DefaultDifficulty else parsed
  }

  /** `Config::from_env`. `parse` stands for `str::parse::<usize>`, a partial function
      that is not modelled further. */
  function FromEnv(port: Option<string>, host: Option<string>, difficulty: Option<string>,
                   blockchain_file: Option<string>, parse: string -> Option<nat>): (c: Config)
    ensures 1 <= c.difficulty <= 10
    ensures c.port == (if port.Some? then port.value else DefaultPort)
    ensures c.host == (if host.Some? then host.value else DefaultHost)
    ensures c.blockchain_file == (if blockchain_file.Some? then blockchain_file.value else DefaultBlockchainFile)
    ensures difficulty.None? && parse("2") == Some(2) ==> c.difficulty == DefaultDifficulty
    ensures difficulty.Some? && parse(difficulty.value).None? ==> c.difficulty == DefaultDifficulty
    ensures difficulty.Some? && parse(difficulty.value).Some? ==>
      var n := parse(difficulty.value).value;
      c.difficulty == if 1 <= n <= 10 then n else DefaultDifficulty
  {
    var parsed := parse(difficulty.GetOr("2")).GetOr(2);
    Config(port.GetOr(DefaultPort), host.GetOr(DefaultHost), NormalizeDifficulty(parsed),
           blockchain_file.GetOr(DefaultBlockchainFile))
  }

  /** `Config::address`: host and port joined by a colon; both can be read back. */
  function Address(c: Config): (a: string)
    ensures |a| == |c.host| + 1 + |c.port|
    ensures a[..|c.host|] == c.host && a[|c.host|] == ':' && a[|c.host| + 1..] == c.port
  {
    c.host + ":" + c.port
  }
}
