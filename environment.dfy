/** The server configuration (packages/api/src/config/environment.rs) and its
    directory allow-list policy. */
module Environment {

  newtype u16 = x: int | 0 <= x < 0x1_0000

  /** `Config`. `max_sessions` is a `usize`; session counts never approach its
      bound, so it is an unbounded `nat` here. */
  datatype Config = Config(
    host: string,
    port: u16,
    claudePath: string,
    maxSessions: nat,
    allowedDirectories: seq<string>)

  /** `Config::default()`. */
  function DefaultConfig(): Config
  {
    Config("127.0.0.1", 3000, "claude", 10, ["/home", "/tmp"])
  }

  /** What one allow-list entry admits: `path_str.starts_with(allowed) ||
      allowed == "*"`. `starts_with` compares bytes; since UTF-8 is prefix-free
      this is the same as a character prefix. */
  predicate EntryAllows(allowed: string, path: string)
  {
    allowed <= path || allowed == "*"
  }

  /** An entry that admits a directory admits everything below it, and
      anything else that merely extends its text. */
  lemma EntryAllowsExtensions(allowed: string, path: string, more: string)
    requires EntryAllows(allowed, path)
    ensures EntryAllows(allowed, path + more)
  {
    if allowed != "*" {
      assert (path + more)[..|allowed|] == path[..|allowed|];
    }
  }

  /** `allowed_directories.iter().any(...)`, entry by entry. */
  function AnyEntryAllows(allowed: seq<string>, path: string): (r: bool)
    ensures r <==> exists i :: 0 <= i < |allowed| && EntryAllows(allowed[i], path)
  {
    if |allowed| == 0 then false
    else EntryAllows(allowed[0], path) || AnyEntryAllows(allowed[1..], path)
  }

  /** `Config::is_directory_allowed`: some entry is a string prefix of the path
      or is the wildcard `"*"`. */
  function IsDirectoryAllowed(config: Config, path: string): (r: bool)
    ensures r <==> exists i :: 0 <= i < |config.allowedDirectories| && (
                     config.allowedDirectories[i] <= path || config.allowedDirectories[i] == "*")
  {
    AnyEntryAllows(config.allowedDirectories, path)
  }

  /** A `"*"` entry admits every path. */
  lemma StarAllowsEverything(config: Config, path: string)
    requires "*" in config.allowedDirectories
    ensures IsDirectoryAllowed(config, path)
  {
    var i :| 0 <= i < |config.allowedDirectories| && config.allowedDirectories[i] == "*";
    assert EntryAllows(config.allowedDirectories[i], path);
  }

  /** An empty allow-list admits nothing. */
  lemma EmptyAllowListAllowsNothing(config: Config, path: string)
    requires config.allowedDirectories == []
    ensures !IsDirectoryAllowed(config, path)
  {
  }

  /** The test is on characters, not on path components: "/tmp" admits
      "/tmpfoo", a sibling of /tmp rather than something under it. */
  lemma PrefixIsNotPerComponent()
    ensures IsDirectoryAllowed(Config("127.0.0.1", 3000, "claude", 10, ["/tmp"]), "/tmpfoo")
  {
    assert EntryAllows("/tmp", "/tmpfoo");
  }

  /** Adding entries never withdraws permission: a path admitted by one list is
      admitted by any list that contains all of its entries. */
  lemma AllowListMonotone(config: Config, larger: seq<string>, path: string)
    requires forall e :: e in config.allowedDirectories ==> e in larger
    requires IsDirectoryAllowed(config, path)
    ensures IsDirectoryAllowed(config.(allowedDirectories := larger), path)
  {
    var i :| 0 <= i < |config.allowedDirectories| && EntryAllows(config.allowedDirectories[i], path);
    assert config.allowedDirectories[i] in larger;
    var j :| 0 <= j < |larger| && larger[j] == config.allowedDirectories[i];
    assert EntryAllows(larger[j], path);
  }

  /** The default configuration caps sessions at 10 and admits exactly paths
      under the prefixes "/home" and "/tmp"; "/etc" is refused. */
  lemma DefaultConfigPolicy(path: string)
    ensures DefaultConfig().maxSessions == 10
    ensures IsDirectoryAllowed(DefaultConfig(), path) <==> "/home" <= path || "/tmp" <= path
    ensures IsDirectoryAllowed(DefaultConfig(), "/home/alice/proj")
    ensures !IsDirectoryAllowed(DefaultConfig(), "/etc")
  {
    var c := DefaultConfig();
    assert c.allowedDirectories[0] == "/home" && c.allowedDirectories[1] == "/tmp";
    assert "/home" <= "/home/alice/proj";
    assert "/etc"[1] != "/home"[1] && "/etc"[1] != "/tmp"[1];
  }
}
