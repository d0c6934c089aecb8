/**
 * space-launcher.py: the launcher that installs the Bedrock server from a zip the user
 * uploaded, writes server.properties keeping the user's settings, and publishes the port
 * through Codespaces forwarding or a Cloudflare tunnel.
 */
module SpaceLauncher {
  import opened Wrappers
  import opened Text
  import opened Environment
  import opened Connection
  import opened Properties
  import opened Disk
  import opened Trace

  const DATA_DIR := "space-data"
  const MANUAL_ZIP_NAME := "bedrock-server.zip"
  const SERVER_PATH := Join(DATA_DIR, SERVER)
  const CLOUDFLARED_PATH := Join(DATA_DIR, "cloudflared")

  /** The file names the first search pass looks for, in order (the first two coincide). */
  const POSSIBLE_NAMES: seq<string> :=
    [MANUAL_ZIP_NAME, "bedrock-server.zip", "bedrock_server.zip", "minecraft-server.zip", "server.zip"]

  /** A zip found by the second pass has one of these in its lower-cased name. */
  const KEYWORDS: seq<string> := ["bedrock", "server", "minecraft"]

  /** The two directories searched: the current one, then the data directory. */
  datatype Dir = Current | Data

  const SEARCH_PATHS: seq<Dir> := [Current, Data]

  /** `search_path / name`; in the current directory the path is the bare name. */
  function PathIn(d: Dir, name: string): string {
    match d
    case Current => name
    case Data => Join(DATA_DIR, name)
  }

  // ---------------------------------------------------------------------------------
  // find_manual_zip
  // ---------------------------------------------------------------------------------

  /** The index of the first element of `xs` that satisfies `p`. */
  function FirstWhere<T>(xs: seq<T>, p: T -> bool): (r: Option<nat>)
    ensures r.Some? ==> r.value < |xs| && p(xs[r.value]) && forall j :: 0 <= j < r.value ==> !p(xs[j])
    ensures r.None? <==> forall j :: 0 <= j < |xs| ==> !p(xs[j])
  {
    if xs == [] then None
    else if p(xs[0]) then Some(0)
    else
      match FirstWhere(xs[1..], p)
      case None =>
        assert forall j :: 1 <= j < |xs| ==> xs[j] == xs[1..][j - 1];
        None
      case Some(i) => Some(i + 1)
  }

  /** The first-pass paths in directory `d`, in list order. */
  function NamedIn(d: Dir): (ps: seq<string>)
    ensures |ps| == |POSSIBLE_NAMES| && forall n :: 0 <= n < |ps| ==> ps[n] == PathIn(d, POSSIBLE_NAMES[n])
  {
    seq(|POSSIBLE_NAMES|, n requires 0 <= n < |POSSIBLE_NAMES| => PathIn(d, POSSIBLE_NAMES[n]))
  }

  /** `search_path.glob("*.zip")` keeps a name (`Path.glob` also matches names starting with `.`). */
  predicate GlobZip(name: string) {
    EndsWith(name, ".zip")
  }

  /** `any(keyword in name.lower() for keyword in ["bedrock", "server", "minecraft"])`. */
  predicate HasKeyword(name: string) {
    exists i :: 0 <= i < |KEYWORDS| && Contains(Lower(name), KEYWORDS[i])
  }

  predicate KeywordZip(name: string) {
    GlobZip(name) && HasKeyword(name)
  }

  /** A name `*.zip` matches whose lower-cased form contains one of the keywords somewhere. */
  ghost predicate KeywordMatch(name: string) {
    EndsWith(name, ".zip") && exists kw, j :: kw in KEYWORDS && OccursAt(Lower(name), kw, j)
  }

  /** The listing of a search directory, as `glob` enumerates it. */
  function ListingOf(d: Dir, cwdListing: seq<string>, dataListing: seq<string>): seq<string> {
    match d
    case Current => cwdListing
    case Data => dataListing
  }

  /** The first listed name that exists in directory `d`, as a path. */
  function ExactIn(fs: Paths, d: Dir): Option<string> {
    match FirstWhere(NamedIn(d), (p: string) => p in fs)
    case Some(n) => Some(NamedIn(d)[n])
    case None => None
  }

  /** A directory has no exact match exactly when none of the listed names exists in it. */
  lemma ExactInNone(fs: Paths, d: Dir)
    ensures ExactIn(fs, d).None? <==> forall n :: 0 <= n < |POSSIBLE_NAMES| ==> PathIn(d, POSSIBLE_NAMES[n]) !in fs
  {
  }

  /** The first pass: the first listed name in the current directory, then in the data directory. */
  function ExactMatch(fs: Paths): Option<string> {
    if ExactIn(fs, Current).Some? then ExactIn(fs, Current) else ExactIn(fs, Data)
  }

  /** The second pass: the first keyword zip in the current directory, else in the data directory. */
  function KeywordSearch(cwdListing: seq<string>, dataListing: seq<string>): Option<string> {
    match FirstWhere(cwdListing, KeywordZip)
    case Some(i) => Some(PathIn(Current, cwdListing[i]))
    case None =>
      match FirstWhere(dataListing, KeywordZip)
      case Some(i) => Some(PathIn(Data, dataListing[i]))
      case None => None
  }

  /**
   * What `find_manual_zip` returns: the first existing exact-name path, else the first
   * zip in the current directory, else in the data directory, whose name has a keyword.
   */
  function ManualZip(fs: Paths, cwdListing: seq<string>, dataListing: seq<string>): Option<string> {
    if ExactMatch(fs).Some? then ExactMatch(fs) else KeywordSearch(cwdListing, dataListing)
  }

  /** The first pass of `find_manual_zip`: each directory, each listed name, in order. */
  method SearchExactNames(fs: Paths) returns (r: Option<string>)
    ensures r == ExactMatch(fs)
  {
    for di := 0 to |SEARCH_PATHS|
      invariant di > 0 ==> ExactIn(fs, Current).None?
      invariant di > 1 ==> ExactIn(fs, Data).None?
    {
      var searchPath := SEARCH_PATHS[di];
      for ni := 0 to |POSSIBLE_NAMES|
        invariant forall m :: 0 <= m < ni ==> PathIn(searchPath, POSSIBLE_NAMES[m]) !in fs
      {
        var zipPath := PathIn(searchPath, POSSIBLE_NAMES[ni]);
        if zipPath in fs {
          assert FirstWhere(NamedIn(searchPath), (p: string) => p in fs) == Some(ni);
          return Some(zipPath);
        }
      }
      ExactInNone(fs, searchPath);
    }
    return None;
  }

  /** The second pass of `find_manual_zip`: each directory's `*.zip` names, in listing order. */
  method SearchKeywordZips(cwdListing: seq<string>, dataListing: seq<string>) returns (r: Option<string>)
    ensures r == KeywordSearch(cwdListing, dataListing)
  {
    for di := 0 to |SEARCH_PATHS|
      invariant di > 0 ==> forall j :: 0 <= j < |cwdListing| ==> !KeywordZip(cwdListing[j])
      invariant di > 1 ==> forall j :: 0 <= j < |dataListing| ==> !KeywordZip(dataListing[j])
    {
      var searchPath := SEARCH_PATHS[di];
      var listing := ListingOf(searchPath, cwdListing, dataListing);
      for i := 0 to |listing|
        invariant forall j :: 0 <= j < i ==> !KeywordZip(listing[j])
      {
        var name := listing[i];
        if KeywordZip(name) {
          if di == 0 {
            assert listing == cwdListing && FirstWhere(cwdListing, KeywordZip) == Some(i);
          } else {
            assert listing == dataListing && FirstWhere(dataListing, KeywordZip) == Some(i);
          }
          return Some(PathIn(searchPath, name));
        }
      }
    }
    return None;
  }

  /** `find_manual_zip`: the exact names first, then the keyword search; `None` when both find nothing. */
  method FindManualZip(fs: Paths, cwdListing: seq<string>, dataListing: seq<string>) returns (r: Option<string>)
    ensures r == ManualZip(fs, cwdListing, dataListing)
  {
    r := SearchExactNames(fs);
    if r.None? {
      r := SearchKeywordZips(cwdListing, dataListing);
    }
  }

  /**
   * An exact-name match wins over any keyword match: the result is the first listed name
   * found in the current directory, and a data-directory path only when no listed name
   * exists in the current directory.
   */
  lemma ManualZipExactFirst(fs: Paths, cwdListing: seq<string>, dataListing: seq<string>, d: Dir, n: nat)
    requires n < |POSSIBLE_NAMES| && PathIn(d, POSSIBLE_NAMES[n]) in fs
    ensures exists d', n' ::
      && 0 <= n' < |POSSIBLE_NAMES|
      && ManualZip(fs, cwdListing, dataListing) == Some(PathIn(d', POSSIBLE_NAMES[n']))
      && PathIn(d', POSSIBLE_NAMES[n']) in fs
      && (forall m :: 0 <= m < n' ==> PathIn(d', POSSIBLE_NAMES[m]) !in fs)
      && (d' == Data ==> forall m :: 0 <= m < |POSSIBLE_NAMES| ==> PathIn(Current, POSSIBLE_NAMES[m]) !in fs)
  {
    ExactInNone(fs, d);
    ExactInNone(fs, Current);
    var d' := if ExactIn(fs, Current).Some? then Current else Data;
    var n' := FirstWhere(NamedIn(d'), (p: string) => p in fs).value;
    assert ManualZip(fs, cwdListing, dataListing) == Some(PathIn(d', POSSIBLE_NAMES[n']));
  }

  /** No zip is found exactly when no listed name exists and no listed zip has a keyword. */
  lemma ManualZipNone(fs: Paths, cwdListing: seq<string>, dataListing: seq<string>)
    ensures ManualZip(fs, cwdListing, dataListing) == None <==>
      && (forall d, n :: 0 <= n < |POSSIBLE_NAMES| ==> PathIn(d, POSSIBLE_NAMES[n]) !in fs)
      && (forall i :: 0 <= i < |cwdListing| ==> !KeywordZip(cwdListing[i]))
      && (forall i :: 0 <= i < |dataListing| ==> !KeywordZip(dataListing[i]))
  {
    ExactInNone(fs, Current);
    ExactInNone(fs, Data);
    if forall n :: 0 <= n < |POSSIBLE_NAMES| ==> PathIn(Current, POSSIBLE_NAMES[n]) !in fs {
      if forall n :: 0 <= n < |POSSIBLE_NAMES| ==> PathIn(Data, POSSIBLE_NAMES[n]) !in fs {
        forall d, n | 0 <= n < |POSSIBLE_NAMES| ensures PathIn(d, POSSIBLE_NAMES[n]) !in fs {
          if d == Current {} else {}
        }
      }
    }
  }

  /**
   * A second-pass result is a `*.zip` whose lower-cased name contains a keyword: the first
   * such name in the current directory, or, when there is none there, the first in the
   * data directory.
   */
  lemma ManualZipKeyword(fs: Paths, cwdListing: seq<string>, dataListing: seq<string>)
    requires forall d, n :: 0 <= n < |POSSIBLE_NAMES| ==> PathIn(d, POSSIBLE_NAMES[n]) !in fs
    requires ManualZip(fs, cwdListing, dataListing).Some?
    ensures exists d, i ::
      && 0 <= i < |ListingOf(d, cwdListing, dataListing)|
      && ManualZip(fs, cwdListing, dataListing) == Some(PathIn(d, ListingOf(d, cwdListing, dataListing)[i]))
      && KeywordMatch(ListingOf(d, cwdListing, dataListing)[i])
      && (forall j :: 0 <= j < i ==> !KeywordZip(ListingOf(d, cwdListing, dataListing)[j]))
      && (d == Data ==> forall j :: 0 <= j < |cwdListing| ==> !KeywordZip(cwdListing[j]))
  {
    ExactInNone(fs, Current);
    ExactInNone(fs, Data);
    var d := if FirstWhere(cwdListing, KeywordZip).Some? then Current else Data;
    var listing := ListingOf(d, cwdListing, dataListing);
    var i := FirstWhere(listing, KeywordZip).value;
    var name := listing[i];
    assert ManualZip(fs, cwdListing, dataListing) == Some(PathIn(d, name));
    var q :| 0 <= q < |KEYWORDS| && Contains(Lower(name), KEYWORDS[q]);
    ContainsIff(Lower(name), KEYWORDS[q]);
    var j :| OccursAt(Lower(name), KEYWORDS[q], j);
    assert KEYWORDS[q] in KEYWORDS;
    assert KeywordMatch(name);
  }

  // ---------------------------------------------------------------------------------
  // validate_bedrock_zip
  // ---------------------------------------------------------------------------------

  /** `any('bedrock_server' in f for f in file_list)`, scanning the entries in order. */
  predicate HasServerEntry(entries: seq<string>) {
    entries != [] && (Contains(entries[0], SERVER) || HasServerEntry(entries[1..]))
  }

  /** The scan finds an entry exactly when some entry name contains `bedrock_server`. */
  lemma {:induction false} HasServerEntryIff(entries: seq<string>)
    ensures HasServerEntry(entries) <==> exists i, j :: 0 <= i < |entries| && OccursAt(entries[i], SERVER, j)
  {
    if entries != [] {
      HasServerEntryIff(entries[1..]);
      ContainsIff(entries[0], SERVER);
      if exists i, j :: 0 <= i < |entries| && OccursAt(entries[i], SERVER, j) {
        var i, j :| 0 <= i < |entries| && OccursAt(entries[i], SERVER, j);
        if i > 0 {
          assert entries[1..][i - 1] == entries[i];
        }
      }
      if HasServerEntry(entries[1..]) {
        var i, j :| 0 <= i < |entries[1..]| && OccursAt(entries[1..][i], SERVER, j);
        assert entries[i + 1] == entries[1..][i];
      }
    }
  }

  /** `validate_bedrock_zip`: an unreadable archive is invalid; otherwise the entry scan decides. */
  function ValidateBedrockZip(archives: Archives, zip: string): (valid: bool)
    ensures valid ==> zip in archives && archives[zip] != []
  {
    zip in archives && HasServerEntry(archives[zip])
  }

  /**
   * A zip is valid exactly when it opens and one of its entry names contains
   * `bedrock_server`; an unreadable or empty archive is invalid.
   */
  lemma ValidateIff(archives: Archives, zip: string)
    ensures ValidateBedrockZip(archives, zip) <==>
      zip in archives && exists i, j :: 0 <= i < |archives[zip]| && OccursAt(archives[zip][i], SERVER, j)
    ensures zip !in archives || archives[zip] == [] ==> !ValidateBedrockZip(archives, zip)
  {
    if zip in archives {
      HasServerEntryIff(archives[zip]);
    }
  }

  /** Validation is necessary for a successful install: extraction can only yield `bedrock_server` from a valid zip. */
  lemma ExtractedServerValid(entries: seq<string>)
    requires SERVER in Extracted(entries)
    ensures HasServerEntry(entries)
  {
    ExtractedServer(entries);
    var i :| 0 <= i < |entries| && (entries[i] == SERVER || StartsWith(entries[i], SERVER + "/"));
    assert entries[i][..|SERVER|] == SERVER by {
      if entries[i] != SERVER {
        assert entries[i][..|SERVER|] == (SERVER + "/")[..|SERVER|];
      }
    }
    assert OccursAt(entries[i], SERVER, 0);
    HasServerEntryIff(entries);
  }

  /** Some entry is `bedrock_server` itself or lies inside a `bedrock_server/` directory. */
  ghost predicate ServerEntry(entries: seq<string>) {
    exists i :: 0 <= i < |entries| && (entries[i] == SERVER || StartsWith(entries[i], SERVER + "/"))
  }

  // ---------------------------------------------------------------------------------
  // install_bedrock_server
  // ---------------------------------------------------------------------------------

  /**
   * `install_bedrock_server`. `fs` is the file system before the call, the listings are
   * what `glob` enumerates in the two search directories, `archives` the readable zips,
   * and `extractOk` whether `extractall` completes without raising.
   */
  method InstallBedrockServer(fs: Paths, cwdListing: seq<string>, dataListing: seq<string>,
                              archives: Archives, extractOk: bool)
    returns (ok: bool, fs': Paths, trace: seq<Step>)
    ensures SERVER_PATH in fs ==> ok && fs' == fs && trace == []
    ensures SERVER_PATH !in fs ==>
      match ManualZip(fs, cwdListing, dataListing)
      case None => !ok && fs' == fs && trace == [Search]
      case Some(zip) =>
        if !ValidateBedrockZip(archives, zip) then !ok && fs' == fs && trace == [Search, Validate(zip)]
        else
          && trace == [Search, Validate(zip), Extract(zip)]
          && fs' == (if extractOk then fs + Under(DATA_DIR, Extracted(archives[zip])) else fs)
          && (ok <==> extractOk && ServerEntry(archives[zip]))
    ensures ok <==> SERVER_PATH in fs'
  {
    if SERVER_PATH in fs {
      return true, fs, [];
    }
    trace := [Search];
    var zipPath := FindManualZip(fs, cwdListing, dataListing);
    if zipPath.None? {
      return false, fs, trace;
    }
    var zip := zipPath.value;
    trace := trace + [Validate(zip)];
    if !ValidateBedrockZip(archives, zip) {
      return false, fs, trace;
    }
    trace := trace + [Extract(zip)];
    fs' := fs;
    if extractOk {
      var created := Extracted(archives[zip]);
      fs' := fs + Under(DATA_DIR, created);
      UnderIff(DATA_DIR, created, SERVER);
      ExtractedServer(archives[zip]);
    }
    ok := SERVER_PATH in fs';
  }

  // ---------------------------------------------------------------------------------
  // configure_server
  // ---------------------------------------------------------------------------------

  /** The launcher's settings, in the order it writes them. */
  const SPACE_DEFAULTS: seq<Entry> := [
    Entry("server-name", "Space Bedrock Server"),
    Entry("gamemode", "survival"),
    Entry("difficulty", "normal"),
    Entry("allow-cheats", "false"),
    Entry("max-players", "10"),
    Entry("online-mode", "true"),
    Entry("server-port", "19132"),
    Entry("level-name", "Space-World"),
    Entry("default-player-permission-level", "member"),
    Entry("player-idle-timeout", "30"),
    Entry("view-distance", "12"),
    Entry("max-threads", "0"),
    Entry("server-authoritative-movement", "server-auth"),
    Entry("compression-threshold", "1")
  ]

  /**
   * Every setting is made of plain characters, one setting per lemma so that each
   * proof about a literal stays small.
   */
  lemma SpaceSetting0() ensures PlainEntry(SPACE_DEFAULTS[0]) {}
  lemma SpaceSetting1() ensures PlainEntry(SPACE_DEFAULTS[1]) {}
  lemma SpaceSetting2() ensures PlainEntry(SPACE_DEFAULTS[2]) {}
  lemma SpaceSetting3() ensures PlainEntry(SPACE_DEFAULTS[3]) {}
  lemma SpaceSetting4() ensures PlainEntry(SPACE_DEFAULTS[4]) {}
  lemma SpaceSetting5() ensures PlainEntry(SPACE_DEFAULTS[5]) {}
  lemma SpaceSetting6() ensures PlainEntry(SPACE_DEFAULTS[6]) {}
  lemma SpaceSetting7() ensures PlainEntry(SPACE_DEFAULTS[7]) {}
  lemma SpaceSetting8() ensures PlainEntry(SPACE_DEFAULTS[8]) {}
  lemma SpaceSetting9() ensures PlainEntry(SPACE_DEFAULTS[9]) {}
  lemma SpaceSetting10() ensures PlainEntry(SPACE_DEFAULTS[10]) {}
  lemma SpaceSetting11() ensures PlainEntry(SPACE_DEFAULTS[11]) {}
  lemma SpaceSetting12() ensures PlainEntry(SPACE_DEFAULTS[12]) {}
  lemma SpaceSetting13() ensures PlainEntry(SPACE_DEFAULTS[13]) {}

  /** Every setting is a well-formed line. */
  lemma SpaceDefaultsWellFormed()
    ensures AllWellFormed(SPACE_DEFAULTS)
  {
    SpaceSetting0(); SpaceSetting1(); SpaceSetting2(); SpaceSetting3(); SpaceSetting4();
    SpaceSetting5(); SpaceSetting6(); SpaceSetting7(); SpaceSetting8(); SpaceSetting9();
    SpaceSetting10(); SpaceSetting11(); SpaceSetting12(); SpaceSetting13();
    forall i | 0 <= i < |SPACE_DEFAULTS| ensures WellFormedEntry(SPACE_DEFAULTS[i]) {
      PlainWellFormed(SPACE_DEFAULTS[i]);
    }
  }

  /** The settings' keys are distinct, as a dict's are. */
  lemma SpaceDefaultsDistinct()
    ensures DistinctKeys(SPACE_DEFAULTS)
  {
    forall i, j | 0 <= i < j < |SPACE_DEFAULTS| ensures SPACE_DEFAULTS[i].key != SPACE_DEFAULTS[j].key {
      var a, b := SPACE_DEFAULTS[i].key, SPACE_DEFAULTS[j].key;
      assert |a| != |b| || a[7] != b[7];
    }
  }

  /**
   * `configure_server`: `existing` is the content of server.properties when the file
   * exists. Returns the content written: it defines exactly the launcher's keys, each
   * with the existing file's value when the file has the key and the launcher's default
   * otherwise, and writing again over it changes nothing.
   */
  method ConfigureServer(existing: Option<string>) returns (written: string)
    ensures written == ConfiguredText(SPACE_DEFAULTS, existing)
    ensures ConfiguredText(SPACE_DEFAULTS, Some(written)) == written
    ensures forall k :: k in ReadProperties(written) <==> k in KeysOf(SPACE_DEFAULTS)
    ensures forall i :: 0 <= i < |SPACE_DEFAULTS| ==>
      var k := SPACE_DEFAULTS[i].key;
      && k in ReadProperties(written)
      && ReadProperties(written)[k]
        == if k in ExistingSettings(existing) then ExistingSettings(existing)[k] else SPACE_DEFAULTS[i].value
  {
    var config := SPACE_DEFAULTS;
    if existing.Some? {
      var existingConfig := ReadExisting(existing.value);
      config := MergeExisting(SPACE_DEFAULTS, existingConfig);
    } else {
      assert config == Merged(SPACE_DEFAULTS, map[]);
    }
    written := WriteProperties(config);
    SpaceDefaultsDistinct();
    SpaceDefaultsWellFormed();
    ConfigureIdempotent(SPACE_DEFAULTS, existing);
    ConfiguredReadBackAll(SPACE_DEFAULTS, existing);
  }

  // ---------------------------------------------------------------------------------
  // The manager and its tunnel
  // ---------------------------------------------------------------------------------

  const CODESPACES_NOTE := "Haz público el puerto en la pestaña 'PORTS'"
  const CLOUDFLARE_INFO := ConnectionInfo(Cloudflare, "Consulta los logs de Cloudflare", PORT, "Túnel Cloudflare activo")

  /** The connection info `setup_codespaces_tunnel` records. */
  function CodespacesInfo(env: Env): ConnectionInfo {
    ConnectionInfo(Codespaces, CodespacesAddress(env, "space-server"), PORT, CODESPACES_NOTE)
  }

  /** `SpaceBedrockManager`, reduced to the fields the tunnel setup reads and writes. */
  class SpaceBedrockManager {
    var isCodespaces: bool
    /** `tunnel_process is not None`. */
    var hasTunnel: bool
    /** `connection_info`; `None` stands for the initial empty dict. */
    var connectionInfo: Option<ConnectionInfo>

    constructor(env: Env)
      ensures isCodespaces == DetectCodespaces(env) && !hasTunnel && connectionInfo == None
    {
      isCodespaces := DetectCodespaces(env);
      hasTunnel := false;
      connectionInfo := None;
    }

    /** `setup_codespaces_tunnel`: records the forwarded address and always succeeds. */
    method SetupCodespacesTunnel(env: Env) returns (ok: bool)
      modifies this
      ensures ok && connectionInfo == Some(CodespacesInfo(env))
      ensures isCodespaces == old(isCodespaces) && hasTunnel == old(hasTunnel)
    {
      connectionInfo := Some(CodespacesInfo(env));
      return true;
    }

    /**
     * `setup_cloudflared`: `fs` tells whether the cloudflared binary exists, `downloaded`
     * whether `download_cloudflared` would succeed, `spawn` how starting the tunnel goes.
     * A downloaded binary stays on disk, so a later call skips the download. A tunnel
     * process that exits early stays recorded in `tunnel_process`.
     */
    method SetupCloudflared(env: Env, fs: Paths, downloaded: bool, spawn: Spawn) returns (ok: bool, fs': Paths)
      modifies this
      ensures var present := CLOUDFLARED_PATH in fs || downloaded;
        var started := present && HasToken(env);
        && fs' == (if present then fs + {CLOUDFLARED_PATH} else fs)
        && (ok <==> started && spawn == KeepsRunning)
        && hasTunnel == (old(hasTunnel) || (started && spawn != SpawnFails))
        && connectionInfo == (if ok then Some(CLOUDFLARE_INFO) else old(connectionInfo))
      ensures isCodespaces == old(isCodespaces)
    {
      fs' := fs;
      if CLOUDFLARED_PATH !in fs {
        if !downloaded {
          return false, fs';
        }
        fs' := fs + {CLOUDFLARED_PATH};
      }
      if !HasToken(env) {
        return false, fs';
      }
      if spawn == SpawnFails {
        return false, fs';
      }
      hasTunnel := true;
      if spawn == ExitsEarly {
        return false, fs';
      }
      connectionInfo := Some(CLOUDFLARE_INFO);
      return true, fs';
    }

    /** `setup_tunnel`: Codespaces forwarding inside Codespaces, a Cloudflare tunnel elsewhere. */
    method SetupTunnel(env: Env, fs: Paths, downloaded: bool, spawn: Spawn) returns (ok: bool, fs': Paths)
      modifies this
      ensures old(isCodespaces) ==>
        ok && fs' == fs && connectionInfo == Some(CodespacesInfo(env)) && hasTunnel == old(hasTunnel)
      ensures !old(isCodespaces) ==>
        var present := CLOUDFLARED_PATH in fs || downloaded;
        var started := present && HasToken(env);
        && fs' == (if present then fs + {CLOUDFLARED_PATH} else fs)
        && (ok <==> started && spawn == KeepsRunning)
        && hasTunnel == (old(hasTunnel) || (started && spawn != SpawnFails))
        && connectionInfo == (if ok then Some(CLOUDFLARE_INFO) else old(connectionInfo))
      ensures isCodespaces == old(isCodespaces)
    {
      if isCodespaces {
        ok := SetupCodespacesTunnel(env);
        fs' := fs;
      } else {
        ok, fs' := SetupCloudflared(env, fs, downloaded, spawn);
      }
    }
  }
}
