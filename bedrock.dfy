/**
 * bedrock-launcher.py: the Codespaces launcher that downloads the Bedrock server from a
 * list of mirrors, writes a fixed server.properties, optionally starts a Cloudflare
 * tunnel, and reports how players connect.
 */
module BedrockLauncher {
  import opened Wrappers
  import opened Text
  import opened Environment
  import opened Connection
  import opened Properties
  import opened Download
  import opened Disk
  import opened Trace

  const VERSION := "1.21.44.01"
  const DATA_DIR := "bedrock-data"
  const MIRRORS: seq<string> := [
    "https://minecraft.azureedge.net/bin-linux/",
    "https://www.minecraft.net/bedrockdedicatedserver/bin-linux/"
  ]
  const CLOUDFLARED_URL := "https://github.com/cloudflare/cloudflared/releases/latest/download/cloudflared-linux-amd64"

  /** `f"bedrock-server-{CONFIG['version']}.zip"`. */
  const ZIP_NAME := "bedrock-server-" + VERSION + ".zip"
  const ZIP_PATH := Join(DATA_DIR, ZIP_NAME)
  const SERVER_PATH := Join(DATA_DIR, SERVER)
  const CLOUDFLARED_PATH := Join(DATA_DIR, "cloudflared")

  /** A downloaded zip smaller than this many bytes is taken to be corrupt. */
  const MIN_SIZE: nat := 1000000

  /** The server executable and the downloaded zip are different files. */
  lemma ServerIsNotZip()
    ensures SERVER_PATH != ZIP_PATH
  {
    assert SERVER_PATH[|DATA_DIR| + 1 + 7] == '_';
    assert ZIP_PATH[|DATA_DIR| + 1 + 7] == '-';
  }

  // ---------------------------------------------------------------------------------
  // install_bedrock_server
  // ---------------------------------------------------------------------------------

  /**
   * What `extractall` leaves on disk: the extracted paths under the data directory when
   * the zip opens and extraction completes, nothing new otherwise.
   */
  function AfterExtract(fs: Paths, archive: Option<seq<string>>, extractOk: bool): (r: Paths)
    ensures fs <= r
    ensures forall p :: p in r && p !in fs ==> StartsWith(p, DATA_DIR + "/")
    ensures !(archive.Some? && extractOk) ==> r == fs
  {
    if archive.Some? && extractOk then fs + Under(DATA_DIR, Extracted(archive.value)) else fs
  }

  /** A successful extraction creates `bedrock_server` exactly when the archive holds it. */
  lemma AfterExtractServer(fs: Paths, archive: Option<seq<string>>, extractOk: bool)
    requires SERVER_PATH !in fs
    ensures SERVER_PATH in AfterExtract(fs, archive, extractOk) <==>
      archive.Some? && extractOk &&
      exists i :: 0 <= i < |archive.value| &&
        (archive.value[i] == SERVER || StartsWith(archive.value[i], SERVER + "/"))
  {
    if archive.Some? && extractOk {
      UnderIff(DATA_DIR, Extracted(archive.value), SERVER);
      ExtractedServer(archive.value);
    }
  }

  /**
   * `install_bedrock_server`. `fs` is the file system before the call, `requestsAvailable`
   * whether `install_requests_fallback` yields the requests module, `net` the outcomes of
   * the download attempts from attempt number `pos` on, `archive` the entry names of the
   * downloaded zip (`None` when it does not open as a zip), and `extractOk` whether
   * `extractall` completes. Also returns the number of the next download attempt and the
   * steps taken.
   */
  method InstallBedrockServer(fs: Paths, requestsAvailable: bool, net: Network, pos: nat,
                              archive: Option<seq<string>>, extractOk: bool)
    returns (ok: bool, fs': Paths, next: nat, trace: seq<Step>)
    ensures SERVER_PATH in fs ==> ok && fs' == fs && next == pos && trace == []
    ensures SERVER_PATH !in fs ==>
      var run := Mirrors(MIRRORS, ZIP_NAME, requestsAvailable, net, pos);
      && next == run.next
      && (run.got.None? ==> !ok && fs' == fs && trace == RequestSteps(run.tried))
      && (run.got.Some? && run.got.value < MIN_SIZE ==>
            !ok && fs' == fs + {ZIP_PATH} && trace == RequestSteps(run.tried))
      && (run.got.Some? && run.got.value >= MIN_SIZE ==>
            var extracted := AfterExtract(fs + {ZIP_PATH}, archive, extractOk);
            && (ok <==> SERVER_PATH in extracted)
            && fs' == (if ok then extracted - {ZIP_PATH} else extracted)
            && trace == RequestSteps(run.tried) + [Extract(ZIP_PATH)] + (if ok then [Delete(ZIP_PATH)] else []))
    ensures ok <==> SERVER_PATH in fs'
    ensures ok && SERVER_PATH !in fs ==>
      var run := Mirrors(MIRRORS, ZIP_NAME, requestsAvailable, net, pos);
      && run.got.Some? && run.got.value >= MIN_SIZE && archive.Some? && extractOk
      && (exists i :: 0 <= i < |archive.value| &&
            (archive.value[i] == SERVER || StartsWith(archive.value[i], SERVER + "/")))
      && ZIP_PATH !in fs'
  {
    if SERVER_PATH in fs {
      return true, fs, pos, [];
    }
    ServerIsNotZip();
    var got;
    got, next, trace := DownloadFromMirrors(MIRRORS, ZIP_NAME, requestsAvailable, net, pos);
    if got.None? {
      return false, fs, next, trace;
    }
    fs' := fs + {ZIP_PATH};
    if got.value < MIN_SIZE {
      return false, fs', next, trace;
    }
    trace := trace + [Extract(ZIP_PATH)];
    fs' := AfterExtract(fs', archive, extractOk);
    AfterExtractServer(fs + {ZIP_PATH}, archive, extractOk);
    if SERVER_PATH !in fs' {
      return false, fs', next, trace;
    }
    fs' := fs' - {ZIP_PATH};
    trace := trace + [Delete(ZIP_PATH)];
    ok := true;
  }

  /**
   * The URL the installer requests from the `m`-th mirror, given the file's name: each
   * tried URL is a mirror followed by `bedrock-server-1.21.44.01.zip`, in mirror order.
   */
  lemma MirrorUrls(requestsAvailable: bool, net: Network, pos: nat)
    ensures var run := Mirrors(MIRRORS, ZIP_NAME, requestsAvailable, net, pos);
      && 1 <= |run.tried| <= |MIRRORS|
      && (forall m :: 0 <= m < |run.tried| ==> run.tried[m] == MIRRORS[m] + "bedrock-server-1.21.44.01.zip")
      && (|run.tried| == 2 ==> Fallback(requestsAvailable, net, pos).0.got.None?)
  {
    var run := Mirrors(MIRRORS, ZIP_NAME, requestsAvailable, net, pos);
    MirrorsShape(MIRRORS, ZIP_NAME, requestsAvailable, net, pos);
    assert ZIP_NAME == "bedrock-server-1.21.44.01.zip";
    var (t, _) := Fallback(requestsAvailable, net, pos);
    if t.got.None? {
      assert MIRRORS[1..] != [];
    }
  }

  // ---------------------------------------------------------------------------------
  // configure_server
  // ---------------------------------------------------------------------------------

  /** The settings `configure_server` writes, in the order the dict literal lists them. */
  const BEDROCK_DEFAULTS: seq<Entry> := [
    Entry("server-name", "MSX Bedrock Server (Codespaces)"),
    Entry("gamemode", "survival"),
    Entry("difficulty", "normal"),
    Entry("allow-cheats", "false"),
    Entry("max-players", "8"),
    Entry("online-mode", "true"),
    Entry("allow-list", "false"),
    Entry("server-port", "19132"),
    Entry("server-portv6", "19132"),
    Entry("level-name", "MSX-World"),
    Entry("level-seed", ""),
    Entry("default-player-permission-level", "member"),
    Entry("texturepack-required", "false"),
    Entry("content-log-file-enabled", "true"),
    Entry("compression-threshold", "1"),
    Entry("server-authoritative-movement", "server-auth-with-rewind"),
    Entry("player-movement-score-threshold", "20"),
    Entry("player-movement-distance-threshold", "0.3"),
    Entry("player-movement-duration-threshold-in-ms", "500"),
    Entry("correct-player-movement", "false"),
    Entry("server-authoritative-block-breaking", "false"),
    Entry("chat-restriction", "None"),
    Entry("disable-player-interaction", "false"),
    Entry("client-side-chunk-generation-enabled", "true")
  ]

  /**
   * Every setting is made of plain characters, one setting per lemma (and the longest
   * texts in lemmas of their own) so that each proof about a literal stays small.
   */
  lemma BedrockSetting0() ensures PlainEntry(BEDROCK_DEFAULTS[0]) { BedrockValue0(); }
  lemma BedrockValue0() ensures PlainText(BEDROCK_DEFAULTS[0].value) {}
  lemma BedrockSetting1() ensures PlainEntry(BEDROCK_DEFAULTS[1]) {}
  lemma BedrockSetting2() ensures PlainEntry(BEDROCK_DEFAULTS[2]) {}
  lemma BedrockSetting3() ensures PlainEntry(BEDROCK_DEFAULTS[3]) {}
  lemma BedrockSetting4() ensures PlainEntry(BEDROCK_DEFAULTS[4]) {}
  lemma BedrockSetting5() ensures PlainEntry(BEDROCK_DEFAULTS[5]) {}
  lemma BedrockSetting6() ensures PlainEntry(BEDROCK_DEFAULTS[6]) {}
  lemma BedrockSetting7() ensures PlainEntry(BEDROCK_DEFAULTS[7]) {}
  lemma BedrockSetting8() ensures PlainEntry(BEDROCK_DEFAULTS[8]) {}
  lemma BedrockSetting9() ensures PlainEntry(BEDROCK_DEFAULTS[9]) {}
  lemma BedrockSetting10() ensures PlainEntry(BEDROCK_DEFAULTS[10]) {}
  lemma BedrockSetting11() ensures PlainEntry(BEDROCK_DEFAULTS[11]) { BedrockKey11(); }
  lemma BedrockKey11() ensures PlainText(BEDROCK_DEFAULTS[11].key) {}
  lemma BedrockSetting12() ensures PlainEntry(BEDROCK_DEFAULTS[12]) {}
  lemma BedrockSetting13() ensures PlainEntry(BEDROCK_DEFAULTS[13]) {}
  lemma BedrockSetting14() ensures PlainEntry(BEDROCK_DEFAULTS[14]) {}
  lemma BedrockSetting15() ensures PlainEntry(BEDROCK_DEFAULTS[15]) { BedrockKey15(); }
  lemma BedrockKey15() ensures PlainText(BEDROCK_DEFAULTS[15].key) {}
  lemma BedrockSetting16() ensures PlainEntry(BEDROCK_DEFAULTS[16]) {}
  lemma BedrockSetting17() ensures PlainEntry(BEDROCK_DEFAULTS[17]) { BedrockKey17(); }
  lemma BedrockKey17() ensures PlainText(BEDROCK_DEFAULTS[17].key) {}
  lemma BedrockSetting18() ensures PlainEntry(BEDROCK_DEFAULTS[18]) { BedrockKey18(); }
  lemma BedrockKey18() ensures PlainText(BEDROCK_DEFAULTS[18].key) {
    assert BEDROCK_DEFAULTS[18].key == "player-movement-" + "duration-threshold-in-ms";
    PlainHead18();
    PlainTail18();
    PlainTextAppend("player-movement-", "duration-threshold-in-ms");
  }
  lemma PlainHead18() ensures PlainText("player-movement-") {}
  lemma PlainTail18() ensures PlainText("duration-threshold-in-ms") {}
  lemma BedrockSetting19() ensures PlainEntry(BEDROCK_DEFAULTS[19]) {}
  lemma BedrockSetting20() ensures PlainEntry(BEDROCK_DEFAULTS[20]) {}
  lemma BedrockSetting21() ensures PlainEntry(BEDROCK_DEFAULTS[21]) {}
  lemma BedrockSetting22() ensures PlainEntry(BEDROCK_DEFAULTS[22]) {}
  lemma BedrockSetting23() ensures PlainEntry(BEDROCK_DEFAULTS[23]) {}

  /** Every setting is a well-formed line. */
  lemma BedrockDefaultsWellFormed()
    ensures AllWellFormed(BEDROCK_DEFAULTS)
  {
    BedrockSetting0(); BedrockSetting1(); BedrockSetting2(); BedrockSetting3(); BedrockSetting4();
    BedrockSetting5(); BedrockSetting6(); BedrockSetting7(); BedrockSetting8(); BedrockSetting9();
    BedrockSetting10(); BedrockSetting11(); BedrockSetting12(); BedrockSetting13();
    BedrockSetting14(); BedrockSetting15(); BedrockSetting16(); BedrockSetting17();
    BedrockSetting18(); BedrockSetting19(); BedrockSetting20(); BedrockSetting21();
    BedrockSetting22(); BedrockSetting23();
    forall i | 0 <= i < |BEDROCK_DEFAULTS| ensures WellFormedEntry(BEDROCK_DEFAULTS[i]) {
      PlainWellFormed(BEDROCK_DEFAULTS[i]);
    }
  }

  /** The settings' keys are distinct, as a dict's are; the pairs are checked in three groups. */
  lemma BedrockDefaultsDistinct()
    ensures DistinctKeys(BEDROCK_DEFAULTS)
  {
    BedrockKeysUnique0();
    BedrockKeysUnique1();
    BedrockKeysUnique2();
  }

  lemma BedrockKeysUnique0()
    ensures KeysUniqueFrom(BEDROCK_DEFAULTS, 0, 6)
  {
    forall i, j | 0 <= i < 6 && i < j < |BEDROCK_DEFAULTS| ensures BEDROCK_DEFAULTS[i].key != BEDROCK_DEFAULTS[j].key {
      var a, b := BEDROCK_DEFAULTS[i].key, BEDROCK_DEFAULTS[j].key;
      assert |a| != |b| || a[7] != b[7];
    }
  }

  lemma BedrockKeysUnique1()
    ensures KeysUniqueFrom(BEDROCK_DEFAULTS, 6, 14)
  {
    forall i, j | 6 <= i < 14 && i < j < |BEDROCK_DEFAULTS| ensures BEDROCK_DEFAULTS[i].key != BEDROCK_DEFAULTS[j].key {
      var a, b := BEDROCK_DEFAULTS[i].key, BEDROCK_DEFAULTS[j].key;
      assert |a| != |b| || a[7] != b[7];
    }
  }

  lemma BedrockKeysUnique2()
    ensures KeysUniqueFrom(BEDROCK_DEFAULTS, 14, 24)
  {
    forall i, j | 14 <= i < 24 && i < j < |BEDROCK_DEFAULTS| ensures BEDROCK_DEFAULTS[i].key != BEDROCK_DEFAULTS[j].key {
      var a, b := BEDROCK_DEFAULTS[i].key, BEDROCK_DEFAULTS[j].key;
      assert |a| != |b|;
    }
  }

  /**
   * `configure_server`: overwrites server.properties with one `key=value` line per setting,
   * whatever the file held before. Reading the file back gives exactly the settings' keys,
   * each with its value.
   */
  method ConfigureServer() returns (written: string)
    ensures written == Serialize(BEDROCK_DEFAULTS)
    ensures ReadProperties(written) == EntriesMap(BEDROCK_DEFAULTS)
    ensures forall k :: k in ReadProperties(written) <==> k in KeysOf(BEDROCK_DEFAULTS)
    ensures forall i :: 0 <= i < |BEDROCK_DEFAULTS| ==>
      BEDROCK_DEFAULTS[i].key in ReadProperties(written)
      && ReadProperties(written)[BEDROCK_DEFAULTS[i].key] == BEDROCK_DEFAULTS[i].value
  {
    written := WriteProperties(BEDROCK_DEFAULTS);
    BedrockReadBack();
  }

  /** The written settings read back as the settings' dict. */
  lemma BedrockReadBack()
    ensures var m := ReadProperties(Serialize(BEDROCK_DEFAULTS));
      && m == EntriesMap(BEDROCK_DEFAULTS)
      && (forall k :: k in m <==> k in KeysOf(BEDROCK_DEFAULTS))
      && forall i :: 0 <= i < |BEDROCK_DEFAULTS| ==>
        BEDROCK_DEFAULTS[i].key in m && m[BEDROCK_DEFAULTS[i].key] == BEDROCK_DEFAULTS[i].value
  {
    BedrockDefaultsWellFormed();
    BedrockDefaultsDistinct();
    RoundTrip(BEDROCK_DEFAULTS);
    forall k ensures k in EntriesMap(BEDROCK_DEFAULTS) <==> k in KeysOf(BEDROCK_DEFAULTS) {
      EntriesMapKeys(BEDROCK_DEFAULTS, k);
    }
    forall i | 0 <= i < |BEDROCK_DEFAULTS|
      ensures BEDROCK_DEFAULTS[i].key in EntriesMap(BEDROCK_DEFAULTS)
      && EntriesMap(BEDROCK_DEFAULTS)[BEDROCK_DEFAULTS[i].key] == BEDROCK_DEFAULTS[i].value
    {
      EntriesMapAt(BEDROCK_DEFAULTS, i);
    }
  }

  // ---------------------------------------------------------------------------------
  // The manager: tunnel and connection info
  // ---------------------------------------------------------------------------------

  const CODESPACES_NOTE := "Asegúrate de que el puerto esté configurado como público en Codespaces"
  const CLOUDFLARE_ADDRESS := "Revisa logs de Cloudflare para la URL"
  const CLOUDFLARE_NOTE := "Túnel Cloudflare activo"
  const LOCAL_NOTE := "Conexión local únicamente"

  /** The outcome of `setup_cloudflared_regular` on the file system and the network. */
  datatype TunnelSetup = TunnelSetup(ok: bool, fs: Paths, next: nat)

  /** `CodespacesBedrockManager`, reduced to the fields the tunnel setup reads and writes. */
  class CodespacesBedrockManager {
    var isCodespaces: bool
    /** `tunnel_process is not None`. */
    var hasTunnel: bool

    constructor(env: Env)
      ensures isCodespaces == DetectCodespaces(env) && !hasTunnel
    {
      isCodespaces := DetectCodespaces(env);
      hasTunnel := false;
    }

    /**
     * `setup_cloudflared_regular`: downloads cloudflared when it is missing, needs a
     * token, then starts the tunnel. A tunnel that exits before the poll still stays in
     * `tunnel_process`.
     */
    method SetupCloudflaredRegular(env: Env, fs: Paths, requestsAvailable: bool, net: Network, pos: nat,
                                   spawn: Spawn)
      returns (r: TunnelSetup)
      modifies this
      ensures var dl := Fallback(requestsAvailable, net, pos).0;
        var present := CLOUDFLARED_PATH in fs || dl.got.Some?;
        var started := present && HasToken(env);
        && r.next == (if CLOUDFLARED_PATH in fs then pos else dl.next)
        && r.fs == (if present then fs + {CLOUDFLARED_PATH} else fs)
        && (r.ok <==> started && spawn == KeepsRunning)
        && hasTunnel == (old(hasTunnel) || (started && spawn != SpawnFails))
      ensures isCodespaces == old(isCodespaces)
    {
      var fs' := fs;
      var next := pos;
      if CLOUDFLARED_PATH !in fs {
        var t, _ := DownloadFile(requestsAvailable, net, pos);
        next := t.next;
        if t.got.None? {
          return TunnelSetup(false, fs', next);
        }
        fs' := fs + {CLOUDFLARED_PATH};
      }
      if !HasToken(env) {
        return TunnelSetup(false, fs', next);
      }
      if spawn == SpawnFails {
        return TunnelSetup(false, fs', next);
      }
      hasTunnel := true;
      return TunnelSetup(spawn == KeepsRunning, fs', next);
    }

    /**
     * `setup_cloudflared`: outside Codespaces always the regular setup; inside, the
     * regular setup only when a token is set, and success without a tunnel otherwise.
     */
    method SetupCloudflared(env: Env, fs: Paths, requestsAvailable: bool, net: Network, pos: nat, spawn: Spawn)
      returns (r: TunnelSetup)
      modifies this
      ensures isCodespaces == old(isCodespaces)
      ensures old(isCodespaces) && !HasToken(env) ==>
        r == TunnelSetup(true, fs, pos) && hasTunnel == old(hasTunnel)
      ensures !old(isCodespaces) || HasToken(env) ==>
        var dl := Fallback(requestsAvailable, net, pos).0;
        var present := CLOUDFLARED_PATH in fs || dl.got.Some?;
        && r.next == (if CLOUDFLARED_PATH in fs then pos else dl.next)
        && r.fs == (if present then fs + {CLOUDFLARED_PATH} else fs)
        && (r.ok <==> present && HasToken(env) && spawn == KeepsRunning)
        && hasTunnel == (old(hasTunnel) || (present && HasToken(env) && spawn != SpawnFails))
      ensures !HasToken(env) ==> hasTunnel == old(hasTunnel) && (r.ok <==> old(isCodespaces))
    {
      if !isCodespaces {
        r := SetupCloudflaredRegular(env, fs, requestsAvailable, net, pos, spawn);
        return;
      }
      if HasToken(env) {
        r := SetupCloudflaredRegular(env, fs, requestsAvailable, net, pos, spawn);
        return;
      }
      r := TunnelSetup(true, fs, pos);
    }

    /**
     * `get_connection_info`: Codespaces forwarding first, then a recorded tunnel process,
     * then a local-only address.
     */
    function GetConnectionInfo(env: Env): (info: ConnectionInfo)
      reads this
      ensures info.port == PORT
      ensures info.kind == Codespaces <==> isCodespaces
      ensures info.kind == Cloudflare <==> !isCodespaces && hasTunnel
      ensures info.kind == Local <==> !isCodespaces && !hasTunnel
    {
      if isCodespaces then ConnectionInfo(Codespaces, CodespacesAddress(env, "unknown"), PORT, CODESPACES_NOTE)
      else if hasTunnel then ConnectionInfo(Cloudflare, CLOUDFLARE_ADDRESS, PORT, CLOUDFLARE_NOTE)
      else ConnectionInfo(Local, "localhost:" + PortText(), PORT, LOCAL_NOTE)
    }

    /**
     * The addresses reported: in Codespaces `<name>-19132.<domain>` with `unknown` and
     * `preview.app.github.dev` standing in for unset variables; otherwise without a tunnel
     * `localhost:19132`.
     */
    lemma ConnectionAddresses(env: Env)
      ensures isCodespaces ==>
        var name := if NAME_VAR in env then env[NAME_VAR] else "unknown";
        var domain := if DOMAIN_VAR in env then env[DOMAIN_VAR] else DEFAULT_DOMAIN;
        GetConnectionInfo(env).address == name + "-19132." + domain
      ensures !isCodespaces && !hasTunnel ==> GetConnectionInfo(env).address == "localhost:19132"
    {
      PortTextDigits();
      CodespacesAddressParts(env, "unknown");
    }
  }
}
