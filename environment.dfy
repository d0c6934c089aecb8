/**
 * The process environment as both launchers consult it: whether they run inside GitHub
 * Codespaces, the Cloudflare tunnel token, and the public address Codespaces forwards
 * the game port to.
 */
module Environment {
  import opened Wrappers
  import opened Text

  /** `os.environ`: variable name to value. */
  type Env = map<string, string>

  /** The game port both launchers configure and publish. */
  const PORT: nat := 19132

  const CODESPACES_VAR := "CODESPACES"
  const DOMAIN_VAR := "GITHUB_CODESPACES_PORT_FORWARDING_DOMAIN"
  const NAME_VAR := "CODESPACE_NAME"
  const TOKEN_VAR := "CLOUDFLARED_TOKEN"
  const DEFAULT_DOMAIN := "preview.app.github.dev"

  /** `os.getenv(name)`: the value, or `None` when the variable is not set. */
  function GetEnv(env: Env, name: string): Option<string> {
    if name in env then Some(env[name]) else None
  }

  /** `os.getenv(name, default)`: the default applies only to an unset variable, not an empty one. */
  function GetEnvOr(env: Env, name: string, default: string): string {
    GetEnv(env, name).GetOr(default)
  }

  /**
   * `detect_codespaces`: `CODESPACES` is `true`, or the forwarding-domain variable is set
   * at all; an empty forwarding domain still counts, a `CODESPACES` other than `true` does not.
   */
  function DetectCodespaces(env: Env): (inCodespaces: bool)
    ensures inCodespaces <==> (CODESPACES_VAR in env && env[CODESPACES_VAR] == "true") || DOMAIN_VAR in env
    ensures DOMAIN_VAR in env && env[DOMAIN_VAR] == "" ==> inCodespaces
  {
    GetEnv(env, CODESPACES_VAR) == Some("true") || GetEnv(env, DOMAIN_VAR) != None
  }

  /** `token = os.getenv("CLOUDFLARED_TOKEN")` is truthy: set and not empty. */
  function HasToken(env: Env): (hasToken: bool)
    ensures hasToken <==> TOKEN_VAR in env && env[TOKEN_VAR] != ""
  {
    match GetEnv(env, TOKEN_VAR)
    case None => false
    case Some(t) => t != ""
  }

  /** `str(CONFIG['port'])`. */
  function PortText(): (r: string)
    ensures DecimalValue(r) == PORT
  {
    DecimalRoundTrip(PORT);
    Decimal(PORT)
  }

  /** The port is written as its five digits. */
  lemma PortTextDigits()
    ensures PortText() == "19132"
  {
    assert Decimal(1) == "1";
    assert Decimal(19) == "19";
    assert Decimal(191) == "191";
    assert Decimal(1913) == "1913";
  }

  /**
   * `f"{codespace_name}-{port}.{github_domain}"`, where the name defaults to
   * `defaultName` and the domain to `preview.app.github.dev` when their variables are unset.
   */
  function CodespacesAddress(env: Env, defaultName: string): string {
    GetEnvOr(env, NAME_VAR, defaultName) + "-" + PortText() + "." + GetEnvOr(env, DOMAIN_VAR, DEFAULT_DOMAIN)
  }

  /**
   * The address starts with the codespace name (or the default when the variable is unset),
   * ends with the forwarding domain (or `preview.app.github.dev`), and between them holds
   * `-19132.`.
   */
  lemma CodespacesAddressParts(env: Env, defaultName: string)
    ensures var a := CodespacesAddress(env, defaultName);
      var name := if NAME_VAR in env then env[NAME_VAR] else defaultName;
      var domain := if DOMAIN_VAR in env then env[DOMAIN_VAR] else DEFAULT_DOMAIN;
      && a == name + "-19132." + domain
      && StartsWith(a, name + "-19132.")
      && EndsWith(a, "." + domain)
      && |a| == |name| + 7 + |domain|
  {
    PortTextDigits();
    var a := CodespacesAddress(env, defaultName);
    var name := GetEnvOr(env, NAME_VAR, defaultName);
    var domain := GetEnvOr(env, DOMAIN_VAR, DEFAULT_DOMAIN);
    assert a == (name + "-19132.") + domain;
    assert a == name + "-19132" + ("." + domain);
  }
}
