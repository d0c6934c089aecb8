# Bedrock launchers: a Dafny model

This project models the decision logic of two Python launchers for a Minecraft Bedrock
dedicated server that runs inside GitHub Codespaces.

- `space-launcher.py` installs the server from a zip the user uploaded. It searches two
  directories for the zip, validates it and extracts it. It then writes `server.properties`,
  keeping the user's existing values for the launcher's keys. Finally it publishes the game
  port through Codespaces forwarding, or through a Cloudflare tunnel outside Codespaces.
- `bedrock-launcher.py` downloads the server zip from a list of mirrors. Each download uses
  the `requests` client with retries and exponential backoff, then falls back to `urllib`. It
  checks the download's size, extracts it and deletes the zip. It then overwrites
  `server.properties` with fixed settings, optionally starts a Cloudflare tunnel, and reports
  how players connect.

The model's modules follow the two scripts and the pieces they share:

- `Text`: `str.strip`, `lower`, `startswith`/`endswith`, substring tests and `str(n)` on `seq<char>`.
- `Environment`: `os.environ` as a map; Codespaces detection; the tunnel token; the forwarded address.
- `Connection`: the `connection_info` record and the outcomes of starting a tunnel.
- `Properties`: reading, merging and writing `server.properties`, including Python's text-mode line splitting.
- `Disk`: the file system as a set of relative paths; zip archives as lists of entry names; what `extractall` creates.
- `Trace`: an installer's observable actions (search, validate, download request, extract, delete), in order.
- `Download`: the retry loops, the client fallback and the mirror loop, over a network given as a sequence of attempt outcomes.
- `SpaceLauncher`: `space-launcher.py`.
- `BedrockLauncher`: `bedrock-launcher.py`.
- `Wrappers`: `Option`.

Loops in the source are methods with loop invariants, proved equal to a specifying
function. Those methods are: the zip search, the retry loop, the mirror loop, the
properties read, merge and write loops. The managers' `is_codespaces`, `tunnel_process` and
`connection_info` fields live in classes whose methods update them. The file system, the
archives, the environment, the network outcomes and the fate of a spawned tunnel are
parameters.

## Model

| member | source | states |
|---|---|---|
| Text.StripKeeps | space-launcher.py:314-315 | `strip` never removes a non-whitespace character, so the `=` a line contains survives into the text that is split |
| Text.StripFixed | space-launcher.py:314-315 | a text that neither starts nor ends with whitespace is unchanged by `strip` |
| Text.StripDropsTrailingSpace | space-launcher.py:313-315 | `strip` ignores a line's trailing `\n` |
| Text.ContainsIff | space-launcher.py:117 | the substring test `keyword in name` holds exactly when the keyword occurs at some index |
| Text.DecimalRoundTrip | space-launcher.py:297 | `str(n)` read back as a number is `n` |
| Environment.DetectCodespaces | space-launcher.py:49-51 | Codespaces is detected exactly when `CODESPACES` is `true` or the forwarding-domain variable is set; an empty domain still counts |
| Environment.HasToken | bedrock-launcher.py:311-312 | the token counts exactly when `CLOUDFLARED_TOKEN` is set and not empty |
| Environment.PortTextDigits | bedrock-launcher.py:352-353 | `str(CONFIG["port"])` is `19132` |
| Environment.CodespacesAddressParts | space-launcher.py:208-213 | the address is the codespace name, `-19132.`, then the domain; an unset variable takes its default |
| Properties.UniversalNewlinesIdentity | space-launcher.py:312-313 | text mode leaves a text without `\r` unchanged |
| Properties.SplitLinesConcat | space-launcher.py:313 | the lines `for line in f` yields concatenate back to the file's text |
| Properties.SplitLinesShape | space-launcher.py:313 | each line yielded is non-empty and holds `\n` only at its end; every line but the last ends with `\n`; no line holds `\r` when the text has none |
| Properties.SplitAtEqualsJoin | space-launcher.py:315 | `split('=', 1)` of `key=value` gives back the key and value when the key has no `=` |
| Properties.SplitAtEqualsParts | space-launcher.py:315 | the split yields a key without `=` and a value that rejoin to the stripped line |
| Properties.ParseLine | space-launcher.py:314-315 | a line yields an entry exactly when it has `=` and its stripped text does not start with `#`; the key has no `=`, and key, `=`, value rejoin to the stripped line |
| Properties.CollectLastWins | space-launcher.py:313-316 | a key is in `existing_config` exactly when some accepted line has it, and its value is the value from the last such line |
| Properties.ReadExisting | space-launcher.py:311-316 | the read loop builds the dict that `ReadProperties` specifies |
| Properties.ReadPropertiesWellFormed | space-launcher.py:313-316 | every key/value read from a file would be written back as a line that reads the same |
| Properties.MergeKeepsExisting | space-launcher.py:318-321 | the merge keeps the launcher's keys in their order; each takes the existing value when the file has the key, the default otherwise |
| Properties.MergeExisting | space-launcher.py:319-321 | the merge loop computes that merge |
| Properties.WriteProperties | space-launcher.py:323-325 | the write loop emits one `key=value\n` line per entry, in order |
| Properties.SplitSerialize | space-launcher.py:323-325 | the written text splits into exactly one line per entry |
| Properties.RoundTrip | space-launcher.py:309-325 | reading back a written file gives the dict of the written entries, when each entry is a well-formed line |
| Properties.EntriesMapKeys | space-launcher.py:323-325 | the dict read back has exactly the written keys |
| Properties.EntriesMapAt | space-launcher.py:323-325 | with distinct keys, every written value is read back under its key |
| Properties.ConfiguredReadBack | space-launcher.py:309-325 | after `configure_server` the file defines exactly the launcher's keys, each with the old file's value when it had the key and the default otherwise; keys only in the old file are dropped |
| Properties.ConfiguredReadBackAll | space-launcher.py:309-325 | the same for all the launcher's keys at once: exactly those keys, each with the old file's value or its default |
| Properties.ConfigureIdempotent | space-launcher.py:309-325 | running `configure_server` a second time rewrites an identical file |
| Disk.UnderIff | space-launcher.py:181 | a name extracted into the data directory exists there exactly when the archive produced it |
| Disk.ExtractedServer | space-launcher.py:180-184 | after `extractall`, `bedrock_server` exists exactly when some entry is that file or lies inside that directory |
| Download.FirstSuccess | bedrock-launcher.py:120-149 | the first successful attempt in a range, with every earlier attempt failed; none exactly when all failed |
| Download.BackoffTotal | bedrock-launcher.py:146-147 | the sleeps after `n` failed attempts total `2 ** n - 1` seconds |
| Download.RetryBounds | bedrock-launcher.py:155-182 | a routine makes at most `max_retries` attempts, stops at the first success, and fails only when every attempt failed |
| Download.DownloadWithRetries | bedrock-launcher.py:116-182 | the attempt loop returns the routine's outcome and sleeps `2 ** attempt` after each failure except the last |
| Download.FallbackClients | bedrock-launcher.py:184-193 | `urllib` runs exactly when `requests` is missing or failed, and always last; a `requests` success is the result |
| Download.DownloadFile | bedrock-launcher.py:184-193 | `download_file` runs the clients as `Fallback` specifies |
| Download.MirrorsShape | bedrock-launcher.py:243-251 | the URLs tried are the first mirrors in order, each followed by the zip name; failure only after every mirror was tried |
| Download.DownloadFromMirrors | bedrock-launcher.py:243-251 | the mirror loop stops at the first successful download, as `Mirrors` specifies, and fetches one URL per mirror tried |
| Download.MirrorsStopAtSuccess | bedrock-launcher.py:247-248 | mirrors after a successful one are never tried |
| SpaceLauncher.FirstWhere | space-launcher.py:106-119 | the first index satisfying a test, with every earlier index failing it; none exactly when no index passes |
| SpaceLauncher.SearchExactNames | space-launcher.py:106-111 | the first pass returns the first listed name that exists, in the current directory first, then the data directory |
| SpaceLauncher.SearchKeywordZips | space-launcher.py:114-119 | the second pass returns the first `*.zip` with a keyword in its lower-cased name, in the current directory first |
| SpaceLauncher.FindManualZip | space-launcher.py:89-121 | `find_manual_zip` returns what `ManualZip` specifies |
| SpaceLauncher.ExactInNone | space-launcher.py:106-111 | a directory has no exact match exactly when none of the listed names exists in it |
| SpaceLauncher.ManualZipExactFirst | space-launcher.py:106-111 | when any listed name exists, the result is an existing listed path, the first in list order in its directory; a data-directory result means the current directory has none |
| SpaceLauncher.ManualZipNone | space-launcher.py:89-121 | no zip is found exactly when no listed name exists and neither listing has a keyword zip |
| SpaceLauncher.ManualZipKeyword | space-launcher.py:113-119 | a second-pass result is the first keyword zip of its directory, and the current directory has none when it comes from the data directory |
| SpaceLauncher.HasServerEntryIff | space-launcher.py:133 | the scan finds an entry exactly when some entry name contains `bedrock_server` |
| SpaceLauncher.ValidateBedrockZip | space-launcher.py:123-153 | an archive that does not open, or has no entries, is invalid |
| SpaceLauncher.ValidateIff | space-launcher.py:123-153 | a zip is valid exactly when it opens and some entry name contains `bedrock_server`; unreadable or empty archives are invalid |
| SpaceLauncher.ExtractedServerValid | space-launcher.py:174-184 | an archive that extracts `bedrock_server` passes validation |
| SpaceLauncher.InstallBedrockServer | space-launcher.py:155-196 | already installed: success, nothing done; otherwise search, validate, extract; success exactly when `bedrock_server` then exists |
| SpaceLauncher.SpaceDefaultsWellFormed | space-launcher.py:290-305 | every default setting is written as a line that reads back as itself |
| SpaceLauncher.SpaceDefaultsDistinct | space-launcher.py:290-305 | the default settings' keys are distinct |
| SpaceLauncher.ConfigureServer | space-launcher.py:286-325 | the written file is the merge of the existing file into the defaults; writing again over it changes nothing; it defines exactly the launcher's keys, each with the existing file's value when it has the key and the default otherwise |
| SpaceLauncher.SpaceBedrockManager.constructor | space-launcher.py:42-47 | Codespaces detected from the environment, no tunnel, no connection info |
| SpaceLauncher.SpaceBedrockManager.SetupCodespacesTunnel | space-launcher.py:204-218 | records the forwarded address and succeeds |
| SpaceLauncher.SpaceBedrockManager.SetupCloudflared | space-launcher.py:220-284 | a downloaded binary stays on disk, so a later call skips the download; success exactly when the binary is present or downloaded, a token is set and the tunnel keeps running; a tunnel that exits early stays recorded; the Cloudflare connection info is recorded only on success |
| SpaceLauncher.SpaceBedrockManager.SetupTunnel | space-launcher.py:198-202 | in Codespaces: success with the forwarded address, no download and no tunnel; elsewhere: the Cloudflare setup, with its files, tunnel and connection info |
| BedrockLauncher.ServerIsNotZip | bedrock-launcher.py:233-240 | the server path and the zip path differ |
| BedrockLauncher.AfterExtract | bedrock-launcher.py:259-262 | extraction only adds files, all under `bedrock-data/`, and adds nothing when the zip does not open or extraction fails |
| BedrockLauncher.AfterExtractServer | bedrock-launcher.py:259-267 | after extraction the server exists exactly when the zip opened, extraction completed and some entry is the server or lies inside it |
| BedrockLauncher.InstallBedrockServer | bedrock-launcher.py:231-280 | already installed: success; otherwise mirror loop, size check, extraction, zip removal; success exactly when `bedrock_server` exists afterwards, and only after a large enough download whose archive holds it |
| BedrockLauncher.MirrorUrls | bedrock-launcher.py:239-248 | the URLs tried are each mirror followed by `bedrock-server-1.21.44.01.zip`, in order; the second only after the first failed |
| BedrockLauncher.BedrockDefaultsWellFormed | bedrock-launcher.py:344-368 | every setting is written as a line that reads back as itself |
| BedrockLauncher.BedrockDefaultsDistinct | bedrock-launcher.py:344-368 | the settings' keys are distinct |
| BedrockLauncher.BedrockReadBack | bedrock-launcher.py:340-374 | the written settings read back as the settings' dict: exactly their keys, each with its value |
| BedrockLauncher.ConfigureServer | bedrock-launcher.py:340-374 | the written file is the fixed settings, one line each, whatever the file held; reading it back gives exactly the settings' keys, each with its value |
| BedrockLauncher.CodespacesBedrockManager.constructor | bedrock-launcher.py:45-49 | Codespaces detected from the environment, no tunnel |
| BedrockLauncher.CodespacesBedrockManager.SetupCloudflaredRegular | bedrock-launcher.py:298-338 | downloads cloudflared only when missing; success exactly when it is present, a token is set and the tunnel keeps running; a spawned tunnel stays recorded |
| BedrockLauncher.CodespacesBedrockManager.SetupCloudflared | bedrock-launcher.py:282-296 | in Codespaces without a token: success with no tunnel and no download; otherwise the regular setup, with its download, files and tunnel |
| BedrockLauncher.CodespacesBedrockManager.GetConnectionInfo | bedrock-launcher.py:376-404 | Codespaces forwarding exactly in Codespaces, Cloudflare exactly when a tunnel process is recorded outside it, local otherwise; always port 19132 |
| BedrockLauncher.CodespacesBedrockManager.ConnectionAddresses | bedrock-launcher.py:378-404 | the reported address is `<name>-19132.<domain>` in Codespaces (defaults `unknown`, `preview.app.github.dev`), `localhost:19132` locally |

## Left out

- Network transfer is not modelled. Each attempt's outcome (a file of some size, or an exception) comes from the `net` sequence. A partial file left by a failed attempt is not modelled.
- Progress output, logging, `print`, timeouts, the User-Agent header and the sleeps' wall-clock effect are left out. The sleep durations are returned as values.
- `install_requests_fallback` (pip install, import) is a boolean parameter saying whether the `requests` module is available. It is assumed constant across calls.
- The space launcher's `download_cloudflared` is a boolean parameter saying whether it succeeds. A partial binary left by a failed download is not modelled.
- Zip internals are left out: an archive is its list of entry names. Path sanitising by `extractall`, `chmod` and `os.chdir` are not modelled. An extraction that raises is modelled as writing nothing, although `extractall` may have written some files first.
- Subprocess details are left out: cloudflared's command-line arguments, its pipes, `time.sleep` before the poll, and signals. Starting the tunnel is reduced to three outcomes: `Popen` raises, the process exits early, or it keeps running.
- The directory order of `Path.glob` is an input: each directory's listing is given as a sequence, in enumeration order.
- `Text.Lower` folds only ASCII letters. Python's `str.lower` is Unicode-aware, so a keyword hidden behind a non-ASCII capital is not modelled.
- Reading a file that is not valid text in the locale encoding raises in Python. The model takes the file's content as characters.
- Opening `server.properties` can raise when the path exists but cannot be opened, for example a directory or a permission error (`space-launcher.py:312`, `bedrock-launcher.py:372`). `configure_server` has no `try`, so the error reaches `main` (`space-launcher.py:529`, `space-launcher.py:594-601`). The model treats the file as readable and writable.
- Not modelled: `setup_environment`, `start_server`, `cleanup`, `generate_world_backup`, `list_zip_files`, `show_menu`, `reinstall_server`, `edit_configuration`, `run_interactive`, `run` and `main`. They are interactive, drive processes, or only print.

As written in `bedrock-launcher.py`, a tunnel process that exits before the poll stays in
`tunnel_process`. `get_connection_info` then reports a Cloudflare tunnel. The model keeps
this behaviour: `SetupCloudflaredRegular` records the tunnel unless `Popen` raises.
