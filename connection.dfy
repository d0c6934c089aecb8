/** How a launcher tells players to reach the server, and how starting a tunnel can go. */
module Connection {
  /** How players reach the server. */
  datatype Kind = Codespaces | Cloudflare | Local

  /** The `connection_info` dict: `type`, `address`, `port`, `note`. */
  datatype ConnectionInfo = ConnectionInfo(kind: Kind, address: string, port: nat, note: string)

  /**
   * Starting the cloudflared tunnel: `subprocess.Popen` raises, or the process has already
   * exited when it is polled after the launcher's wait, or it is still running.
   */
  datatype Spawn = SpawnFails | ExitsEarly | KeepsRunning
}
