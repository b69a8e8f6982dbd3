/** The constants both generations take from `Config`. */
module Config {
  const STATE_IDLE: int := 0
  const STATE_GAME: int := 1
  const STATE_DEAD: int := 2
  const STATE_OFFLINE: int := 3

  const SERVER_PORT: int := 9878
  const HEARTBEAT_INTERVAL: int := 2000
  const HEARTBEAT_TIMEOUT: int := 5000
}
