/** The two record shapes the store keeps, and the outcome of an operation
    that can fail. */
module Records {

  datatype Option<+T> = None | Some(value: T)

  /** One row of the uninstall table: `id`, the display name (trimmed, case
      kept from the first request) and how often it was requested. */
  datatype UninstallRequest = UninstallRequest(id: string, programName: string, count: int)

  /** One tracked boss. `finalDeathCount` is `null` until the boss is marked
      beaten. */
  datatype Boss = Boss(id: string, name: string, isBeaten: bool, deathCount: int,
                       finalDeathCount: Option<int>)

  /** The two errors the store throws: `incrementDeaths` with no name and no
      unbeaten boss, and `markBeaten` with nothing to mark. */
  datatype Error = NoActiveBoss | BossNotFound

  datatype Result<+T> = Ok(value: T) | Err(error: Error)
}
