/** The checkins table: one row per username. A missing column value (SQL
    NULL) is None. Every statement the bot runs against the table is a
    function here; the UPDATEs match rows by username and touch nothing when
    no row matches. */
module Store {
  import opened Options

  datatype UserRecord = UserRecord(
    streak: int,
    lastCheckin: int,
    animal: Option<string>,
    transformStart: Option<int>,
    transformEnd: Option<int>)

  type Table = map<string, UserRecord>

  /** INSERT INTO checkins (username, streak, lastCheckin) VALUES (?, 1, now):
      the transformation columns start out NULL. */
  function FirstCheckinRow(now: int): UserRecord {
    UserRecord(1, now, None, None, None)
  }

  /** UPDATE checkins SET streak = ?, lastCheckin = ?, for one row. */
  function CheckedInRow(r: UserRecord, now: int): UserRecord {
    r.(streak := r.streak + 1, lastCheckin := now)
  }

  /** UPDATE checkins SET animal = ?, transform_start = ?, transform_end = ?
      WHERE username = ?: a successful no-op when the user has no row. */
  function SetTransform(t: Table, user: string, animal: string, start: int, end: int): Table {
    if user in t then
      t[user := t[user].(animal := Some(animal), transformStart := Some(start), transformEnd := Some(end))]
    else t
  }

  function ClearedRow(r: UserRecord): UserRecord {
    r.(animal := None, transformStart := None, transformEnd := None)
  }

  /** UPDATE checkins SET animal = NULL, transform_start = NULL,
      transform_end = NULL WHERE username = ?, for every user in users. */
  function ClearTransforms(t: Table, users: set<string>): Table {
    map u | u in t :: if u in users then ClearedRow(t[u]) else t[u]
  }

  /** SELECT username, transform_end FROM checkins WHERE transform_end > now:
      a NULL transform_end never compares greater. */
  function RowsTransformedAfter(t: Table, now: int): map<string, int> {
    map u | u in t && t[u].transformEnd.Some? && t[u].transformEnd.value > now :: t[u].transformEnd.value
  }

  /** A row as the bot writes them: a positive streak, and the three
      transformation columns either all NULL or all set with the end after
      the start. */
  predicate WellFormedRow(r: UserRecord) {
    && r.streak >= 1
    && ((r.animal.None? && r.transformStart.None? && r.transformEnd.None?)
        || (r.animal.Some? && r.transformStart.Some? && r.transformEnd.Some?
            && r.transformStart.value < r.transformEnd.value))
  }

  predicate WellFormedTable(t: Table) {
    forall u :: u in t ==> WellFormedRow(t[u])
  }
}
