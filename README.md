# NCutil notification database: a verified model

NCutil is a command-line tool that edits the Notification Center database of
OS X: the `app_info` table, one row per registered bundle id with an app id
and a flags word. This project models the tool's core in Dafny.

- **Flag codec** (`FlagBits`, `AlertFlags`). The flags are one-bit masks
  `1 << k`. `get_alert_style` reads a style from the flags. It tests the
  alert bit (4) before the banner bit (3). `set_alert` writes a style. It
  clears both bits and then sets at most one of them. Flags are `nat`, and
  `&`, `|` and `& ~` are defined bit by bit, as Python computes them on
  non-negative integers. The source never bounds the width. A separate lemma
  shows that a 16-bit value stays 16-bit.
- **The table** (`AppTable`). The table is a sequence of rows in storage
  order. Each SELECT, UPDATE and DELETE the tool issues is a function on that
  sequence. The id allocator and the effect of each whole batch are functions
  too. Lemmas about these functions state what the tool promises.
- **The batch operations** (`NotificationDb.Database`). This class holds the
  committed table and a count of notification-process restarts.
  `insert_app`, `remove_app` and `set_alert` are `for` loops with invariants.
  Each is proved against the batch functions of `AppTable`.
  - `insert_app` and `remove_app` write through one connection and commit
    once, at the end. Their existence checks open a connection of their own.
    So the checks see only the table as it was before the batch. The model
    keeps the committed `rows` for the checks and a local `working` sequence
    for the writes.
  - The allocator of `insert_app` reads through the batch connection. So it
    sees the rows appended earlier in the same batch.
  - `set_alert` commits every write at once. One table state is enough for it.

Points where the model follows the code rather than the tool's own comments:

- `get_available_id` says it takes the highest `app_id`. The code
  (NCutil.py:104) takes the app id of the last row the unordered SELECT
  returns and adds one. The model takes that row to be the last in storage
  order (see "Left out"). `AvailableIdCanCollide` shows a table where the id
  handed out is already taken. `AvailableIdIsFresh` shows the id is fresh
  when app ids increase in storage order. `AppendedKeepsIncreasing` shows that insert
  batches keep that order.
- The existence checks of one insert batch all see the table from before the
  batch. So an id named twice in one batch is inserted twice
  (`InsertTwiceInOneBatch`). Bundle ids stay unique when the batch's ids are
  distinct (`AppendedKeepsUnique`).
- A DELETE of the last row makes its app id the next one handed out again
  (`DeletedLastIdReused`). Deleting any other bundle id keeps the next id
  (`NextIdAfterAppendThenDeleteOther`).
- `get_flags` reads the first matching row, while `set_flags` updates every
  matching row. When a bundle id has duplicate rows, `set_alert` reads the
  first row's flags. It skips the write when that row already has the style.
  So later duplicates can keep another style. The style read back is still
  the one set (`StyleAllReadBack`). Its bit-exact effect on a row is stated
  for tables with unique bundle ids (`StyleOneUniqueRow`).
- If `remove_system_center` matches no bundle id, it hands `set_alert` an
  empty list. `set_alert` then exits with status 1.

## Model

| member | source | states |
|---|---|---|
| FlagBits.AndPow2 | NCutil.py:209-211 | `flags & (1 << k)` is `1 << k` when bit k is set and 0 otherwise, so a mask test reads exactly one bit |
| FlagBits.BitOfAnd | NCutil.py:209-211 | bit k of `a & b` is set iff it is set in both |
| FlagBits.BitOfOr | NCutil.py:241-244 | bit k of `a \| b` is set iff it is set in either |
| FlagBits.BitOfAndNot | NCutil.py:238 | bit k of `a & ~b` is set iff it is set in a and not in b |
| FlagBits.BitsDetermine | NCutil.py:245 | two flag values with the same bits are equal, which is how `new_flags != current_flags` is decided |
| AlertFlags.StyleName | NCutil.py:223 | each style's token is accepted by the style check and parses back to that style |
| AlertFlags.FlagMasks | NCutil.py:183-199 | each flag constant is the one-bit mask `1 << k` of its position: exactly bit k is set |
| AlertFlags.StyleMaskValues | NCutil.py:187-188 | the banner mask is 8, the alert mask 16, and their union 24 |
| AlertFlags.ParseStyle | NCutil.py:223-225 | a style token is accepted iff it is one of `none`, `alerts`, `banners` |
| AlertFlags.ParseStyleExactly | NCutil.py:223-225 | only `none`, `alerts` and `banners` are accepted, each as its own style |
| AlertFlags.DecodeStyle | NCutil.py:209-214 | alerts iff bit 4 is set; banners iff bit 3 is set and bit 4 is not; none iff neither is set (bit 4 wins) |
| AlertFlags.EncodeStyle | NCutil.py:237-244 | the written flags have the alert bit set iff the style is alerts and the banner bit set iff it is banners |
| AlertFlags.EncodeSamples | NCutil.py:237-244 | alerts written into 0 gives 16; none written into 0b11000 gives 0 |
| AlertFlags.EncodeStyleBits | NCutil.py:237-244 | after encoding, bit 4 is set iff the style is alerts, bit 3 iff it is banners, and every other bit equals the input's |
| AlertFlags.DecodeEncode | NCutil.py:238-244 | decoding the encoded flags returns the style written |
| AlertFlags.EncodeUnchanged | NCutil.py:238-246 | encoding leaves the flags unchanged, so no write is issued, iff bits 4 and 3 already spell the style |
| AlertFlags.EncodeIdempotent | NCutil.py:238-244 | encoding twice with one style equals encoding once |
| AlertFlags.EncodeKeepsOtherBits | NCutil.py:238-244 | `encode(F, S) & ~0b11000 == F & ~0b11000` |
| AlertFlags.EncodeStays16Bit | NCutil.py:183-199 | a flags value below `1 << 16` stays below it after encoding |
| AppTable.BundleIdExists | NCutil.py:145-152 | true iff some row has exactly this bundle id |
| AppTable.GetFlags | NCutil.py:165-174 | the flags of the first matching row in table order, or 0 when no row matches |
| AppTable.UpdateFlags | NCutil.py:140-141 | every row with the bundle id gets the new flags; all other rows and columns stay; the row count is kept |
| AppTable.Delete | NCutil.py:131 | exactly the rows without the bundle id remain |
| AppTable.MatchingIds | NCutil.py:155-162 | exactly the bundle ids of rows the LIKE pattern matches, at most one per row |
| AppTable.GetAlertStyle | NCutil.py:202-214 | Nothing (exit status 1) iff the id is unknown; otherwise the decoded style of the first matching row |
| AppTable.Present | NCutil.py:130-131 | the batch ids that the existence check finds |
| AppTable.Absent | NCutil.py:127-129 | the batch ids that the existence check does not find; these are the ids warned about |
| AppTable.GetFlagsAfterUpdate | NCutil.py:137-142 | after `set_flags`, `get_flags` of that id returns the new flags; other ids and the set of ids are unchanged |
| AppTable.DeleteRemoves | NCutil.py:131 | after the DELETE the id no longer exists, and every other id exists iff it did before |
| AppTable.DeleteConcat | NCutil.py:131 | the DELETE works row by row, so the remaining rows keep their relative order |
| AppTable.DeleteAbsent | NCutil.py:131 | deleting an id that no row has changes nothing |
| AppTable.GetAvailableId | NCutil.py:100-105 | IndexError (Nothing) exactly when the table is empty; otherwise the app id of the last row plus one |
| AppTable.NextIdAfterAppendThenDeleteOther | NCutil.py:100-105 | deleting another bundle id after an append keeps the appended row last, so the next id still follows it |
| AppTable.DeletedLastIdReused | NCutil.py:100-105 | deleting the last row hands its app id out again: rows 1 and 2 minus row 2 allocate 2 |
| AppTable.NextIdAfterAppend | NCutil.py:100-105 | after a row is appended, the next id is that row's app id plus one |
| AppTable.AvailableIdIsFresh | NCutil.py:100-105 | when app ids increase in storage order, the allocated id exceeds every id in use |
| AppTable.AvailableIdCanCollide | NCutil.py:101-104 | the allocated id is last row plus one, not the maximum plus one, so it can collide |
| AppTable.AppendOne | NCutil.py:113-115 | one INSERT through the batch cursor extends the batch's appended rows by one row, numbered after the last |
| AppTable.AppendedAllExist | NCutil.py:111-117 | after an insert batch every id of the batch exists |
| AppTable.AppendedKeepsFlags | NCutil.py:111-117 | an insert batch leaves the flags read for an existing id unchanged |
| AppTable.AppendedKeepsIncreasing | NCutil.py:100-117 | an insert batch keeps app ids increasing, and the next id follows the last id handed out |
| AppTable.InsertTwiceInOneBatch | NCutil.py:111-115 | an id absent before the batch and named twice in it is inserted twice |
| AppTable.AppendedKeepsUnique | NCutil.py:111-117 | with distinct batch ids, an insert batch keeps bundle ids unique |
| AppTable.StyleOne | NCutil.py:236-246 | one styling step keeps every row's app id and bundle id, and leaves every row of another bundle id exactly as it was |
| AppTable.StyleAll | NCutil.py:231-246 | `set_alert` keeps the row count and every row's app id and bundle id |
| AppTable.StyleAllOnlyNamed | NCutil.py:231-246 | rows whose bundle id is not in the batch are left exactly as they were |
| AppTable.StyleOneFrame | NCutil.py:236-246 | styling one id leaves the existence and flags of every other id unchanged |
| AppTable.StyleOneSets | NCutil.py:236-246 | styling an existing id makes its first row's flags the encoding of its old flags |
| AppTable.StyleAllFlags | NCutil.py:231-246 | after `set_alert`, every batch id that existed has, in its first row, its old flags with the style encoded, however often the batch names it |
| AppTable.StyleAllReadBack | NCutil.py:231-246 | after `set_alert`, each batch id that existed reads back the set style; ids outside the batch keep their flags; the set of ids is unchanged |
| AppTable.StyleOneUniqueRow | NCutil.py:236-246 | with unique bundle ids, a styled row gets exactly the encoded flags and nothing else changes |
| AppTable.SameKeysKeepInvariants | NCutil.py:140-141 | rewriting only flags keeps bundle ids unique and app ids increasing |
| AppTable.DeletePresentIsDeleteAll | NCutil.py:126-131 | deleting only the ids the check found equals deleting every id of the batch |
| AppTable.DeleteAll | NCutil.py:126-131 | after a remove batch, exactly the rows whose bundle id is not in the batch remain |
| AppTable.DeleteAllMembers | NCutil.py:126-131 | after a remove batch no batch id exists, and every other id exists iff it did before |
| AppTable.DeleteAllConcat | NCutil.py:126-131 | a remove batch keeps the relative order of the surviving rows |
| AppTable.DeleteKeepsUnique | NCutil.py:131 | a DELETE keeps bundle ids unique |
| AppTable.DeleteKeepsIncreasing | NCutil.py:131 | a DELETE keeps app ids increasing |
| AppTable.DeleteAllKeepsInvariants | NCutil.py:126-131 | a remove batch keeps both table invariants |
| AppTable.SystemCenterCleared | NCutil.py:177-180 | after the sweep, every existing id the pattern matches has its old flags with both style bits cleared, and so reads back style none; the others keep their flags |
| AppTable.ScenarioSetAlerts | NCutil.py:218-246 | `com.a` at flags 0 set to alerts becomes flags 16 and reads back alerts |
| AppTable.ScenarioSystemCenterNone | NCutil.py:177-180 | `_SYSTEM_CENTER_:Alerts` at 0b11000 set to none becomes 0; the other row is untouched |
| NotificationDb.Database.SetFlags | NCutil.py:137-142 | the committed table becomes the UPDATE of the old table; no restart |
| NotificationDb.Database.InsertApp | NCutil.py:108-120 | IndexError iff the table is empty and the batch is not; in that case nothing changes. Otherwise one row is appended per id the check misses, numbered from the last row plus one, and one restart follows. Ids found are warned about. Table invariants are kept |
| NotificationDb.Database.RemoveApp | NCutil.py:123-134 | the table becomes the old table minus every row of a batch id. Absent ids are warned about. One restart follows. Invariants are kept |
| NotificationDb.Database.SetAlert | NCutil.py:218-247 | a bad style token or an empty batch gives exit 1 with no change. Otherwise the table becomes the batch styling of the old one, unknown ids are warned about, keys are kept and one restart follows |
| NotificationDb.Database.RemoveSystemCenter | NCutil.py:177-180 | no match gives exit 1 with no change. Otherwise every matching id is styled none, without warnings |
| NotificationDb.NothingAbsent | NCutil.py:180 | an id list made of ids taken from the table draws no not-found warning |

## Left out

- `get_osx_major` and `get_nc_db` (NCutil.py:26-52): OS version and file-path discovery are environment I/O.
- `connect_to_db` and `commit_changes` (NCutil.py:55-79): connections become the committed `rows` field and a local `working` sequence in the batch methods.
- `kill_notification_center` (NCutil.py:69-73): the `killall` subprocesses become the `restarts` counter.
- `list_clients` (NCutil.py:91-97): it only prints the bundle ids in storage order.
- `usage`, `verboseOutput` and `main` (NCutil.py:15-23, 82-88, 250-285): argument parsing and printed text. Warnings become the returned `warned` lists. `exit(1)` becomes an exit code or `Nothing`.
- SQLite's LIKE (NCutil.py:158): the wildcard and case-folding rules run inside SQLite. The match is a predicate parameter. Note that `_` in `_SYSTEM_CENTER_:%` is itself a wildcard.
- SQL built by string interpolation (NCutil.py:114, 131, 140, 148, 158, 168): bundle ids are assumed to hold no quotes. `=` and `IS` are the same comparison for the non-null ids the tool passes.
- Flags storage: flags are written as text and read back with `int(...)`. The model stores the non-negative integer itself. A non-numeric or negative stored value is not modelled.
- NotificationDb.Database.InsertApp: the inserted tuple `(next_id, bundle_id, '14', '5', next_id)` is positional. The source does not show which column is `flags`. So the appended rows' flags are left unconstrained, and the two constant columns are not modelled.
- Row order of unordered SELECTs (NCutil.py:102, 168): neither query has an ORDER BY, so SQLite may return rows in any order. The model takes them in storage order: rows in the order they were inserted, with deleted rows dropped. `GetFlags`' first-match rule, `AvailableIdIsFresh`, `AppendedKeepsIncreasing` and the other allocator lemmas rest on that assumption.
