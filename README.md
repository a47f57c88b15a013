# NoteDao: the local NOTE table of the notes client

This project models the `NOTE` table behind the Room data-access interface
`NoteDao` of the Nextcloud/ownCloud notes client for Android. The table is an
in-memory store: a map from a row's local id to the rest of the row (account,
remote id, title, content, category id, favourite flag, modification time,
eTag, synchronization status and scroll offset). Each SQL statement of the
interface is one atomic step over that map.

- `sql.dfy` (module `Sql`) has the SQLite semantics the statements rely on:
  nullable values, three-valued `AND`/`OR`/`=`/`!=`/`IS NULL`, and the
  decimal text an integer parameter becomes when it meets a TEXT column.
- `note.dfy` (module `Notes`) has the row (`Note`), the row with its id as the
  queries return it (`Row`), the status enumeration (`DBStatus`, stored as
  `""`, `LOCAL_EDITED`, `LOCAL_DELETED`, `VOID`; these texts are assumed), and the bit arithmetic of
  the favourite toggle. It also has a column vocabulary (`Column`,
  `AgreeExcept`) for saying which columns a statement leaves unchanged.
- `table.dfy` (module `NoteTable`) states what every data-changing statement
  does to the table. Each statement is a function from the old table to the
  new one. The lemmas beside them cover:
  - the no-op conditions of the guards;
  - the frames ("no other row or column changes");
  - the status transitions;
  - the two reconciliation updates used by the sync driver: push-commit and
    pull-apply.
- `queries.dfy` (module `NoteQueries`) has the SELECT statements as functions
  of the table. A full scan visits rows in ascending id order (rowid order), a
  WHERE clause filters it, and `ORDER BY` is a stable insertion sort. Lemmas
  relate the filters, orderings and counters.
- `dao.dfy` (module `Persistence`) has the class `NoteDao`. It holds the table
  and the AUTOINCREMENT counter. Each mutator of the interface is a method that
  changes the table in place, and its postcondition ties the new table to the
  statement's function in `NoteTable`. Three client methods replay scenarios on
  the class:
  - a push that loses a race with a local edit;
  - a pull that reaches a clean row and is refused by an edited row;
  - a delete that is finalized twice.

The push-commit statement checks the stored row against the same `:content`
and `:favorite` parameters that it writes. It has no separate pre-push witness
parameters. The model follows the code. Consequently, when push-commit
succeeds, content and favourite keep their values, and only title, modified and
eTag can change (`NoteTable.PushCommit`).

## Model

| member | source | states |
|---|---|---|
| `Sql.And` | app/src/main/java/it/niedermann/owncloud/notes/persistence/dao/NoteDao.java:133 | SQL `AND` is True exactly when both sides are True and False when either is False |
| `Sql.Or` | app/src/main/java/it/niedermann/owncloud/notes/persistence/dao/NoteDao.java:133 | SQL `OR` is True exactly when one side is True and False only when both are False |
| `Sql.Equal` | app/src/main/java/it/niedermann/owncloud/notes/persistence/dao/NoteDao.java:133 | `x == y` is Unknown whenever an operand is NULL (so `eTag == NULL` is never True) and True exactly for equal non-null values |
| `Sql.NotEqual` | app/src/main/java/it/niedermann/owncloud/notes/persistence/dao/NoteDao.java:133 | `x != y` is Unknown whenever an operand is NULL and True exactly for different non-null values |
| `Sql.IsNull` | app/src/main/java/it/niedermann/owncloud/notes/persistence/dao/NoteDao.java:133 | `x IS NULL` is never Unknown: True exactly for NULL |
| `Sql.IntegerText` | app/src/main/java/it/niedermann/owncloud/notes/persistence/dao/NoteDao.java:64 | the text of an integer parameter compared with a TEXT column is non-empty and starts with a minus sign or a digit |
| `Notes.BitOf` | app/src/main/java/it/niedermann/owncloud/notes/persistence/dao/NoteDao.java:126 | a Boolean `:favorite` is stored and compared as 1 exactly when it is true |
| `Notes.FlipFavorite` | app/src/main/java/it/niedermann/owncloud/notes/persistence/dao/NoteDao.java:111 | the toggle's bit expression on `favorite` is `1 - favorite` on a 0/1 flag, and on any integer it flips the lowest bit, so applying it twice restores the operand |
| `Notes.DBStatus.Text` | app/src/main/java/it/niedermann/owncloud/notes/persistence/dao/NoteDao.java:105 | only the clean status is stored as `''`, and only LOCAL_DELETED and LOCAL_EDITED read as those literals |
| `NoteTable.ReplaceRow` | app/src/main/java/it/niedermann/owncloud/notes/persistence/dao/NoteDao.java:25-26 | updateNote gives the row with the entity's id all the entity's values and changes no other row; with no such row the table is unchanged |
| `NoteTable.DeleteByAccount` | app/src/main/java/it/niedermann/owncloud/notes/persistence/dao/NoteDao.java:28-29 | exactly the rows of the account are removed; every other row stays as it was |
| `NoteTable.DeleteByAccountCount` | app/src/main/java/it/niedermann/owncloud/notes/persistence/dao/NoteDao.java:28-29 | the table shrinks by exactly the number of the account's rows, and no row of the account remains |
| `NoteTable.DeleteByCardId` | app/src/main/java/it/niedermann/owncloud/notes/persistence/dao/NoteDao.java:58-59 | row `id` is gone afterwards exactly when it was absent or had the required status; other rows are untouched |
| `NoteTable.DeleteByCardIdTwice` | app/src/main/java/it/niedermann/owncloud/notes/persistence/dao/NoteDao.java:58 | a second conditional delete after the first changes nothing |
| `NoteTable.DeleteByCardIdKeepsOtherStatus` | app/src/main/java/it/niedermann/owncloud/notes/persistence/dao/NoteDao.java:58 | a row whose status differs from the required one (say LOCAL_EDITED when LOCAL_DELETED is required) is not removed |
| `NoteTable.Assignment.ApplyTo` | app/src/main/java/it/niedermann/owncloud/notes/persistence/dao/NoteDao.java:61-71 | a single-column SET stores its value in its column and leaves every other column as it was |
| `NoteTable.SetColumn` | app/src/main/java/it/niedermann/owncloud/notes/persistence/dao/NoteDao.java:61-71 | updateScrollY/updateStatus/updateCategory/updateRemoteId change only their column of row `id`, no other row, and nothing when the row is absent |
| `NoteTable.SettersKeepStatus` | app/src/main/java/it/niedermann/owncloud/notes/persistence/dao/NoteDao.java:117-118 | the setters other than updateStatus never change a row's status |
| `NoteTable.ToggleFavorite` | app/src/main/java/it/niedermann/owncloud/notes/persistence/dao/NoteDao.java:111-112 | the row's flag becomes `1 - favorite`, its status LOCAL_EDITED, every other column and row unchanged; absent row: no change |
| `NoteTable.ToggleFavoriteTwice` | app/src/main/java/it/niedermann/owncloud/notes/persistence/dao/NoteDao.java:111 | toggling twice restores the flag and leaves the row LOCAL_EDITED, nothing else changed |
| `NoteTable.Written` | app/src/main/java/it/niedermann/owncloud/notes/persistence/dao/NoteDao.java:124 | the SET list of both guarded updates writes title, modified, favorite, eTag and content and no other column |
| `NoteTable.PushCommit` | app/src/main/java/it/niedermann/owncloud/notes/persistence/dao/NoteDao.java:120-126 | without the row or with a changed content/flag/category nothing changes; on success only title, modified and eTag can differ (content and flag are written with the values they already hold) |
| `NoteTable.PushCommitStale` | app/src/main/java/it/niedermann/owncloud/notes/persistence/dao/NoteDao.java:125 | a row whose content, flag or category no longer equals the pushed value is left exactly as it is |
| `NoteTable.PushCommitKeepsStatus` | app/src/main/java/it/niedermann/owncloud/notes/persistence/dao/NoteDao.java:124-125 | push-commit never changes the status or the category id |
| `NoteTable.PullWhere` | app/src/main/java/it/niedermann/owncloud/notes/persistence/dao/NoteDao.java:133 | the clause is True exactly for a clean row where modified, favorite, category, content differ or both eTags are non-null and different |
| `NoteTable.PullApply` | app/src/main/java/it/niedermann/owncloud/notes/persistence/dao/NoteDao.java:129-134 | when the clause holds the row gets the SET list's values; otherwise the table is unchanged; other rows never change |
| `NoteTable.PullApplyCleanOnly` | app/src/main/java/it/niedermann/owncloud/notes/persistence/dao/NoteDao.java:133 | a LOCAL_EDITED, LOCAL_DELETED or VOID row is never overwritten, whatever the payload |
| `NoteTable.PullApplyKeepsUnwrittenColumns` | app/src/main/java/it/niedermann/owncloud/notes/persistence/dao/NoteDao.java:132 | when pull-apply writes, the row stays clean and keeps category, account, remote id and scroll offset |
| `NoteTable.PullApplyIdenticalPayload` | app/src/main/java/it/niedermann/owncloud/notes/persistence/dao/NoteDao.java:133 | a payload equal to the stored modified, favorite, category, non-null eTag and content changes nothing, whatever its title |
| `NoteTable.PullApplyIgnoresNullETag` | app/src/main/java/it/niedermann/owncloud/notes/persistence/dao/NoteDao.java:133 | as written, a clean row with a NULL eTag and otherwise equal tracked columns is not updated, so its eTag stays NULL |
| `NoteTable.PullWhereIntended` | app/src/main/java/it/niedermann/owncloud/notes/persistence/dao/NoteDao.java:133 | with `eTag IS NULL`, the clause is True for a clean row whose eTag is NULL or differs from a non-null one, or whose other tracked columns differ |
| `NoteTable.PullApplyIntended` | app/src/main/java/it/niedermann/owncloud/notes/persistence/dao/NoteDao.java:132-134 | pull-apply with the intended clause: writes the SET list exactly when that clause holds |
| `NoteTable.PullApplyIntendedRecordsETag` | app/src/main/java/it/niedermann/owncloud/notes/persistence/dao/NoteDao.java:133 | with the intended clause, a clean row without an eTag records the remote eTag and stays clean |
| `NoteTable.PullApplyIntendedGuards` | app/src/main/java/it/niedermann/owncloud/notes/persistence/dao/NoteDao.java:133 | the intended clause keeps both guarantees (clean rows only, identical payload ignored) and agrees with the written one wherever that one writes |
| `NoteQueries.Scan` | app/src/main/java/it/niedermann/owncloud/notes/persistence/dao/NoteDao.java:82-83 | a filtered full scan returns exactly the table's rows that satisfy the WHERE clause, each once, in ascending id order |
| `NoteQueries.Sort` | app/src/main/java/it/niedermann/owncloud/notes/persistence/dao/NoteDao.java:55 | ORDER BY returns a permutation of its input that is sorted by the key |
| `NoteQueries.GetRemoteIdAndId` | app/src/main/java/it/niedermann/owncloud/notes/persistence/dao/NoteDao.java:82-83 | exactly the account's rows that are not LOCAL_DELETED |
| `NoteQueries.GetNotes` | app/src/main/java/it/niedermann/owncloud/notes/persistence/dao/NoteDao.java:55-56 | exactly the account's non-deleted rows, as many as there are, favourites first and then by modified descending |
| `NoteQueries.GetRecentNotes` | app/src/main/java/it/niedermann/owncloud/notes/persistence/dao/NoteDao.java:108-109 | at most four of the account's non-deleted rows (fewer only when fewer exist), no row twice (a sub-multiset of getRemoteIdAndId), by modified descending |
| `NoteQueries.RecentNotesAreMostRecent` | app/src/main/java/it/niedermann/owncloud/notes/persistence/dao/NoteDao.java:108 | no non-deleted row of the account left out of getRecentNotes is more recent than a row it returns |
| `NoteQueries.GetRemoteIds` | app/src/main/java/it/niedermann/owncloud/notes/persistence/dao/NoteDao.java:79-80 | a remote id (NULL included) is listed exactly when some non-deleted row of the account carries it |
| `NoteQueries.GetLocalIdByRemoteId` | app/src/main/java/it/niedermann/owncloud/notes/persistence/dao/NoteDao.java:91-92 | NULL exactly when no non-deleted row of the account has that remote id; otherwise the least such row's id |
| `NoteQueries.RemoteIdResolvesWithinAccount` | app/src/main/java/it/niedermann/owncloud/notes/persistence/dao/NoteDao.java:91-92 | the same remote id in two accounts resolves to each account's own row |
| `NoteQueries.CountersPartitionNotes` | app/src/main/java/it/niedermann/owncloud/notes/persistence/dao/NoteDao.java:94-98 | getFavoritesCount + getNonFavoritesCount equals the number of notes getNotes lists for the account |
| `NoteQueries.GetLocalModifiedNotes` | app/src/main/java/it/niedermann/owncloud/notes/persistence/dao/NoteDao.java:105-106 | exactly the account's rows with a non-empty status, LOCAL_DELETED ones included |
| `NoteQueries.StatusIsNotAnInteger` | app/src/main/java/it/niedermann/owncloud/notes/persistence/dao/NoteDao.java:64 | no status text equals the decimal text of any integer |
| `NoteQueries.GetNote` | app/src/main/java/it/niedermann/owncloud/notes/persistence/dao/NoteDao.java:64-65 | as written, the row is found exactly when it exists and belongs to the account, whatever its status |
| `NoteQueries.GetNoteReturnsDeletedRow` | app/src/main/java/it/niedermann/owncloud/notes/persistence/dao/NoteDao.java:64 | a LOCAL_DELETED row is returned by the written getNote |
| `NoteQueries.GetVisibleNote` | app/src/main/java/it/niedermann/owncloud/notes/persistence/dao/NoteDao.java:64-65 | with `status != 'LOCAL_DELETED'`, the row is found exactly when it exists, belongs to the account and is not LOCAL_DELETED |
| `NoteQueries.DeletedRowIsHidden` | app/src/main/java/it/niedermann/owncloud/notes/persistence/dao/NoteDao.java:55-109 | a LOCAL_DELETED row is absent from getNotes, getRecentNotes, getRemoteIdAndId, the corrected getNote and getLocalIdByRemoteId, and present in getLocalModifiedNotes |
| `Persistence.NoteDao.AddNote` | app/src/main/java/it/niedermann/owncloud/notes/persistence/dao/NoteDao.java:22-23 | the entity is stored under the next AUTOINCREMENT id (counter plus one), larger than every id handed out before, deleted ones included, which is returned; no other row changes |
| `Persistence.NoteDao.UpdateNote` | app/src/main/java/it/niedermann/owncloud/notes/persistence/dao/NoteDao.java:25-26 | the table becomes `ReplaceRow` of the old one; the result is 1 when the row existed and 0 otherwise |
| `Persistence.NoteDao.DeleteByAccountId` | app/src/main/java/it/niedermann/owncloud/notes/persistence/dao/NoteDao.java:28-29 | the table becomes `DeleteByAccount` of the old one; the result is the number of rows removed |
| `Persistence.NoteDao.DeleteByCardId` | app/src/main/java/it/niedermann/owncloud/notes/persistence/dao/NoteDao.java:58-59 | the table becomes `DeleteByCardId` of the old one |
| `Persistence.NoteDao.UpdateScrollY` | app/src/main/java/it/niedermann/owncloud/notes/persistence/dao/NoteDao.java:61-62 | only the scroll offset of row `id` changes |
| `Persistence.NoteDao.UpdateStatus` | app/src/main/java/it/niedermann/owncloud/notes/persistence/dao/NoteDao.java:67-68 | only the status of row `id` changes |
| `Persistence.NoteDao.UpdateCategory` | app/src/main/java/it/niedermann/owncloud/notes/persistence/dao/NoteDao.java:70-71 | only the category id of row `id` changes |
| `Persistence.NoteDao.UpdateRemoteId` | app/src/main/java/it/niedermann/owncloud/notes/persistence/dao/NoteDao.java:117-118 | only the remote id of row `id` changes |
| `Persistence.NoteDao.ToggleFavorite` | app/src/main/java/it/niedermann/owncloud/notes/persistence/dao/NoteDao.java:111-112 | the table becomes `ToggleFavorite` of the old one |
| `Persistence.NoteDao.UpdateIfModifiedLocallyDuringSync` | app/src/main/java/it/niedermann/owncloud/notes/persistence/dao/NoteDao.java:124-126 | the table becomes `PushCommit` of the old one for the passed values |
| `Persistence.NoteDao.UpdateIfNotModifiedLocallyAndRemoteColumnHasChanged` | app/src/main/java/it/niedermann/owncloud/notes/persistence/dao/NoteDao.java:132-134 | the table becomes `PullApply` of the old one for the passed values (the clause as written) |

## Left out

- The four LiveData search queries (`searchNotesByCategory`, `searchNotesFavorites`, `searchNotesUncategorized`, `searchNotesAll`) and `searchNotes` are not modelled. They rest on engine behaviour: `LIKE` matching under the engine's collation, an inner join with the CATEGORY table (whose schema is not part of this model), `:category + '/%'` (numeric addition in SQLite) and `ORDER BY :sortingMethod` (a bound constant).
- Room machinery is not modelled: annotations, LiveData reactivity and invalidation. Storage failures (I/O, constraint violations) are not modelled either. Each statement is one atomic step; the UI and sync actors that interleave them are not modelled.
- The unique index on `(accountId, remoteId)` is not part of the shown code. So `AddNote`, `UpdateNote` and `UpdateRemoteId` never fail on a duplicate pair, and `OnConflictStrategy.REPLACE` has nothing to replace.
- `Persistence.NoteDao.AddNote` always assigns the next AUTOINCREMENT id. An entity that carries its own non-zero id is not modelled, because the `Note` entity class is not part of this model.
- Only `eTag` and `remoteId` are nullable here. NULL `title`, `content`, `:favorite` or `:categoryTitle` values are not modelled.
- `Persistence.NoteDao.DeleteByAccountId` takes a non-null account id. The source's boxed `Long accountId` (NoteDao.java:29) may be NULL; then `accountId = NULL` matches no row, nothing is deleted and 0 is returned. That case is not modelled.
- `Persistence.NoteDao.UpdateStatus` and `Persistence.NoteDao.DeleteByCardId` take a non-null status. With a NULL `DBStatus` argument (NoteDao.java:59, 68), `updateStatus` would store a NULL status, which every `status != …` read then drops, and `deleteByCardId` would delete nothing. A NULL status is not modelled.
- `:categoryTitle` is an integer category id in this model, compared with the `categoryId` column. If a caller bound a category title, the INTEGER affinity of `categoryId` would convert a numeric-looking title (such as `"2024"`) to a number that can match. Any other title stays text and never equals an integer: push-commit would not match and the category disjunct of pull-apply would be true. The caller, `NoteServerSyncHelper`, is not part of this model.
- Tie order is not modelled as SQLite has it. SQLite leaves unspecified:
  - the order among rows that tie under `ORDER BY`;
  - the order of `getRemoteIdAndId` and `getLocalModifiedNotes`;
  - which row `getLocalIdByRemoteId` returns when several match.

  The model scans in ascending id order, sorts stably and returns the least matching id.
- The texts of the `DBStatus` values (`""` for the clean state, `LOCAL_EDITED`, `LOCAL_DELETED`, and `VOID` for the fourth value) are assumed, because the `DBStatus` enumeration is not part of this model. `NoteTable.PullApplyCleanOnly` relies on the fourth text not being empty.
- `NoteQueries.GetFavoritesCount` and `NoteQueries.GetNonFavoritesCount` have no contract of their own; what they promise is stated jointly by `NoteQueries.CountersPartitionNotes`.
- `long` and `int` parameters are unbounded integers. No statement does arithmetic except the favourite toggle, whose expression is proved for every integer.
- The synchronization lifecycle (local edit → LOCAL_EDITED → push → clean, user delete → LOCAL_DELETED → removal) is driven by the sync driver, which is not part of this model. The model states only what each statement does to `status`.

## Findings

| source | as written | input that shows it | evidently intended | confidence | as-written member | corrected member |
|---|---|---|---|---|---|---|
| app/src/main/java/it/niedermann/owncloud/notes/persistence/dao/NoteDao.java:64 | `status != :accountId` compares the status text with the account number's decimal text, which no status equals, so LOCAL_DELETED rows are returned | table `{1: row of account 7 with status LOCAL_DELETED}`, `getNote(7, 1)` returns the row | `status != 'LOCAL_DELETED'`, as in every other account-scoped read | high; not executed | `NoteQueries.GetNoteReturnsDeletedRow` | `NoteQueries.GetVisibleNote` |
| app/src/main/java/it/niedermann/owncloud/notes/persistence/dao/NoteDao.java:133 | `eTag == NULL` is never True in SQL, so a stored NULL eTag is not treated as a change | clean row with eTag NULL, payload with the same modified, favorite, category and content and eTag `"e1"`: the row is not updated and its eTag stays NULL | `eTag IS NULL`, so the remote eTag is recorded | medium; not executed | `NoteTable.PullApplyIgnoresNullETag` | `NoteTable.PullApplyIntended` |

The `Persistence.NoteDao` methods keep the statements as written, because they model the DAO's behaviour. The corrected members are the definitions that a fixed DAO would satisfy, and their intended properties are proved about them (`NoteQueries.DeletedRowIsHidden`, `NoteTable.PullApplyIntendedRecordsETag`, `NoteTable.PullApplyIntendedGuards`).
