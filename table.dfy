/**
 * What each data-changing statement of the NOTE table does to the table,
 * stated as a function from the table before the statement to the table
 * after it. The table maps a row's local id to the rest of the row.
 */
module NoteTable {
  import opened Sql
  import opened Notes

  type Table = map<int, Note>

  /** `after` differs from `before` in row `id` at most: same keys, every other row as it was. */
  predicate OnlyRowChanged(before: Table, after: Table, id: int)
  {
    && after.Keys == before.Keys
    && forall k | k in before && k != id :: after[k] == before[k]
  }

  // ---------------------------------------------------------------------
  // updateNote: full-row replacement keyed by the entity's id

  /** `@Update`: the row with the entity's id takes all the entity's values; no such row, no change. */
  function ReplaceRow(t: Table, r: Row): (after: Table)
    ensures OnlyRowChanged(t, after, r.id)
    ensures r.id in t ==> after[r.id] == r.note
    ensures r.id !in t ==> after == t
  {
    if r.id in t then t[r.id := r.note] else t
  }

  // ---------------------------------------------------------------------
  // deleteByAccountId

  /** Local ids of the rows that belong to `accountId`. */
  function AccountIds(t: Table, accountId: int): set<int>
  {
    set k | k in t && t[k].accountId == accountId
  }

  /** `DELETE FROM NOTE WHERE accountId = :accountId`. */
  function DeleteByAccount(t: Table, accountId: int): (after: Table)
    ensures forall k :: k in after <==> k in t && t[k].accountId != accountId
    ensures forall k | k in after :: after[k] == t[k]
  {
    t - AccountIds(t, accountId)
  }

  /** The count the statement reports is the number of rows it removed. */
  lemma DeleteByAccountCount(t: Table, accountId: int)
    ensures |t| == |DeleteByAccount(t, accountId)| + |AccountIds(t, accountId)|
    ensures AccountIds(DeleteByAccount(t, accountId), accountId) == {}
  {
  }

  // ---------------------------------------------------------------------
  // deleteByCardId

  /** `DELETE FROM NOTE WHERE id = :id and status = :forceDBStatus`. */
  function DeleteByCardId(t: Table, id: int, required: DBStatus): (after: Table)
    ensures id !in after <==> id !in t || t[id].status == required
    ensures after.Keys <= t.Keys
    ensures forall k | k in t && k != id :: k in after && after[k] == t[k]
    ensures id in after ==> after[id] == t[id]
  {
    if id in t && t[id].status == required then t - {id} else t
  }

  /** Finalizing a delete: a second call after a successful one changes nothing. */
  lemma DeleteByCardIdTwice(t: Table, id: int, required: DBStatus)
    ensures DeleteByCardId(DeleteByCardId(t, id, required), id, required) == DeleteByCardId(t, id, required)
  {
  }

  /** A row whose stored status is not the required one is never removed. */
  lemma DeleteByCardIdKeepsOtherStatus(t: Table, id: int, required: DBStatus)
    requires id in t && t[id].status != required
    ensures DeleteByCardId(t, id, required) == t
  {
  }

  // ---------------------------------------------------------------------
  // Single-column setters: updateScrollY, updateStatus, updateCategory, updateRemoteId

  /** The right-hand side of one `UPDATE NOTE SET <column> = <value> WHERE id = :id`. */
  datatype Assignment =
    | SetScrollY(scrollY: int)
    | SetStatus(status: DBStatus)
    | SetCategory(categoryId: int)
    | SetRemoteId(remoteId: int)
  {
    /** The one column this assignment writes. */
    function Target(): Column
    {
      match this
      case SetScrollY(_) => ScrollYColumn
      case SetStatus(_) => StatusColumn
      case SetCategory(_) => CategoryIdColumn
      case SetRemoteId(_) => RemoteIdColumn
    }

    /** `n` holds this assignment's value in its target column. */
    predicate HeldBy(n: Note)
    {
      match this
      case SetScrollY(y) => n.scrollY == y
      case SetStatus(s) => n.status == s
      case SetCategory(c) => n.categoryId == c
      case SetRemoteId(r) => n.remoteId == Some(r)
    }

    function ApplyTo(n: Note): (m: Note)
      ensures HeldBy(m)
      ensures AgreeExcept(n, m, {Target()})
    {
      match this
      case SetScrollY(y) => n.(scrollY := y)
      case SetStatus(s) => n.(status := s)
      case SetCategory(c) => n.(categoryId := c)
      case SetRemoteId(r) => n.(remoteId := Some(r))
    }
  }

  /** A single-column setter changes only its column of row `id`, and nothing when there is no such row. */
  function SetColumn(t: Table, id: int, a: Assignment): (after: Table)
    ensures OnlyRowChanged(t, after, id)
    ensures id in t ==> a.HeldBy(after[id]) && AgreeExcept(t[id], after[id], {a.Target()})
    ensures id !in t ==> after == t
  {
    if id in t then t[id := a.ApplyTo(t[id])] else t
  }

  /** Only `updateStatus` moves a row between synchronization states. */
  lemma SettersKeepStatus(t: Table, id: int, a: Assignment)
    requires !a.SetStatus?
    requires id in t
    ensures SetColumn(t, id, a)[id].status == t[id].status
  {
  }

  // ---------------------------------------------------------------------
  // toggleFavorite

  /** `UPDATE NOTE SET status = 'LOCAL_EDITED', favorite = ((favorite | 1) - (favorite & 1)) WHERE id = :id`. */
  function ToggleFavorite(t: Table, id: int): (after: Table)
    ensures OnlyRowChanged(t, after, id)
    ensures id in t ==> after[id].favorite == 1 - t[id].favorite
    ensures id in t ==> after[id].status == LocalEdited
    ensures id in t ==> AgreeExcept(t[id], after[id], {FavoriteColumn, StatusColumn})
    ensures id !in t ==> after == t
  {
    if id in t then
      var n := t[id];
      t[id := n.(status := LocalEdited, favorite := FlipFavorite(n.favorite))]
    else
      t
  }

  /**
   * Toggling twice restores the flag but leaves the row marked LOCAL_EDITED,
   * so that the re-toggle is still queued for upload.
   */
  lemma ToggleFavoriteTwice(t: Table, id: int)
    requires id in t
    ensures ToggleFavorite(ToggleFavorite(t, id), id) == t[id := t[id].(status := LocalEdited)]
  {
  }

  // ---------------------------------------------------------------------
  // updateIfModifiedLocallyDuringSync (push-commit)

  /**
   * The values the sync driver passes to both guarded updates. `categoryId`
   * is bound to the statement's `:categoryTitle` parameter, which is compared
   * with the integer column `categoryId`.
   */
  datatype Payload = Payload(
    modified: int,
    title: string,
    favorite: bool,
    categoryId: int,
    eTag: Option<string>,
    content: string)

  /** The SET list shared by both guarded updates: title, modified, favorite, eTag and content. */
  function Written(n: Note, p: Payload): (m: Note)
    ensures m.title == p.title && m.modified == p.modified && m.favorite == BitOf(p.favorite)
    ensures m.eTag == p.eTag && m.content == p.content
    ensures AgreeExcept(n, m, {TitleColumn, ModifiedColumn, FavoriteColumn, ETagColumn, ContentColumn})
  {
    n.(title := p.title, modified := p.modified, favorite := BitOf(p.favorite), eTag := p.eTag, content := p.content)
  }

  /** `content = :content AND favorite = :favorite AND categoryId = :categoryTitle`: the row still holds the pushed values. */
  predicate PushGuard(n: Note, p: Payload)
  {
    n.content == p.content && n.favorite == BitOf(p.favorite) && n.categoryId == p.categoryId
  }

  /** Push-commit: writes the acknowledged values only while the row still holds the pushed content, flag and category. */
  function PushCommit(t: Table, id: int, p: Payload): (after: Table)
    ensures OnlyRowChanged(t, after, id)
    ensures !(id in t && PushGuard(t[id], p)) ==> after == t
    ensures id in t && PushGuard(t[id], p) ==>
      && after[id].title == p.title && after[id].modified == p.modified && after[id].eTag == p.eTag
      && AgreeExcept(t[id], after[id], {TitleColumn, ModifiedColumn, ETagColumn})
  {
    if id in t && PushGuard(t[id], p) then t[id := Written(t[id], p)] else t
  }

  /**
   * A row edited again during the round trip (content, flag or category no
   * longer the pushed ones) is left exactly as it is.
   */
  lemma PushCommitStale(t: Table, id: int, p: Payload)
    requires id in t
    requires t[id].content != p.content || t[id].favorite != BitOf(p.favorite) || t[id].categoryId != p.categoryId
    ensures PushCommit(t, id, p) == t
  {
  }

  /** On success the row keeps its status: committing a push does not by itself mark the row clean. */
  lemma PushCommitKeepsStatus(t: Table, id: int, p: Payload)
    requires id in t
    ensures PushCommit(t, id, p)[id].status == t[id].status
    ensures PushCommit(t, id, p)[id].categoryId == t[id].categoryId
  {
  }

  // ---------------------------------------------------------------------
  // updateIfNotModifiedLocallyAndRemoteColumnHasChanged (pull-apply)

  /**
   * The WHERE clause of pull-apply after `id = :id`, as SQLite evaluates it:
   * `status = '' AND (modified != :modified OR favorite != :favorite OR
   * categoryId != :categoryTitle OR (eTag == NULL OR eTag != :eTag) OR
   * content != :content)`. The comparison with a NULL literal is never True.
   */
  function PullWhere(n: Note, p: Payload): (r: Truth)
    ensures r == True <==>
      && n.status == Clean
      && (|| n.modified != p.modified
          || n.favorite != BitOf(p.favorite)
          || n.categoryId != p.categoryId
          || (n.eTag.Some? && p.eTag.Some? && n.eTag.value != p.eTag.value)
          || n.content != p.content)
  {
    And(FromBool(n.status.Text() == ""),
      Or(FromBool(n.modified != p.modified),
      Or(FromBool(n.favorite != BitOf(p.favorite)),
      Or(FromBool(n.categoryId != p.categoryId),
      Or(Or(Equal(n.eTag, None), NotEqual(n.eTag, p.eTag)),
         FromBool(n.content != p.content))))))
  }

  /** Pull-apply: overwrites a clean row with the remote values when a tracked column differs. */
  function PullApply(t: Table, id: int, p: Payload): (after: Table)
    ensures OnlyRowChanged(t, after, id)
    ensures id in t && PullWhere(t[id], p) == True ==> after[id] == Written(t[id], p)
    ensures !(id in t && PullWhere(t[id], p) == True) ==> after == t
  {
    if id in t && PullWhere(t[id], p) == True then t[id := Written(t[id], p)] else t
  }

  /** A row with unsynced local changes (any status but clean) is never overwritten, whatever the payload. */
  lemma PullApplyCleanOnly(t: Table, id: int, p: Payload)
    requires id in t && t[id].status != Clean
    ensures PullApply(t, id, p) == t
  {
  }

  /** When pull-apply writes, the row stays clean and keeps its category, account, remote id and scroll offset. */
  lemma PullApplyKeepsUnwrittenColumns(t: Table, id: int, p: Payload)
    requires id in t && PullApply(t, id, p) != t
    ensures PullApply(t, id, p)[id].status == Clean
    ensures AgreeExcept(t[id], PullApply(t, id, p)[id], {TitleColumn, ModifiedColumn, FavoriteColumn, ETagColumn, ContentColumn})
  {
  }

  /** A payload equal to the stored modified, favorite, category, non-null eTag and content changes nothing, whatever its title. */
  lemma PullApplyIdenticalPayload(t: Table, id: int, p: Payload)
    requires id in t
    requires t[id].modified == p.modified && t[id].favorite == BitOf(p.favorite)
    requires t[id].categoryId == p.categoryId && t[id].content == p.content
    requires t[id].eTag.Some? && t[id].eTag == p.eTag
    ensures PullApply(t, id, p) == t
  {
  }

  /**
   * As written, a stored NULL eTag does not count as a change: a clean row
   * with no eTag and an otherwise identical payload is not updated, so the
   * remote eTag is never recorded.
   */
  lemma PullApplyIgnoresNullETag(t: Table, id: int, p: Payload)
    requires id in t && t[id].status == Clean && t[id].eTag.None?
    requires t[id].modified == p.modified && t[id].favorite == BitOf(p.favorite)
    requires t[id].categoryId == p.categoryId && t[id].content == p.content
    ensures PullApply(t, id, p) == t
    ensures PullApply(t, id, p)[id].eTag.None?
  {
  }

  /** The clause as evidently intended: `eTag IS NULL OR eTag != :eTag`. */
  function PullWhereIntended(n: Note, p: Payload): (r: Truth)
    ensures r == True <==>
      && n.status == Clean
      && (|| n.modified != p.modified
          || n.favorite != BitOf(p.favorite)
          || n.categoryId != p.categoryId
          || n.eTag.None?
          || (p.eTag.Some? && n.eTag.value != p.eTag.value)
          || n.content != p.content)
  {
    And(FromBool(n.status.Text() == ""),
      Or(FromBool(n.modified != p.modified),
      Or(FromBool(n.favorite != BitOf(p.favorite)),
      Or(FromBool(n.categoryId != p.categoryId),
      Or(Or(IsNull(n.eTag), NotEqual(n.eTag, p.eTag)),
         FromBool(n.content != p.content))))))
  }

  /** Pull-apply with the intended NULL test. */
  function PullApplyIntended(t: Table, id: int, p: Payload): (after: Table)
    ensures OnlyRowChanged(t, after, id)
    ensures id in t && PullWhereIntended(t[id], p) == True ==> after[id] == Written(t[id], p)
    ensures !(id in t && PullWhereIntended(t[id], p) == True) ==> after == t
  {
    if id in t && PullWhereIntended(t[id], p) == True then t[id := Written(t[id], p)] else t
  }

  /**
   * The intended clause differs from the written one exactly on clean rows
   * without an eTag whose other tracked columns match: there it records the
   * remote values, eTag included.
   */
  lemma PullApplyIntendedRecordsETag(t: Table, id: int, p: Payload)
    requires id in t && t[id].status == Clean && t[id].eTag.None?
    ensures PullApplyIntended(t, id, p)[id].eTag == p.eTag
    ensures PullApplyIntended(t, id, p)[id].status == Clean
  {
  }

  /** The intended clause keeps both guarantees of the written one: clean rows only, identical payloads ignored. */
  lemma PullApplyIntendedGuards(t: Table, id: int, p: Payload)
    requires id in t
    ensures t[id].status != Clean ==> PullApplyIntended(t, id, p) == t
    ensures t[id].modified == p.modified && t[id].favorite == BitOf(p.favorite)
            && t[id].categoryId == p.categoryId && t[id].content == p.content
            && t[id].eTag.Some? && t[id].eTag == p.eTag
            ==> PullApplyIntended(t, id, p) == t
    ensures PullApply(t, id, p) != t ==> PullApplyIntended(t, id, p) == PullApply(t, id, p)
  {
  }
}
