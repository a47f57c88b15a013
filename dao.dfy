/**
 * The NOTE table behind the data-access interface NoteDao: a store whose
 * statements change the table in place, one atomic step per statement.
 */
module Persistence {
  import opened Sql
  import opened Notes
  import NoteTable

  class NoteDao {
    /** The NOTE table: local id to the rest of the row. */
    var rows: NoteTable.Table
    /** The table's AUTOINCREMENT counter: the largest id handed out so far. */
    var sequence: nat

    /** Every stored id is positive and was handed out by the counter. */
    ghost predicate Valid()
      reads this
    {
      forall k | k in rows :: 0 < k <= sequence
    }

    constructor ()
      ensures Valid()
      ensures rows == map[] && sequence == 0
    {
      rows := map[];
      sequence := 0;
    }

    /**
     * addNote: stores the entity under the next AUTOINCREMENT id, larger than every id
     * handed out before (the counter never moves back), and returns it.
     */
    method AddNote(note: Note) returns (id: int)
      requires Valid()
      modifies this
      ensures Valid()
      ensures id !in old(rows) && forall k | k in old(rows) :: k < id
      ensures rows == old(rows)[id := note]
      ensures id == old(sequence) + 1 && sequence == id
    {
      sequence := sequence + 1;
      id := sequence;
      rows := rows[id := note];
    }

    /** updateNote: replaces the row with the entity's id; returns the number of rows changed. */
    method UpdateNote(newNote: Row) returns (count: int)
      requires Valid()
      modifies this`rows
      ensures Valid()
      ensures rows == NoteTable.ReplaceRow(old(rows), newNote)
      ensures count == if newNote.id in old(rows) then 1 else 0
    {
      if newNote.id in rows {
        rows := rows[newNote.id := newNote.note];
        count := 1;
      } else {
        count := 0;
      }
    }

    /** deleteByAccountId: removes every row of the account; returns how many it removed. */
    method DeleteByAccountId(accountId: int) returns (count: int)
      requires Valid()
      modifies this`rows
      ensures Valid()
      ensures rows == NoteTable.DeleteByAccount(old(rows), accountId)
      ensures count == |NoteTable.AccountIds(old(rows), accountId)|
      ensures count == |old(rows)| - |rows|
    {
      var doomed := set k | k in rows && rows[k].accountId == accountId;
      NoteTable.DeleteByAccountCount(rows, accountId);
      count := |doomed|;
      rows := rows - doomed;
    }

    /** deleteByCardId: removes row `id` only when its stored status is `forceDBStatus`. */
    method DeleteByCardId(id: int, forceDBStatus: DBStatus)
      requires Valid()
      modifies this`rows
      ensures Valid()
      ensures rows == NoteTable.DeleteByCardId(old(rows), id, forceDBStatus)
    {
      if id in rows && rows[id].status == forceDBStatus {
        rows := rows - {id};
      }
    }

    /** updateScrollY. */
    method UpdateScrollY(id: int, scrollY: int)
      requires Valid()
      modifies this`rows
      ensures Valid()
      ensures rows == NoteTable.SetColumn(old(rows), id, NoteTable.SetScrollY(scrollY))
    {
      if id in rows {
        rows := rows[id := rows[id].(scrollY := scrollY)];
      }
    }

    /** updateStatus. */
    method UpdateStatus(id: int, status: DBStatus)
      requires Valid()
      modifies this`rows
      ensures Valid()
      ensures rows == NoteTable.SetColumn(old(rows), id, NoteTable.SetStatus(status))
    {
      if id in rows {
        rows := rows[id := rows[id].(status := status)];
      }
    }

    /** updateCategory. */
    method UpdateCategory(id: int, categoryId: int)
      requires Valid()
      modifies this`rows
      ensures Valid()
      ensures rows == NoteTable.SetColumn(old(rows), id, NoteTable.SetCategory(categoryId))
    {
      if id in rows {
        rows := rows[id := rows[id].(categoryId := categoryId)];
      }
    }

    /** updateRemoteId. */
    method UpdateRemoteId(id: int, remoteId: int)
      requires Valid()
      modifies this`rows
      ensures Valid()
      ensures rows == NoteTable.SetColumn(old(rows), id, NoteTable.SetRemoteId(remoteId))
    {
      if id in rows {
        rows := rows[id := rows[id].(remoteId := Some(remoteId))];
      }
    }

    /** toggleFavorite: flips the flag of row `id` and marks the row LOCAL_EDITED. */
    method ToggleFavorite(id: int)
      requires Valid()
      modifies this`rows
      ensures Valid()
      ensures rows == NoteTable.ToggleFavorite(old(rows), id)
    {
      if id in rows {
        var n := rows[id];
        rows := rows[id := n.(status := LocalEdited, favorite := FlipFavorite(n.favorite))];
      }
    }

    /**
     * updateIfModifiedLocallyDuringSync (push-commit): writes the acknowledged
     * values only while the row still holds the pushed content, flag and
     * category.
     */
    method UpdateIfModifiedLocallyDuringSync(
      id: int, modified: int, title: string, favorite: bool, categoryTitle: int, eTag: Option<string>, content: string)
      requires Valid()
      modifies this`rows
      ensures Valid()
      ensures rows == NoteTable.PushCommit(old(rows), id, NoteTable.Payload(modified, title, favorite, categoryTitle, eTag, content))
    {
      if id in rows {
        var n := rows[id];
        if n.content == content && n.favorite == BitOf(favorite) && n.categoryId == categoryTitle {
          rows := rows[id := n.(title := title, modified := modified, favorite := BitOf(favorite), eTag := eTag, content := content)];
        }
      }
    }

    /**
     * updateIfNotModifiedLocallyAndRemoteColumnHasChanged (pull-apply): writes
     * the remote values into a clean row when a tracked column differs.
     */
    method UpdateIfNotModifiedLocallyAndRemoteColumnHasChanged(
      id: int, modified: int, title: string, favorite: bool, categoryTitle: int, eTag: Option<string>, content: string)
      requires Valid()
      modifies this`rows
      ensures Valid()
      ensures rows == NoteTable.PullApply(old(rows), id, NoteTable.Payload(modified, title, favorite, categoryTitle, eTag, content))
    {
      if id in rows {
        var n := rows[id];
        var p := NoteTable.Payload(modified, title, favorite, categoryTitle, eTag, content);
        if NoteTable.PullWhere(n, p) == True {
          rows := rows[id := n.(title := title, modified := modified, favorite := BitOf(favorite), eTag := eTag, content := content)];
        }
      }
    }
  }

  /** Push lost to a concurrent edit: the stale acknowledgement is not written. */
  method RaceLostPush()
  {
    var dao := new NoteDao();
    var id := dao.AddNote(Note(1, None, "", "a", 0, 0, 0, None, LocalEdited, 0));
    var count := dao.UpdateNote(Row(id, Note(1, None, "", "b", 0, 0, 0, None, LocalEdited, 0)));
    assert count == 1;
    dao.UpdateIfModifiedLocallyDuringSync(id, 100, "T", false, 0, Some("e1"), "a");
    assert dao.rows[id].content == "b" && dao.rows[id].eTag == None;
  }

  /** A remote change reaches a clean row; a locally edited row ignores it. */
  method PullOnCleanAndEditedRows()
  {
    var dao := new NoteDao();
    var clean := dao.AddNote(Note(1, Some(42), "T", "x", 0, 0, 100, Some("e0"), Clean, 0));
    var edited := dao.AddNote(Note(1, Some(43), "U", "x", 0, 0, 100, Some("e0"), LocalEdited, 0));
    dao.UpdateIfNotModifiedLocallyAndRemoteColumnHasChanged(clean, 200, "T", true, 3, Some("e1"), "y");
    dao.UpdateIfNotModifiedLocallyAndRemoteColumnHasChanged(edited, 200, "T", true, 3, Some("e1"), "y");
    assert dao.rows[clean].content == "y" && dao.rows[clean].favorite == 1 && dao.rows[clean].eTag == Some("e1");
    assert dao.rows[clean].status == Clean && dao.rows[clean].categoryId == 0;
    assert dao.rows[edited].content == "x" && dao.rows[edited].eTag == Some("e0");
  }

  /** Finalizing a delete removes the row once; the second call changes nothing. */
  method FinalizeDelete()
  {
    var dao := new NoteDao();
    var id := dao.AddNote(Note(1, Some(42), "T", "x", 0, 0, 100, Some("e0"), LocalDeleted, 0));
    dao.DeleteByCardId(id, LocalDeleted);
    assert id !in dao.rows;
    var before := dao.rows;
    dao.DeleteByCardId(id, LocalDeleted);
    assert dao.rows == before;
  }
}
