/**
 * The read-only SELECT statements over NOTE: filters, orderings and counts of
 * the table, each scoped by an account.
 */
module NoteQueries {
  import opened Sql
  import opened Notes
  import opened NoteTable

  // ---------------------------------------------------------------------
  // Scan order

  lemma Inhabited(s: set<int>)
    requires s != {}
    ensures exists x :: x in s
  {
    if forall x :: x !in s {
      assert false;
    }
  }

  /** Every non-empty finite set of ids has a least element. */
  lemma {:induction false} HasLeast(s: set<int>)
    requires s != {}
    ensures exists m :: m in s && forall k | k in s :: m <= k
    decreases |s|
  {
    Inhabited(s);
    var x :| x in s;
    var rest := s - {x};
    if rest == {} {
      forall k | k in s ensures x <= k {
        assert k !in rest;
      }
    } else {
      HasLeast(rest);
      var m :| m in rest && forall k | k in rest :: m <= k;
      var least := if x <= m then x else m;
      forall k | k in s ensures least <= k {
        if k != x { assert k in rest; }
      }
      assert least in s;
    }
  }

  /** The least element of a non-empty set of ids. */
  function Least(s: set<int>): (m: int)
    requires s != {}
    ensures m in s && forall k | k in s :: m <= k
  {
    HasLeast(s);
    var m :| m in s && forall k | k in s :: m <= k;
    m
  }

  predicate Increasing(ks: seq<int>)
  {
    forall i, j | 0 <= i < j < |ks| :: ks[i] < ks[j]
  }

  /** The keys of a set in ascending order: the order of a full scan of a rowid table. */
  function Ascending(s: set<int>): (ks: seq<int>)
    ensures Increasing(ks)
    ensures forall k :: k in ks <==> k in s
    ensures |ks| == |s|
    decreases |s|
  {
    if s == {} then []
    else
      var m := Least(s);
      [m] + Ascending(s - {m})
  }

  // ---------------------------------------------------------------------
  // Filters

  /** The WHERE clauses of the SELECT statements, with the parameters bound. */
  datatype Where =
    | Live(accountId: int)                             // accountId = :accountId AND status != 'LOCAL_DELETED'
    | LiveWithRemoteId(accountId: int, remoteId: int)  // ... AND remoteId = :remoteId
    | LiveWithFavorite(accountId: int, favorite: Bit)  // ... AND favorite = 1, or = 0
    | Pending(accountId: int)                          // status != '' AND accountId = :accountId
  {
    /**
     * The row satisfies the clause, i.e. SQLite evaluates it to True. The
     * status literals compare as the statuses whose text they are.
     */
    predicate Holds(n: Note)
    {
      match this
      case Live(a) =>
        n.accountId == a && n.status != LocalDeleted
      case LiveWithRemoteId(a, r) =>
        n.accountId == a && Equal(n.remoteId, Some(r)) == True && n.status != LocalDeleted
      case LiveWithFavorite(a, f) =>
        n.status != LocalDeleted && n.accountId == a && n.favorite == f
      case Pending(a) =>
        n.status != Clean && n.accountId == a
    }
  }

  /** `x` is a row of `t`: its id is a key and its note the stored one. */
  predicate InTable(t: Table, x: Row)
  {
    x.id in t && t[x.id] == x.note
  }

  /** Ids of the rows that satisfy `w`. */
  function Matching(t: Table, w: Where): set<int>
  {
    set k | k in t && w.Holds(t[k])
  }

  predicate IncreasingIds(rs: seq<Row>)
  {
    forall i, j | 0 <= i < j < |rs| :: rs[i].id < rs[j].id
  }

  /** The rows with ids `ks` that satisfy `w`, in the order of `ks`. */
  function Select(t: Table, ks: seq<int>, w: Where): (rs: seq<Row>)
    requires forall k | k in ks :: k in t
    ensures forall x :: x in rs <==> x.id in ks && InTable(t, x) && w.Holds(x.note)
    ensures Increasing(ks) ==> IncreasingIds(rs)
  {
    if ks == [] then []
    else
      var k := ks[0];
      assert k in ks;
      var rest := Select(t, ks[1..], w);
      assert forall x | x in rest :: x.id in ks[1..];
      if w.Holds(t[k]) then [Row(k, t[k])] + rest else rest
  }

  function IdsOf(rs: seq<Row>): set<int>
  {
    set x | x in rs :: x.id
  }

  /** Rows with distinct ids are as many as their ids. */
  lemma {:induction false} DistinctIdsCount(rs: seq<Row>)
    requires IncreasingIds(rs)
    ensures |IdsOf(rs)| == |rs|
  {
    if rs != [] {
      var tail := rs[1..];
      DistinctIdsCount(tail);
      assert IdsOf(rs) == {rs[0].id} + IdsOf(tail) by {
        forall k | k in IdsOf(rs) ensures k in {rs[0].id} + IdsOf(tail) {
          var x :| x in rs && x.id == k;
          if x != rs[0] {
            var i :| 0 <= i < |rs| && rs[i] == x;
            assert tail[i - 1] == x;
          }
        }
      }
      assert rs[0].id !in IdsOf(tail);
    }
  }

  /** A full scan of the table filtered by `w`: the rows that satisfy it, in ascending id order. */
  function Scan(t: Table, w: Where): (rs: seq<Row>)
    ensures forall x :: x in rs <==> InTable(t, x) && w.Holds(x.note)
    ensures IncreasingIds(rs)
    ensures |rs| == |Matching(t, w)|
  {
    var rs := Select(t, Ascending(t.Keys), w);
    SelectedIds(t, w, rs);
    DistinctIdsCount(rs);
    rs
  }

  /** The ids of exactly the matching rows are the matching ids. */
  lemma SelectedIds(t: Table, w: Where, rs: seq<Row>)
    requires forall x :: x in rs <==> InTable(t, x) && w.Holds(x.note)
    ensures IdsOf(rs) == Matching(t, w)
  {
    forall k | k in Matching(t, w) ensures k in IdsOf(rs) {
      assert Row(k, t[k]) in rs;
    }
    forall k | k in IdsOf(rs) ensures k in Matching(t, w) {
      var x :| x in rs && x.id == k;
    }
  }

  /** In a sequence with increasing ids the first row has the least id. */
  lemma FirstIdIsLeast(rs: seq<Row>, x: Row)
    requires IncreasingIds(rs) && x in rs
    ensures rs[0].id <= x.id
  {
    var i :| 0 <= i < |rs| && rs[i] == x;
    assert i == 0 || rs[0].id < rs[i].id;
  }

  /** The first row of a scan is the matching row with the least id; an empty scan means no row matches. */
  lemma ScanFirstIsLeast(t: Table, w: Where)
    ensures Scan(t, w) == [] <==> Matching(t, w) == {}
    ensures Scan(t, w) != [] ==>
      && Scan(t, w)[0].id in Matching(t, w)
      && forall k | k in Matching(t, w) :: Scan(t, w)[0].id <= k
  {
    var rows := Scan(t, w);
    if rows == [] {
      assert |Matching(t, w)| == 0;
    } else {
      var first := rows[0];
      assert first in rows;
      assert first.id in Matching(t, w);
      forall k | k in Matching(t, w) ensures first.id <= k {
        FirstIdIsLeast(rows, Row(k, t[k]));
      }
    }
  }

  // ---------------------------------------------------------------------
  // ORDER BY

  /** The two sort keys used: `favorite DESC, modified DESC` and `modified DESC`. */
  datatype Order = FavoriteThenModified | ModifiedOnly

  /** `x` may come before `y` in the ordering `o`. */
  predicate Precedes(o: Order, x: Row, y: Row)
  {
    match o
    case FavoriteThenModified =>
      x.note.favorite > y.note.favorite
      || (x.note.favorite == y.note.favorite && x.note.modified >= y.note.modified)
    case ModifiedOnly =>
      x.note.modified >= y.note.modified
  }

  predicate Sorted(o: Order, rs: seq<Row>)
  {
    forall i, j | 0 <= i < j < |rs| :: Precedes(o, rs[i], rs[j])
  }

  lemma PrecedesTransitive(o: Order, x: Row, y: Row, z: Row)
    requires Precedes(o, x, y) && Precedes(o, y, z)
    ensures Precedes(o, x, z)
  {
  }

  /** Inserts `x` before the first row of `rs` that it may precede. */
  function Insert(o: Order, x: Row, rs: seq<Row>): (r: seq<Row>)
    ensures multiset(r) == multiset(rs) + multiset{x}
  {
    if rs == [] || Precedes(o, x, rs[0]) then [x] + rs
    else
      assert rs == [rs[0]] + rs[1..];
      [rs[0]] + Insert(o, x, rs[1..])
  }

  lemma {:induction false} InsertSorted(o: Order, x: Row, rs: seq<Row>)
    requires Sorted(o, rs)
    ensures Sorted(o, Insert(o, x, rs))
  {
    if rs == [] || Precedes(o, x, rs[0]) {
      forall j | 0 <= j < |rs| ensures Precedes(o, x, rs[j]) {
        if j > 0 { PrecedesTransitive(o, x, rs[0], rs[j]); }
      }
    } else {
      var rest := Insert(o, x, rs[1..]);
      InsertSorted(o, x, rs[1..]);
      forall j | 0 <= j < |rest| ensures Precedes(o, rs[0], rest[j]) {
        assert rest[j] in multiset(rest);
        if rest[j] != x {
          assert rest[j] in rs[1..];
        }
      }
    }
  }

  /** Two sequences with the same multiset have the same length and the same members. */
  lemma SameElements(a: seq<Row>, b: seq<Row>)
    requires multiset(a) == multiset(b)
    ensures |a| == |b|
    ensures forall x :: x in a <==> x in b
  {
    assert |a| == |multiset(a)|;
    assert forall x :: x in a <==> x in multiset(a);
    assert forall x :: x in b <==> x in multiset(b);
  }

  /** A prefix of a sorted sequence is sorted and holds only rows of the sequence. */
  lemma TakeSorted(o: Order, rs: seq<Row>, n: nat)
    requires Sorted(o, rs) && n <= |rs|
    ensures Sorted(o, rs[..n])
    ensures multiset(rs[..n]) <= multiset(rs)
    ensures forall x | x in rs[..n] :: x in rs
  {
    assert rs == rs[..n] + rs[n..];
  }

  /** No row occurs twice in a sequence of rows with strictly increasing ids. */
  lemma {:induction false} IncreasingIdsOnce(rs: seq<Row>)
    requires IncreasingIds(rs)
    ensures forall x :: multiset(rs)[x] <= 1
  {
    if rs != [] {
      IncreasingIdsOnce(rs[1..]);
      assert rs == [rs[0]] + rs[1..];
      assert rs[0] !in rs[1..];
    }
  }

  /** A sequence in which every row occurs at most once has no repeated position. */
  lemma AtMostOnceDistinct(rs: seq<Row>)
    requires forall x :: multiset(rs)[x] <= 1
    ensures forall i, j | 0 <= i < j < |rs| :: rs[i] != rs[j]
  {
    forall i, j | 0 <= i < j < |rs|
      ensures rs[i] != rs[j]
    {
      assert rs == rs[..j] + [rs[j]] + rs[j + 1..];
      assert multiset(rs) == multiset(rs[..j]) + multiset{rs[j]} + multiset(rs[j + 1..]);
      assert multiset(rs)[rs[j]] <= 1;
      assert rs[j] !in multiset(rs[..j]);
      assert rs[i] in rs[..j];
    }
  }

  /** A stable insertion sort: rows that tie keep their scan order. */
  function Sort(o: Order, rs: seq<Row>): (r: seq<Row>)
    ensures Sorted(o, r)
    ensures multiset(r) == multiset(rs)
  {
    if rs == [] then []
    else
      assert rs == [rs[0]] + rs[1..];
      var sorted := Sort(o, rs[1..]);
      InsertSorted(o, rs[0], sorted);
      Insert(o, rs[0], sorted)
  }

  // ---------------------------------------------------------------------
  // The SELECT statements

  /** getRemoteIdAndId: the account's rows that are not LOCAL_DELETED (no ORDER BY; here in scan order). */
  function GetRemoteIdAndId(t: Table, accountId: int): (rs: seq<Row>)
    ensures forall x :: x in rs <==> InTable(t, x) && x.note.accountId == accountId && x.note.status != LocalDeleted
    ensures IncreasingIds(rs)
  {
    Scan(t, Live(accountId))
  }

  /** getNotes: the same rows, favourites first, then the most recently modified first. */
  function GetNotes(t: Table, accountId: int): (rs: seq<Row>)
    ensures forall x :: x in rs <==> InTable(t, x) && x.note.accountId == accountId && x.note.status != LocalDeleted
    ensures multiset(rs) == multiset(GetRemoteIdAndId(t, accountId))
    ensures |rs| == |Matching(t, Live(accountId))|
    ensures forall i, j | 0 <= i < j < |rs| ::
      || rs[i].note.favorite > rs[j].note.favorite
      || (rs[i].note.favorite == rs[j].note.favorite && rs[i].note.modified >= rs[j].note.modified)
  {
    var all := Scan(t, Live(accountId));
    var r := Sort(FavoriteThenModified, all);
    SameElements(r, all);
    r
  }

  /** The number of rows `getRecentNotes` may return. */
  const RecentLimit := 4

  /** getRecentNotes: the account's live rows, most recently modified first, at most four of them. */
  function GetRecentNotes(t: Table, accountId: int): (rs: seq<Row>)
    ensures |rs| == if |Matching(t, Live(accountId))| < RecentLimit then |Matching(t, Live(accountId))| else RecentLimit
    ensures forall x | x in rs :: InTable(t, x) && x.note.accountId == accountId && x.note.status != LocalDeleted
    ensures multiset(rs) <= multiset(GetRemoteIdAndId(t, accountId))
    ensures forall i, j | 0 <= i < j < |rs| :: rs[i] != rs[j]
    ensures forall i, j | 0 <= i < j < |rs| :: rs[i].note.modified >= rs[j].note.modified
  {
    var live := Scan(t, Live(accountId));
    var all := Sort(ModifiedOnly, live);
    SameElements(all, live);
    var n := if |all| < RecentLimit then |all| else RecentLimit;
    TakeSorted(ModifiedOnly, all, n);
    IncreasingIdsOnce(live);
    AtMostOnceDistinct(all[..n]);
    all[..n]
  }

  /** A row of a sorted sequence that is not in a prefix comes after every row of the prefix. */
  lemma OutsidePrefixComesAfter(o: Order, all: seq<Row>, n: nat, x: Row, i: int)
    requires Sorted(o, all) && n <= |all|
    requires x in all && x !in all[..n]
    requires 0 <= i < n
    ensures Precedes(o, all[i], x)
  {
  }

  /** No live row of the account left out of getRecentNotes is more recent than any row it returns. */
  lemma RecentNotesAreMostRecent(t: Table, accountId: int, x: Row, i: int)
    requires InTable(t, x) && x.note.accountId == accountId && x.note.status != LocalDeleted
    requires x !in GetRecentNotes(t, accountId)
    requires 0 <= i < |GetRecentNotes(t, accountId)|
    ensures x.note.modified <= GetRecentNotes(t, accountId)[i].note.modified
  {
    var live := Scan(t, Live(accountId));
    var all := Sort(ModifiedOnly, live);
    SameElements(all, live);
    var recent := GetRecentNotes(t, accountId);
    assert recent == all[..|recent|];
    OutsidePrefixComesAfter(ModifiedOnly, all, |recent|, x, i);
  }

  /** getRemoteIds: the distinct remote ids (NULL included) of the account's live rows. */
  function GetRemoteIds(t: Table, accountId: int): (ids: set<Option<int>>)
    ensures forall r :: r in ids <==>
      exists k :: k in t && t[k].accountId == accountId && t[k].status != LocalDeleted && t[k].remoteId == r
  {
    var rows := GetRemoteIdAndId(t, accountId);
    RemoteIdsOfLiveRows(t, accountId, rows);
    RemoteIdsOf(rows)
  }

  /** The remote ids (NULL included) the rows carry. */
  function RemoteIdsOf(rows: seq<Row>): set<Option<int>>
  {
    set x | x in rows :: x.note.remoteId
  }

  /** The remote ids carried by exactly the account's live rows are those of its live table entries. */
  lemma RemoteIdsOfLiveRows(t: Table, accountId: int, rows: seq<Row>)
    requires forall x :: x in rows <==> InTable(t, x) && x.note.accountId == accountId && x.note.status != LocalDeleted
    ensures forall r :: r in RemoteIdsOf(rows) <==>
      exists k :: k in t && t[k].accountId == accountId && t[k].status != LocalDeleted && t[k].remoteId == r
  {
    forall r | r in RemoteIdsOf(rows)
      ensures exists k :: k in t && t[k].accountId == accountId && t[k].status != LocalDeleted && t[k].remoteId == r
    {
      var x :| x in rows && x.note.remoteId == r;
      assert t[x.id].remoteId == r;
    }
    forall k | k in t && t[k].accountId == accountId && t[k].status != LocalDeleted
      ensures t[k].remoteId in RemoteIdsOf(rows)
    {
      assert Row(k, t[k]) in rows;
    }
  }

  /**
   * getLocalIdByRemoteId: the local id of the account's live row with this
   * remote id, or NULL. Should several rows match, the first in scan order.
   */
  function GetLocalIdByRemoteId(t: Table, accountId: int, remoteId: int): (id: Option<int>)
    ensures id.None? <==> Matching(t, LiveWithRemoteId(accountId, remoteId)) == {}
    ensures id.Some? ==> id.value in Matching(t, LiveWithRemoteId(accountId, remoteId))
    ensures id.Some? ==>
      && id.value in t
      && t[id.value].accountId == accountId
      && t[id.value].remoteId == Some(remoteId)
      && t[id.value].status != LocalDeleted
      && forall k | k in Matching(t, LiveWithRemoteId(accountId, remoteId)) :: id.value <= k
  {
    var w := LiveWithRemoteId(accountId, remoteId);
    ScanFirstIsLeast(t, w);
    var rows := Scan(t, w);
    if rows == [] then None else Some(rows[0].id)
  }

  /** getFavoritesCount. */
  function GetFavoritesCount(t: Table, accountId: int): nat
  {
    |Matching(t, LiveWithFavorite(accountId, 1))|
  }

  /** getNonFavoritesCount. */
  function GetNonFavoritesCount(t: Table, accountId: int): nat
  {
    |Matching(t, LiveWithFavorite(accountId, 0))|
  }

  /** Favourites and non-favourites together are exactly the notes getNotes lists. */
  lemma CountersPartitionNotes(t: Table, accountId: int)
    ensures GetFavoritesCount(t, accountId) + GetNonFavoritesCount(t, accountId) == |GetNotes(t, accountId)|
  {
    var live := Matching(t, Live(accountId));
    var favorites := Matching(t, LiveWithFavorite(accountId, 1));
    var others := Matching(t, LiveWithFavorite(accountId, 0));
    forall k ensures k in live <==> k in favorites || k in others {
      if k in t {
        assert t[k].favorite == 0 || t[k].favorite == 1;
      }
    }
    assert live == favorites + others;
    forall k | k in favorites ensures k !in others {
      assert t[k].favorite == 1;
    }
    assert favorites * others == {};
  }

  /** getLocalModifiedNotes: every row of the account with a non-empty status, LOCAL_DELETED ones included. */
  function GetLocalModifiedNotes(t: Table, accountId: int): (rs: seq<Row>)
    ensures forall x :: x in rs <==> InTable(t, x) && x.note.accountId == accountId && x.note.status != Clean
    ensures IncreasingIds(rs)
  {
    Scan(t, Pending(accountId))
  }

  // ---------------------------------------------------------------------
  // getNote

  /** No status text reads as a decimal integer. */
  lemma StatusIsNotAnInteger(s: DBStatus, i: int)
    ensures s.Text() != IntegerText(i)
  {
  }

  /**
   * getNote as written: `id = :id AND accountId = :accountId AND status !=
   * :accountId`. SQLite compares the TEXT column with the account number's
   * decimal text, which no status equals, so the last condition never
   * excludes a row: LOCAL_DELETED rows are returned too.
   */
  function GetNote(t: Table, accountId: int, id: int): (r: Option<Row>)
    ensures r.Some? <==> id in t && t[id].accountId == accountId
    ensures r.Some? ==> r.value == Row(id, t[id])
  {
    if id in t && t[id].accountId == accountId && t[id].status.Text() != IntegerText(accountId) then
      Some(Row(id, t[id]))
    else
      (if id in t then StatusIsNotAnInteger(t[id].status, accountId); None else None)
  }

  /** The discrepancy: a LOCAL_DELETED row is still found by getNote. */
  lemma GetNoteReturnsDeletedRow()
    ensures GetNote(map[1 := DeletedNote()], 7, 1) == Some(Row(1, DeletedNote()))
  {
  }

  function DeletedNote(): (n: Note)
    ensures n.status == LocalDeleted && n.accountId == 7
  {
    Note(7, Some(42), "T", "a", 0, 0, 100, Some("e0"), LocalDeleted, 0)
  }

  /** getNote as evidently intended: `status != 'LOCAL_DELETED'`. */
  function GetVisibleNote(t: Table, accountId: int, id: int): (r: Option<Row>)
    ensures r.Some? <==> id in t && t[id].accountId == accountId && t[id].status != LocalDeleted
    ensures r.Some? ==> r.value == Row(id, t[id])
  {
    if id in t && Live(accountId).Holds(t[id]) then Some(Row(id, t[id])) else None
  }

  // ---------------------------------------------------------------------
  // Properties across the queries

  /**
   * A LOCAL_DELETED row is hidden from every read but the pending-push
   * enumeration (and the written getNote).
   */
  lemma DeletedRowIsHidden(t: Table, id: int, accountId: int, remoteId: int)
    requires id in t && t[id].status == LocalDeleted
    ensures Row(id, t[id]) !in GetNotes(t, accountId)
    ensures Row(id, t[id]) !in GetRecentNotes(t, accountId)
    ensures Row(id, t[id]) !in GetRemoteIdAndId(t, accountId)
    ensures GetVisibleNote(t, accountId, id).None?
    ensures GetLocalIdByRemoteId(t, accountId, remoteId) != Some(id)
    ensures Row(id, t[id]) in GetLocalModifiedNotes(t, t[id].accountId)
  {
  }

  /**
   * The same remote id in two accounts resolves to each account's own row:
   * the lookup never crosses accounts.
   */
  lemma RemoteIdResolvesWithinAccount(t: Table, a: int, b: int, i: int, j: int, remoteId: int)
    requires i in t && t[i].accountId == a && t[i].remoteId == Some(remoteId) && t[i].status != LocalDeleted
    requires j in t && t[j].accountId == b && t[j].remoteId == Some(remoteId) && t[j].status != LocalDeleted
    requires Matching(t, LiveWithRemoteId(a, remoteId)) == {i}
    requires Matching(t, LiveWithRemoteId(b, remoteId)) == {j}
    ensures GetLocalIdByRemoteId(t, a, remoteId) == Some(i)
    ensures GetLocalIdByRemoteId(t, b, remoteId) == Some(j)
  {
  }
}
