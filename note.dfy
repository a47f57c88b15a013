/**
 * The NOTE entity: one record of the local notes table and the values its
 * columns hold.
 */
module Notes {
  import opened Sql

  /** The `favorite` column: Room stores the entity's boolean as 0 or 1. */
  type Bit = x: int | 0 <= x <= 1

  function BitOf(b: bool): (r: Bit)
    ensures r == 1 <==> b
  {
    if b then 1 else 0
  }

  /** `f & 1` on a two's-complement integer: its lowest bit. */
  function LowBitAnd(f: int): int
  {
    f % 2
  }

  /** `f | 1` on a two's-complement integer: the lowest bit forced on. */
  function LowBitOr(f: int): int
  {
    if f % 2 == 0 then f + 1 else f
  }

  /**
   * The expression `(favorite | 1) - (favorite & 1)` of the favourite toggle.
   * It flips the lowest bit of any integer, so on a stored 0/1 flag it is
   * boolean negation, and applying it twice gives back the operand.
   */
  function FlipFavorite(f: int): (r: int)
    ensures 0 <= f <= 1 ==> r == 1 - f
    ensures r % 2 != f % 2 && (r - f == 1 || f - r == 1)
    ensures (if r % 2 == 0 then r + 1 else r - 1) == f
  {
    LowBitOr(f) - LowBitAnd(f)
  }

  /**
   * Synchronization state of a row, stored as text in the `status` column:
   * the empty string is the clean state. The texts are assumed, since the
   * enumeration's own declaration is not part of this model.
   */
  datatype DBStatus = Clean | LocalEdited | LocalDeleted | Void
  {
    function Text(): (s: string)
      ensures s == "" <==> this == Clean
      ensures s == "LOCAL_DELETED" <==> this == LocalDeleted
      ensures s == "LOCAL_EDITED" <==> this == LocalEdited
    {
      match this
      case Clean => ""
      case LocalEdited => "LOCAL_EDITED"
      case LocalDeleted => "LOCAL_DELETED"
      case Void => "VOID"
    }
  }

  /** One row of NOTE, without its key `id` (the key of the table map). */
  datatype Note = Note(
    accountId: int,
    remoteId: Option<int>,
    title: string,
    content: string,
    categoryId: int,
    favorite: Bit,
    modified: int,
    eTag: Option<string>,
    status: DBStatus,
    scrollY: int)

  /** A row as the queries hand it back: the entity with its local id. */
  datatype Row = Row(id: int, note: Note)

  /** The columns of NOTE other than the key, for stating what a statement leaves alone. */
  datatype Column =
    | AccountIdColumn | RemoteIdColumn | TitleColumn | ContentColumn | CategoryIdColumn
    | FavoriteColumn | ModifiedColumn | ETagColumn | StatusColumn | ScrollYColumn

  /** `n` and `m` hold the same value in column `c`. */
  predicate SameAt(n: Note, m: Note, c: Column)
  {
    match c
    case AccountIdColumn => n.accountId == m.accountId
    case RemoteIdColumn => n.remoteId == m.remoteId
    case TitleColumn => n.title == m.title
    case ContentColumn => n.content == m.content
    case CategoryIdColumn => n.categoryId == m.categoryId
    case FavoriteColumn => n.favorite == m.favorite
    case ModifiedColumn => n.modified == m.modified
    case ETagColumn => n.eTag == m.eTag
    case StatusColumn => n.status == m.status
    case ScrollYColumn => n.scrollY == m.scrollY
  }

  /** `n` and `m` differ at most in the columns `written`. */
  predicate AgreeExcept(n: Note, m: Note, written: set<Column>)
  {
    forall c: Column :: c !in written ==> SameAt(n, m, c)
  }
}
