/**
 * The bookmark table of the bookmarks backend and the operations the
 * bookmark service performs on it, as values.
 *
 * The relational store is replaced by a finite map from bookmark id to the
 * stored row. Queries are functions of the table; each mutation is a
 * function from the old table to its result and the new table, which the
 * stateful service in module Service is proved to follow.
 */
module BookmarkTable {

  datatype Option<T> = None | Some(value: T) {
    /** The carried value, or `default` when the field was left out. */
    function GetOr(default: T): T {
      match this
      case Some(v) => v
      case None => default
    }
  }

  /** A stored bookmark row: `id` is its key, `userId` its owner. */
  datatype Bookmark = Bookmark(
    id: int,
    userId: int,
    title: string,
    description: Option<string>,
    link: string)

  /** Body of a create request. It has no owner field: the owner is always the caller. */
  datatype CreateDto = CreateDto(title: string, description: Option<string>, link: string)

  /** Body of an edit request: every field may be left out (`None`). */
  datatype EditDto = EditDto(title: Option<string>, description: Option<string>, link: Option<string>)

  /** The edit request that supplies no field at all. */
  const EmptyEdit := EditDto(None, None, None)

  /** Message carried by the access-denied error of the mutation paths. */
  const AccessDenied := "Access to resources denied"

  datatype Error = Forbidden(message: string)

  datatype Result<T> = Ok(value: T) | Err(error: Error)

  /** The result of a mutation together with the table it leaves behind. */
  datatype Outcome<T> = Outcome(result: Result<T>, table: Table)

  type Table = map<int, Bookmark>

  /** Primary-key integrity: every row is stored under its own id. */
  ghost predicate KeyedById(t: Table) {
    forall id :: id in t ==> t[id].id == id
  }

  /**
   * List: every stored bookmark whose owner is `userId`, and no other.
   * The order of the rows is not modelled.
   */
  function GetBookmarks(t: Table, userId: int): (r: set<Bookmark>)
    ensures forall b :: b in r ==> b in t.Values && b.userId == userId
    ensures forall id :: id in t && t[id].userId == userId ==> t[id] in r
  {
    set id | id in t && t[id].userId == userId :: t[id]
  }

  /**
   * Get by id: the row stored under `bookmarkId` when `userId` owns it;
   * `None` both when there is no such row and when another user owns it.
   */
  function GetBookmarkById(t: Table, userId: int, bookmarkId: int): (r: Option<Bookmark>)
    ensures r.Some? <==> bookmarkId in t && t[bookmarkId].userId == userId
    ensures r.Some? ==> r.value == t[bookmarkId] && r.value in GetBookmarks(t, userId)
  {
    if bookmarkId in t && t[bookmarkId].userId == userId then Some(t[bookmarkId]) else None
  }

  /** Lookup by id alone, whoever owns the row: the first step of edit and delete. */
  function FindUnique(t: Table, bookmarkId: int): Option<Bookmark> {
    if bookmarkId in t then Some(t[bookmarkId]) else None
  }

  /** The ownership check of edit and delete: the row exists and `userId` owns it. */
  predicate Owns(t: Table, userId: int, bookmarkId: int) {
    bookmarkId in t && t[bookmarkId].userId == userId
  }

  /** The row a create request stores: the caller's id followed by the request body. */
  function NewBookmark(id: int, userId: int, dto: CreateDto): (b: Bookmark)
    ensures b.id == id && b.userId == userId
    ensures b.title == dto.title && b.description == dto.description && b.link == dto.link
  {
    Bookmark(id, userId, dto.title, dto.description, dto.link)
  }

  /**
   * Partial update: every field the request supplies replaces the stored
   * one, every field it leaves out keeps its value; id and owner never change.
   */
  function ApplyEdit(b: Bookmark, dto: EditDto): (r: Bookmark)
    ensures r.id == b.id && r.userId == b.userId
    ensures dto.title.Some? ==> r.title == dto.title.value
    ensures dto.title.None? ==> r.title == b.title
    ensures dto.description.Some? ==> r.description == dto.description
    ensures dto.description.None? ==> r.description == b.description
    ensures dto.link.Some? ==> r.link == dto.link.value
    ensures dto.link.None? ==> r.link == b.link
  {
    b.(title := dto.title.GetOr(b.title),
       description := if dto.description.Some? then dto.description else b.description,
       link := dto.link.GetOr(b.link))
  }

  /**
   * Create under the fresh key `id` chosen by the store: exactly one row is
   * added, owned by the caller, and every existing row stays as it was.
   */
  function Create(t: Table, userId: int, dto: CreateDto, id: int): (t': Table)
    requires id !in t
    ensures t'.Keys == t.Keys + {id}
    ensures t'[id] == NewBookmark(id, userId, dto)
    ensures forall k :: k in t ==> t'[k] == t[k]
  {
    t[id := NewBookmark(id, userId, dto)]
  }

  /**
   * Edit: denied when the row is missing or owned by someone else, and the
   * table is then unchanged; otherwise only that row is rewritten, by
   * ApplyEdit, and the rewritten row is returned.
   */
  function Edit(t: Table, userId: int, bookmarkId: int, dto: EditDto): (o: Outcome<Bookmark>)
    ensures o.result.Err? <==> !Owns(t, userId, bookmarkId)
    ensures o.result.Err? ==> o.result.error == Forbidden(AccessDenied) && o.table == t
    ensures o.result.Ok? ==>
      && o.table.Keys == t.Keys
      && o.result.value == o.table[bookmarkId] == ApplyEdit(t[bookmarkId], dto)
      && forall k :: k in t && k != bookmarkId ==> o.table[k] == t[k]
  {
    var found := FindUnique(t, bookmarkId);
    if found.None? || found.value.userId != userId then
      Outcome(Err(Forbidden(AccessDenied)), t)
    else
      var updated := ApplyEdit(found.value, dto);
      Outcome(Ok(updated), t[bookmarkId := updated])
  }

  /**
   * Delete: denied under the same condition as Edit, with the table
   * unchanged; otherwise exactly the row under `bookmarkId` is removed.
   */
  function Delete(t: Table, userId: int, bookmarkId: int): (o: Outcome<()>)
    ensures o.result.Err? <==> !Owns(t, userId, bookmarkId)
    ensures o.result.Err? ==> o.result.error == Forbidden(AccessDenied) && o.table == t
    ensures o.result.Ok? ==>
      && o.table.Keys == t.Keys - {bookmarkId}
      && forall k :: k in o.table ==> o.table[k] == t[k]
  {
    var found := FindUnique(t, bookmarkId);
    if found.None? || found.value.userId != userId then
      Outcome(Err(Forbidden(AccessDenied)), t)
    else
      Outcome(Ok(()), t - {bookmarkId})
  }
}
