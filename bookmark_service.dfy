/**
 * The bookmark service: one object holding the bookmark table, whose create,
 * edit and delete operations change that table in place. Each operation is
 * atomic here; the two queries are the functions GetBookmarks and
 * GetBookmarkById of module BookmarkTable, applied to `table`.
 */
module Service {
  import opened BookmarkTable
  import FreshIds

  class BookmarkService {
    /** The bookmark table of the store, by id. */
    var table: Table

    ghost predicate Valid()
      reads this
    {
      KeyedById(table)
    }

    constructor (initial: Table)
      requires KeyedById(initial)
      ensures Valid() && table == initial
    {
      table := initial;
    }

    /**
     * Stores a new row owned by `userId` with the fields of `dto`, under a
     * key the store picks among those not in use, and returns that row.
     */
    method CreateBookmark(userId: int, dto: CreateDto) returns (created: Bookmark)
      requires Valid()
      modifies this
      ensures Valid()
      ensures created.id !in old(table)
      ensures created == NewBookmark(created.id, userId, dto)
      ensures table == Create(old(table), userId, dto, created.id)
      ensures GetBookmarkById(table, userId, created.id) == Some(created)
      ensures GetBookmarks(table, userId) == GetBookmarks(old(table), userId) + {created}
      ensures |GetBookmarks(table, userId)| == |GetBookmarks(old(table), userId)| + 1
      ensures forall other :: other != userId ==> GetBookmarks(table, other) == GetBookmarks(old(table), other)
    {
      FreshIds.FreshIdExists(table);
      var id :| id !in table;
      created := NewBookmark(id, userId, dto);
      table := table[id := created];
    }

    /**
     * Looks the row up by id alone; when it is missing or owned by another
     * user, fails with Forbidden and changes nothing; otherwise overwrites
     * the fields `dto` supplies and returns the updated row.
     */
    method EditBookmark(userId: int, bookmarkId: int, dto: EditDto) returns (r: Result<Bookmark>)
      requires Valid()
      modifies this
      ensures Valid()
      ensures Outcome(r, table) == Edit(old(table), userId, bookmarkId, dto)
      ensures r.Err? <==> !Owns(old(table), userId, bookmarkId)
      ensures r.Err? ==> r.error == Forbidden(AccessDenied) && table == old(table)
      ensures r.Ok? ==> r.value == ApplyEdit(old(table)[bookmarkId], dto) && table == old(table)[bookmarkId := r.value]
    {
      var found := FindUnique(table, bookmarkId);
      if found.None? || found.value.userId != userId {
        return Err(Forbidden(AccessDenied));
      }
      var updated := ApplyEdit(found.value, dto);
      table := table[bookmarkId := updated];
      r := Ok(updated);
    }

    /**
     * Looks the row up by id alone; when it is missing or owned by another
     * user, fails with Forbidden and changes nothing; otherwise removes
     * exactly that row.
     */
    method DeleteBookmark(userId: int, bookmarkId: int) returns (r: Result<()>)
      requires Valid()
      modifies this
      ensures Valid()
      ensures Outcome(r, table) == Delete(old(table), userId, bookmarkId)
      ensures r.Err? <==> !Owns(old(table), userId, bookmarkId)
      ensures r.Err? ==> r.error == Forbidden(AccessDenied) && table == old(table)
      ensures r.Ok? ==> table == old(table) - {bookmarkId}
      ensures r.Ok? ==> GetBookmarks(table, userId) == GetBookmarks(old(table), userId) - {old(table)[bookmarkId]}
    {
      var found := FindUnique(table, bookmarkId);
      if found.None? || found.value.userId != userId {
        return Err(Forbidden(AccessDenied));
      }
      table := table - {bookmarkId};
      r := Ok(());
    }
  }

  /**
   * One user's session against a fresh store: the list starts empty; a
   * created bookmark is listed and reads back by id; another user neither
   * sees it nor may delete it; the owner's edit changes the supplied fields
   * and keeps the link; the owner's delete removes it.
   */
  method SessionScenario(user: int, stranger: int)
    requires user != stranger
  {
    var service := new BookmarkService(map[]);
    assert GetBookmarks(service.table, user) == {};

    var created := service.CreateBookmark(user, CreateDto("first bookmark", None, "https://randomlink.com"));
    assert GetBookmarks(service.table, user) == {created};
    assert GetBookmarkById(service.table, user, created.id) == Some(created);
    assert GetBookmarkById(service.table, stranger, created.id) == None;
    assert GetBookmarks(service.table, stranger) == {};

    var refused := service.DeleteBookmark(stranger, created.id);
    assert refused == Err(Forbidden(AccessDenied));

    var edited := service.EditBookmark(user, created.id, EditDto(Some("Kubernetes Course"), Some("Learn Kubernetes"), None));
    assert edited.Ok?;
    assert edited.value.title == "Kubernetes Course" && edited.value.description == Some("Learn Kubernetes");
    assert edited.value.link == "https://randomlink.com" && edited.value.userId == user;

    var deleted := service.DeleteBookmark(user, created.id);
    assert deleted == Ok(());
    assert GetBookmarkById(service.table, user, created.id) == None;
    assert GetBookmarks(service.table, user) == {};
  }
}
