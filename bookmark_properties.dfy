/**
 * What the bookmark operations promise about the table as a whole:
 * ownership scoping of the two queries, the effect of each mutation on
 * the owner's list and on everybody else's, the asymmetry between the
 * read path and the mutation paths, and the partial-update laws.
 */
module BookmarkProperties {
  import opened BookmarkTable
  import FreshIds

  /**
   * Get by id agrees with List: it finds a row exactly when the caller's
   * list holds a row with that id, and then it is that row.
   */
  lemma GetAgreesWithList(t: Table, userId: int, bookmarkId: int)
    requires KeyedById(t)
    ensures GetBookmarkById(t, userId, bookmarkId).Some? <==>
            exists b :: b in GetBookmarks(t, userId) && b.id == bookmarkId
    ensures forall b :: b in GetBookmarks(t, userId) && b.id == bookmarkId ==>
            GetBookmarkById(t, userId, bookmarkId) == Some(b)
  {
  }

  /** A table without rows of `userId` gives that user an empty list. */
  lemma NoRowsEmptyList(t: Table, userId: int)
    requires forall id :: id in t ==> t[id].userId != userId
    ensures GetBookmarks(t, userId) == {}
  {
  }

  /**
   * Create adds exactly one row, under the fresh id, owned by the caller and
   * holding the request body: the caller's list grows by that one row, the
   * row reads back by id, and no other user's list or lookup changes.
   */
  lemma CreateAddsOne(t: Table, userId: int, dto: CreateDto, id: int)
    requires KeyedById(t) && id !in t
    ensures KeyedById(Create(t, userId, dto, id))
    ensures NewBookmark(id, userId, dto) !in GetBookmarks(t, userId)
    ensures GetBookmarks(Create(t, userId, dto, id), userId) ==
            GetBookmarks(t, userId) + {NewBookmark(id, userId, dto)}
    ensures |GetBookmarks(Create(t, userId, dto, id), userId)| == |GetBookmarks(t, userId)| + 1
    ensures GetBookmarkById(Create(t, userId, dto, id), userId, id) == Some(NewBookmark(id, userId, dto))
    ensures forall other :: other != userId ==>
              GetBookmarks(Create(t, userId, dto, id), other) == GetBookmarks(t, other)
    ensures forall other :: other != userId ==>
              GetBookmarkById(Create(t, userId, dto, id), other, id) == None
  {
  }

  /**
   * The list of any `user` after a create: the new row is added for its
   * owner only. Unlike CreateAddsOne, this holds without primary-key
   * integrity of `t`.
   */
  lemma CreateListOf(t: Table, userId: int, dto: CreateDto, id: int, user: int)
    requires id !in t
    ensures GetBookmarks(Create(t, userId, dto, id), user) ==
            GetBookmarks(t, user) + (if user == userId then {NewBookmark(id, userId, dto)} else {})
  {
  }

  /**
   * Edit by the owner rewrites exactly that row with ApplyEdit and returns
   * it: the owner's list swaps the old row for the new one and keeps its
   * size, and every other user's list stays the same.
   */
  lemma EditByOwner(t: Table, userId: int, bookmarkId: int, dto: EditDto)
    requires KeyedById(t) && Owns(t, userId, bookmarkId)
    ensures Edit(t, userId, bookmarkId, dto).result == Ok(ApplyEdit(t[bookmarkId], dto))
    ensures KeyedById(Edit(t, userId, bookmarkId, dto).table)
    ensures GetBookmarkById(Edit(t, userId, bookmarkId, dto).table, userId, bookmarkId) ==
            Some(ApplyEdit(t[bookmarkId], dto))
    ensures GetBookmarks(Edit(t, userId, bookmarkId, dto).table, userId) ==
            GetBookmarks(t, userId) - {t[bookmarkId]} + {ApplyEdit(t[bookmarkId], dto)}
    ensures |GetBookmarks(Edit(t, userId, bookmarkId, dto).table, userId)| == |GetBookmarks(t, userId)|
    ensures forall other :: other != userId ==>
              GetBookmarks(Edit(t, userId, bookmarkId, dto).table, other) == GetBookmarks(t, other)
  {
  }

  /**
   * Delete by the owner removes exactly that row: no user finds it by id
   * any more, the owner's list loses that one row, and every other user's
   * list stays the same.
   */
  lemma DeleteByOwner(t: Table, userId: int, bookmarkId: int)
    requires KeyedById(t) && Owns(t, userId, bookmarkId)
    ensures Delete(t, userId, bookmarkId).result == Ok(())
    ensures KeyedById(Delete(t, userId, bookmarkId).table)
    ensures forall user :: GetBookmarkById(Delete(t, userId, bookmarkId).table, user, bookmarkId) == None
    ensures GetBookmarks(Delete(t, userId, bookmarkId).table, userId) ==
            GetBookmarks(t, userId) - {t[bookmarkId]}
    ensures t[bookmarkId] in GetBookmarks(t, userId)
    ensures |GetBookmarks(Delete(t, userId, bookmarkId).table, userId)| == |GetBookmarks(t, userId)| - 1
    ensures forall other :: other != userId ==>
              GetBookmarks(Delete(t, userId, bookmarkId).table, other) == GetBookmarks(t, other)
  {
  }

  /**
   * The read path and the mutation paths disagree on purpose: for a row the
   * caller does not own, whether it is missing or another user's, Get by id
   * answers `None` while Edit and Delete fail with Forbidden and leave the
   * table as it was.
   */
  lemma ReadWriteAsymmetry(t: Table, userId: int, bookmarkId: int, dto: EditDto)
    requires !Owns(t, userId, bookmarkId)
    ensures GetBookmarkById(t, userId, bookmarkId) == None
    ensures Edit(t, userId, bookmarkId, dto) == Outcome(Err(Forbidden(AccessDenied)), t)
    ensures Delete(t, userId, bookmarkId) == Outcome(Err(Forbidden(AccessDenied)), t)
  {
  }

  /** A row another user owns is in that user's list but not in the caller's. */
  lemma ForeignRowHidden(t: Table, userId: int, bookmarkId: int)
    requires bookmarkId in t && t[bookmarkId].userId != userId
    ensures t[bookmarkId] !in GetBookmarks(t, userId)
    ensures t[bookmarkId] in GetBookmarks(t, t[bookmarkId].userId)
    ensures GetBookmarkById(t, t[bookmarkId].userId, bookmarkId) == Some(t[bookmarkId])
  {
  }

  /** An edit that supplies no field leaves the row, and so the table, as it was. */
  lemma EmptyEditKeepsRow(t: Table, userId: int, bookmarkId: int)
    requires Owns(t, userId, bookmarkId)
    ensures Edit(t, userId, bookmarkId, EmptyEdit) == Outcome(Ok(t[bookmarkId]), t)
  {
  }

  /** Sending the same edit twice has the effect of sending it once. */
  lemma EditIdempotent(t: Table, userId: int, bookmarkId: int, dto: EditDto)
    requires Owns(t, userId, bookmarkId)
    ensures var once := Edit(t, userId, bookmarkId, dto);
            Edit(once.table, userId, bookmarkId, dto) == once
  {
  }

  /**
   * Two users, one bookmark: after the first creates it, the second sees an
   * empty list and no row by id, and the second's delete is refused; the
   * owner's delete succeeds, after which the row is gone for the owner too.
   */
  lemma TwoUserScenario(owner: int, stranger: int, dto: CreateDto, id: int)
    requires owner != stranger
    ensures var t := Create(map[], owner, dto, id);
      && GetBookmarks(t, stranger) == {}
      && GetBookmarkById(t, stranger, id) == None
      && GetBookmarkById(t, owner, id) == Some(NewBookmark(id, owner, dto))
      && Delete(t, stranger, id) == Outcome(Err(Forbidden(AccessDenied)), t)
      && Delete(t, owner, id).result == Ok(())
      && GetBookmarkById(Delete(t, owner, id).table, owner, id) == None
      && GetBookmarks(Delete(t, owner, id).table, owner) == {}
  {
  }

  /** One call into the service, made by the user the authentication guard resolved. */
  datatype Request =
    | CreateRequest(caller: int, dto: CreateDto)
    | EditRequest(caller: int, bookmarkId: int, edit: EditDto)
    | DeleteRequest(caller: int, bookmarkId: int)

  /**
   * The table after one request. The key of a new row is one fixed choice
   * among the keys the table does not use; the lemmas below rely only on
   * its freshness.
   */
  ghost function Step(t: Table, r: Request): Table {
    match r
    case CreateRequest(u, dto) =>
      FreshIds.FreshIdExists(t);
      var id :| id !in t;
      Create(t, u, dto, id)
    case EditRequest(u, id, dto) => Edit(t, u, id, dto).table
    case DeleteRequest(u, id) => Delete(t, u, id).table
  }

  /** The table after the requests `rs`, served one at a time in order. */
  ghost function Run(t: Table, rs: seq<Request>): Table
    decreases |rs|
  {
    if rs == [] then t else Run(Step(t, rs[0]), rs[1..])
  }

  /** A mutation by one user never changes another user's list. */
  lemma StepKeepsOthersList(t: Table, r: Request, user: int)
    requires r.caller != user
    ensures GetBookmarks(Step(t, r), user) == GetBookmarks(t, user)
  {
  }

  /** Every request keeps primary-key integrity. */
  lemma StepKeepsKeys(t: Table, r: Request)
    requires KeyedById(t)
    ensures KeyedById(Step(t, r))
  {
  }

  /**
   * However many requests other users make, in whatever order, a user's
   * list is exactly what it was: rows are visible and mutable only to
   * their owner.
   */
  lemma {:induction false} OthersCannotTouch(t: Table, rs: seq<Request>, user: int)
    requires forall i :: 0 <= i < |rs| ==> rs[i].caller != user
    ensures GetBookmarks(Run(t, rs), user) == GetBookmarks(t, user)
    decreases |rs|
  {
    if rs != [] {
      StepKeepsOthersList(t, rs[0], user);
      OthersCannotTouch(Step(t, rs[0]), rs[1..], user);
    }
  }

  /** Any sequence of requests keeps every row stored under its own id. */
  lemma {:induction false} RunKeepsKeys(t: Table, rs: seq<Request>)
    requires KeyedById(t)
    ensures KeyedById(Run(t, rs))
    decreases |rs|
  {
    if rs != [] {
      StepKeepsKeys(t, rs[0]);
      RunKeepsKeys(Step(t, rs[0]), rs[1..]);
    }
  }
}
