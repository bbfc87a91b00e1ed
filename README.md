# Bookmark service: ownership-scoped bookmark table

This project models the bookmark service of a small NestJS backend
(`BookmarkService` in `src/bookmark/bookmark.service.ts`). The service keeps one
table of bookmark rows. Each row is keyed by its id and carries the id of
the user who owns it. Five operations work on that table, always on behalf
of the caller whose id the authentication guard resolved:

- **List** (`getBookmarks`) returns the caller's rows.
- **Get by id** (`getBookmarkById`) returns the row only when both its id and
  its owner match. Otherwise it returns null and never fails.
- **Create** (`createBookmark`) stores `{userId, ...dto}` under a new key.
- **Edit** (`editBookmark`) and **delete** (`deleteBookmark`) first look the row
  up by id alone. When it is missing or owned by another user they fail with
  `ForbiddenException('Access to resources denied')`. Otherwise they update
  the row with the fields of the request, or remove it.

The relational store is replaced by a finite map `Table = map<int, Bookmark>`.

- `bookmark_table.dfy` (module `BookmarkTable`) holds the records and the
  request bodies. It also holds the two queries as functions, and each
  mutation as a function from the old table to its result and new table.
- `fresh_ids.dfy` (module `FreshIds`) proves that a finite table always
  leaves some key unused. The store may pick any such key; the model does
  not assume keys are auto-incremented.
- `bookmark_properties.dfy` (module `BookmarkProperties`) holds the lemmas:
  ownership scoping, the effect of each mutation on every user's list, the
  read/write asymmetry, and the partial-update laws. It also models a run
  of requests from many users and proves that nobody can change another
  user's rows.
- `bookmark_service.dfy` (module `Service`) holds the class `BookmarkService`.
  Its `table` field is changed in place by `CreateBookmark`, `EditBookmark`
  and `DeleteBookmark`. Each method is proved to follow the matching
  function of `BookmarkTable`. `SessionScenario` is a client of the class
  that replays the end-to-end test's bookmark flow
  (create → list → get → edit → delete), adding a second user.

The read path and the mutation paths treat a row the caller does not own
differently, and the model keeps that difference. Get by id answers `None`,
whether the row is missing or belongs to someone else. Edit and delete
answer `Forbidden` in both cases.

Get by id uses `findFirst` (`src/bookmark/bookmark.service.ts:18-23`), which
returns null and never fails; the model answers `None`.

## Model

| member | source | states |
|---|---|---|
| `BookmarkTable.GetBookmarks` | src/bookmark/bookmark.service.ts:9-15 | every listed bookmark is a stored row owned by the caller, and every stored row owned by the caller is listed |
| `BookmarkTable.GetBookmarkById` | src/bookmark/bookmark.service.ts:17-24 | a row is returned iff it exists under that id and the caller owns it; the returned row is the stored one and is in the caller's list; otherwise `None`, with no error and no distinction between missing and foreign |
| `BookmarkTable.NewBookmark` | src/bookmark/bookmark.service.ts:28-31 | the stored row's owner is the caller and its title, description and link are those of the request body; the request cannot name another owner |
| `BookmarkTable.ApplyEdit` | src/bookmark/bookmark.service.ts:53-55 | each field the edit supplies replaces the stored one; each field it leaves out keeps its value; id and owner never change |
| `BookmarkTable.Create` | src/bookmark/bookmark.service.ts:26-35 | under a fresh key, exactly one row is added, holding the new bookmark, and every existing row is unchanged |
| `BookmarkTable.Edit` | src/bookmark/bookmark.service.ts:37-57 | fails with Forbidden("Access to resources denied") iff the row is missing or owned by another user, and then leaves the table unchanged; otherwise the set of keys is unchanged, only that row is rewritten by ApplyEdit, and the rewritten row is returned |
| `BookmarkTable.Delete` | src/bookmark/bookmark.service.ts:59-75 | fails with Forbidden iff the row is missing or owned by another user, and then leaves the table unchanged; otherwise only that key is removed and every other row is unchanged |
| `FreshIds.FreshIdExists` | src/bookmark/bookmark.service.ts:27-32 | some key is always unused, so the store can always place a new row |
| `BookmarkProperties.GetAgreesWithList` | src/bookmark/bookmark.service.ts:9-24 | with unique keys, get by id finds a row iff the caller's list holds a row with that id, and then returns that very row |
| `BookmarkProperties.NoRowsEmptyList` | src/bookmark/bookmark.service.ts:9-15 | a table without rows of the caller gives an empty list, not an error |
| `BookmarkProperties.CreateAddsOne` | src/bookmark/bookmark.service.ts:26-35 | after create: unique keys still hold; the caller's list is the old list plus the new row, which was not in it before, so it grows by exactly one; the row reads back by id for the caller; every other user's list is unchanged and their get by id on the new key is `None` |
| `BookmarkProperties.CreateListOf` | src/bookmark/bookmark.service.ts:26-35 | for every user, the list after create is the old list plus the new row exactly when that user is the caller |
| `BookmarkProperties.EditByOwner` | src/bookmark/bookmark.service.ts:49-56 | an owner's edit returns the merged row and keeps keys unique; get by id gives the merged row; the owner's list swaps the old row for the merged one and keeps its size; no other user's list changes |
| `BookmarkProperties.DeleteByOwner` | src/bookmark/bookmark.service.ts:70-74 | an owner's delete succeeds and keeps keys unique; no user finds the id any more; the owner's list loses exactly that row, so it shrinks by one; no other user's list changes |
| `BookmarkProperties.ReadWriteAsymmetry` | src/bookmark/bookmark.service.ts:17-68 | for a row the caller does not own (missing or foreign), get by id is `None` while edit and delete are Forbidden and leave the table unchanged |
| `BookmarkProperties.ForeignRowHidden` | src/bookmark/bookmark.service.ts:9-24 | another user's row is absent from the caller's list but present in its owner's list and readable by its owner |
| `BookmarkProperties.EmptyEditKeepsRow` | src/bookmark/bookmark.service.ts:49-56 | an owner's edit that supplies no field returns the row unchanged and leaves the table as it was |
| `BookmarkProperties.EditIdempotent` | src/bookmark/bookmark.service.ts:49-56 | applying the same edit twice gives the same result and table as applying it once |
| `BookmarkProperties.TwoUserScenario` | src/bookmark/bookmark.service.ts:17-75 | after A creates a bookmark, B's list is empty, B's get by id is `None` and B's delete is Forbidden; A's get returns the row, A's delete succeeds, and afterwards A's get is `None` and A's list is empty |
| `BookmarkProperties.StepKeepsOthersList` | src/bookmark/bookmark.service.ts:26-75 | a create, edit or delete by one user leaves every other user's list exactly as it was |
| `BookmarkProperties.StepKeepsKeys` | src/bookmark/bookmark.service.ts:26-75 | every create, edit or delete keeps each row stored under its own id |
| `BookmarkProperties.OthersCannotTouch` | src/bookmark/bookmark.service.ts:26-75 | after any sequence of requests from other users, a user's list is exactly what it was |
| `BookmarkProperties.RunKeepsKeys` | src/bookmark/bookmark.service.ts:26-75 | any sequence of requests keeps each row stored under its own id |
| `Service.BookmarkService.constructor` | src/bookmark/bookmark.service.ts:8 | the service starts on the given table, which must have unique keys |
| `Service.BookmarkService.CreateBookmark` | src/bookmark/bookmark.service.ts:26-35 | the key is one the table did not use; the new table is `Create` of the old one; the returned row is the stored row, owned by the caller and holding the body; the caller's list grows by exactly that row; other users' lists are unchanged |
| `Service.BookmarkService.EditBookmark` | src/bookmark/bookmark.service.ts:37-57 | result and new table equal `Edit` of the old table; Forbidden iff the caller does not own the row, with the table unchanged; otherwise the merged row is returned and stored under the same key |
| `Service.BookmarkService.DeleteBookmark` | src/bookmark/bookmark.service.ts:59-75 | result and new table equal `Delete` of the old table; Forbidden iff the caller does not own the row, with the table unchanged; otherwise exactly that key is removed and the caller's list loses that row |

## Left out

- The ORM layer (Prisma) is replaced by the map. This covers query
  generation, connections and `async`/`await`. Each operation is atomic, so
  the gap between the lookup and the update or delete is not modelled. That
  gap matters only under concurrency.
- The `createdAt`/`updatedAt` timestamps are left out. The schema that
  defines them is not part of this model.
- The order of the rows returned by List is not modelled. `GetBookmarks` is a
  set, because the query has no `orderBy`.
- Ids and owner ids are unbounded integers. The width of the database's key
  column is not modelled.
- The key the store assigns is any key not in use. How the database actually
  picks it is not modelled.
- The request-body validation (`ValidationPipe`, class-validator) and the
  bookmark DTO files are not part of this model. `CreateDto` has no owner
  field because the whitelisting pipe strips unknown properties. The link is
  taken as a required string, because the create DTO that declares it is
  not part of this model. Title non-emptiness and
  link-as-URI checks are not modelled.
- An edit that sends an explicit `null` is not modelled. `EditDto` can only
  supply a field or leave it out, so an edit cannot clear `description`.
- `src/bookmark/bookmark.controller.ts` is routing only. Its `ParseIntPipe`
  turns the path parameter into an integer, and the model simply takes `int`
  ids.
- The user controller (`getMe`, `editUser`), its `UserService` and the
  edit-user DTO are not part of this model. The JWT guard, the `getUser`
  decorator, and signup/signin are not part of this model either. The
  caller's id is a parameter of every operation.
- The requirement that every owner id names an existing user is not
  modelled, because users are outside this model.
