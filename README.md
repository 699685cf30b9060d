# Roadkill LightSpeed repository, modelled in Dafny

Roadkill is a wiki. Its LightSpeed repository stores four kinds of record:

- pages (metadata only)
- page contents (one row per revision of a page's text)
- users
- the site-preferences row (the settings serialized as JSON)

Every operation goes through one unit of work. Writes are followed by
`SaveChanges`. Deletes only remove rows from the unit of work, so they reach
the database on the next save or when the repository is disposed.

The model has these parts:

- `Entities`: the records. Pages and users have the same fields as entity
  and as domain object, so one datatype stands for both. A revision entity
  points at its page by key. The domain revision holds the page object, or
  `None` for a null page.
- `Store.Tables`: the unit of work's tables as one value.
  - pages are keyed by their integer id
  - revisions and users are keyed by Guid
  - preferences rows are a sequence, in the order the store returns them
- `Mapping`: the four private field-copy helpers, with each field they copy
  or keep.
- `Queries`: every read.
  - A `FirstOrDefault` without an ordering returns *some* matching row, so it
    is a ghost choice, specified by the properties the result has.
  - A `Where` is the set of matching rows.
- `Operations`: every write, as a function from the tables before to the
  tables after and the returned value.
- `Repository.LightSpeedRepository`: the repository object.
  - Its mutable fields hold the unit of work's tables.
  - The field `committed` holds what the database has.
  - Each method updates the fields step by step, as the C# code does.
  - Each method is proved to have exactly the effect the matching
    `Operations` function gives.
  - Each method keeps every row stored under its own id.
  - Each method commits or not, as the repository does.
- `Invariants`, `Properties` and `TagSearch`: what the operations promise
  when their results are read back through the queries.

Design points:

- Fresh identities become parameters with a freshness precondition. These
  are the Guid from `Guid.NewGuid` and the integer key the store gives a new
  page row. `Guid.Empty` is `EmptyGuid` (0). Times are integers.
- `MapPageToEntity` assigns `ModifiedBy` twice and never assigns `ModifiedOn`.
  The model follows that code as written. An update therefore keeps the
  stored modification time (`Properties.UpdateDropsModifiedOn`).
- `AddNewPage` maps the page, resets its id to 0 and adds it. The store
  assigns the new key. The returned content holds the caller's page object,
  which still has the caller's id (`Properties.AddedPageIsFound`).
- `SaveSitePreferences` reads the first row the store returns.
  - It adds a new row when there is no row or that row's id is empty.
  - Otherwise it updates that row.
  - New rows are modelled as appended, so an empty-id first row stays first
    (`Properties.EmptyIdFirstRowShadowsSaves`).
- The unit of work has `CascadeDeletes` switched off. Deleting a page leaves
  its revisions pointing at a missing page
  (`Invariants.DeletePageOrphansRevisions`).
- The class's reads are the `Queries` functions applied to `View()`.

## Model

| member | source | states |
|---|---|---|
| Mapping.MapPageToEntity | src/Roadkill.Core/Database/Repositories/Lightspeed/LightSpeedRepository.cs:528-536 | The updated row takes every field from the caller's page except the key and ModifiedOn, which keep the stored values. The row equals the caller's page exactly when those two already agree. |
| Mapping.MapUserToEntity | src/Roadkill.Core/Database/Repositories/Lightspeed/LightSpeedRepository.cs:513-526 | The updated row is the caller's user with the stored key. It equals the caller's user exactly when the keys agree. |
| Mapping.MapPageContentToEntity | src/Roadkill.Core/Database/Repositories/Lightspeed/LightSpeedRepository.cs:538-544 | The revision keeps its id and page link. It takes text, editor, edit time and version number from the caller. |
| Mapping.MapEntityToPageContent | src/Roadkill.Core/Database/Repositories/Lightspeed/LightSpeedRepository.cs:546-553 | The domain revision keeps the page the caller set and takes the entity's id. Writing it back onto the same entity changes nothing. |
| Mapping.WriteThenReadContent | src/Roadkill.Core/Database/Repositories/Lightspeed/LightSpeedRepository.cs:538-553 | Writing a revision into an entity and reading it back yields the caller's revision under the entity's id. |
| Text.ToLower | src/Roadkill.Core/Database/Repositories/Lightspeed/LightSpeedRepository.cs:279 | Lower-casing keeps the length and lower-cases each character. |
| Queries.AllPages | src/Roadkill.Core/Database/Repositories/Lightspeed/LightSpeedRepository.cs:249-253 | Exactly the stored pages. |
| Queries.GetPageById | src/Roadkill.Core/Database/Repositories/Lightspeed/LightSpeedRepository.cs:255-259 | Some stored page with that id, and null exactly when no stored page has it. |
| Queries.FindPagesByCreatedBy | src/Roadkill.Core/Database/Repositories/Lightspeed/LightSpeedRepository.cs:261-265 | Exactly the stored pages created by that user. |
| Queries.FindPagesByModifiedBy | src/Roadkill.Core/Database/Repositories/Lightspeed/LightSpeedRepository.cs:267-271 | Exactly the stored pages last modified by that user. |
| Queries.FindPagesContainingTag | src/Roadkill.Core/Database/Repositories/Lightspeed/LightSpeedRepository.cs:273-280 | A stored page is found exactly when its lower-cased tags contain the lower-cased tag. This is the non-Postgres path. |
| Queries.AllTags | src/Roadkill.Core/Database/Repositories/Lightspeed/LightSpeedRepository.cs:298-301 | One tags string per stored page, each being that page's tags. |
| Queries.GetPageByTitle | src/Roadkill.Core/Database/Repositories/Lightspeed/LightSpeedRepository.cs:303-307 | Some stored page with that title, and null exactly when no stored page has it. |
| Queries.GetPageContentById | src/Roadkill.Core/Database/Repositories/Lightspeed/LightSpeedRepository.cs:309-313 | Some stored revision with that id, mapped with its page. Null exactly when none has it. |
| Queries.GetPageContentByPageIdAndVersionNumber | src/Roadkill.Core/Database/Repositories/Lightspeed/LightSpeedRepository.cs:315-319 | Some stored revision of that page with that version number. Null exactly when there is none. |
| Queries.GetPageContentByEditedBy | src/Roadkill.Core/Database/Repositories/Lightspeed/LightSpeedRepository.cs:321-325 | Some stored revision edited by that user. Null exactly when there is none. |
| Queries.FindPageContentsByPageId | src/Roadkill.Core/Database/Repositories/Lightspeed/LightSpeedRepository.cs:327-331 | Exactly the mapped revisions of that page. |
| Queries.AllPageContents | src/Roadkill.Core/Database/Repositories/Lightspeed/LightSpeedRepository.cs:333-337 | Exactly the mapped stored revisions. |
| Queries.GetAdminById | src/Roadkill.Core/Database/Repositories/Lightspeed/LightSpeedRepository.cs:339-343 | A stored admin with that id. Null exactly when no admin has it. |
| Queries.GetUserByActivationKey | src/Roadkill.Core/Database/Repositories/Lightspeed/LightSpeedRepository.cs:345-349 | A stored, not yet activated user with that key. Null exactly when there is none. |
| Queries.GetEditorById | src/Roadkill.Core/Database/Repositories/Lightspeed/LightSpeedRepository.cs:351-355 | A stored editor with that id. Null exactly when no editor has it. |
| Queries.GetUserByEmail | src/Roadkill.Core/Database/Repositories/Lightspeed/LightSpeedRepository.cs:357-361 | A stored user with that email and activation state. Null exactly when there is none. |
| Queries.GetUserById | src/Roadkill.Core/Database/Repositories/Lightspeed/LightSpeedRepository.cs:363-367 | A stored user with that id and activation state. Null exactly when there is none. |
| Queries.GetUserByPasswordResetKey | src/Roadkill.Core/Database/Repositories/Lightspeed/LightSpeedRepository.cs:369-373 | A stored user with that reset key. Null exactly when there is none. |
| Queries.GetUserByUsername | src/Roadkill.Core/Database/Repositories/Lightspeed/LightSpeedRepository.cs:375-379 | A stored user with that username. Null exactly when there is none. |
| Queries.GetUserByUsernameOrEmail | src/Roadkill.Core/Database/Repositories/Lightspeed/LightSpeedRepository.cs:381-385 | A stored user matching the username or the email. Null exactly when no user matches either. |
| Queries.FindAllEditors | src/Roadkill.Core/Database/Repositories/Lightspeed/LightSpeedRepository.cs:387-391 | Exactly the stored editors. |
| Queries.FindAllAdmins | src/Roadkill.Core/Database/Repositories/Lightspeed/LightSpeedRepository.cs:393-397 | Exactly the stored admins. |
| Queries.GetPageContentByVersionId | src/Roadkill.Core/Database/Repositories/Lightspeed/LightSpeedRepository.cs:399-403 | Some stored revision with that id, mapped with its page. Null exactly when none has it. |
| Queries.FindPageContentsEditedBy | src/Roadkill.Core/Database/Repositories/Lightspeed/LightSpeedRepository.cs:405-409 | Exactly the mapped stored revisions edited by that user. |
| Queries.LatestRevisionExists | src/Roadkill.Core/Database/Repositories/Lightspeed/LightSpeedRepository.cs:120 | Any non-empty set of revisions has one edited no earlier than all the others, so ordering by edit time, newest first, has a first element. |
| Queries.GetLatestPageContent | src/Roadkill.Core/Database/Repositories/Lightspeed/LightSpeedRepository.cs:118-122 | Null exactly when the page has no revisions. Otherwise a revision of that page edited no earlier than any other revision of it. |
| Queries.GetSitePreferences | src/Roadkill.Core/Database/Repositories/Lightspeed/LightSpeedRepository.cs:124-139 | The defaults exactly when there is no row. Otherwise the settings loaded from the first row's JSON. |
| Operations.DeletePage | src/Roadkill.Core/Database/Repositories/Lightspeed/LightSpeedRepository.cs:85-89 | Removes exactly that page row. Its revisions and all other tables are untouched. |
| Operations.DeletePageContent | src/Roadkill.Core/Database/Repositories/Lightspeed/LightSpeedRepository.cs:91-95 | Removes exactly that revision row. Nothing else changes. |
| Operations.DeleteUser | src/Roadkill.Core/Database/Repositories/Lightspeed/LightSpeedRepository.cs:97-101 | Removes exactly that user row. Nothing else changes. |
| Operations.DeleteAllPages | src/Roadkill.Core/Database/Repositories/Lightspeed/LightSpeedRepository.cs:103-106 | Empties the page table. Nothing else changes. |
| Operations.DeleteAllPageContent | src/Roadkill.Core/Database/Repositories/Lightspeed/LightSpeedRepository.cs:108-111 | Empties the revision table. Nothing else changes. |
| Operations.DeleteAllUsers | src/Roadkill.Core/Database/Repositories/Lightspeed/LightSpeedRepository.cs:113-116 | Empties the user table. Nothing else changes. |
| Operations.SaveSitePreferences | src/Roadkill.Core/Database/Repositories/Lightspeed/LightSpeedRepository.cs:141-159 | Appends a fresh row when there is no row or the first row's id is empty. Otherwise it stamps version and JSON on the first row and leaves the rest. Reading back yields the saved JSON unless an empty-id first row shadows it. |
| Operations.SaveOrUpdatePage | src/Roadkill.Core/Database/Repositories/Lightspeed/LightSpeedRepository.cs:417-431 | Inserts the page under its id when absent. Otherwise it overwrites the stored row, keeping its key and ModifiedOn. Other rows and tables are unchanged. |
| Operations.AddNewPage | src/Roadkill.Core/Database/Repositories/Lightspeed/LightSpeedRepository.cs:433-457 | Adds the page under the store-assigned key and a revision numbered 1 pointing at it. Returns that revision with the caller's page object. Nothing else changes. |
| Operations.AddNewPageContentVersion | src/Roadkill.Core/Database/Repositories/Lightspeed/LightSpeedRepository.cs:459-485 | With no page of that id: returns null and changes nothing. Otherwise it adds one revision with the caller's number and returns it. Existing rows are kept. |
| Operations.UpdatePageContent | src/Roadkill.Core/Database/Repositories/Lightspeed/LightSpeedRepository.cs:503-511 | An absent revision changes nothing. Otherwise text, editor, edit time and version number come from the caller, and id and page link are kept. Other rows are unchanged. |
| Operations.SaveOrUpdateUser | src/Roadkill.Core/Database/Repositories/Lightspeed/LightSpeedRepository.cs:487-501 | Inserts the user under its id when absent. Otherwise the stored row becomes the caller's user with the stored key. Other rows and tables are unchanged. |
| Invariants.SaveOrUpdatePageKeepsInvariants | src/Roadkill.Core/Database/Repositories/Lightspeed/LightSpeedRepository.cs:417-431 | Rows stay under their own ids, and revisions keep pointing at stored pages. |
| Invariants.AddNewPageKeepsInvariants | src/Roadkill.Core/Database/Repositories/Lightspeed/LightSpeedRepository.cs:433-457 | Rows stay under their own ids, and revisions keep pointing at stored pages. |
| Invariants.AddNewPageContentVersionKeepsInvariants | src/Roadkill.Core/Database/Repositories/Lightspeed/LightSpeedRepository.cs:459-485 | Rows stay under their own ids, and revisions keep pointing at stored pages. |
| Invariants.UpdatePageContentKeepsInvariants | src/Roadkill.Core/Database/Repositories/Lightspeed/LightSpeedRepository.cs:503-511 | Rows stay under their own ids, and revisions keep pointing at stored pages. |
| Invariants.SaveOrUpdateUserKeepsInvariants | src/Roadkill.Core/Database/Repositories/Lightspeed/LightSpeedRepository.cs:487-501 | Rows stay under their own ids, and revisions keep pointing at stored pages. |
| Invariants.DeletePageKeepsKeyed | src/Roadkill.Core/Database/Repositories/Lightspeed/LightSpeedRepository.cs:85-89 | Rows stay under their own ids. |
| Invariants.DeletePageContentKeepsInvariants | src/Roadkill.Core/Database/Repositories/Lightspeed/LightSpeedRepository.cs:91-95 | Rows stay under their own ids, and revisions keep pointing at stored pages. |
| Invariants.DeleteUserKeepsInvariants | src/Roadkill.Core/Database/Repositories/Lightspeed/LightSpeedRepository.cs:97-101 | Rows stay under their own ids, and revisions keep pointing at stored pages. |
| Invariants.DeleteAllKeepsInvariants | src/Roadkill.Core/Database/Repositories/Lightspeed/LightSpeedRepository.cs:103-116 | The delete-all operations keep rows under their own ids. Emptying the revision table, or the user table, leaves every revision pointing at a stored page. |
| Invariants.DeletePageOrphansRevisions | src/Roadkill.Core/Database/Repositories/Lightspeed/LightSpeedRepository.cs:85-89 | With cascading deletes off, deleting a page that has a revision leaves that revision stored and pointing at no page. |
| Invariants.SaveSitePreferencesKeepsSingleRow | src/Roadkill.Core/Database/Repositories/Lightspeed/LightSpeedRepository.cs:141-159 | At most one row, with a real id, stays so after a save. |
| Properties.PageLookupIsByKey | src/Roadkill.Core/Database/Repositories/Lightspeed/LightSpeedRepository.cs:255-259 | With rows under their own ids, the page lookup by id is the row stored under that key. |
| Properties.ContentLookupIsByKey | src/Roadkill.Core/Database/Repositories/Lightspeed/LightSpeedRepository.cs:309-313 | With rows under their own ids, the revision lookup by id is the row stored under that key. |
| Properties.UserLookupIsByKey | src/Roadkill.Core/Database/Repositories/Lightspeed/LightSpeedRepository.cs:363-367 | With rows under their own ids, the user lookup is the row under that key exactly when its activation state matches. |
| Properties.SaveOrUpdatePageRowCount | src/Roadkill.Core/Database/Repositories/Lightspeed/LightSpeedRepository.cs:417-431 | An upsert adds one page row exactly when no row had the page's id. |
| Properties.SavedPageIsFound | src/Roadkill.Core/Database/Repositories/Lightspeed/LightSpeedRepository.cs:417-431 | A saved page is found by its id. It is unchanged when inserted, and carries the stored ModifiedOn when updated. |
| Properties.UpdateDropsModifiedOn | src/Roadkill.Core/Database/Repositories/Lightspeed/LightSpeedRepository.cs:528-536 | An update whose ModifiedOn differs from the stored one is not read back as the caller's page. |
| Properties.AddNewPageRowCounts | src/Roadkill.Core/Database/Repositories/Lightspeed/LightSpeedRepository.cs:433-457 | A new page adds exactly one page row and one revision row. |
| Properties.AddedPageIsFound | src/Roadkill.Core/Database/Repositories/Lightspeed/LightSpeedRepository.cs:433-457 | The added page is found under its new key, and its only revision is the version-1 content. That revision is its latest content. The returned revision carries the caller's page object. |
| Properties.NewerRevisionIsLatest | src/Roadkill.Core/Database/Repositories/Lightspeed/LightSpeedRepository.cs:118-122 | A revision appended with an edit time later than all earlier ones of its page becomes that page's latest content. It is mapped with the stored page. |
| Properties.VersionNumbersAreNotEnforced | src/Roadkill.Core/Database/Repositories/Lightspeed/LightSpeedRepository.cs:459-485 | Appending with a version number the page already has leaves two revisions of that page with the same number. |
| Properties.UpdatedContentIsFound | src/Roadkill.Core/Database/Repositories/Lightspeed/LightSpeedRepository.cs:503-511 | After an in-place update, the lookup by id yields the caller's revision with the page it was stored under. |
| Properties.SaveOrUpdateUserRowCount | src/Roadkill.Core/Database/Repositories/Lightspeed/LightSpeedRepository.cs:487-501 | An upsert adds one user row exactly when no row had the user's id. |
| Properties.SecondEmptyIdUserReplacesFirst | src/Roadkill.Core/Database/Repositories/Lightspeed/LightSpeedRepository.cs:487-501 | Under the model's insert-under-caller-id choice, saving two new users that both have the empty Guid leaves only the second. |
| Properties.SavedUserIsFound | src/Roadkill.Core/Database/Repositories/Lightspeed/LightSpeedRepository.cs:487-501 | A saved user is found with every field as saved, by id and its own activation state. It is not found with the other state. |
| Properties.RepeatedSavesKeepOneRow | src/Roadkill.Core/Database/Repositories/Lightspeed/LightSpeedRepository.cs:124-159 | From no row or one keyed row, any non-empty series of saves leaves exactly one row, and reading yields the last JSON saved. |
| Properties.SavesNeverAddRows | src/Roadkill.Core/Database/Repositories/Lightspeed/LightSpeedRepository.cs:141-159 | Once the first row has a real id, no series of saves adds a row or changes that row's id. |
| Properties.EmptyIdFirstRowShadowsSaves | src/Roadkill.Core/Database/Repositories/Lightspeed/LightSpeedRepository.cs:124-159 | When the first row has an empty id, any series of saves appends one row per save. The first row stays first and unchanged, so reading keeps returning what it returned before the saves. |
| Properties.EmptyStoreReadsDefault | src/Roadkill.Core/Database/Repositories/Lightspeed/LightSpeedRepository.cs:124-159 | An empty table reads as the defaults. The first save from it reads back as the saved JSON. |
| Properties.AddThenSaveOnEmptyStore | src/Roadkill.Tests/Unit/Mvc/WebApi/PageControllerTests.cs:78-88 | Adding a page to an empty store and saving it again under its new key leaves one page row (the saved page) and its first revision. |
| Properties.NewerRevisionOfOnlyPage | src/Roadkill.Core/Database/Repositories/Lightspeed/LightSpeedRepository.cs:459-485 | With one page and one earlier revision, appending a newer revision keeps the page and makes the new revision its latest. |
| Properties.EditScenario | src/Roadkill.Tests/Unit/Mvc/WebApi/PageControllerTests.cs:76-96 | Add a page, save it under its new key with a new title, then append newer content. One page remains, with the new title, and its latest content is the new text. |
| TagSearch.TagSearchIgnoresCase | src/Roadkill.Core/Database/Repositories/Lightspeed/LightSpeedRepository.cs:279 | Tags that agree once lower-cased find the same pages. |
| TagSearch.UpperCaseTagFindsSamePages | src/Roadkill.Core/Database/Repositories/Lightspeed/LightSpeedRepository.cs:279 | Searching with the upper-cased tag finds the same pages. |
| TagSearch.TagOccurrenceIsFound | src/Roadkill.Core/Database/Repositories/Lightspeed/LightSpeedRepository.cs:279 | A page is found by any tag whose lower-cased form occurs in the page's lower-cased tags. |
| TagSearch.TaggedPageIsFoundByFirstTag | src/Roadkill.Tests/Unit/Mvc/WebApi/PageControllerTests.cs:80 | A page tagged "tag1, tag2" is found by "tag1" and by "TAG1". |
| TagSearch.TaggedPageIsFoundBySecondTag | src/Roadkill.Tests/Unit/Mvc/WebApi/PageControllerTests.cs:80 | A page tagged "tag1, tag2" is found by "Tag2". |
| Repository.LightSpeedRepository.constructor | src/Roadkill.Core/Database/Repositories/Lightspeed/LightSpeedRepository.cs:80-83 | The repository starts over the given database with nothing pending. |
| Repository.LightSpeedRepository.DeletePage | src/Roadkill.Core/Database/Repositories/Lightspeed/LightSpeedRepository.cs:85-89 | Has the effect of Operations.DeletePage, keeps rows under their ids, and leaves the database as it was. |
| Repository.LightSpeedRepository.DeletePageContent | src/Roadkill.Core/Database/Repositories/Lightspeed/LightSpeedRepository.cs:91-95 | Has the effect of Operations.DeletePageContent, keeps rows under their ids, and leaves the database as it was. |
| Repository.LightSpeedRepository.DeleteUser | src/Roadkill.Core/Database/Repositories/Lightspeed/LightSpeedRepository.cs:97-101 | Has the effect of Operations.DeleteUser, keeps rows under their ids, and leaves the database as it was. |
| Repository.LightSpeedRepository.DeleteAllPages | src/Roadkill.Core/Database/Repositories/Lightspeed/LightSpeedRepository.cs:103-106 | Has the effect of Operations.DeleteAllPages, and leaves the database as it was. |
| Repository.LightSpeedRepository.DeleteAllPageContent | src/Roadkill.Core/Database/Repositories/Lightspeed/LightSpeedRepository.cs:108-111 | Has the effect of Operations.DeleteAllPageContent, and leaves the database as it was. |
| Repository.LightSpeedRepository.DeleteAllUsers | src/Roadkill.Core/Database/Repositories/Lightspeed/LightSpeedRepository.cs:113-116 | Has the effect of Operations.DeleteAllUsers, and leaves the database as it was. |
| Repository.LightSpeedRepository.SaveSitePreferences | src/Roadkill.Core/Database/Repositories/Lightspeed/LightSpeedRepository.cs:141-159 | Has the effect of Operations.SaveSitePreferences and commits. |
| Repository.LightSpeedRepository.SaveOrUpdatePage | src/Roadkill.Core/Database/Repositories/Lightspeed/LightSpeedRepository.cs:417-431 | Has the effect of Operations.SaveOrUpdatePage, keeps rows under their ids, and commits. |
| Repository.LightSpeedRepository.AddNewPage | src/Roadkill.Core/Database/Repositories/Lightspeed/LightSpeedRepository.cs:433-457 | Has the effect and returns the value of Operations.AddNewPage, and commits. |
| Repository.LightSpeedRepository.AddNewPageContentVersion | src/Roadkill.Core/Database/Repositories/Lightspeed/LightSpeedRepository.cs:459-485 | Has the effect and returns the value of Operations.AddNewPageContentVersion. It commits only when the page exists. |
| Repository.LightSpeedRepository.SaveOrUpdateUser | src/Roadkill.Core/Database/Repositories/Lightspeed/LightSpeedRepository.cs:487-501 | Has the effect of Operations.SaveOrUpdateUser, keeps rows under their ids, and commits. |
| Repository.LightSpeedRepository.UpdatePageContent | src/Roadkill.Core/Database/Repositories/Lightspeed/LightSpeedRepository.cs:503-511 | Has the effect of Operations.UpdatePageContent. It commits only when the revision exists. |
| Repository.LightSpeedRepository.Dispose | src/Roadkill.Core/Database/Repositories/Lightspeed/LightSpeedRepository.cs:411-415 | Commits whatever is pending, such as deletes, without changing the tables. |

## Left out

- Startup, Install, Test and Upgrade: they configure the LightSpeed context and open database connections (I/O). Upgrade's final preferences save is the modelled SaveSitePreferences.
- The Postgres branch of FindPagesContainingTag (lines 281-293): it runs raw SQL `LIKE` against the database.
- JSON serialization of the site preferences: a loaded instance is identified by the JSON text it came from. The assembly version is a parameter.
- Logging (`Log.Warn`, `Log.Error`), and the service-locator lookups of the context and unit of work with their null checks.
- `Guid.NewGuid` and the key the store assigns to a new page row: these become parameters with a freshness precondition.
- Operations.SaveOrUpdatePage, Operations.SaveOrUpdateUser: when no row has the caller's id, the new row is stored under that id, even when it is 0 or the empty Guid. The repository adds the mapped entity without resetting its id, and whether the ORM keeps that id or assigns a new one is not visible in the repository. `AddNewPage`, which resets the id to 0, is modelled with a store-assigned key. The insert cases of `Properties.SavedPageIsFound`, `Properties.SavedUserIsFound` and `Properties.SaveOrUpdatePageRowCount` rest on this choice. One consequence: saving the page object that `AddNewPage` returns, which still has the caller's id, inserts a second page row rather than updating the stored one. On the user side, a second new user saved with the empty Guid replaces the first (`Properties.SecondEmptyIdUserReplacesFirst`), whereas the context's `IdentityMethod.GuidComb` (line 168) suggests the store would give each new user its own Guid.
- Operations.SaveSitePreferences, Properties.EmptyIdFirstRowShadowsSaves, Properties.RepeatedSavesKeepOneRow: two assumptions about the store are built in. (a) A new preferences row gets a non-empty id (`newId != EmptyGuid`): the repository creates the entity at line 147 and adds it at line 150 without setting its Id, so the id comes from the store, and only the context's `IdentityMethod.GuidComb` (line 168) supports it being non-empty. (b) The store returns preferences rows in insertion order: `FirstOrDefault` at lines 126 and 143 reads the first row, and a new row is appended last, so an empty-id first row stays first. The repository fixes neither. `RepeatedSavesKeepOneRow` rests on (a): with an empty new id, a second save from an empty table would append another row. `EmptyIdFirstRowShadowsSaves` and the empty-id clause of `SaveSitePreferences` rest on (b): if the store returned the newest row first, the next save would update that row instead.
- Entities: only the fields named here are modelled. Any other field of the page, revision or user entities is not represented, and an update would keep it.
- Null is not modelled: strings and the page, user and revision arguments are never null. What the database query at line 279 does with NULL tags or a null search tag is not modelled.
- Text.ToLower: the query at line 279 is translated to SQL, so the lower-casing and the match happen in the database (`LOWER`, `LIKE`). The model maps only ASCII letters and uses plain substring containment. The column's collation is not modelled, and neither is a `%` or `_` inside the tag.
- Result order: on the keyed tables (pages, revisions, users), `Where` results are sets and `FirstOrDefault` returns an unspecified matching row. The order and duplicates of those LINQ results, including those of `AllTags`, are not modelled. The preferences rows are the exception: they are a sequence read in insertion order (next line).
- Entity objects are values: the model does not capture aliasing between the caller's objects and the tracked entities, beyond which fields each operation copies.
- Repository.LightSpeedRepository.DeletePage, DeletePageContent, DeleteUser: require the row to exist. The repository would pass a null entity to `Remove` for a missing id, and that behaviour is not modelled.
- Queries read the unit of work's view (`View()`), not the committed database: pending deletes are treated as visible to later reads.
- The static AutoMapper configuration: its effect is that an entity and its domain object carry the same field values, which the shared datatypes express.
