/**
 * What the repository's operations promise when read back through its
 * queries: saved rows are found again, the latest revision is the newest
 * one appended, preferences saves round-trip, and the tag search ignores
 * case.
 */
module Properties {
  import opened Entities
  import opened Store
  import opened Queries
  import opened Operations
  import opened Invariants

  // ---- Lookups by key ----

  /** With rows stored under their own ids, the lookup by page id is the row under that key. */
  lemma {:induction false} PageLookupIsByKey(t: Tables, id: int)
    requires Keyed(t)
    ensures GetPageById(t, id) == if id in t.pages then Some(t.pages[id]) else None
  {
  }

  /** The lookup of a revision by id is the row under that key. */
  lemma {:induction false} ContentLookupIsByKey(t: Tables, id: Guid)
    requires Keyed(t)
    ensures GetPageContentById(t, id) == if id in t.contents then Some(ToPageContent(t, t.contents[id])) else None
  {
  }

  /** The lookup of a user by id and activation state is the row under that key, if its state matches. */
  lemma {:induction false} UserLookupIsByKey(t: Tables, id: Guid, isActivated: bool)
    requires Keyed(t)
    ensures GetUserById(t, id, isActivated) ==
      if id in t.users && t.users[id].isActivated == isActivated then Some(t.users[id]) else None
  {
  }

  // ---- Pages ----

  /** An upsert adds a page row exactly when no row had the page's id. */
  lemma SaveOrUpdatePageRowCount(t: Tables, page: Page)
    ensures |SaveOrUpdatePage(t, page).pages| == |t.pages| + (if page.id in t.pages then 0 else 1)
  {
  }

  /**
   * A saved page is found again by its id: unchanged when it was inserted,
   * and with the stored ModifiedOn (not the caller's) when it was updated.
   */
  lemma {:induction false} SavedPageIsFound(t: Tables, page: Page)
    requires Keyed(t)
    ensures GetPageById(SaveOrUpdatePage(t, page), page.id) ==
      Some(if page.id in t.pages then page.(modifiedOn := t.pages[page.id].modifiedOn) else page)
  {
  }

  /** Because ModifiedOn is never copied, an update that changes it is not what a later lookup returns. */
  lemma UpdateDropsModifiedOn(t: Tables, page: Page)
    requires Keyed(t)
    requires page.id in t.pages && page.modifiedOn != t.pages[page.id].modifiedOn
    ensures GetPageById(SaveOrUpdatePage(t, page), page.id) != Some(page)
  {
  }

  /** A new page adds exactly one page row and one revision row. */
  lemma AddNewPageRowCounts(t: Tables, page: Page, text: string, editedBy: string, editedOn: DateTime,
                            newPageId: int, contentId: Guid)
    requires newPageId !in t.pages && contentId !in t.contents
    ensures |AddNewPage(t, page, text, editedBy, editedOn, newPageId, contentId).0.pages| == |t.pages| + 1
    ensures |AddNewPage(t, page, text, editedBy, editedOn, newPageId, contentId).0.contents| == |t.contents| + 1
  {
  }

  /**
   * After AddNewPage the page is found under its new id, its only revision
   * is the version-1 content, and that is its latest content. The returned
   * content still carries the caller's page object with the caller's id.
   */
  lemma {:induction false} AddedPageIsFound(t: Tables, page: Page, text: string, editedBy: string, editedOn: DateTime,
                                            newPageId: int, contentId: Guid)
    requires Keyed(t) && ContentsReferencePages(t)
    requires newPageId !in t.pages && contentId !in t.contents
    ensures var (r, returned) := AddNewPage(t, page, text, editedBy, editedOn, newPageId, contentId);
      && GetPageById(r, newPageId) == Some(page.(id := newPageId))
      && RevisionsOf(r, newPageId) == {contentId}
      && GetLatestPageContent(r, newPageId) == Some(PageContent(contentId, Some(page.(id := newPageId)), text, editedBy, editedOn, 1))
      && returned.page == Some(page)
  {
    var (r, returned) := AddNewPage(t, page, text, editedBy, editedOn, newPageId, contentId);
    AddNewPageKeepsInvariants(t, page, text, editedBy, editedOn, newPageId, contentId);
    PageLookupIsByKey(r, newPageId);
    assert RevisionsOf(r, newPageId) == {contentId};
  }

  // ---- Revisions ----

  /**
   * A revision appended with an edit time later than every earlier revision
   * of its page becomes that page's latest content. The page it carries is
   * the stored page, not the caller's object.
   */
  lemma {:induction false} NewerRevisionIsLatest(t: Tables, page: Page, text: string, editedBy: string, editedOn: DateTime,
                                                 version: int, contentId: Guid)
    requires contentId !in t.contents && page.id in t.pages
    requires forall k :: k in t.contents && t.contents[k].pageId == page.id ==> t.contents[k].editedOn < editedOn
    ensures GetLatestPageContent(AddNewPageContentVersion(t, page, text, editedBy, editedOn, version, contentId).0, page.id)
      == Some(PageContent(contentId, Some(t.pages[page.id]), text, editedBy, editedOn, version))
  {
  }

  /**
   * The repository does not number revisions itself: appending with a
   * version number the page already has leaves two revisions of that page
   * with the same number.
   */
  lemma VersionNumbersAreNotEnforced(t: Tables, page: Page, text: string, editedBy: string, editedOn: DateTime,
                                     existing: Guid, contentId: Guid)
    requires contentId !in t.contents && page.id in t.pages
    requires existing in t.contents && t.contents[existing].pageId == page.id
    ensures var r := AddNewPageContentVersion(t, page, text, editedBy, editedOn, t.contents[existing].versionNumber, contentId).0;
      && existing != contentId
      && existing in r.contents && r.contents[existing].pageId == page.id
      && r.contents[contentId].pageId == page.id
      && r.contents[contentId].versionNumber == r.contents[existing].versionNumber
  {
  }

  /**
   * Updating a revision in place and reading it back by id yields the
   * caller's content, except that its page is the one the revision was
   * stored under.
   */
  lemma {:induction false} UpdatedContentIsFound(t: Tables, content: PageContent)
    requires Keyed(t) && content.id in t.contents
    ensures GetPageContentById(UpdatePageContent(t, content), content.id) ==
      Some(content.(page := ToPageContent(t, t.contents[content.id]).page))
  {
  }

  // ---- Users ----

  /** An upsert adds a user row exactly when no row had the user's id. */
  lemma SaveOrUpdateUserRowCount(t: Tables, user: User)
    ensures |SaveOrUpdateUser(t, user).users| == |t.users| + (if user.id in t.users then 0 else 1)
  {
  }

  /**
   * New users are stored under the caller's id, so a second new user with the
   * empty Guid overwrites the first instead of getting a key of its own.
   */
  lemma SecondEmptyIdUserReplacesFirst(first: User, second: User)
    requires first.id == EmptyGuid && second.id == EmptyGuid
    ensures SaveOrUpdateUser(SaveOrUpdateUser(EmptyTables, first), second).users == map[EmptyGuid := second]
  {
  }

  /** A saved user is found again, with every field as saved, by id and its own activation state. */
  lemma {:induction false} SavedUserIsFound(t: Tables, user: User)
    requires Keyed(t)
    ensures GetUserById(SaveOrUpdateUser(t, user), user.id, user.isActivated) == Some(user)
    ensures GetUserById(SaveOrUpdateUser(t, user), user.id, !user.isActivated) == None
  {
    SaveOrUpdateUserKeepsInvariants(t, user);
    UserLookupIsByKey(SaveOrUpdateUser(t, user), user.id, user.isActivated);
    UserLookupIsByKey(SaveOrUpdateUser(t, user), user.id, !user.isActivated);
  }

  // ---- Site preferences ----

  datatype PreferencesSave = PreferencesSave(json: string, assemblyVersion: string, newId: Guid)

  /** Saving preferences once per element of `saves`, in order. */
  function SaveAll(t: Tables, saves: seq<PreferencesSave>): (r: Tables)
    requires forall i :: 0 <= i < |saves| ==> saves[i].newId != EmptyGuid
    ensures r.pages == t.pages && r.contents == t.contents && r.users == t.users
    decreases |saves|
  {
    if saves == [] then t
    else SaveAll(SaveSitePreferences(t, saves[0].json, saves[0].assemblyVersion, saves[0].newId), saves[1..])
  }

  /**
   * From an empty table or a single keyed row, any non-empty series of saves
   * leaves exactly one row, and reading the preferences yields the last JSON
   * saved.
   */
  lemma {:induction false} RepeatedSavesKeepOneRow(t: Tables, saves: seq<PreferencesSave>)
    requires forall i :: 0 <= i < |saves| ==> saves[i].newId != EmptyGuid
    requires SinglePreferencesRow(t) && saves != []
    ensures SinglePreferencesRow(SaveAll(t, saves)) && |SaveAll(t, saves).preferences| == 1
    ensures GetSitePreferences(SaveAll(t, saves)) == LoadedFromJson(saves[|saves| - 1].json)
    decreases |saves|
  {
    var next := SaveSitePreferences(t, saves[0].json, saves[0].assemblyVersion, saves[0].newId);
    SaveSitePreferencesKeepsSingleRow(t, saves[0].json, saves[0].assemblyVersion, saves[0].newId);
    if |saves| > 1 {
      RepeatedSavesKeepOneRow(next, saves[1..]);
    }
  }

  /** Once the first row has a real id, no save ever adds a row, and that row keeps its id. */
  lemma {:induction false} SavesNeverAddRows(t: Tables, saves: seq<PreferencesSave>)
    requires forall i :: 0 <= i < |saves| ==> saves[i].newId != EmptyGuid
    requires |t.preferences| > 0 && t.preferences[0].id != EmptyGuid
    ensures |SaveAll(t, saves).preferences| == |t.preferences|
    ensures SaveAll(t, saves).preferences[0].id == t.preferences[0].id
    decreases |saves|
  {
    if saves != [] {
      var next := SaveSitePreferences(t, saves[0].json, saves[0].assemblyVersion, saves[0].newId);
      SavesNeverAddRows(next, saves[1..]);
    }
  }

  /**
   * A first row with an empty id makes every save append a row, while the
   * lookup keeps reading that first row.
   */
  lemma {:induction false} EmptyIdFirstRowShadowsSaves(t: Tables, saves: seq<PreferencesSave>)
    requires forall i :: 0 <= i < |saves| ==> saves[i].newId != EmptyGuid
    requires |t.preferences| > 0 && t.preferences[0].id == EmptyGuid
    ensures |SaveAll(t, saves).preferences| == |t.preferences| + |saves|
    ensures SaveAll(t, saves).preferences[0] == t.preferences[0]
    ensures GetSitePreferences(SaveAll(t, saves)) == GetSitePreferences(t)
    decreases |saves|
  {
    if saves != [] {
      var next := SaveSitePreferences(t, saves[0].json, saves[0].assemblyVersion, saves[0].newId);
      EmptyIdFirstRowShadowsSaves(next, saves[1..]);
    }
  }

  /** Reading never stores the default: an empty table reads as the default before and after the read. */
  lemma EmptyStoreReadsDefault()
    ensures GetSitePreferences(EmptyTables) == DefaultPreferences
    ensures forall json, version, newId: Guid :: newId != EmptyGuid ==>
      GetSitePreferences(SaveSitePreferences(EmptyTables, json, version, newId)) == LoadedFromJson(json)
  {
  }

  // ---- The page controller's edit scenario ----

  /** The tables after adding a page to an empty store and saving it again under its new id. */
  lemma AddThenSaveOnEmptyStore(page: Page, renamed: Page, text: string, editedBy: string, editedOn: DateTime,
                                pageId: int, contentId: Guid)
    requires renamed.id == pageId && renamed.modifiedOn == page.modifiedOn
    ensures SaveOrUpdatePage(AddNewPage(EmptyTables, page, text, editedBy, editedOn, pageId, contentId).0, renamed)
      == Tables(map[pageId := renamed], map[contentId := PageContentEntity(contentId, pageId, text, editedBy, editedOn, 1)], map[], [])
  {
  }

  /**
   * Appending a newer revision to a store holding one page and one earlier
   * revision of it: the page is unchanged and the new revision is its latest.
   */
  lemma {:induction false} NewerRevisionOfOnlyPage(page: Page, first: PageContentEntity, text: string, editedBy: string,
                                                   editedOn: DateTime, version: int, contentId: Guid)
    requires first.pageId == page.id && first.editedOn < editedOn && first.id != contentId
    ensures var edited := AddNewPageContentVersion(Tables(map[page.id := page], map[first.id := first], map[], []),
                                                   page, text, editedBy, editedOn, version, contentId).0;
      && |AllPages(edited)| == 1
      && GetPageById(edited, page.id) == Some(page)
      && GetLatestPageContent(edited, page.id) == Some(PageContent(contentId, Some(page), text, editedBy, editedOn, version))
  {
  }

  /**
   * Add a page with its first content on an empty store, save it again
   * under its new id with another title, then append a newer revision: one
   * page remains, it has the new title, and its latest content is the new
   * text.
   */
  lemma {:induction false} EditScenario(page: Page, newTitle: string, text1: string, text2: string, editedBy: string,
                                        editedOn1: DateTime, editedOn2: DateTime, version: int,
                                        pageId: int, contentId1: Guid, contentId2: Guid)
    requires editedOn1 < editedOn2 && contentId1 != contentId2
    ensures
      var added := AddNewPage(EmptyTables, page, text1, editedBy, editedOn1, pageId, contentId1).0;
      var renamed := page.(id := pageId, title := newTitle);
      var edited := AddNewPageContentVersion(SaveOrUpdatePage(added, renamed), renamed, text2, editedBy, editedOn2, version, contentId2).0;
      && |AllPages(edited)| == 1
      && GetPageById(edited, pageId) == Some(renamed)
      && GetLatestPageContent(edited, pageId) == Some(PageContent(contentId2, Some(renamed), text2, editedBy, editedOn2, version))
  {
    var renamed := page.(id := pageId, title := newTitle);
    var first := PageContentEntity(contentId1, pageId, text1, editedBy, editedOn1, 1);
    AddThenSaveOnEmptyStore(page, renamed, text1, editedBy, editedOn1, pageId, contentId1);
    NewerRevisionOfOnlyPage(renamed, first, text2, editedBy, editedOn2, version, contentId2);
  }
}
