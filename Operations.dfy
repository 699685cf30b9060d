/**
 * The effect of each mutating repository operation on the tables, as a
 * function from the tables before to the tables after (and the value the
 * operation returns). The store's id generation (Guid.NewGuid, the identity
 * a new page row receives) is passed in as a fresh id.
 */
module Operations {
  import opened Entities
  import opened Store
  import opened Mapping
  import Queries

  /** A fresh `new PageContent()`: empty id, no page, default fields. */
  const NewPageContent := PageContent(EmptyGuid, None, "", "", 0, 0)

  // ---- Deletes ----

  /** Removes the page row; its revisions stay (cascading deletes are off). */
  function DeletePage(t: Tables, page: Page): (r: Tables)
    requires page.id in t.pages
    ensures r.pages.Keys == t.pages.Keys - {page.id} && |r.pages| == |t.pages| - 1
    ensures forall id :: id in r.pages ==> r.pages[id] == t.pages[id]
    ensures r.contents == t.contents && r.users == t.users && r.preferences == t.preferences
  {
    t.(pages := t.pages - {page.id})
  }

  function DeletePageContent(t: Tables, content: PageContent): (r: Tables)
    requires content.id in t.contents
    ensures r.contents.Keys == t.contents.Keys - {content.id} && |r.contents| == |t.contents| - 1
    ensures forall id :: id in r.contents ==> r.contents[id] == t.contents[id]
    ensures r.pages == t.pages && r.users == t.users && r.preferences == t.preferences
  {
    t.(contents := t.contents - {content.id})
  }

  function DeleteUser(t: Tables, user: User): (r: Tables)
    requires user.id in t.users
    ensures r.users.Keys == t.users.Keys - {user.id} && |r.users| == |t.users| - 1
    ensures forall id :: id in r.users ==> r.users[id] == t.users[id]
    ensures r.pages == t.pages && r.contents == t.contents && r.preferences == t.preferences
  {
    t.(users := t.users - {user.id})
  }

  function DeleteAllPages(t: Tables): (r: Tables)
    ensures |r.pages| == 0
    ensures r.contents == t.contents && r.users == t.users && r.preferences == t.preferences
  {
    t.(pages := map[])
  }

  function DeleteAllPageContent(t: Tables): (r: Tables)
    ensures |r.contents| == 0
    ensures r.pages == t.pages && r.users == t.users && r.preferences == t.preferences
  {
    t.(contents := map[])
  }

  function DeleteAllUsers(t: Tables): (r: Tables)
    ensures |r.users| == 0
    ensures r.pages == t.pages && r.contents == t.contents && r.preferences == t.preferences
  {
    t.(users := map[])
  }

  // ---- Site preferences ----

  /**
   * Stamps the application version and the serialized settings on the first
   * row, or adds a new row (with the store-assigned `newId`) when there is no
   * row or the first row's id is empty.
   */
  function SaveSitePreferences(t: Tables, json: string, assemblyVersion: string, newId: Guid): (r: Tables)
    requires newId != EmptyGuid
    ensures |t.preferences| == 0 || t.preferences[0].id == EmptyGuid ==>
      r.preferences == t.preferences + [SitePreferencesEntity(newId, assemblyVersion, json)]
    ensures |t.preferences| > 0 && t.preferences[0].id != EmptyGuid ==>
      && |r.preferences| == |t.preferences|
      && r.preferences[0] == SitePreferencesEntity(t.preferences[0].id, assemblyVersion, json)
      && r.preferences[1..] == t.preferences[1..]
    ensures |t.preferences| == 0 || t.preferences[0].id != EmptyGuid ==>
      Queries.GetSitePreferences(r) == LoadedFromJson(json)
    ensures r.pages == t.pages && r.contents == t.contents && r.users == t.users
  {
    if |t.preferences| == 0 || t.preferences[0].id == EmptyGuid then
      var entity := SitePreferencesEntity(newId, assemblyVersion, json);
      t.(preferences := t.preferences + [entity])
    else
      var entity := t.preferences[0].(version := assemblyVersion, content := json);
      t.(preferences := t.preferences[0 := entity])
  }

  // ---- Pages and their revisions ----

  /** Insert when no row has the page's id, otherwise overwrite the fields MapPageToEntity copies. */
  function SaveOrUpdatePage(t: Tables, page: Page): (r: Tables)
    ensures r.pages.Keys == t.pages.Keys + {page.id}
    ensures page.id !in t.pages ==> r.pages[page.id] == page
    ensures page.id in t.pages ==>
      r.pages[page.id] == page.(id := t.pages[page.id].id, modifiedOn := t.pages[page.id].modifiedOn)
    ensures forall id :: id in t.pages && id != page.id ==> r.pages[id] == t.pages[id]
    ensures r.contents == t.contents && r.users == t.users && r.preferences == t.preferences
  {
    if page.id !in t.pages then
      var pages' := t.pages[page.id := page];
      assert pages'.Keys == t.pages.Keys + {page.id};
      t.(pages := pages')
    else
      var pages' := t.pages[page.id := MapPageToEntity(page, t.pages[page.id])];
      assert pages'.Keys == t.pages.Keys;
      t.(pages := pages')
  }

  /**
   * Inserts the page (its id reset to 0, so the store assigns `newPageId`)
   * and its first revision, numbered 1. The returned content carries the
   * caller's page object, whose id is not updated.
   */
  function AddNewPage(t: Tables, page: Page, text: string, editedBy: string, editedOn: DateTime,
                      newPageId: int, contentId: Guid): (r: (Tables, PageContent))
    requires newPageId !in t.pages && contentId !in t.contents
    ensures r.0.pages.Keys == t.pages.Keys + {newPageId}
    ensures r.0.pages[newPageId] == page.(id := newPageId)
    ensures forall id :: id in t.pages ==> r.0.pages[id] == t.pages[id]
    ensures r.0.contents.Keys == t.contents.Keys + {contentId}
    ensures r.0.contents[contentId] == PageContentEntity(contentId, newPageId, text, editedBy, editedOn, 1)
    ensures forall id :: id in t.contents ==> r.0.contents[id] == t.contents[id]
    ensures r.0.users == t.users && r.0.preferences == t.preferences
    ensures r.1 == PageContent(contentId, Some(page), text, editedBy, editedOn, 1)
  {
    var pageEntity := page.(id := 0);
    var stored := pageEntity.(id := newPageId);
    var contentEntity := PageContentEntity(contentId, stored.id, text, editedBy, editedOn, 1);
    var pages' := t.pages[newPageId := stored];
    var contents' := t.contents[contentId := contentEntity];
    assert pages'.Keys == t.pages.Keys + {newPageId};
    assert contents'.Keys == t.contents.Keys + {contentId};
    var t' := t.(pages := pages', contents := contents');
    (t', MapEntityToPageContent(contentEntity, NewPageContent.(page := Some(page))))
  }

  /**
   * Appends a revision numbered `version` (the caller's number, not derived
   * from the existing ones) to an existing page; None and no change when no
   * page has that id.
   */
  function AddNewPageContentVersion(t: Tables, page: Page, text: string, editedBy: string, editedOn: DateTime,
                                    version: int, contentId: Guid): (r: (Tables, Option<PageContent>))
    requires contentId !in t.contents
    ensures page.id !in t.pages ==> r.0 == t && r.1 == None
    ensures page.id in t.pages ==>
      && r.0.contents.Keys == t.contents.Keys + {contentId}
      && r.0.contents[contentId] == PageContentEntity(contentId, page.id, text, editedBy, editedOn, version)
      && r.1 == Some(PageContent(contentId, Some(page), text, editedBy, editedOn, version))
    ensures forall id :: id in t.contents ==> id in r.0.contents && r.0.contents[id] == t.contents[id]
    ensures r.0.pages == t.pages && r.0.users == t.users && r.0.preferences == t.preferences
  {
    if page.id in t.pages then
      var contentEntity := PageContentEntity(contentId, page.id, text, editedBy, editedOn, version);
      var t' := t.(contents := t.contents[contentId := contentEntity]);
      (t', Some(MapEntityToPageContent(contentEntity, NewPageContent.(page := Some(page)))))
    else
      (t, None)
  }

  /** Overwrites text, editor, edit time and version number of an existing revision; no-op when absent. */
  function UpdatePageContent(t: Tables, content: PageContent): (r: Tables)
    ensures content.id !in t.contents ==> r == t
    ensures r.contents.Keys == t.contents.Keys
    ensures content.id in t.contents ==>
      && r.contents[content.id].id == t.contents[content.id].id
      && r.contents[content.id].pageId == t.contents[content.id].pageId
      && r.contents[content.id].text == content.text
      && r.contents[content.id].editedBy == content.editedBy
      && r.contents[content.id].editedOn == content.editedOn
      && r.contents[content.id].versionNumber == content.versionNumber
    ensures forall id :: id in t.contents && id != content.id ==> r.contents[id] == t.contents[id]
    ensures r.pages == t.pages && r.users == t.users && r.preferences == t.preferences
  {
    if content.id in t.contents then
      t.(contents := t.contents[content.id := MapPageContentToEntity(content, t.contents[content.id])])
    else
      t
  }

  // ---- Users ----

  /** Insert when no row has the user's id, otherwise overwrite the eleven fields MapUserToEntity copies. */
  function SaveOrUpdateUser(t: Tables, user: User): (r: Tables)
    ensures r.users.Keys == t.users.Keys + {user.id}
    ensures user.id !in t.users ==> r.users[user.id] == user
    ensures user.id in t.users ==> r.users[user.id] == user.(id := t.users[user.id].id)
    ensures forall id :: id in t.users && id != user.id ==> r.users[id] == t.users[id]
    ensures r.pages == t.pages && r.contents == t.contents && r.preferences == t.preferences
  {
    if user.id !in t.users then
      var users' := t.users[user.id := user];
      assert users'.Keys == t.users.Keys + {user.id};
      t.(users := users')
    else
      var users' := t.users[user.id := MapUserToEntity(user, t.users[user.id])];
      assert users'.Keys == t.users.Keys;
      t.(users := users')
  }
}
