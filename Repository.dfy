/**
 * The repository object over one unit of work. The unit of work's view of
 * the tables lives in the mutable fields `pages`, `contents`, `users` and
 * `preferences`; `committed` is what the database holds, which changes only
 * when the unit of work saves its changes. Each method updates the fields
 * step by step as the repository does and is proved to have the effect the
 * matching transition function in `Operations` gives.
 */
module Repository {
  import opened Entities
  import opened Store
  import Mapping
  import Operations
  import Invariants

  class LightSpeedRepository {
    var pages: map<int, Page>
    var contents: map<Guid, PageContentEntity>
    var users: map<Guid, User>
    var preferences: seq<SitePreferencesEntity>
    var committed: Tables

    /** The unit of work's current view of the tables. */
    function View(): (r: Tables)
      reads this
      ensures r.pages == pages && r.contents == contents && r.users == users && r.preferences == preferences
    {
      Tables(pages, contents, users, preferences)
    }

    /** Every row is stored under its own id. */
    ghost predicate Valid()
      reads this
    {
      Keyed(View())
    }

    /** A repository over a database whose tables are `initial`, with nothing pending. */
    constructor (initial: Tables)
      requires Keyed(initial)
      ensures Valid()
      ensures View() == initial && committed == initial
    {
      pages := initial.pages;
      contents := initial.contents;
      users := initial.users;
      preferences := initial.preferences;
      committed := initial;
    }

    /** The unit of work's SaveChanges: the database now holds the unit of work's view. */
    method SaveChanges()
      modifies this
      ensures View() == old(View()) && committed == View()
    {
      committed := View();
    }

    // ---- Deletes: removed from the unit of work, not saved ----

    method DeletePage(page: Page)
      requires Valid() && page.id in pages
      modifies this
      ensures Valid()
      ensures View() == Operations.DeletePage(old(View()), page)
      ensures committed == old(committed)
    {
      Invariants.DeletePageKeepsKeyed(View(), page);
      pages := pages - {page.id};
    }

    method DeletePageContent(pageContent: PageContent)
      requires Valid() && pageContent.id in contents
      modifies this
      ensures Valid()
      ensures View() == Operations.DeletePageContent(old(View()), pageContent)
      ensures committed == old(committed)
    {
      Invariants.DeletePageContentKeepsInvariants(View(), pageContent);
      contents := contents - {pageContent.id};
    }

    method DeleteUser(user: User)
      requires Valid() && user.id in users
      modifies this
      ensures Valid()
      ensures View() == Operations.DeleteUser(old(View()), user)
      ensures committed == old(committed)
    {
      Invariants.DeleteUserKeepsInvariants(View(), user);
      users := users - {user.id};
    }

    method DeleteAllPages()
      requires Valid()
      modifies this
      ensures Valid()
      ensures View() == Operations.DeleteAllPages(old(View()))
      ensures committed == old(committed)
    {
      Invariants.DeleteAllKeepsInvariants(View());
      pages := map[];
    }

    method DeleteAllPageContent()
      requires Valid()
      modifies this
      ensures Valid()
      ensures View() == Operations.DeleteAllPageContent(old(View()))
      ensures committed == old(committed)
    {
      Invariants.DeleteAllKeepsInvariants(View());
      contents := map[];
    }

    method DeleteAllUsers()
      requires Valid()
      modifies this
      ensures Valid()
      ensures View() == Operations.DeleteAllUsers(old(View()))
      ensures committed == old(committed)
    {
      Invariants.DeleteAllKeepsInvariants(View());
      users := map[];
    }

    // ---- Site preferences ----

    /** Updates the first row, or adds a row with the store-assigned `newId`, then saves. */
    method SaveSitePreferences(json: string, assemblyVersion: string, newId: Guid)
      requires Valid() && newId != EmptyGuid
      modifies this
      ensures Valid()
      ensures View() == Operations.SaveSitePreferences(old(View()), json, assemblyVersion, newId)
      ensures committed == View()
    {
      if |preferences| == 0 || preferences[0].id == EmptyGuid {
        var entity := SitePreferencesEntity(newId, assemblyVersion, json);
        preferences := preferences + [entity];
      } else {
        var entity := preferences[0];
        entity := entity.(version := assemblyVersion);
        entity := entity.(content := json);
        preferences := preferences[0 := entity];
      }
      SaveChanges();
    }

    // ---- Pages and their revisions ----

    /** Adds the page when no row has its id, otherwise copies its fields onto the stored row; then saves. */
    method SaveOrUpdatePage(page: Page)
      requires Valid()
      modifies this
      ensures Valid()
      ensures View() == Operations.SaveOrUpdatePage(old(View()), page)
      ensures committed == View()
    {
      Invariants.SaveOrUpdatePageKeepsInvariants(View(), page);
      if page.id !in pages {
        pages := pages[page.id := page];
      } else {
        var entity := pages[page.id];
        entity := Mapping.MapPageToEntity(page, entity);
        pages := pages[page.id := entity];
      }
      SaveChanges();
    }

    /**
     * Adds the page with its id reset to 0 (the store gives it `newPageId`)
     * and its first revision `contentId`, saves, and returns that revision
     * carrying the caller's page object.
     */
    method AddNewPage(page: Page, text: string, editedBy: string, editedOn: DateTime, newPageId: int, contentId: Guid)
      returns (pageContent: PageContent)
      requires Valid() && newPageId !in pages && contentId !in contents
      modifies this
      ensures Valid()
      ensures (View(), pageContent) ==
        Operations.AddNewPage(old(View()), page, text, editedBy, editedOn, newPageId, contentId)
      ensures committed == View()
    {
      Invariants.AddNewPageKeepsInvariants(View(), page, text, editedBy, editedOn, newPageId, contentId);
      var pageEntity := page.(id := 0);
      pageEntity := pageEntity.(id := newPageId);
      pages := pages[newPageId := pageEntity];
      var pageContentEntity := PageContentEntity(contentId, pageEntity.id, text, editedBy, editedOn, 1);
      contents := contents[contentId := pageContentEntity];
      SaveChanges();
      pageContent := Operations.NewPageContent.(page := Some(page));
      pageContent := Mapping.MapEntityToPageContent(pageContentEntity, pageContent);
    }

    /**
     * Adds revision `contentId`, numbered `version`, to the stored page with
     * the caller's page id and saves; returns None and changes nothing when
     * there is no such page.
     */
    method AddNewPageContentVersion(page: Page, text: string, editedBy: string, editedOn: DateTime,
                                    version: int, contentId: Guid)
      returns (pageContent: Option<PageContent>)
      requires Valid() && contentId !in contents
      modifies this
      ensures Valid()
      ensures (View(), pageContent) ==
        Operations.AddNewPageContentVersion(old(View()), page, text, editedBy, editedOn, version, contentId)
      ensures page.id in old(pages) ==> committed == View()
      ensures page.id !in old(pages) ==> committed == old(committed)
    {
      Invariants.AddNewPageContentVersionKeepsInvariants(View(), page, text, editedBy, editedOn, version, contentId);
      if page.id in pages {
        var pageContentEntity := PageContentEntity(contentId, page.id, text, editedBy, editedOn, version);
        contents := contents[contentId := pageContentEntity];
        SaveChanges();
        var result := Operations.NewPageContent.(page := Some(page));
        result := Mapping.MapEntityToPageContent(pageContentEntity, result);
        pageContent := Some(result);
      } else {
        pageContent := None;
      }
    }

    /** Copies the caller's revision fields onto the stored revision and saves; nothing when it is absent. */
    method UpdatePageContent(content: PageContent)
      requires Valid()
      modifies this
      ensures Valid()
      ensures View() == Operations.UpdatePageContent(old(View()), content)
      ensures content.id in old(contents) ==> committed == View()
      ensures content.id !in old(contents) ==> committed == old(committed)
    {
      Invariants.UpdatePageContentKeepsInvariants(View(), content);
      if content.id in contents {
        var entity := contents[content.id];
        entity := Mapping.MapPageContentToEntity(content, entity);
        contents := contents[content.id := entity];
        SaveChanges();
      }
    }

    // ---- Users ----

    /** Adds the user when no row has its id, otherwise copies its fields onto the stored row; then saves. */
    method SaveOrUpdateUser(user: User)
      requires Valid()
      modifies this
      ensures Valid()
      ensures View() == Operations.SaveOrUpdateUser(old(View()), user)
      ensures committed == View()
    {
      Invariants.SaveOrUpdateUserKeepsInvariants(View(), user);
      if user.id !in users {
        users := users[user.id := user];
      } else {
        var entity := users[user.id];
        entity := Mapping.MapUserToEntity(user, entity);
        users := users[user.id := entity];
      }
      SaveChanges();
    }

    /** Saves whatever the unit of work still holds (such as pending deletes) before it is released. */
    method Dispose()
      modifies this
      ensures View() == old(View()) && committed == View()
    {
      SaveChanges();
    }
  }
}
