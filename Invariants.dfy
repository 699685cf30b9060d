/**
 * Which table invariants each operation keeps. Every operation keeps rows
 * stored under their own ids; every operation except deleting pages keeps
 * revisions pointing at stored pages (cascading deletes are switched off);
 * saving preferences keeps the singleton shape of that table.
 */
module Invariants {
  import opened Entities
  import opened Store
  import opened Operations

  lemma SaveOrUpdatePageKeepsInvariants(t: Tables, page: Page)
    ensures Keyed(t) ==> Keyed(SaveOrUpdatePage(t, page))
    ensures ContentsReferencePages(t) ==> ContentsReferencePages(SaveOrUpdatePage(t, page))
  {
  }

  lemma AddNewPageKeepsInvariants(t: Tables, page: Page, text: string, editedBy: string, editedOn: DateTime,
                                  newPageId: int, contentId: Guid)
    requires newPageId !in t.pages && contentId !in t.contents
    ensures Keyed(t) ==> Keyed(AddNewPage(t, page, text, editedBy, editedOn, newPageId, contentId).0)
    ensures ContentsReferencePages(t) ==> ContentsReferencePages(AddNewPage(t, page, text, editedBy, editedOn, newPageId, contentId).0)
  {
  }

  lemma AddNewPageContentVersionKeepsInvariants(t: Tables, page: Page, text: string, editedBy: string, editedOn: DateTime,
                                                version: int, contentId: Guid)
    requires contentId !in t.contents
    ensures Keyed(t) ==> Keyed(AddNewPageContentVersion(t, page, text, editedBy, editedOn, version, contentId).0)
    ensures ContentsReferencePages(t) ==> ContentsReferencePages(AddNewPageContentVersion(t, page, text, editedBy, editedOn, version, contentId).0)
  {
  }

  lemma UpdatePageContentKeepsInvariants(t: Tables, content: PageContent)
    ensures Keyed(t) ==> Keyed(UpdatePageContent(t, content))
    ensures ContentsReferencePages(t) ==> ContentsReferencePages(UpdatePageContent(t, content))
  {
  }

  lemma SaveOrUpdateUserKeepsInvariants(t: Tables, user: User)
    ensures Keyed(t) ==> Keyed(SaveOrUpdateUser(t, user))
    ensures ContentsReferencePages(t) ==> ContentsReferencePages(SaveOrUpdateUser(t, user))
  {
  }

  lemma DeletePageKeepsKeyed(t: Tables, page: Page)
    requires page.id in t.pages
    ensures Keyed(t) ==> Keyed(DeletePage(t, page))
  {
  }

  lemma DeletePageContentKeepsInvariants(t: Tables, content: PageContent)
    requires content.id in t.contents
    ensures Keyed(t) ==> Keyed(DeletePageContent(t, content))
    ensures ContentsReferencePages(t) ==> ContentsReferencePages(DeletePageContent(t, content))
  {
  }

  lemma DeleteUserKeepsInvariants(t: Tables, user: User)
    requires user.id in t.users
    ensures Keyed(t) ==> Keyed(DeleteUser(t, user))
    ensures ContentsReferencePages(t) ==> ContentsReferencePages(DeleteUser(t, user))
  {
  }

  lemma DeleteAllKeepsInvariants(t: Tables)
    ensures Keyed(t) ==> Keyed(DeleteAllPages(t)) && Keyed(DeleteAllPageContent(t)) && Keyed(DeleteAllUsers(t))
    ensures ContentsReferencePages(DeleteAllPageContent(t))
    ensures ContentsReferencePages(t) ==> ContentsReferencePages(DeleteAllUsers(t))
  {
  }

  /**
   * Deleting a page that still has revisions leaves them pointing at no
   * page: the store does not cascade the delete.
   */
  lemma DeletePageOrphansRevisions(t: Tables, page: Page, contentId: Guid)
    requires page.id in t.pages
    requires contentId in t.contents && t.contents[contentId].pageId == page.id
    ensures !ContentsReferencePages(DeletePage(t, page))
    ensures contentId in DeletePage(t, page).contents
  {
  }

  /** Once the preferences table has its single keyed row, saving keeps it that way. */
  lemma SaveSitePreferencesKeepsSingleRow(t: Tables, json: string, assemblyVersion: string, newId: Guid)
    requires newId != EmptyGuid
    ensures SinglePreferencesRow(t) ==> SinglePreferencesRow(SaveSitePreferences(t, json, assemblyVersion, newId))
  {
  }
}
