/**
 * The repository's read-only operations. Each is one Where / FirstOrDefault
 * / OrderByDescending query over the current tables; none changes them.
 * A FirstOrDefault has no ORDER BY, so when several rows match the model
 * promises only that the result is one of them.
 */
module Queries {
  import opened Entities
  import opened Store
  import opened Text

  // ---- Pages ----

  function AllPages(t: Tables): (r: set<Page>)
    ensures forall id :: id in t.pages ==> t.pages[id] in r
    ensures forall p :: p in r ==> p in t.pages.Values
  {
    t.pages.Values
  }

  ghost function GetPageById(t: Tables, id: int): (r: Option<Page>)
    ensures r.Some? ==> (exists k :: k in t.pages && t.pages[k] == r.value) && r.value.id == id
    ensures r.Some? <==> exists k :: k in t.pages && t.pages[k].id == id
  {
    if exists k :: k in t.pages && t.pages[k].id == id then
      var k :| k in t.pages && t.pages[k].id == id;
      Some(t.pages[k])
    else
      None
  }

  ghost function GetPageByTitle(t: Tables, title: string): (r: Option<Page>)
    ensures r.Some? ==> (exists k :: k in t.pages && t.pages[k] == r.value) && r.value.title == title
    ensures r.Some? <==> exists k :: k in t.pages && t.pages[k].title == title
  {
    if exists k :: k in t.pages && t.pages[k].title == title then
      var k :| k in t.pages && t.pages[k].title == title;
      Some(t.pages[k])
    else
      None
  }

  function FindPagesByCreatedBy(t: Tables, username: string): (r: set<Page>)
    ensures forall id :: id in t.pages && t.pages[id].createdBy == username ==> t.pages[id] in r
    ensures forall p :: p in r ==> p in t.pages.Values && p.createdBy == username
  {
    set p | p in t.pages.Values && p.createdBy == username
  }

  function FindPagesByModifiedBy(t: Tables, username: string): (r: set<Page>)
    ensures forall id :: id in t.pages && t.pages[id].modifiedBy == username ==> t.pages[id] in r
    ensures forall p :: p in r ==> p in t.pages.Values && p.modifiedBy == username
  {
    set p | p in t.pages.Values && p.modifiedBy == username
  }

  /** The tag match of the generic query path: case-insensitive substring search. */
  predicate TagMatches(page: Page, tag: string)
  {
    Contains(ToLower(page.tags), ToLower(tag))
  }

  /** The pages whose lower-cased tags contain the lower-cased tag. */
  function FindPagesContainingTag(t: Tables, tag: string): (r: set<Page>)
    ensures forall id :: id in t.pages ==> (t.pages[id] in r <==> Contains(ToLower(t.pages[id].tags), ToLower(tag)))
    ensures forall p :: p in r ==> p in t.pages.Values
  {
    set p | p in t.pages.Values && TagMatches(p, tag)
  }

  /** The tag string of every page, one entry per page (the repository returns them as an unordered list). */
  function AllTags(t: Tables): (r: map<int, string>)
    ensures r.Keys == t.pages.Keys
    ensures forall id :: id in r ==> r[id] == t.pages[id].tags
  {
    map id | id in t.pages :: t.pages[id].tags
  }

  // ---- Page contents ----

  function AllPageContents(t: Tables): (r: set<PageContent>)
    ensures forall id :: id in t.contents ==> ToPageContent(t, t.contents[id]) in r
    ensures forall c :: c in r ==> exists id :: id in t.contents && c == ToPageContent(t, t.contents[id])
  {
    set id | id in t.contents :: ToPageContent(t, t.contents[id])
  }

  ghost function GetPageContentById(t: Tables, id: Guid): (r: Option<PageContent>)
    ensures r.Some? ==> r.value.id == id && exists k :: k in t.contents && r.value == ToPageContent(t, t.contents[k])
    ensures r.None? <==> forall k :: k in t.contents ==> t.contents[k].id != id
  {
    match FirstMatch(t.contents, (c: PageContentEntity) => c.id == id)
    case None => None
    case Some(e) => Some(ToPageContent(t, e))
  }

  /** A second name for the lookup by id. */
  ghost function GetPageContentByVersionId(t: Tables, versionId: Guid): (r: Option<PageContent>)
    ensures r.Some? ==> r.value.id == versionId && exists k :: k in t.contents && r.value == ToPageContent(t, t.contents[k])
    ensures r.None? <==> forall k :: k in t.contents ==> t.contents[k].id != versionId
  {
    GetPageContentById(t, versionId)
  }

  ghost function GetPageContentByPageIdAndVersionNumber(t: Tables, pageId: int, versionNumber: int): (r: Option<PageContent>)
    ensures r.Some? ==> r.value.versionNumber == versionNumber
    ensures r.Some? ==> exists k :: k in t.contents && t.contents[k].pageId == pageId && r.value == ToPageContent(t, t.contents[k])
    ensures r.None? <==> forall k :: k in t.contents ==> !(t.contents[k].pageId == pageId && t.contents[k].versionNumber == versionNumber)
  {
    match FirstMatch(t.contents, (c: PageContentEntity) => c.pageId == pageId && c.versionNumber == versionNumber)
    case None => None
    case Some(e) => Some(ToPageContent(t, e))
  }

  ghost function GetPageContentByEditedBy(t: Tables, username: string): (r: Option<PageContent>)
    ensures r.Some? ==> r.value.editedBy == username
    ensures r.Some? ==> exists k :: k in t.contents && r.value == ToPageContent(t, t.contents[k])
    ensures r.None? <==> forall k :: k in t.contents ==> t.contents[k].editedBy != username
  {
    match FirstMatch(t.contents, (c: PageContentEntity) => c.editedBy == username)
    case None => None
    case Some(e) => Some(ToPageContent(t, e))
  }

  function FindPageContentsByPageId(t: Tables, pageId: int): (r: set<PageContent>)
    ensures forall k :: k in t.contents && t.contents[k].pageId == pageId ==> ToPageContent(t, t.contents[k]) in r
    ensures forall c :: c in r ==> exists k :: k in t.contents && t.contents[k].pageId == pageId && c == ToPageContent(t, t.contents[k])
  {
    set k | k in t.contents && t.contents[k].pageId == pageId :: ToPageContent(t, t.contents[k])
  }

  function FindPageContentsEditedBy(t: Tables, username: string): (r: set<PageContent>)
    ensures forall k :: k in t.contents && t.contents[k].editedBy == username ==> ToPageContent(t, t.contents[k]) in r
    ensures forall c :: c in r ==> exists k :: k in t.contents && t.contents[k].editedBy == username && c == ToPageContent(t, t.contents[k])
  {
    set k | k in t.contents && t.contents[k].editedBy == username :: ToPageContent(t, t.contents[k])
  }

  /** The keys of the revisions that belong to `pageId`. */
  function RevisionsOf(t: Tables, pageId: int): (r: set<Guid>)
    ensures forall k :: k in r <==> k in t.contents && t.contents[k].pageId == pageId
  {
    set k | k in t.contents && t.contents[k].pageId == pageId
  }

  /** Some revision in `ids` was edited no earlier than every other revision in `ids`. */
  lemma {:induction false} LatestRevisionExists(m: map<Guid, PageContentEntity>, ids: set<Guid>)
    requires ids != {} && ids <= m.Keys
    ensures exists k :: k in ids && forall j :: j in ids ==> m[j].editedOn <= m[k].editedOn
  {
    var x :| x in ids;
    if ids != {x} {
      LatestRevisionExists(m, ids - {x});
      var k :| k in ids - {x} && forall j :: j in ids - {x} ==> m[j].editedOn <= m[k].editedOn;
      if m[x].editedOn <= m[k].editedOn {
        assert forall j :: j in ids ==> m[j].editedOn <= m[k].editedOn;
      } else {
        assert forall j :: j in ids ==> m[j].editedOn <= m[x].editedOn;
      }
    } else {
      assert forall j :: j in ids ==> j == x;
    }
  }

  /**
   * The page's revisions ordered by EditedOn, newest first, and the first
   * taken: a revision of that page edited no earlier than any other, or
   * None when the page has no revisions.
   */
  ghost function GetLatestPageContent(t: Tables, pageId: int): (r: Option<PageContent>)
    ensures r.None? <==> forall k :: k in t.contents ==> t.contents[k].pageId != pageId
    ensures r.Some? ==> exists k :: k in t.contents && t.contents[k].pageId == pageId && r.value == ToPageContent(t, t.contents[k])
    ensures r.Some? ==> forall k :: k in t.contents && t.contents[k].pageId == pageId ==> t.contents[k].editedOn <= r.value.editedOn
  {
    var ids := RevisionsOf(t, pageId);
    if ids == {} then
      None
    else
      LatestRevisionExists(t.contents, ids);
      var k :| k in ids && forall j :: j in ids ==> t.contents[j].editedOn <= t.contents[k].editedOn;
      Some(ToPageContent(t, t.contents[k]))
  }

  // ---- Users ----

  ghost function GetAdminById(t: Tables, id: Guid): (r: Option<User>)
    ensures r.Some? ==> r.value in t.users.Values && r.value.id == id && r.value.isAdmin
    ensures r.None? <==> forall k :: k in t.users ==> !(t.users[k].id == id && t.users[k].isAdmin)
  {
    FirstMatch(t.users, (u: User) => u.id == id && u.isAdmin)
  }

  ghost function GetEditorById(t: Tables, id: Guid): (r: Option<User>)
    ensures r.Some? ==> r.value in t.users.Values && r.value.id == id && r.value.isEditor
    ensures r.None? <==> forall k :: k in t.users ==> !(t.users[k].id == id && t.users[k].isEditor)
  {
    FirstMatch(t.users, (u: User) => u.id == id && u.isEditor)
  }

  /** Only accounts that are not yet activated can be found by their activation key. */
  ghost function GetUserByActivationKey(t: Tables, key: string): (r: Option<User>)
    ensures r.Some? ==> r.value in t.users.Values && r.value.activationKey == key && !r.value.isActivated
    ensures r.None? <==> forall k :: k in t.users ==> !(t.users[k].activationKey == key && !t.users[k].isActivated)
  {
    FirstMatch(t.users, (u: User) => u.activationKey == key && u.isActivated == false)
  }

  /** Callers that omit `isActivated` pass true. */
  ghost function GetUserByEmail(t: Tables, email: string, isActivated: bool): (r: Option<User>)
    ensures r.Some? ==> r.value in t.users.Values && r.value.email == email && r.value.isActivated == isActivated
    ensures r.None? <==> forall k :: k in t.users ==> !(t.users[k].email == email && t.users[k].isActivated == isActivated)
  {
    FirstMatch(t.users, (u: User) => u.email == email && u.isActivated == isActivated)
  }

  /** Callers that omit `isActivated` pass true. */
  ghost function GetUserById(t: Tables, id: Guid, isActivated: bool): (r: Option<User>)
    ensures r.Some? ==> r.value in t.users.Values && r.value.id == id && r.value.isActivated == isActivated
    ensures r.None? <==> forall k :: k in t.users ==> !(t.users[k].id == id && t.users[k].isActivated == isActivated)
  {
    FirstMatch(t.users, (u: User) => u.id == id && u.isActivated == isActivated)
  }

  ghost function GetUserByPasswordResetKey(t: Tables, key: string): (r: Option<User>)
    ensures r.Some? ==> r.value in t.users.Values && r.value.passwordResetKey == key
    ensures r.None? <==> forall k :: k in t.users ==> t.users[k].passwordResetKey != key
  {
    FirstMatch(t.users, (u: User) => u.passwordResetKey == key)
  }

  ghost function GetUserByUsername(t: Tables, username: string): (r: Option<User>)
    ensures r.Some? ==> r.value in t.users.Values && r.value.username == username
    ensures r.None? <==> forall k :: k in t.users ==> t.users[k].username != username
  {
    FirstMatch(t.users, (u: User) => u.username == username)
  }

  ghost function GetUserByUsernameOrEmail(t: Tables, username: string, email: string): (r: Option<User>)
    ensures r.Some? ==> r.value in t.users.Values && (r.value.username == username || r.value.email == email)
    ensures r.None? <==> forall k :: k in t.users ==> t.users[k].username != username && t.users[k].email != email
  {
    FirstMatch(t.users, (u: User) => u.username == username || u.email == email)
  }

  function FindAllEditors(t: Tables): (r: set<User>)
    ensures forall k :: k in t.users && t.users[k].isEditor ==> t.users[k] in r
    ensures forall u :: u in r ==> u in t.users.Values && u.isEditor
  {
    set u | u in t.users.Values && u.isEditor
  }

  function FindAllAdmins(t: Tables): (r: set<User>)
    ensures forall k :: k in t.users && t.users[k].isAdmin ==> t.users[k] in r
    ensures forall u :: u in r ==> u in t.users.Values && u.isAdmin
  {
    set u | u in t.users.Values && u.isAdmin
  }

  // ---- Site preferences ----

  /** A default instance when no row exists, otherwise the first row's JSON; never a table change. */
  function GetSitePreferences(t: Tables): (r: SitePreferences)
    ensures r.DefaultPreferences? <==> |t.preferences| == 0
    ensures r.LoadedFromJson? ==> r.json == t.preferences[0].content
  {
    if |t.preferences| == 0 then DefaultPreferences else LoadedFromJson(t.preferences[0].content)
  }
}
