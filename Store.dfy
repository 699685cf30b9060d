/**
 * The unit of work's tables, as one value: pages keyed by their int id,
 * page contents and users keyed by Guid, and the site-preferences rows in
 * the order the store returns them.
 */
module Store {
  import opened Entities

  datatype Tables = Tables(
    pages: map<int, Page>,
    contents: map<Guid, PageContentEntity>,
    users: map<Guid, User>,
    preferences: seq<SitePreferencesEntity>)

  const EmptyTables := Tables(map[], map[], map[], [])

  /** Every keyed row is stored under its own id. */
  ghost predicate Keyed(t: Tables)
  {
    && (forall id :: id in t.pages ==> t.pages[id].id == id)
    && (forall id :: id in t.contents ==> t.contents[id].id == id)
    && (forall id :: id in t.users ==> t.users[id].id == id)
  }

  /** Every stored revision points at a stored page. */
  ghost predicate ContentsReferencePages(t: Tables)
  {
    forall id :: id in t.contents ==> t.contents[id].pageId in t.pages
  }

  /** The singleton shape: at most one preferences row, and that row has a real id. */
  ghost predicate SinglePreferencesRow(t: Tables)
  {
    |t.preferences| <= 1 && (|t.preferences| == 1 ==> t.preferences[0].id != EmptyGuid)
  }

  /** The object mapper's view of a stored revision: its page is looked up by key, null when missing. */
  function ToPageContent(t: Tables, entity: PageContentEntity): (r: PageContent)
    ensures r.id == entity.id && r.text == entity.text && r.editedBy == entity.editedBy
    ensures r.editedOn == entity.editedOn && r.versionNumber == entity.versionNumber
    ensures r.page.Some? <==> entity.pageId in t.pages
    ensures r.page.Some? ==> r.page.value == t.pages[entity.pageId]
  {
    PageContent(
      entity.id,
      if entity.pageId in t.pages then Some(t.pages[entity.pageId]) else None,
      entity.text, entity.editedBy, entity.editedOn, entity.versionNumber)
  }

  /**
   * FirstOrDefault over a table without an ORDER BY: some row satisfying
   * `p` if there is one, which one being left to the store.
   */
  ghost function FirstMatch<K, V>(m: map<K, V>, p: V -> bool): (r: Option<V>)
    ensures r.Some? <==> exists k :: k in m && p(m[k])
    ensures r.Some? ==> r.value in m.Values && p(r.value)
  {
    if exists k :: k in m && p(m[k]) then
      var k :| k in m && p(m[k]);
      Some(m[k])
    else
      None
  }
}
