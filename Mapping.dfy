/**
 * The repository's field-copy helpers: which fields of a stored entity an
 * update overwrites from the caller's object, and which it keeps.
 * Each helper assigns fields of an entity object one by one; here the entity
 * is a value and the helper returns its updated copy.
 */
module Mapping {
  import opened Entities

  /**
   * Update of an existing page row. The repository assigns ModifiedBy twice and
   * never ModifiedOn, so the stored modification time survives every update.
   */
  function MapPageToEntity(page: Page, entity: Page): (r: Page)
    ensures r == page.(id := entity.id, modifiedOn := entity.modifiedOn)
    ensures r.modifiedOn == entity.modifiedOn
    ensures r == page <==> page.id == entity.id && page.modifiedOn == entity.modifiedOn
  {
    var e := entity.(createdBy := page.createdBy, createdOn := page.createdOn, modifiedBy := page.modifiedBy);
    var e := e.(modifiedBy := page.modifiedBy);
    e.(tags := page.tags, title := page.title)
  }

  /** Update of an existing user row: the eleven non-key fields come from the caller. */
  function MapUserToEntity(user: User, entity: User): (r: User)
    ensures r == user.(id := entity.id)
    ensures r == user <==> user.id == entity.id
  {
    entity.(
      activationKey := user.activationKey,
      email := user.email,
      firstname := user.firstname,
      isActivated := user.isActivated,
      isAdmin := user.isAdmin,
      isEditor := user.isEditor,
      lastname := user.lastname,
      password := user.password,
      passwordResetKey := user.passwordResetKey,
      salt := user.salt,
      username := user.username)
  }

  /** In-place update of a stored revision: its id and its page link are kept. */
  function MapPageContentToEntity(content: PageContent, entity: PageContentEntity): (r: PageContentEntity)
    ensures r.id == entity.id && r.pageId == entity.pageId
    ensures r.editedOn == content.editedOn && r.editedBy == content.editedBy
    ensures r.text == content.text && r.versionNumber == content.versionNumber
  {
    entity.(
      editedOn := content.editedOn,
      editedBy := content.editedBy,
      text := content.text,
      versionNumber := content.versionNumber)
  }

  /**
   * Copy of a stored revision into a domain object whose page the caller has
   * already set; reading an entity and writing it back changes nothing.
   */
  function MapEntityToPageContent(entity: PageContentEntity, pageContent: PageContent): (r: PageContent)
    ensures r.page == pageContent.page && r.id == entity.id
    ensures MapPageContentToEntity(r, entity) == entity
  {
    pageContent.(
      id := entity.id,
      editedOn := entity.editedOn,
      editedBy := entity.editedBy,
      text := entity.text,
      versionNumber := entity.versionNumber)
  }

  /** Writing a domain revision into an entity and reading it back yields the revision under the entity's id. */
  lemma WriteThenReadContent(content: PageContent, entity: PageContentEntity)
    ensures MapEntityToPageContent(MapPageContentToEntity(content, entity), content) == content.(id := entity.id)
  {
  }
}
