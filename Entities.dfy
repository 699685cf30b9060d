/**
 * The records the content repository stores and returns: pages, page
 * content versions, users and the site-preferences row.
 *
 * For pages and users the persisted entity and the domain object carry the
 * same fields, and the object mapper copies them field for field, so one
 * datatype stands for both. A page content entity points at its page by id;
 * the domain page content carries the page object itself.
 *
 * Only the fields listed here are modelled; any other field an entity has
 * is not represented, and an update would leave it as stored.
 */
module Entities {

  /** A globally unique identifier; 0 plays the role of Guid.Empty. */
  type Guid = nat

  const EmptyGuid: Guid := 0

  /** A point in time, as a count of ticks. */
  type DateTime = int

  datatype Option<T> = None | Some(value: T)

  /** A wiki page's metadata (never its body text). */
  datatype Page = Page(
    id: int,
    title: string,
    tags: string,
    createdBy: string,
    createdOn: DateTime,
    modifiedBy: string,
    modifiedOn: DateTime)

  /** One stored revision of a page's body; `pageId` is the owning page's key. */
  datatype PageContentEntity = PageContentEntity(
    id: Guid,
    pageId: int,
    text: string,
    editedBy: string,
    editedOn: DateTime,
    versionNumber: int)

  /** The domain view of a revision, holding the page object (None for a null page). */
  datatype PageContent = PageContent(
    id: Guid,
    page: Option<Page>,
    text: string,
    editedBy: string,
    editedOn: DateTime,
    versionNumber: int)

  /** An account. */
  datatype User = User(
    id: Guid,
    activationKey: string,
    email: string,
    firstname: string,
    isActivated: bool,
    isAdmin: bool,
    isEditor: bool,
    lastname: string,
    password: string,
    passwordResetKey: string,
    salt: string,
    username: string)

  /** The stored site-preferences row: the serialized settings and the application version that wrote them. */
  datatype SitePreferencesEntity = SitePreferencesEntity(id: Guid, version: string, content: string)

  /**
   * What reading the preferences yields. Deserialization is not modelled: a
   * loaded instance is identified by the JSON text it was loaded from.
   */
  datatype SitePreferences = DefaultPreferences | LoadedFromJson(json: string)
}
