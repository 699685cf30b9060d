/**
 * The tag search of the generic query path matches tags case-insensitively:
 * what it finds depends only on the lower-cased tag.
 */
module TagSearch {
  import opened Store
  import opened Text
  import opened Queries

  /** Tags that agree once lower-cased find the same pages. */
  lemma TagSearchIgnoresCase(t: Tables, a: string, b: string)
    requires EqualIgnoringCase(a, b)
    ensures FindPagesContainingTag(t, a) == FindPagesContainingTag(t, b)
  {
  }

  /** Searching for the upper-cased tag finds the same pages. */
  lemma UpperCaseTagFindsSamePages(t: Tables, tag: string)
    ensures FindPagesContainingTag(t, ToUpper(tag)) == FindPagesContainingTag(t, tag)
  {
    LowerOfUpper(tag);
    TagSearchIgnoresCase(t, ToUpper(tag), tag);
  }

  /** The lower-cased forms the tag example below relies on, one literal at a time. */
  lemma ExampleTagsLowerCased()
    ensures ToLower("tag1, tag2") == "tag1, tag2"
  {
    LowerKeepsLowerCase("tag1, tag2");
  }

  lemma ExampleTag1LowerCased()
    ensures ToLower("tag1") == "tag1" && ToLower("TAG1") == "tag1"
  {
    LowerKeepsLowerCase("tag1");
  }

  lemma ExampleTag2LowerCased()
    ensures ToLower("Tag2") == "tag2"
  {
  }

  /** Where the two example tags sit in "tag1, tag2". */
  lemma ExampleTagsOccurrences()
    ensures OccursAt("tag1, tag2", "tag1", 0) && OccursAt("tag1, tag2", "tag2", 6)
  {
  }

  /**
   * A page is found by any tag whose lower-cased form occurs in the page's
   * lower-cased tags (the lower-cased forms are passed in already computed).
   */
  lemma TagOccurrenceIsFound(t: Tables, id: int, tag: string, lowerTags: string, lowerTag: string, at: int)
    requires id in t.pages && ToLower(t.pages[id].tags) == lowerTags && ToLower(tag) == lowerTag
    requires OccursAt(lowerTags, lowerTag, at)
    ensures t.pages[id] in FindPagesContainingTag(t, tag)
  {
  }

  /** A page tagged "tag1, tag2" is found by "tag1" and by "TAG1". */
  lemma TaggedPageIsFoundByFirstTag(t: Tables, id: int)
    requires id in t.pages && t.pages[id].tags == "tag1, tag2"
    ensures t.pages[id] in FindPagesContainingTag(t, "tag1")
    ensures t.pages[id] in FindPagesContainingTag(t, "TAG1")
  {
    ExampleTagsLowerCased();
    ExampleTag1LowerCased();
    ExampleTagsOccurrences();
    TagOccurrenceIsFound(t, id, "tag1", "tag1, tag2", "tag1", 0);
    TagOccurrenceIsFound(t, id, "TAG1", "tag1, tag2", "tag1", 0);
  }

  /** A page tagged "tag1, tag2" is found by "Tag2". */
  lemma TaggedPageIsFoundBySecondTag(t: Tables, id: int)
    requires id in t.pages && t.pages[id].tags == "tag1, tag2"
    ensures t.pages[id] in FindPagesContainingTag(t, "Tag2")
  {
    ExampleTagsLowerCased();
    ExampleTag2LowerCased();
    ExampleTagsOccurrences();
    TagOccurrenceIsFound(t, id, "Tag2", "tag1, tag2", "tag2", 6);
  }
}
