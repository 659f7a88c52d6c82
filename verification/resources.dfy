/**
 * The resources page (app/resources/page.tsx): search and category
 * filters, the category buttons and the per-category sections.
 */
module Resources {
  import opened Wrappers
  import opened Text
  import opened Seqs
  import opened Catalog

  datatype Resource = Resource(
    id: string,
    title: string,
    category: string,
    description: Option<string>,
    url: Option<string>,
    fileUrl: Option<string>)

  function CategoryOf(r: Resource): string {
    r.category
  }

  /** The title contains the search text, or the description does when there is one. */
  predicate MatchesSearch(r: Resource, searchQuery: string) {
    ContainsIgnoringCase(r.title, searchQuery) ||
    (r.description.Some? && ContainsIgnoringCase(r.description.value, searchQuery))
  }

  predicate Listed(r: Resource, searchQuery: string, selectedCategory: string) {
    && (searchQuery == "" || MatchesSearch(r, searchQuery))
    && (selectedCategory == "all" || r.category == selectedCategory)
  }

  function ListedBy(searchQuery: string, selectedCategory: string): Resource -> bool {
    (r: Resource) => Listed(r, searchQuery, selectedCategory)
  }

  function SearchFor(searchQuery: string): Resource -> bool {
    (r: Resource) => MatchesSearch(r, searchQuery)
  }

  /** The search filter when there is search text, then the category filter unless "all". */
  function FilterResources(resources: seq<Resource>, searchQuery: string, selectedCategory: string): (r: seq<Resource>)
    ensures r == Filter(resources, ListedBy(searchQuery, selectedCategory))
    ensures forall x :: x in r <==> x in resources && Listed(x, searchQuery, selectedCategory)
    ensures searchQuery == "" && selectedCategory == "all" ==> r == resources
  {
    var afterSearch := if searchQuery != "" then Filter(resources, SearchFor(searchQuery)) else resources;
    SearchStep(resources, searchQuery);
    if selectedCategory != "all" then
      CategoryStep(resources, searchQuery, selectedCategory);
      Filter(afterSearch, InCategory(CategoryOf, selectedCategory))
    else
      afterSearch
  }

  /** The search filter alone is the listing under "all". */
  lemma SearchStep(resources: seq<Resource>, searchQuery: string)
    ensures (if searchQuery != "" then Filter(resources, SearchFor(searchQuery)) else resources) ==
            Filter(resources, ListedBy(searchQuery, "all"))
  {
    if searchQuery != "" {
      FilterEquiv(resources, SearchFor(searchQuery), ListedBy(searchQuery, "all"));
    } else {
      FilterKeepsAll(resources, ListedBy(searchQuery, "all"));
    }
  }

  /** The category filter after the search is the combined listing. */
  lemma CategoryStep(resources: seq<Resource>, searchQuery: string, selectedCategory: string)
    requires selectedCategory != "all"
    ensures Filter(Filter(resources, ListedBy(searchQuery, "all")), InCategory(CategoryOf, selectedCategory)) ==
            Filter(resources, ListedBy(searchQuery, selectedCategory))
  {
    FilterFilter(resources, ListedBy(searchQuery, "all"), InCategory(CategoryOf, selectedCategory),
                 ListedBy(searchQuery, selectedCategory));
  }

  /** "No resources found." is shown exactly when nothing passes the filters. */
  lemma NoResourcesNotice(resources: seq<Resource>, searchQuery: string, selectedCategory: string)
    ensures |FilterResources(resources, searchQuery, selectedCategory)| == 0 <==>
            forall r :: r in resources ==> !Listed(r, searchQuery, selectedCategory)
  {
    FilterEmpty(resources, ListedBy(searchQuery, selectedCategory));
  }

  /** Without search text, every category button shows at least one resource. */
  lemma CategoryButtonsNeverEmpty(resources: seq<Resource>, c: string)
    requires c in CategoryList(resources, CategoryOf) && c != "all"
    ensures |FilterResources(resources, "", c)| > 0
  {
    EveryCategoryHasItems(resources, CategoryOf, c);
    FilterEquiv(resources, InCategory(CategoryOf, c), ListedBy("", c));
  }

  /** Picking a category shows the same resources, in the same order, as its section under "all". */
  lemma CategoryMatchesSection(resources: seq<Resource>, searchQuery: string, c: string)
    requires c != "all"
    ensures FilterResources(resources, searchQuery, c) ==
            ItemsOfCategory(FilterResources(resources, searchQuery, "all"), CategoryOf, c)
  {
    var all := FilterResources(resources, searchQuery, "all");
    ItemsOfCategoryIsFilter(all, CategoryOf, c);
    FilterFilter(resources, ListedBy(searchQuery, "all"), InCategory(CategoryOf, c), ListedBy(searchQuery, c));
  }
}
