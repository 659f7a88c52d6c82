/**
 * The marketing assets page (app/assets/page.tsx): the category filter,
 * the category buttons and the per-category sections.
 */
module Assets {
  import opened Wrappers
  import opened Seqs
  import opened Catalog

  datatype Asset = Asset(id: string, title: string, category: string, description: Option<string>, fileUrl: string)

  function CategoryOf(a: Asset): string {
    a.category
  }

  /**
   * Every asset for "all"; otherwise the assets of the selected category, in
   * load order, which is that category's section on the "all" view.
   */
  function FilterAssets(assets: seq<Asset>, selectedCategory: string): (r: seq<Asset>)
    ensures selectedCategory == "all" ==> r == assets
    ensures selectedCategory != "all" ==> r == ItemsOfCategory(assets, CategoryOf, selectedCategory)
    ensures forall a :: a in r <==> a in assets && (selectedCategory == "all" || a.category == selectedCategory)
  {
    if selectedCategory == "all" then assets
    else
      ItemsOfCategoryIsFilter(assets, CategoryOf, selectedCategory);
      InCategoryMembers(assets, CategoryOf, selectedCategory);
      Filter(assets, InCategory(CategoryOf, selectedCategory))
  }

  /** "No assets found." is shown exactly when no asset is in the selected category. */
  lemma NoAssetsNotice(assets: seq<Asset>, selectedCategory: string)
    ensures |FilterAssets(assets, selectedCategory)| == 0 <==>
            forall a :: a in assets ==> !(selectedCategory == "all" || a.category == selectedCategory)
  {
    if selectedCategory != "all" {
      FilterEmpty(assets, InCategory(CategoryOf, selectedCategory));
    } else if |assets| > 0 {
      assert assets[0] in assets;
    }
  }

  /** Every category button shows at least one asset. */
  lemma CategoryButtonsNeverEmpty(assets: seq<Asset>, c: string)
    requires c in CategoryList(assets, CategoryOf)
    ensures |FilterAssets(assets, c)| > 0
  {
    if c != "all" {
      EveryCategoryHasItems(assets, CategoryOf, c);
    } else {
      CategoryListMembers(assets, CategoryOf, c);
      var a :| a in assets && a.category == c;
    }
  }
}
