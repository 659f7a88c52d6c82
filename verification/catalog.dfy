/**
 * What the swag, resources and assets pages share: the category list
 * `Array.from(new Set(items.map(x => x.category)))` and the grouping
 * `reduce` that pushes each item into the array of its category.
 */
module Catalog {
  import opened Seqs

  /** `items.map(x => x.category)` */
  function CategoriesOf<T>(items: seq<T>, category: T -> string): (r: seq<string>)
    ensures |r| == |items| && forall i :: 0 <= i < |items| ==> r[i] == category(items[i])
  {
    seq(|items|, i requires 0 <= i < |items| => category(items[i]))
  }

  /** `x => x.category === c` */
  function InCategory<T>(category: T -> string, c: string): T -> bool {
    x => category(x) == c
  }

  /** The category filter keeps exactly the items of that category. */
  lemma InCategoryMembers<T(!new)>(items: seq<T>, category: T -> string, c: string)
    ensures forall x :: x in Filter(items, InCategory(category, c)) <==> x in items && category(x) == c
  {
  }

  /**
   * The category buttons: each category of some item exactly once, in the
   * order in which the categories first appear.
   */
  function CategoryList<T>(items: seq<T>, category: T -> string): seq<string> {
    Distinct(CategoriesOf(items, category))
  }

  /** A category is listed exactly when some item has it. */
  lemma CategoryListMembers<T(!new)>(items: seq<T>, category: T -> string, c: string)
    ensures c in CategoryList(items, category) <==> exists x :: x in items && category(x) == c
  {
    var cats := CategoriesOf(items, category);
    DistinctSpec(cats);
    if c in cats {
      var i :| 0 <= i < |cats| && cats[i] == c;
      assert items[i] in items;
    }
    if exists x :: x in items && category(x) == c {
      var x :| x in items && category(x) == c;
      var i :| 0 <= i < |items| && items[i] == x;
      assert cats[i] == c;
    }
  }

  /** No category is listed twice, and they come in order of first appearance. */
  lemma CategoryListOrder<T(!new)>(items: seq<T>, category: T -> string)
    ensures NoDuplicates(CategoryList(items, category))
    ensures var r, cats := CategoryList(items, category), CategoriesOf(items, category);
            forall i, j :: 0 <= i < j < |r| ==> r[i] in cats && r[j] in cats && FirstIndex(cats, r[i]) < FirstIndex(cats, r[j])
  {
    DistinctSpec(CategoriesOf(items, category));
  }

  /** Every category button selects at least one item. */
  lemma EveryCategoryHasItems<T(!new)>(items: seq<T>, category: T -> string, c: string)
    requires c in CategoryList(items, category)
    ensures |Filter(items, InCategory(category, c))| > 0
  {
    CategoryListMembers(items, category, c);
    var x :| x in items && category(x) == c;
    assert x in Filter(items, InCategory(category, c));
  }

  // ---------------------------------------------------------------------------
  // Grouping

  /** The cards as the page lays them out: group after group, in key order. */
  function CardsInOrder<T>(order: seq<string>, groups: map<string, seq<T>>): (r: seq<T>)
    requires forall c :: c in order ==> c in groups
  {
    if |order| == 0 then [] else groups[order[0]] + CardsInOrder(order[1..], groups)
  }

  lemma {:induction false} CardsSameOn<T>(order: seq<string>, g1: map<string, seq<T>>, g2: map<string, seq<T>>)
    requires forall c :: c in order ==> c in g1 && c in g2 && g1[c] == g2[c]
    ensures CardsInOrder(order, g1) == CardsInOrder(order, g2)
  {
    if |order| > 0 {
      assert forall c :: c in order[1..] ==> c in order;
      CardsSameOn(order[1..], g1, g2);
    }
  }

  /** A new key is laid out last. */
  lemma {:induction false} CardsNewKey<T>(order: seq<string>, groups: map<string, seq<T>>, c: string, g: seq<T>)
    requires forall k :: k in order ==> k in groups
    requires c !in order
    ensures CardsInOrder(order + [c], groups[c := g]) == CardsInOrder(order, groups) + g
  {
    if |order| == 0 {
      assert order + [c] == [c];
    } else {
      assert (order + [c])[1..] == order[1..] + [c];
      assert forall k :: k in order[1..] ==> k in order;
      CardsNewKey(order[1..], groups, c, g);
    }
  }

  /** Pushing onto one group adds exactly that item to the cards. */
  lemma {:induction false} CardsPush<T>(order: seq<string>, groups: map<string, seq<T>>, c: string, x: T)
    requires forall k :: k in order ==> k in groups
    requires c in order && NoDuplicates(order)
    ensures multiset(CardsInOrder(order, groups[c := groups[c] + [x]])) ==
            multiset(CardsInOrder(order, groups)) + multiset{x}
  {
    var g := groups[c := groups[c] + [x]];
    var tail := order[1..];
    assert forall k :: k in tail ==> k in order;
    assert NoDuplicates(tail) by {
      forall i, j | 0 <= i < j < |tail|
        ensures tail[i] != tail[j]
      {
        assert tail[i] == order[i + 1] && tail[j] == order[j + 1];
      }
    }
    if order[0] == c {
      assert c !in tail by {
        forall j | 0 <= j < |tail|
          ensures tail[j] != c
        {
          assert tail[j] == order[j + 1];
        }
      }
      CardsSameOn(tail, g, groups);
    } else {
      CardsPush(tail, groups, c, x);
    }
  }

  /** The category list grows by the next item's category when that one is new. */
  lemma CategoryListStep<T(!new)>(items: seq<T>, category: T -> string, i: nat)
    requires i < |items|
    ensures var before := CategoryList(items[..i], category);
            CategoryList(items[..i + 1], category) ==
              if category(items[i]) in before then before else before + [category(items[i])]
  {
    var cats := CategoriesOf(items[..i + 1], category);
    assert cats[..|cats| - 1] == CategoriesOf(items[..i], category);
    assert cats[|cats| - 1] == category(items[i]);
  }

  /** The items of category `c` in their original order: what `acc[c]` ends up holding. */
  function ItemsOfCategory<T>(items: seq<T>, category: T -> string, c: string): seq<T> {
    if |items| == 0 then []
    else
      var last := items[|items| - 1];
      ItemsOfCategory(items[..|items| - 1], category, c) + (if category(last) == c then [last] else [])
  }

  /** A group is the page's category filter `x => x.category === c`. */
  lemma {:induction false} ItemsOfCategoryIsFilter<T(!new)>(items: seq<T>, category: T -> string, c: string)
    ensures ItemsOfCategory(items, category, c) == Filter(items, InCategory(category, c))
    decreases |items|
  {
    if |items| > 0 {
      var init := items[..|items| - 1];
      ItemsOfCategoryIsFilter(init, category, c);
      assert items == init + [items[|items| - 1]];
      FilterAppend(init, items[|items| - 1], InCategory(category, c));
    }
  }

  /** No item seen so far belongs to a category that is not in the list yet. */
  lemma NewCategoryIsEmpty<T(!new)>(items: seq<T>, category: T -> string, c: string)
    requires c !in CategoryList(items, category)
    ensures ItemsOfCategory(items, category, c) == []
  {
    CategoryListMembers(items, category, c);
    FilterEmpty(items, InCategory(category, c));
    ItemsOfCategoryIsFilter(items, category, c);
  }

  /** One step of the reduce adds exactly the pushed item to the cards. */
  lemma CardsStep<T>(order: seq<string>, groups: map<string, seq<T>>, c: string, x: T,
                     order': seq<string>, groups': map<string, seq<T>>)
    requires forall k :: k in order <==> k in groups
    requires NoDuplicates(order)
    requires c in groups ==> order' == order && groups' == groups[c := groups[c] + [x]]
    requires c !in groups ==> order' == order + [c] && groups' == groups[c := []][c := [] + [x]]
    ensures forall k :: k in order' ==> k in groups'
    ensures multiset(CardsInOrder(order', groups')) == multiset(CardsInOrder(order, groups)) + multiset{x}
  {
    if c in groups {
      CardsPush(order, groups, c, x);
    } else {
      assert groups' == groups[c := [x]] by {
        assert ([] + [x]) == [x];
      }
      CardsNewKey(order, groups, c, [x]);
    }
  }

  /** The accumulator after the reduce over `items`: one group per listed category. */
  function GroupsOf<T(!new)>(items: seq<T>, category: T -> string): (g: map<string, seq<T>>)
    ensures forall c :: c in g <==> c in CategoryList(items, category)
  {
    map c | c in CategoryList(items, category) :: ItemsOfCategory(items, category, c)
  }

  /** Pushing one more item extends the group of its category only. */
  lemma ItemsOfCategoryAppend<T>(items: seq<T>, x: T, category: T -> string, c: string)
    ensures ItemsOfCategory(items + [x], category, c) ==
            ItemsOfCategory(items, category, c) + (if category(x) == c then [x] else [])
  {
    assert (items + [x])[..|items|] == items;
  }

  /** Which keys the accumulator has after one more step of the reduce. */
  lemma GroupsOfDomain<T(!new)>(items: seq<T>, category: T -> string, i: nat)
    requires i < |items|
    ensures forall k :: k in GroupsOf(items[..i + 1], category) <==>
                        k in GroupsOf(items[..i], category) || k == category(items[i])
  {
    CategoryListStep(items, category, i);
    var before := CategoryList(items[..i], category);
    var after := CategoryList(items[..i + 1], category);
    forall k
      ensures k in GroupsOf(items[..i + 1], category) <==> k in GroupsOf(items[..i], category) || k == category(items[i])
    {
      assert k in GroupsOf(items[..i + 1], category) <==> k in after;
      assert k in GroupsOf(items[..i], category) <==> k in before;
    }
  }

  /** What one key holds after one more step of the reduce. */
  lemma GroupsOfValue<T(!new)>(items: seq<T>, category: T -> string, i: nat, k: string)
    requires i < |items| && k in GroupsOf(items[..i + 1], category)
    ensures var g := GroupsOf(items[..i], category);
            GroupsOf(items[..i + 1], category)[k] ==
              (if k in g then g[k] else []) + (if k == category(items[i]) then [items[i]] else [])
  {
    var before := items[..i];
    assert items[..i + 1] == before + [items[i]];
    ItemsOfCategoryAppend(before, items[i], category, k);
    if k !in GroupsOf(before, category) {
      NewCategoryIsEmpty(before, category, k);
    }
  }

  /** A map that changes as the reduce's step describes is the step's result. */
  lemma PushStep<T>(g: map<string, seq<T>>, g': map<string, seq<T>>, c: string, x: T)
    requires forall k :: k in g' <==> k in g || k == c
    requires forall k :: k in g' ==> g'[k] == (if k in g then g[k] else []) + (if k == c then [x] else [])
    ensures g' == if c in g then g[c := g[c] + [x]] else g[c := []][c := [] + [x]]
  {
    var h := if c in g then g[c := g[c] + [x]] else g[c := []][c := [] + [x]];
    forall k | k in g'
      ensures g'[k] == h[k]
    {
      if k != c {
        assert g'[k] == g[k] + [];
      }
    }
  }

  /** One step of the reduce, as the code takes it. */
  lemma GroupsOfStep<T(!new)>(items: seq<T>, category: T -> string, i: nat)
    requires i < |items|
    ensures var x := items[i];
            var g := GroupsOf(items[..i], category);
            GroupsOf(items[..i + 1], category) ==
              if category(x) in g then g[category(x) := g[category(x)] + [x]]
              else g[category(x) := []][category(x) := [] + [x]]
  {
    var g := GroupsOf(items[..i], category);
    var g' := GroupsOf(items[..i + 1], category);
    GroupsOfDomain(items, category, i);
    forall k | k in g'
      ensures g'[k] == (if k in g then g[k] else []) + (if k == category(items[i]) then [items[i]] else [])
    {
      GroupsOfValue(items, category, i, k);
    }
    PushStep(g, g', category(items[i]), items[i]);
  }

  /**
   * `items.reduce((acc, x) => { if (!acc[x.category]) acc[x.category] = [];
   * acc[x.category].push(x); return acc; }, {})`, with `order` the insertion
   * order of the keys, which is the order `Object.entries` lists them in.
   */
  method GroupByCategory<T(!new)>(items: seq<T>, category: T -> string)
    returns (order: seq<string>, groups: map<string, seq<T>>)
    ensures order == CategoryList(items, category)
    ensures forall c :: c in groups <==> c in order
    ensures forall c :: c in groups ==> groups[c] == ItemsOfCategory(items, category, c)
    ensures multiset(CardsInOrder(order, groups)) == multiset(items)
  {
    order := [];
    groups := map[];
    var i := 0;
    while i < |items|
      invariant 0 <= i <= |items|
      invariant order == CategoryList(items[..i], category)
      invariant groups == GroupsOf(items[..i], category)
    {
      var x := items[i];
      var c := category(x);
      CategoryListStep(items, category, i);
      GroupsOfStep(items, category, i);
      if c !in groups {
        groups := groups[c := []];
        order := order + [c];
      }
      groups := groups[c := groups[c] + [x]];
      i := i + 1;
    }
    assert items[..i] == items;
    GroupingKeepsEveryItem(items, category);
  }

  /** The reduce's last step adds the last item to the cards. */
  lemma CardsOfLastItem<T(!new)>(items: seq<T>, category: T -> string)
    requires |items| > 0
    ensures var n := |items| - 1;
            multiset(CardsInOrder(CategoryList(items, category), GroupsOf(items, category))) ==
            multiset(CardsInOrder(CategoryList(items[..n], category), GroupsOf(items[..n], category))) + multiset{items[n]}
  {
    var n := |items| - 1;
    var x := items[n];
    assert items[..n + 1] == items;
    CategoryListStep(items, category, n);
    CategoryListOrder(items[..n], category);
    GroupsOfStep(items, category, n);
    CardsStep(CategoryList(items[..n], category), GroupsOf(items[..n], category), category(x), x,
              CategoryList(items, category), GroupsOf(items, category));
  }

  /** The cards laid out group by group are the items, each exactly once. */
  lemma {:induction false} GroupingKeepsEveryItem<T(!new)>(items: seq<T>, category: T -> string)
    ensures multiset(CardsInOrder(CategoryList(items, category), GroupsOf(items, category))) == multiset(items)
    decreases |items|
  {
    if |items| > 0 {
      var n := |items| - 1;
      var x := items[n];
      calc {
        multiset(CardsInOrder(CategoryList(items, category), GroupsOf(items, category)));
        { CardsOfLastItem(items, category); }
        multiset(CardsInOrder(CategoryList(items[..n], category), GroupsOf(items[..n], category))) + multiset{x};
        { GroupingKeepsEveryItem(items[..n], category); }
        multiset(items[..n]) + multiset{x};
        { assert items == items[..n] + [x]; }
        multiset(items);
      }
    }
  }

  /**
   * Grouping partitions the items: each lands in the group of its own
   * category and in no other.
   */
  lemma GroupsPartition<T(!new)>(items: seq<T>, category: T -> string, x: T, c: string)
    requires x in items
    ensures x in ItemsOfCategory(items, category, c) <==> c == category(x)
  {
    ItemsOfCategoryIsFilter(items, category, c);
  }
}
