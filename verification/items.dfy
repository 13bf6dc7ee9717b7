/**
 The catalog `Item` hierarchy and its category membership list.
 */
module Items {
  import opened Lang

  /** The concrete subclass of the abstract `Item`, with its own fields. */
  datatype ItemKind =
    | Book(author: Option<string>, isbn: Option<string>)
    | Album(artist: Option<string>, etc: Option<string>)
    | Movie(director: Option<string>, actor: Option<string>)

  /** `Item`: the base fields, the category list (references to `Category`
      objects) and the variant payload. */
  datatype Item = Item(
    id: Option<int64>,
    name: Option<string>,
    price: Option<int32>,
    stockQuantity: Option<int32>,
    categories: seq<Ref>,
    kind: ItemKind)

  /** `Item.addCategory`: append `category` unless the list already holds
      that very object. A null reference is a value like any other here and
      is appended once. Only `categories` can change. */
  function AddCategory(item: Item, category: Ref): (r: Item)
    ensures category in item.categories ==> r == item
    ensures category !in item.categories ==> r.categories == item.categories + [category]
    ensures category in r.categories
    ensures forall c :: c in r.categories <==> c in item.categories || c == category
    ensures NoDuplicates(item.categories) ==> NoDuplicates(r.categories)
    ensures r.id == item.id && r.name == item.name && r.price == item.price
    ensures r.stockQuantity == item.stockQuantity && r.kind == item.kind
  {
    if category in item.categories then item
    else item.(categories := item.categories + [category])
  }

  /** Adding a category a second time changes nothing. */
  lemma AddCategoryIdempotent(item: Item, category: Ref)
    ensures AddCategory(AddCategory(item, category), category) == AddCategory(item, category)
  {
  }

  /** `addCategory` called once per element of `cs`, left to right. */
  function AddCategories(item: Item, cs: seq<Ref>): Item
    decreases |cs|
  {
    if |cs| == 0 then item
    else AddCategories(AddCategory(item, cs[0]), cs[1..])
  }

  /** Any sequence of `addCategory` calls keeps the old list as a prefix,
      ends with exactly the old and the added categories, never introduces a
      duplicate into a duplicate-free list, and leaves every other field alone. */
  lemma {:induction false} AddCategoriesSpec(item: Item, cs: seq<Ref>)
    ensures item.categories <= AddCategories(item, cs).categories
    ensures forall c :: c in AddCategories(item, cs).categories <==> c in item.categories || c in cs
    ensures NoDuplicates(item.categories) ==> NoDuplicates(AddCategories(item, cs).categories)
    ensures AddCategories(item, cs).(categories := item.categories) == item
    decreases |cs|
  {
    if |cs| > 0 {
      var next := AddCategory(item, cs[0]);
      AddCategoriesSpec(next, cs[1..]);
      assert forall c :: c in cs <==> c == cs[0] || c in cs[1..] by {
        assert cs == [cs[0]] + cs[1..];
      }
    }
  }
}
