/**
 The catalog `Category` tree and `Category.addChild` exactly as it is written:
 the child is re-parented, but it is appended to its OWN `children` list, not
 to the list of the category the method is called on.
 */
module Categories {
  import opened Lang

  /** `Category`: an optional parent and a list of children, both references. */
  datatype Category = Category(
    id: Option<int64>,
    parent: Ref,
    children: seq<Ref>,
    name: Option<string>)

  /** The category objects, by address. */
  type CategoryHeap = map<nat, Category>

  /** `Category.addChild`, called on the category at address `self`. If
      `self`'s children already hold `category`, nothing happens. Otherwise
      `category.setParent(this)` runs (a null `category` throws here, before
      anything changes) and then `category.getChildren().add(category)`. */
  function AddChild(h: CategoryHeap, self: nat, category: Ref): (r: Result<CategoryHeap, Exception>)
    requires self in h
    requires category.Addr? ==> category.address in h
    ensures category in h[self].children ==> r == Ok(h)
    ensures category !in h[self].children && category.Null? ==> r == Err(NullPointer)
    ensures category !in h[self].children && category.Addr? ==>
      && r.Ok?
      && r.value.Keys == h.Keys
      && r.value[category.address].parent == Addr(self)
      && r.value[category.address].children == h[category.address].children + [category]
      && r.value[category.address].id == h[category.address].id
      && r.value[category.address].name == h[category.address].name
    ensures r.Ok? ==> forall a :: a in h && Addr(a) != category ==> a in r.value && r.value[a] == h[a]
    ensures r.Ok? && category != Addr(self) ==> r.value[self] == h[self]
  {
    if category in h[self].children then Ok(h)
    else if category.Null? then Err(NullPointer)
    else
      var reparented := h[category.address := h[category.address].(parent := Addr(self))];
      var c := reparented[category.address];
      Ok(reparented[category.address := c.(children := c.children + [category])])
  }

  /** `n` copies of `x`. */
  function Copies<T>(x: T, n: nat): (s: seq<T>)
    ensures |s| == n && forall i :: 0 <= i < n ==> s[i] == x
  {
    seq(n, _ => x)
  }

  /** `addChild(category)` called `n` times in a row on the category at `self`. */
  function AddChildTimes(h: CategoryHeap, self: nat, category: Ref, n: nat): (r: Result<CategoryHeap, Exception>)
    requires self in h
    requires category.Addr? ==> category.address in h
    ensures r.Ok? ==> r.value.Keys == h.Keys
    decreases n
  {
    if n == 0 then Ok(h)
    else match AddChildTimes(h, self, category, n - 1)
      case Err(e) => Err(e)
      case Ok(h') => AddChild(h', self, category)
  }

  /** `addChild` is not idempotent: for a category other than `self` that is
      not among `self`'s children, every one of `n` calls appends it to its own
      `children` again, since `self`'s children never gain it. Nothing else changes. */
  lemma {:induction false} AddChildTimesAppendsEachTime(h: CategoryHeap, self: nat, category: Ref, n: nat)
    requires self in h
    requires category.Addr? && category.address in h && category.address != self
    requires category !in h[self].children
    ensures AddChildTimes(h, self, category, n).Ok?
    ensures AddChildTimes(h, self, category, n).value[category.address].children
         == h[category.address].children + Copies(category, n)
    ensures AddChildTimes(h, self, category, n).value[self] == h[self]
    ensures forall a :: a in h && Addr(a) != category ==> AddChildTimes(h, self, category, n).value[a] == h[a]
    decreases n
  {
    if n > 0 {
      AddChildTimesAppendsEachTime(h, self, category, n - 1);
      var h' := AddChildTimes(h, self, category, n - 1).value;
      assert h[category.address].children + Copies(category, n)
          == h'[category.address].children + [category];
    }
  }

  /** A category already among `self`'s children, the usual state once the
      `mappedBy` list is loaded, makes any number of calls change nothing. */
  lemma {:induction false} AddChildTimesListedIsNoOp(h: CategoryHeap, self: nat, category: Ref, n: nat)
    requires self in h
    requires category.Addr? ==> category.address in h
    requires category in h[self].children
    ensures AddChildTimes(h, self, category, n) == Ok(h)
    decreases n
  {
    if n > 0 {
      AddChildTimesListedIsNoOp(h, self, category, n - 1);
    }
  }

  /** Two calls with the same fresh child differ from one: the second
      appends the child to its own list once more. */
  lemma AddChildNotIdempotent(h: CategoryHeap, self: nat, category: Ref)
    requires self in h
    requires category.Addr? && category.address in h && category.address != self
    requires category !in h[self].children
    ensures AddChild(h, self, category).Ok?
    ensures AddChild(AddChild(h, self, category).value, self, category) != AddChild(h, self, category)
  {
  }

  /** The one case where `self`'s own list changes: a category added to
      itself becomes its own parent and its own child, after which a second
      call changes nothing. */
  lemma AddChildToItself(h: CategoryHeap, self: nat)
    requires self in h
    requires Addr(self) !in h[self].children
    ensures AddChild(h, self, Addr(self)).Ok?
    ensures AddChild(h, self, Addr(self)).value[self].parent == Addr(self)
    ensures AddChild(h, self, Addr(self)).value[self].children == h[self].children + [Addr(self)]
    ensures AddChild(AddChild(h, self, Addr(self)).value, self, Addr(self)) == AddChild(h, self, Addr(self))
  {
  }
}
