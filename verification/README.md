# jpashop domain core in Dafny

A model of the few pieces of sequential behaviour in the jpashop JPA tutorial
shop, with proofs about them:

- `Order.addOrderItem`: appends a line item unless that very object is
  already listed, re-parenting it to the order first (module `Orders`);
- the `OrderStatus` and `DeliveryStatus` enums with their stable codes and
  the JPA attribute converters that store them (modules `Orders`,
  `Deliveries`, with `Enums` for `Enum.valueOf`);
- `Item.addCategory`: a duplicate-free, append-only insert (module `Items`);
- `Category.addChild` as written: the argument is re-parented and then
  appended to its *own* `children` list (module `Categories`);
- `SignUpService.signUp`: reject a taken username, otherwise save the
  member (module `SignUp`, over an abstract member store).

The entities are immutable datatypes and the operations are pure functions
that return the new state. Entities that the source compares by identity
(`OrderItem`, `Category` and the `Order` that owns the items) live in heaps
keyed by address, and the lists hold `Lang.Ref` values. So `==` on
references is Java's reference identity. That is the equality
`List.contains` uses here, because none of these classes overrides
`equals`. A null reference is `Ref.Null`, and a null value field is
`Option.None`. Collection fields are never null (see "Left out"). A thrown
exception is `Result.Err`, which carries no state. That is exact for every
throw that is modelled: each one happens before anything has been changed.

Behaviour kept as written, not corrected:

- Decoding a status calls `valueOf`, which looks up the constant *name*
  ("ORDERED", "READY", …), not its code. So no code the converter writes
  ever decodes. `EncodedCodeNeverDecodes` proves this for both enums.
- `addChild` never adds any other category to the receiver's `children`.
  A category other than the receiver that is not already among the
  receiver's `children` is therefore appended to its own `children` again on
  every call. One that is already among them makes every call a no-op. As long as no two categories share one
  `children` list, the receiver's list changes in one case only: when a
  category is added to itself.
- `addOrderItem` re-parents an item without removing it from the list of
  the order it came from. That order then lists an item that points
  elsewhere.

`MemberRepository` (jpashop/src/main/java/jpabook/jpashop/user/repository/MemberRepository.java:6-7)
declares no `existsByUsername`, but the service and its test both call it.
It is modelled as the Spring Data derived query it names: some stored
member has exactly that username. A null username is matched with `IS NULL`.

## Model

| member | source | states |
|---|---|---|
| `Enums.Lookup` | jpashop/src/main/java/jpabook/chapter11/order/domain/Delivery.java:47 | finds a constant whose declared name is the given string; fails with no-enum-constant exactly when no constant has that name |
| `Enums.ValueOf` | jpashop/src/main/java/jpabook/chapter11/domain/Order.java:69 | `Enum.valueOf`: null raises NullPointerException; a result, when there is one, is a constant whose name is the input; it fails exactly when no constant has that name, with the rejected name |
| `Enums.LookupOwnName` | jpashop/src/main/java/jpabook/chapter11/domain/Order.java:69 | when constant names are distinct, looking up a constant's own name yields that constant |
| `Orders.OrderStatusCodes` | jpashop/src/main/java/jpabook/chapter11/domain/Order.java:47-58 | ORDERED, IN_CART and RETURNED have codes OS001, OS002 and OS003; no two statuses share a code |
| `Orders.ToDatabaseColumn` | jpashop/src/main/java/jpabook/chapter11/domain/Order.java:63-65 | encoding is total: null encodes as ORDERED's code "OS001", any other status as its own code |
| `Orders.ToEntityAttribute` | jpashop/src/main/java/jpabook/chapter11/domain/Order.java:68-70 | null fails with NullPointerException; a string decodes iff it is "ORDERED", "IN_CART" or "RETURNED", to the constant of that name; anything else fails with that string |
| `Orders.DecodeName` | jpashop/src/main/java/jpabook/chapter11/domain/Order.java:68-70 | decoding any constant's name returns that constant |
| `Orders.EncodedCodeNeverDecodes` | jpashop/src/main/java/jpabook/chapter11/domain/Order.java:63-70 | decode after encode fails for every input, null included: the written codes are not constant names |
| `Orders.AddOrderItem` | jpashop/src/main/java/jpabook/chapter11/domain/Order.java:38-43 | an item already listed leaves everything unchanged; otherwise a null item throws, and a non-null one is appended at the end, with the old list as prefix, while its `order` field becomes this order and nothing else changes; the item is listed afterwards, and a duplicate-free list stays duplicate-free |
| `Orders.AddOrderItemKeepsOwnership` | jpashop/src/main/java/jpabook/chapter11/domain/Order.java:38-43 | if every line item of the order points back to it, that still holds after the call |
| `Orders.AddOrderItemLeavesPreviousOwnerStale` | jpashop/src/main/java/jpabook/chapter11/domain/Order.java:39-41 | taking an item listed by another order leaves it in that order's list, whose back-references are then broken |
| `Orders.AddOrderItemIdempotent` | jpashop/src/main/java/jpabook/chapter11/domain/Order.java:39 | a second call with the same item changes nothing |
| `Deliveries.DeliveryStatusCodes` | jpashop/src/main/java/jpabook/chapter11/order/domain/Delivery.java:25-36 | READY, DELIVERED, COMPLETED and RETURNED have codes D0000 to D0003; no two statuses share a code |
| `Deliveries.ToDatabaseColumn` | jpashop/src/main/java/jpabook/chapter11/order/domain/Delivery.java:41-43 | encoding is total: null encodes as READY's code "D0000", any other status as its own code |
| `Deliveries.ToEntityAttribute` | jpashop/src/main/java/jpabook/chapter11/order/domain/Delivery.java:46-48 | null fails with NullPointerException; a string decodes iff it is one of the four constant names, to that constant; anything else fails with that string |
| `Deliveries.DecodeName` | jpashop/src/main/java/jpabook/chapter11/order/domain/Delivery.java:46-48 | decoding any constant's name, e.g. "READY", returns that constant |
| `Deliveries.EncodedCodeNeverDecodes` | jpashop/src/main/java/jpabook/chapter11/order/domain/Delivery.java:41-48 | decode after encode fails for every input, null included |
| `Items.AddCategory` | jpashop/src/main/java/jpabook/jpashop/item/domain/Item.java:34-38 | a category already listed leaves the item unchanged; otherwise it is appended at the end; afterwards the list holds exactly the old categories and the new one, stays duplicate-free, and id, name, price, stock quantity and kind are unchanged |
| `Items.AddCategoryIdempotent` | jpashop/src/main/java/jpabook/jpashop/item/domain/Item.java:35 | adding the same category twice equals adding it once |
| `Items.AddCategoriesSpec` | jpashop/src/main/java/jpabook/jpashop/item/domain/Item.java:32-38 | any series of calls keeps the old list as a prefix, ends with exactly the old and the added categories, and changes no other field; a duplicate-free list stays duplicate-free |
| `Categories.AddChild` | jpashop/src/main/java/jpabook/jpashop/item/domain/Category.java:29-34 | an argument already among this category's children changes nothing; otherwise a null argument throws, and a non-null one gets this category as its parent and is appended to its own `children`; no other category changes, and this category is unchanged unless it is the argument |
| `Categories.AddChildTimesAppendsEachTime` | jpashop/src/main/java/jpabook/jpashop/item/domain/Category.java:30-32 | n calls with another category not among this one's children append it n times to its own `children`, leaving this category and all others unchanged |
| `Categories.AddChildTimesListedIsNoOp` | jpashop/src/main/java/jpabook/jpashop/item/domain/Category.java:30 | any number of calls with a category already among this one's children leave every category unchanged |
| `Categories.AddChildNotIdempotent` | jpashop/src/main/java/jpabook/jpashop/item/domain/Category.java:30-32 | a second call with the same child does not give the result of the first |
| `Categories.AddChildToItself` | jpashop/src/main/java/jpabook/jpashop/item/domain/Category.java:29-34 | adding a category to itself makes it its own parent and appends it to its own `children`; a second call then changes nothing |
| `SignUp.SignUp` | jpashop/src/main/java/jpabook/jpashop/user/web/SignUpService.java:17-28 | the username counts as taken when some stored member has exactly that username, a null matching a null (`existsUsername`, `ExistsByUsername`); a null member throws; a taken username throws AlreadyExistsUsername with that username as message and leaves the store unchanged; otherwise the member is saved once, at the end of the store, and returned; after a success the username exists in the store |
| `SignUp.SignUpKeepsUsernamesUnique` | jpashop/src/main/java/jpabook/jpashop/user/web/SignUpService.java:20-23 | if no two stored members share a username, that still holds after sign-up |
| `SignUp.SecondSignUpRejected` | jpashop/src/main/java/jpabook/jpashop/user/web/SignUpService.java:20-23 | after one member signs up, a second with the same username is rejected with that username and saves nothing |
| `SignUp.SignUpSavesOnce` | jpashop/src/main/java/jpabook/jpashop/user/web/SignUpService.java:23 | a successful sign-up adds exactly one copy of the given member to the store |

## Left out

- `Order.orderDate` (a `LocalDate`) is not modelled. No modelled operation reads it.
- JPA mapping semantics are not modelled: cascades, `mappedBy` synchronisation by the persistence context, id generation and lazy loading. `id` fields are plain nullable values.
- `@Transactional` boundaries and concurrent sign-ups are not modelled. The operations are single-threaded.
- The repository `save` is modelled as inserting a new entity and returning it. Merging an entity whose id is already stored, and assigning a fresh id, belong to the persistence layer and are not modelled.
- The message text of the `IllegalArgumentException` thrown by `valueOf` (it includes the enum's class name) is reduced to the rejected name.
- `Delivery.address` uses the jpashop `Address` shape, because chapter 11's `Address` class is not part of this model. `OrderItem.item` refers to chapter 11's `Item`, which is not part of this model either; it is kept as a plain reference. The `Book`, `Album` and `Movie` fields of `ItemKind` come from the chapter 11 classes, which extend chapter 11's `Item`, not the jpashop `Item` modelled here; the jpashop `Item` has no subclasses in the modelled files.
- Collection fields (`Order.orderItems`, `Item.categories`, `Category.children`) are never null. Lombok setters allow a caller to set one to null. `addOrderItem` and `addCategory` would then throw NullPointerException at the `contains` check. `addChild` would throw after it has already set the argument's parent when the argument's `children` is null. None of these paths is modelled.
- Each collection field is one entity's own list: no two entities share a collection object. Lombok setters allow sharing, e.g. `b.setChildren(a.getChildren())`. After that, `a.addChild(b)` also appends `b` to `a`'s children, and a second call does nothing. Two orders that share `orderItems` both gain the item. This aliasing is not modelled, so the frame clauses of `AddChild` and `AddOrderItem` and the lemma `AddChildTimesAppendsEachTime` hold only for unshared lists.
- Placing and cancelling orders, totals, stock adjustment, category cycle checks and delivery state transitions have no code in the modelled files, so they are not modelled.
- The Spring Data repository interfaces, the application bootstrap, the sign-up controller and the persistence tests are plumbing outside this model.
