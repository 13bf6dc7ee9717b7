/**
 The order aggregate of chapter 11: `Order`, its line items, its
 `OrderStatus` enum and the converter that stores the status as a code.
 */
module Orders {
  import opened Lang
  import Enums

  /** `Order.OrderStatus`, constants in declaration order. */
  datatype OrderStatus = Ordered | InCart | Returned {

    /** The declared constant name, which `valueOf` looks up. */
    function Name(): string {
      match this
      case Ordered => "ORDERED"
      case InCart => "IN_CART"
      case Returned => "RETURNED"
    }

    /** The stable code stored in the database column. */
    function Code(): string {
      match this
      case Ordered => "OS001"
      case InCart => "OS002"
      case Returned => "OS003"
    }
  }

  /** `OrderStatus.values()`. */
  const OrderStatusValues: seq<OrderStatus> := [Ordered, InCart, Returned]

  /** `OrderStatusConverter.convertToDatabaseColumn`: a null status is stored
      as the code of `ORDERED`; any other status as its own code. */
  function ToDatabaseColumn(attribute: Option<OrderStatus>): (code: string)
    ensures attribute.None? ==> code == Ordered.Code() == "OS001"
    ensures attribute.Some? ==> code == attribute.value.Code()
    ensures exists v: OrderStatus :: v.Code() == code
  {
    match attribute
    case None => Ordered.Code()
    case Some(status) => status.Code()
  }

  /** `OrderStatusConverter.convertToEntityAttribute`, which calls
      `OrderStatus.valueOf`: only a constant name decodes. */
  function ToEntityAttribute(dbData: Option<string>): (r: Result<OrderStatus, Exception>)
    ensures dbData.None? ==> r == Err(NullPointer)
    ensures r.Ok? ==> dbData == Some(r.value.Name())
    ensures dbData.Some? ==>
      (r.Ok? <==> dbData.value in {"ORDERED", "IN_CART", "RETURNED"})
    ensures dbData.Some? && r.Err? ==> r.error == NoEnumConstant(dbData.value)
  {
    Enums.ValueOf(OrderStatusValues, (s: OrderStatus) => s.Name(), dbData)
  }

  /** The code table: each status has the code the source assigns, and no
      two statuses share a code. */
  lemma OrderStatusCodes()
    ensures Ordered.Code() == "OS001" && InCart.Code() == "OS002" && Returned.Code() == "OS003"
    ensures forall a: OrderStatus, b: OrderStatus :: a.Code() == b.Code() ==> a == b
  {
  }

  /** Decoding a constant's name gives back that constant. */
  lemma DecodeName(v: OrderStatus)
    ensures ToEntityAttribute(Some(v.Name())) == Ok(v)
  {
    Enums.LookupOwnName(OrderStatusValues, (s: OrderStatus) => s.Name(), v);
  }

  /** Decoding does not invert encoding: every code the converter writes,
      the null default included, fails to decode. */
  lemma EncodedCodeNeverDecodes(attribute: Option<OrderStatus>)
    ensures ToEntityAttribute(Some(ToDatabaseColumn(attribute)))
         == Err(NoEnumConstant(ToDatabaseColumn(attribute)))
  {
  }

  /** `OrderItem` (chapter 11): a line of an order. */
  datatype OrderItem = OrderItem(
    id: Option<int64>,
    item: Ref,
    order: Ref,
    orderPrice: Option<int32>,
    count: Option<int32>)

  /** `Order`; `orderDate` is not modelled. */
  datatype Order = Order(
    id: Option<int64>,
    member: Ref,
    orderItems: seq<Ref>,
    delivery: Ref,
    status: Option<OrderStatus>)

  /** The objects of the aggregate, by address. */
  datatype Heap = Heap(orders: map<nat, Order>, orderItems: map<nat, OrderItem>)

  /** `Order.addOrderItem`, called on the order at address `self`. If
      `orderItem` is already in the list nothing happens. Otherwise the item
      is re-parented to this order (a null item throws here, before the list
      is touched) and appended. */
  function AddOrderItem(h: Heap, self: nat, orderItem: Ref): (r: Result<Heap, Exception>)
    requires self in h.orders
    requires orderItem.Addr? ==> orderItem.address in h.orderItems
    ensures orderItem in h.orders[self].orderItems ==> r == Ok(h)
    ensures orderItem !in h.orders[self].orderItems && orderItem.Null? ==> r == Err(NullPointer)
    ensures r.Ok? ==> r.value.orders.Keys == h.orders.Keys && r.value.orderItems.Keys == h.orderItems.Keys
    ensures r.Ok? ==> orderItem in r.value.orders[self].orderItems
    ensures r.Ok? && NoDuplicates(h.orders[self].orderItems) ==> NoDuplicates(r.value.orders[self].orderItems)
    ensures orderItem !in h.orders[self].orderItems && orderItem.Addr? ==>
      && r.Ok?
      && r.value.orders[self].orderItems == h.orders[self].orderItems + [orderItem]
      && r.value.orders[self] == h.orders[self].(orderItems := r.value.orders[self].orderItems)
      && r.value.orderItems[orderItem.address] == h.orderItems[orderItem.address].(order := Addr(self))
    ensures r.Ok? ==> forall a :: a in h.orders && a != self ==> r.value.orders[a] == h.orders[a]
    ensures r.Ok? ==> forall a :: a in h.orderItems && Addr(a) != orderItem ==> r.value.orderItems[a] == h.orderItems[a]
  {
    var o := h.orders[self];
    if orderItem in o.orderItems then Ok(h)
    else if orderItem.Null? then Err(NullPointer)
    else
      var oi := h.orderItems[orderItem.address];
      var items := h.orderItems[orderItem.address := oi.(order := Addr(self))];
      var orders := h.orders[self := o.(orderItems := o.orderItems + [orderItem])];
      Ok(Heap(orders, items))
  }

  /** The back-reference invariant `mappedBy = "order"` relies on: every
      non-null line item of the order at `self` is allocated and points back to it. */
  predicate OwnsItsItems(h: Heap, self: nat)
    requires self in h.orders
  {
    forall r :: r in h.orders[self].orderItems && r.Addr? ==>
      r.address in h.orderItems && h.orderItems[r.address].order == Addr(self)
  }

  /** Adding an item keeps the order's back-references consistent. */
  lemma AddOrderItemKeepsOwnership(h: Heap, self: nat, orderItem: Ref)
    requires self in h.orders
    requires orderItem.Addr? ==> orderItem.address in h.orderItems
    requires OwnsItsItems(h, self)
    ensures AddOrderItem(h, self, orderItem).Ok? ==> OwnsItsItems(AddOrderItem(h, self, orderItem).value, self)
  {
  }

  /** Re-parenting does not remove the item from the order it came from: that
      order still lists the item, which now points elsewhere. */
  lemma AddOrderItemLeavesPreviousOwnerStale(h: Heap, self: nat, other: nat, orderItem: Ref)
    requires self in h.orders && other in h.orders && other != self
    requires orderItem.Addr? && orderItem.address in h.orderItems
    requires orderItem !in h.orders[self].orderItems
    requires orderItem in h.orders[other].orderItems
    ensures AddOrderItem(h, self, orderItem).Ok?
    ensures orderItem in AddOrderItem(h, self, orderItem).value.orders[other].orderItems
    ensures !OwnsItsItems(AddOrderItem(h, self, orderItem).value, other)
  {
  }

  /** Adding the same item a second time changes nothing. */
  lemma AddOrderItemIdempotent(h: Heap, self: nat, orderItem: Ref)
    requires self in h.orders
    requires orderItem.Addr? ==> orderItem.address in h.orderItems
    requires AddOrderItem(h, self, orderItem).Ok?
    ensures AddOrderItem(AddOrderItem(h, self, orderItem).value, self, orderItem) == AddOrderItem(h, self, orderItem)
  {
  }
}
