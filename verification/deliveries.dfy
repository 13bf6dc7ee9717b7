/**
 `Delivery` of chapter 11, its `DeliveryStatus` enum and the converter that
 stores the status as a code.
 */
module Deliveries {
  import opened Lang
  import Enums
  import Members

  /** `Delivery.DeliveryStatus`, constants in declaration order. */
  datatype DeliveryStatus = Ready | Delivered | Completed | Returned {

    /** The declared constant name, which `valueOf` looks up. */
    function Name(): string {
      match this
      case Ready => "READY"
      case Delivered => "DELIVERED"
      case Completed => "COMPLETED"
      case Returned => "RETURNED"
    }

    /** The stable code stored in the database column. */
    function Code(): string {
      match this
      case Ready => "D0000"
      case Delivered => "D0001"
      case Completed => "D0002"
      case Returned => "D0003"
    }
  }

  /** `DeliveryStatus.values()`. */
  const DeliveryStatusValues: seq<DeliveryStatus> := [Ready, Delivered, Completed, Returned]

  /** `Delivery`: a status and an embedded address. Kept as the field layout
      of the entity whose status the converter stores; no operation here
      reads it, and `Order.delivery` refers to it only by reference. */
  datatype Delivery = Delivery(
    id: Option<int64>,
    status: Option<DeliveryStatus>,
    address: Option<Members.Address>)

  /** `DeliveryStatusConverter.convertToDatabaseColumn`: total; a null status
      is stored as the code of `READY`, any other status as its own code. */
  function ToDatabaseColumn(attribute: Option<DeliveryStatus>): (code: string)
    ensures attribute.None? ==> code == Ready.Code() == "D0000"
    ensures attribute.Some? ==> code == attribute.value.Code()
    ensures exists v: DeliveryStatus :: v.Code() == code
  {
    match attribute
    case None => Ready.Code()
    case Some(status) => status.Code()
  }

  /** `DeliveryStatusConverter.convertToEntityAttribute`, which calls
      `DeliveryStatus.valueOf`: only a constant name decodes. */
  function ToEntityAttribute(dbData: Option<string>): (r: Result<DeliveryStatus, Exception>)
    ensures dbData.None? ==> r == Err(NullPointer)
    ensures r.Ok? ==> dbData == Some(r.value.Name())
    ensures dbData.Some? ==>
      (r.Ok? <==> dbData.value in {"READY", "DELIVERED", "COMPLETED", "RETURNED"})
    ensures dbData.Some? && r.Err? ==> r.error == NoEnumConstant(dbData.value)
  {
    Enums.ValueOf(DeliveryStatusValues, (s: DeliveryStatus) => s.Name(), dbData)
  }

  /** The code table: each status has the code the source assigns, and no
      two statuses share a code. */
  lemma DeliveryStatusCodes()
    ensures Ready.Code() == "D0000" && Delivered.Code() == "D0001"
    ensures Completed.Code() == "D0002" && Returned.Code() == "D0003"
    ensures forall a: DeliveryStatus, b: DeliveryStatus :: a.Code() == b.Code() ==> a == b
  {
  }

  /** Decoding a constant's name gives back that constant, e.g. "READY" gives `Ready`. */
  lemma DecodeName(v: DeliveryStatus)
    ensures ToEntityAttribute(Some(v.Name())) == Ok(v)
  {
    Enums.LookupOwnName(DeliveryStatusValues, (s: DeliveryStatus) => s.Name(), v);
  }

  /** Decoding does not invert encoding: every code the converter writes,
      the null default included, fails to decode. */
  lemma EncodedCodeNeverDecodes(attribute: Option<DeliveryStatus>)
    ensures ToEntityAttribute(Some(ToDatabaseColumn(attribute)))
         == Err(NoEnumConstant(ToDatabaseColumn(attribute)))
  {
  }
}
