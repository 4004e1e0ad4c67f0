/** The gift record shared by both variants of the registry, its two-state
    status, and the per-gift transitions: claim, reset and a field edit. */
module Gifts {

  datatype Option<T> = None | Some(value: T)

  /** "Aún disponible" and "Ya fue comprado". */
  datatype Status = Available | Purchased

  /** An ISO-8601 timestamp as produced by `new Date().toISOString()`;
      the clock itself is a parameter of every operation that reads it. */
  type Timestamp = string

  /** One catalog entry. The price is held in cents. */
  datatype Gift = Gift(
    id: int,
    store: string,
    storeLink: string,
    item: string,
    description: string,
    quantity: int,
    price: int,
    status: Status,
    purchasedAt: Option<Timestamp>,
    purchaserName: string,
    imageUrl: string)

  /** The names of a gift's fields, so that "only this field changes" can be said. */
  datatype Field =
    | Id | StoreName | StoreLink | Item | Description | Quantity | Price
    | StatusField | PurchasedAt | PurchaserName | ImageUrl

  /** `a` and `b` agree on field `f`. */
  predicate SameField(a: Gift, b: Gift, f: Field) {
    match f
    case Id => a.id == b.id
    case StoreName => a.store == b.store
    case StoreLink => a.storeLink == b.storeLink
    case Item => a.item == b.item
    case Description => a.description == b.description
    case Quantity => a.quantity == b.quantity
    case Price => a.price == b.price
    case StatusField => a.status == b.status
    case PurchasedAt => a.purchasedAt == b.purchasedAt
    case PurchaserName => a.purchaserName == b.purchaserName
    case ImageUrl => a.imageUrl == b.imageUrl
  }

  /** The three fields a purchase writes and a reset clears. */
  predicate IsPurchaseField(f: Field) {
    f == StatusField || f == PurchasedAt || f == PurchaserName
  }

  /** `a` and `b` describe the same listing: they agree on every field
      except the purchase metadata. */
  predicate SameListing(a: Gift, b: Gift) {
    forall f :: !IsPurchaseField(f) ==> SameField(a, b, f)
  }

  /** The record invariant: a gift is Purchased exactly when it carries a
      purchase timestamp. */
  predicate Consistent(g: Gift) {
    g.status == Purchased <==> g.purchasedAt.Some?
  }

  /** The record after a successful claim by `name` at time `now`. */
  function Claimed(g: Gift, name: string, now: Timestamp): (r: Gift)
    ensures SameListing(r, g) && r.id == g.id
    ensures r.status == Purchased && r.purchasedAt == Some(now) && r.purchaserName == name
    ensures Consistent(r)
  {
    g.(status := Purchased, purchasedAt := Some(now), purchaserName := name)
  }

  /** The record after an administrator's reset. */
  function Cleared(g: Gift): (r: Gift)
    ensures SameListing(r, g) && r.id == g.id
    ensures r.status == Available && r.purchasedAt == None && r.purchaserName == ""
    ensures Consistent(r)
  {
    g.(status := Available, purchasedAt := None, purchaserName := "")
  }

  /** The edits the administrator's form makes, one per editable field.
      Quantity and price arrive already parsed. */
  datatype Edit =
    | SetStore(text: string)
    | SetStoreLink(text: string)
    | SetItem(text: string)
    | SetDescription(text: string)
    | SetQuantity(count: int)
    | SetPrice(cents: int)
    | SetImageUrl(text: string)

  /** The field an edit writes. */
  function EditedField(e: Edit): Field {
    match e
    case SetStore(_) => StoreName
    case SetStoreLink(_) => StoreLink
    case SetItem(_) => Item
    case SetDescription(_) => Description
    case SetQuantity(_) => Quantity
    case SetPrice(_) => Price
    case SetImageUrl(_) => ImageUrl
  }

  /** `g` holds the value that `e` writes. */
  predicate Holds(g: Gift, e: Edit) {
    match e
    case SetStore(s) => g.store == s
    case SetStoreLink(s) => g.storeLink == s
    case SetItem(s) => g.item == s
    case SetDescription(s) => g.description == s
    case SetQuantity(n) => g.quantity == n
    case SetPrice(c) => g.price == c
    case SetImageUrl(s) => g.imageUrl == s
  }

  /** `{...gift, [field]: value}`: the edited field takes the new value and
      every other field keeps its old one. */
  function ApplyEdit(g: Gift, e: Edit): (r: Gift)
    ensures Holds(r, e) && r.id == g.id
    ensures forall f :: f != EditedField(e) ==> SameField(r, g, f)
    ensures !IsPurchaseField(EditedField(e))
    ensures Consistent(g) ==> Consistent(r)
  {
    match e
    case SetStore(s) => g.(store := s)
    case SetStoreLink(s) => g.(storeLink := s)
    case SetItem(s) => g.(item := s)
    case SetDescription(s) => g.(description := s)
    case SetQuantity(n) => g.(quantity := n)
    case SetPrice(c) => g.(price := c)
    case SetImageUrl(s) => g.(imageUrl := s)
  }

  /** The blank gift an administrator adds: quantity 1, price 0, available,
      no purchase metadata, every text field empty. */
  function BlankGift(id: int): (r: Gift)
    ensures r.id == id && r.quantity == 1 && r.price == 0
    ensures r.status == Available && r.purchasedAt == None && r.purchaserName == ""
    ensures r.store == "" && r.storeLink == "" && r.item == "" && r.description == "" && r.imageUrl == ""
    ensures Consistent(r)
  {
    Gift(id, "", "", "", "", 1, 0, Available, None, "", "")
  }
}
