/** The rows of the marketplace database and the enumerations they use.
    Keys are natural numbers that start from 1; key 0 stands for the system actor. */
module Entities {

  datatype Option<+T> = None | Some(value: T)

  datatype ProductStatus = OnSale | Sold | OffShelf

  datatype OrderStatus =
    | PendingPayment
    | PendingShipment
    | Shipped
    | Received
    | Completed
    | OrderCancelled

  datatype Rating = Good | Neutral | Bad

  // The life of an exchange proposal: the first two statuses are active, the others terminal.
  datatype Status = Pending | Countered | Accepted | Rejected | Cancelled | Expired

  datatype Party = Offeror | Offeree | System

  datatype Side = OfferSide | TargetSide

  // What a history entry records.
  datatype Action = Create | Counter | Accept | Reject | Cancel | Expire

  datatype ErrorCode =
    | BadRequest
    | ProductNotFound
    | ProductSold
    | Forbidden
    | Conflict
    | AddressNotFound
    | OrderNotFound
    | NotOrderOwner
    | OrderStateInvalid
    | CannotSelfReview
    | ReviewExists
    | UserNotFound
    | ExchangeNotFound
    | ExchangeStateInvalid
    | NotExchangeParty
    | ExchangeItemConflict
    | ExchangeRoundExhausted
    | ExchangeTurnInvalid
    | ExchangeInvalidItems
    | ExchangeExpired

  // What a seller writes about a product.
  datatype Listing = Listing(title: string, description: string, originalPrice: int, price: int,
                             condition: string, category: string, images: seq<string>)

  predicate ValidCondition(c: string) {
    c in ["brand_new", "almost_new", "lightly_used", "obviously_used"]
  }

  predicate ValidCategory(c: string) {
    c in ["digital", "clothing", "books", "home", "sports", "other"]
  }

  datatype Product = Product(seller: nat, status: ProductStatus, listing: Listing)

  datatype Order = Order(buyer: nat, seller: nat, product: nat, quantity: nat, total: int, status: OrderStatus)

  datatype Review = Review(order: nat, product: nat, reviewer: nat, reviewee: nat, rating: Rating)

  // A product as it looked when the proposal was made.
  datatype Item = Item(product: nat, owner: nat, side: Side, title: string, price: int, image: string)

  datatype Entry = Entry(actor: nat, role: Party, action: Action, note: string, amount: int, payer: Party, at: int)

  datatype Proposal = Proposal(
    offeror: nat, offeree: nat,
    status: Status, turn: Party, round: nat,
    note: string, amount: int, payer: Party,
    acceptedAt: Option<int>, rejectedAt: Option<int>, cancelledAt: Option<int>,
    expiresAt: int, lastActionBy: nat,
    items: seq<Item>, history: seq<Entry>)

  // The committed database; users maps a user to the credit score.
  datatype State = State(
    users: map<nat, int>,
    products: map<nat, Product>,
    proposals: map<nat, Proposal>,
    orders: map<nat, Order>,
    reviews: map<nat, Review>)

  const EMPTY := State(map[], map[], map[], map[], map[])

  predicate IsActive(s: Status) {
    s == Pending || s == Countered
  }

  // The proposal state machine: the statuses from which `to` may be entered.
  function Transitions(to: Status): seq<Status> {
    match to
    case Pending => [Pending]
    case Countered => [Pending]
    case Accepted => [Pending, Countered]
    case Rejected => [Pending, Countered]
    case Cancelled => [Pending, Countered]
    case Expired => [Pending, Countered]
  }

  // The order state machine, in the same form.
  function OrderTransitions(to: OrderStatus): seq<OrderStatus> {
    match to
    case PendingPayment => [PendingPayment]
    case PendingShipment => [PendingPayment]
    case Shipped => [PendingShipment]
    case Received => [Shipped]
    case Completed => [Received]
    case OrderCancelled => [PendingPayment, PendingShipment]
  }

  function ProductIds(p: Proposal): set<nat> {
    set i | 0 <= i < |p.items| :: p.items[i].product
  }
}
