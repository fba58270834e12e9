/** Values shared by every layer: machine-width numbers, venues and the canonical book event. */
module Types {
  const MAX64: nat := 0xFFFF_FFFF_FFFF_FFFF
  const MAX32: nat := 0xFFFF_FFFF

  type u64 = n: nat | n <= MAX64
  type u32 = n: nat | n <= MAX32
  type u8 = n: nat | n < 256

  datatype Option<+T> = None | Some(value: T)

  datatype Venue = Nasdaq | Iex | Cboe | Cme | Bitfinex

  const VENUE_SLOTS: nat := 5

  datatype Side = Buy | Sell | Unknown

  datatype EventType =
    | Add | AddMpid | Execute | ExecutePrice | Cancel | Delete | Replace
    | Trade | CrossTrade | Imbalance | System | StockDirectory | UnknownType

  datatype BookEvent = BookEvent(
    venue: Venue,
    kind: EventType,
    sequence: u64,
    exchangeTs: u64,
    ingestTs: u64,
    symbol: u64,
    orderId: u64,
    referenceOrderId: u64,
    qty: u32,
    price: u32,
    side: Side,
    rawType: u8)

  function VenueIndex(v: Venue): (i: nat)
    ensures i < VENUE_SLOTS
  {
    match v
    case Nasdaq => 0
    case Iex => 1
    case Cboe => 2
    case Cme => 3
    case Bitfinex => 4
  }

  ghost predicate SortedBySequence(s: seq<BookEvent>) {
    forall i, j :: 0 <= i < j < |s| ==> s[i].sequence <= s[j].sequence
  }

  /** A definition guarded by `Unsealed(u)` stays closed to the solver except where one is mentioned. */
  predicate Unsealed(u: bool) {
    true
  }

  /** Unsigned 64-bit increment. */
  function Inc64(n: u64): u64 {
    if n == MAX64 then 0 else n + 1
  }
}
