/** Value types of the trading domain (include/broker_exec/domain, include/broker_exec/errors),
    reduced to the fields control flow reads. Prices are paise. */
module Domain {
  import opened Options

  datatype Side = Buy | Sell

  datatype OrderType = Market | Limit | StopLoss | StopLossMarket

  datatype Product = Intraday | Delivery | Margin | Normal

  datatype OrderState =
    | Created
    | Validated
    | PendingSend
    | Sent
    | Acknowledged
    | PartiallyFilled
    | Filled
    | Rejected
    | Cancelled
    | Unknown
    | Reconciled
    | PartiallyPlaced
    | ManualInterventionRequired

  datatype OrderIntent = OrderIntent(
    clientRef: string,
    symbol: string,
    side: Side,
    quantity: int,
    price: int,
    trigger: Option<int>,
    orderType: OrderType,
    product: Product,
    strategy: string)

  datatype Order = Order(
    intent: OrderIntent,
    state: OrderState,
    brokerOrderId: string,
    filledQty: int,
    avgPrice: int)

  datatype Instrument = Instrument(exchange: string, lotSize: int, tickSize: int, freezeQty: int)

  datatype ErrorCategory =
    | TransientError
    | RateLimited
    | Network
    | Timeout
    | Auth
    | SessionExpired
    | Validation
    | InsufficientFunds
    | RiskRejected
    | NotSupported
    | DuplicateOrder
    | OrderNotFound
    | BrokerRejected
    | MarketClosed
    | DataStale
    | Internal
    | UnknownError

  datatype SuggestedAction =
    | RetrySafe
    | DoNotRetry
    | ReconcileFirst
    | BlockStrategy
    | ReEstablishSession
    | CancelAll
    | SquareOffAll
    | RaiseAlert

  datatype Error = Error(category: ErrorCategory, action: SuggestedAction)

  /** May the order have reached the exchange although the call failed? One rule, used by the
      dispatcher and by the basket executor. */
  predicate MayHaveReachedExchange(e: Error) {
    e.action.ReconcileFirst? || e.category.Timeout? || e.category.Network? || e.category.UnknownError?
  }
}
