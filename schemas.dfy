/** The records exchanged with the pricing engine's callers. */
module Schemas {

  /** One provider's offer: its name and the computed price. */
  datatype Quote = Quote(provider: string, price: real)
}
