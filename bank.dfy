/** The record the service stores: one bank, keyed by its account number. */
module Model {

  /** The trust score. The table only stores and compares it, never computes with it. */
  type Trust = real

  /** A 32-bit signed integer, the width of the transaction fee. */
  newtype Int32 = x: int | -0x8000_0000 <= x < 0x8000_0000

  /** Equality is structural, on all three fields. */
  datatype Bank = Bank(accountNumber: string, trust: Trust, transactionFee: Int32)
}
