/** The parsed input: items with their internal utility, and sequences of them. */
module Transactions {
  /** One item of a sequence and its internal utility. */
  datatype Item = Item(id: int, internalUtility: int)

  /** A sequence's items, in input order, and the sequence utility the dataset gives for it. */
  datatype Sequence = Sequence(items: seq<Item>, sUtility: int)
}
