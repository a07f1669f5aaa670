/** The record types of the kiosk: catalog entries and the lines of an order. */
module Types {

  /** A catalog entry; `price` is in dollars, kept exact. */
  datatype MenuItem = MenuItem(
    id: string,
    name: string,
    price: real,
    imageUrl: string,
    emoji: string,
    aslSign: string)

  /**
   * One line of the order: the catalog entry it was copied from, the number of units and
   * whether the customer confirmed it. The source spreads the entry's fields into the line;
   * here the entry is kept whole.
   */
  datatype OrderItem = OrderItem(item: MenuItem, quantity: real, confirmed: bool)
}
