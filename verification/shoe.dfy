/** The inventory record: one shoe line item. */
module Shoes {

  /**
   A shoe record as built by `Shoe.__init__`: three text fields and two integers.
   Neither integer is constrained in sign; the script only ever checks that they are integers.
   */
  datatype Shoe = Shoe(country: string, code: string, product: string, cost: int, quantity: int)
  {
    /** `get_value`: the stock value of the line item. */
    function Value(): (v: int)
      ensures v == 0 <==> (cost == 0 || quantity == 0)
      ensures cost >= 0 && quantity >= 0 ==> v >= 0
      ensures cost > 0 && quantity > 0 ==> v >= cost && v >= quantity
    {
      quantity * cost
    }
  }
}
