/** The account-style transfer recorded in proof-of-work blocks
    (toychain/backend/src/transaction.cpp). A transfer is a value: the C++
    class has only a constructor, const getters and `toString`, so nothing
    changes it after construction. Its getters are this datatype's fields. */
module Transfers {

  import opened Options
  import opened Decimal

  /** Amounts are `double` in the C++ code; here they are whole numbers and
      `operator<<` on an amount is the decimal text of the integer. */
  datatype Transaction = Transaction(sender: string, recipient: string, amount: int)

  /** `sender + "->" + recipient + ":" + amount`, the text that feeds the
      block hash. The sender leads the text, and the amount can be read back
      from after the last ':' whatever the two addresses contain. */
  function ToString(t: Transaction): (r: string)
    ensures |r| > |t.sender| + 2 && r[..|t.sender| + 2] == t.sender + "->"
    ensures TrailingInt(r, ':') == Some(t.amount)
  {
    var head := t.sender + "->" + t.recipient;
    var r := head + [':'] + IntToDecimal(t.amount);
    TrailingIntRoundTrip(head, ':', t.amount);
    assert r[..|t.sender| + 2] == t.sender + "->";
    r
  }
}
