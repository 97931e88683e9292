/** A number below 256 and the eight bits that say it. */
module Byte8 {
  type Byte = bv8

  lemma ByteBack(n: nat)
    requires n < 256
    ensures (n as Byte) as nat == n
  {
    var b := CountedTo(n);
    SameByte(b);
  }

  function CountedTo(n: nat): (b: Byte)
    requires n < 256
    ensures b as nat == n
  {
    if n == 0 then 0
    else
      OneMore(CountedTo(n - 1));
      CountedTo(n - 1) + 1
  }

  lemma OneMore(b: Byte)
    requires b < 255
    ensures (b + 1) as nat == b as nat + 1
  {
  }

  lemma SameByte(b: Byte)
    ensures (b as nat) as Byte == b
  {
  }
}
