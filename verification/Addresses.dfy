/** Lists of email addresses, reduced to the set of their canonical forms. */
module Addresses {

  /** The canonical addresses in a list; "" marks what is not an address and is left out. */
  function Canonical(normalize: string -> string, addresses: seq<string>): set<string>
  {
    set i | 0 <= i < |addresses| && normalize(addresses[i]) != "" :: normalize(addresses[i])
  }

  lemma CanonicalSnoc(normalize: string -> string, addresses: seq<string>, i: nat)
    requires i < |addresses|
    ensures Canonical(normalize, addresses[..i + 1])
         == Canonical(normalize, addresses[..i]) + if normalize(addresses[i]) != "" then {normalize(addresses[i])} else {}
  {
    var more, fewer := addresses[..i + 1], addresses[..i];
    forall x | x in Canonical(normalize, fewer) ensures x in Canonical(normalize, more) {
      var k :| 0 <= k < i && normalize(fewer[k]) != "" && x == normalize(fewer[k]);
      assert more[k] == fewer[k];
    }
    assert more[i] == addresses[i];
  }

  /** Collects the canonical addresses of a list one by one. */
  method Collect(normalize: string -> string, addresses: seq<string>) returns (all: set<string>)
    ensures all == Canonical(normalize, addresses)
  {
    all := {};
    for i := 0 to |addresses|
      invariant all == Canonical(normalize, addresses[..i])
    {
      var address := normalize(addresses[i]);
      if address != "" {
        all := all + {address};
      }
      CanonicalSnoc(normalize, addresses, i);
    }
    assert addresses[..|addresses|] == addresses;
  }
}
