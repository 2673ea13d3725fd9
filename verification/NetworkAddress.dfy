/** Network addresses of SMTP peers. */
module NetworkAddress {

  /** A network address in the forms the Milter receives it. */
  datatype Addr = Invalid | V4(bits: nat) | V4In6(bits: nat) | V6(bits: nat) {
    predicate Valid() { !Invalid? }
    /** The IPv4 address behind an IPv4-mapped IPv6 address, else the address itself. */
    function Unmap(): Addr { if V4In6? then V4(bits) else this }
  }
}
