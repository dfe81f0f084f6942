/**
 * The records the system exchanges with the upstream field-service API. Only the
 * fields that the modelled code reads are kept; an optional string field that is
 * absent or null is `""` (see module Text).
 */
module Records {

  /** A postal address as the upstream API returns it and as the backend search takes it. */
  datatype Address = Address(
    street: string,
    streetLine2: string,
    city: string,
    state: string,
    zip: string,
    country: string)

  /** A customer record; `id` is its identity and the only key used to merge search results. */
  datatype Customer = Customer(
    id: string,
    firstName: string,
    lastName: string,
    email: string,
    mobileNumber: string,
    addresses: seq<Address>)

  /** The ids of a list of customers. */
  function Ids(cs: seq<Customer>): set<string> {
    set c | c in cs :: c.id
  }
}
