/**
 * The customer search form of the frontend
 * (housecallpro-frontend/src/components/CustomerForm.tsx): the body of the debounced
 * `fetchCustomers` as a transition of the form's `customers`, `loading` and `error`
 * state, and the display helpers `getFullName` and `formatAddress`.
 *
 * The response of `POST /api/customers/exist` is an input of the transition; the
 * debounce timer, its cancellation and the rendering are not modelled.
 */
module CustomerForm {
  import opened Seqs
  import opened Text
  import opened Records

  /** The body the form posts to `/api/customers/exist`: the four fields as typed. */
  datatype ExistRequest = ExistRequest(name: string, email: string, phone: string, address: string)

  /** How that request ends: the response data, or a thrown error. */
  datatype ExistResponse = Answered(customerExists: bool, customers: seq<Customer>) | RequestFailed

  const FetchError := "Failed to fetch customers."

  /** The fields that go into the query, in the order they are examined. */
  function QueryFields(name: string, email: string, phone: string, address: string): seq<string> {
    [name, email, phone, address]
  }

  /** `queryParts` and `query`: the non-empty fields pushed in order, joined by one space. */
  method BuildQuery(name: string, email: string, phone: string, address: string)
    returns (queryParts: seq<string>, query: string)
    ensures queryParts == NonEmpty(QueryFields(name, email, phone, address))
    ensures query == Join(queryParts, " ")
  {
    queryParts := [];
    if Truthy(name) {
      queryParts := queryParts + [name];
    }
    NonEmptyPush([], name);
    assert [] + [name] == [name];
    if Truthy(email) {
      queryParts := queryParts + [email];
    }
    NonEmptyPush([name], email);
    if Truthy(phone) {
      queryParts := queryParts + [phone];
    }
    NonEmptyPush([name, email], phone);
    if Truthy(address) {
      queryParts := queryParts + [address];
    }
    NonEmptyPush([name, email, phone], address);
    assert [name, email, phone] + [address] == QueryFields(name, email, phone, address);
    query := Join(queryParts, " ");
  }

  /** The query parts are exactly the non-empty fields, in field order, one per field even
      when two fields hold the same text; there are none exactly when every field is empty;
      and the query splits on spaces back into the parts when no field holds a space. */
  lemma QueryPartsAreTruthyFields(name: string, email: string, phone: string, address: string)
    ensures var parts := NonEmpty(QueryFields(name, email, phone, address));
      && (forall p :: multiset(parts)[p] == if Truthy(p) then multiset(QueryFields(name, email, phone, address))[p] else 0)
      && (forall p :: p in parts <==> p in QueryFields(name, email, phone, address) && Truthy(p))
      && IsSubsequence(parts, QueryFields(name, email, phone, address))
      && (parts == [] <==> name == "" && email == "" && phone == "" && address == "")
    ensures var parts := NonEmpty(QueryFields(name, email, phone, address));
      parts != [] && (forall p :: p in parts ==> ' ' !in p) ==> Split(Join(parts, " "), " ") == parts
  {
    var fields := QueryFields(name, email, phone, address);
    var parts := NonEmpty(fields);
    NonEmptyMembers(fields);
    NonEmptyKeepsOrder(fields);
    assert name in fields && email in fields && phone in fields && address in fields;
    if parts != [] && (forall p :: p in parts ==> ' ' !in p) {
      forall k | 0 <= k < |parts|
        ensures Delimits(parts[k], " ")
      {
        assert parts[k] in parts;
        DelimitsWithoutChar(parts[k], " ");
      }
      SplitJoin(parts, " ");
    }
  }

  /** The customers the form shows once a request has answered: the returned list when the
      backend says they exist and the list is not empty, and none otherwise. */
  function ShownCustomers(response: ExistResponse): (shown: seq<Customer>)
    ensures shown != [] <==> response.Answered? && response.customerExists && response.customers != []
    ensures shown != [] ==> shown == response.customers
  {
    match response
    case Answered(customerExists, customers) => if customerExists && |customers| > 0 then customers else []
    case RequestFailed => []
  }

  /** The form's search state. */
  class SearchState {
    var customers: seq<Customer>
    var loading: bool
    var error: Option<string>

    /** The initial `useState` values. */
    constructor ()
      ensures customers == [] && !loading && error == None
    {
      customers := [];
      loading := false;
      error := None;
    }

    /** Before the request: `setLoading(true)` and `setError(null)`. */
    method StartRequest()
      modifies this
      ensures loading && error == None && customers == old(customers)
    {
      loading := true;
      error := None;
    }

    /** After the request, on success and on failure alike: the shown customers follow the
        response, a failure sets the error message, and `loading` is cleared. */
    method FinishRequest(response: ExistResponse)
      modifies this
      ensures !loading
      ensures customers == ShownCustomers(response)
      ensures error == if response.RequestFailed? then Some(FetchError) else old(error)
    {
      match response {
        case Answered(customerExists, found) =>
          if customerExists && |found| > 0 {
            customers := found;
          } else {
            customers := [];
          }
        case RequestFailed =>
          error := Some(FetchError);
          customers := [];
      }
      loading := false;
    }

    /** The body of `fetchCustomers`. With every field empty it clears the list and the error
        and sends nothing; otherwise it sends the four fields and applies `response`. */
    method FetchCustomers(name: string, email: string, phone: string, address: string, response: ExistResponse)
      returns (sent: Option<ExistRequest>)
      modifies this
      ensures sent == None <==> name == "" && email == "" && phone == "" && address == ""
      ensures sent == None ==> customers == [] && error == None && loading == old(loading)
      ensures sent != None ==> sent.value == ExistRequest(name, email, phone, address)
      ensures sent != None ==> !loading && customers == ShownCustomers(response)
      ensures sent != None ==> error == if response.RequestFailed? then Some(FetchError) else None
    {
      var queryParts, query := BuildQuery(name, email, phone, address);
      QueryPartsAreTruthyFields(name, email, phone, address);
      if |queryParts| == 0 {
        customers := [];
        error := None;
        return None;
      }
      StartRequest();
      sent := Some(ExistRequest(name, email, phone, address));
      FinishRequest(response);
    }
  }

  /** `getFullName`: first and last name around one space, which a split on the space undoes
      when neither name holds a space. */
  function FullName(c: Customer): (full: string)
    ensures |full| == |c.firstName| + 1 + |c.lastName|
    ensures full[..|c.firstName|] == c.firstName && full[|c.firstName|] == ' '
    ensures full[|c.firstName| + 1..] == c.lastName
  {
    c.firstName + " " + c.lastName
  }

  /** The full name splits on its space back into the two names, when neither holds a space. */
  lemma FullNameSplits(c: Customer)
    requires ' ' !in c.firstName && ' ' !in c.lastName
    ensures Split(FullName(c), " ") == [c.firstName, c.lastName]
  {
    DelimitsWithoutChar(c.firstName, " ");
    DelimitsWithoutChar(c.lastName, " ");
    SplitJoin([c.firstName, c.lastName], " ");
    assert [c.firstName, c.lastName][1..] == [c.lastName];
  }

  /** The parts of an address line: the street always, then each of the second street line,
      city, state, zip and country that is present. */
  function AddressParts(a: Address): seq<string> {
    [a.street] + NonEmpty(OptionalParts(a))
  }

  /** The optional fields of an address, in the order they are examined. */
  function OptionalParts(a: Address): seq<string> {
    [a.streetLine2, a.city, a.state, a.zip, a.country]
  }

  /** The parts begin with the street, and the rest are exactly the present optional fields in
      their order, one per field even when two fields hold the same text; when no field holds
      a comma the display text splits back into the parts. */
  lemma AddressPartsInOrder(a: Address)
    ensures AddressParts(a)[0] == a.street
    ensures forall p :: multiset(AddressParts(a)[1..])[p] == if Truthy(p) then multiset(OptionalParts(a))[p] else 0
    ensures forall p :: p in AddressParts(a)[1..] <==> p in OptionalParts(a) && Truthy(p)
    ensures IsSubsequence(AddressParts(a)[1..], OptionalParts(a))
    ensures (forall p :: p in AddressParts(a) ==> ',' !in p) ==>
      Split(Join(AddressParts(a), ", "), ", ") == AddressParts(a)
  {
    var optional := OptionalParts(a);
    var parts := AddressParts(a);
    assert parts[1..] == NonEmpty(optional);
    NonEmptyMembers(optional);
    NonEmptyKeepsOrder(optional);
    if forall p :: p in parts ==> ',' !in p {
      forall k | 0 <= k < |parts|
        ensures Delimits(parts[k], ", ")
      {
        assert parts[k] in parts;
        DelimitsWithoutChar(parts[k], ", ");
      }
      SplitJoin(parts, ", ");
    }
  }

  /** One more `if (x) parts.push(x)` after the street adds `x` at the end when it is truthy. */
  lemma PushAfterStreet(street: string, examined: seq<string>, x: string)
    ensures [street] + NonEmpty(examined + [x]) == [street] + NonEmpty(examined) + if Truthy(x) then [x] else []
  {
    NonEmptyPush(examined, x);
  }

  /** `formatAddress`: "N/A" without addresses; otherwise only the first address counts, and
      its parts are pushed in turn and joined by ", ". */
  method FormatAddress(addresses: seq<Address>) returns (text: string)
    ensures addresses == [] ==> text == "N/A"
    ensures addresses != [] ==> text == Join(AddressParts(addresses[0]), ", ")
  {
    if |addresses| == 0 {
      return "N/A";
    }
    var addr := addresses[0];
    var parts := [addr.street];
    ghost var examined: seq<string> := [];
    if Truthy(addr.streetLine2) {
      parts := parts + [addr.streetLine2];
    }
    PushAfterStreet(addr.street, examined, addr.streetLine2);
    examined := examined + [addr.streetLine2];
    assert parts == [addr.street] + NonEmpty(examined);
    if Truthy(addr.city) {
      parts := parts + [addr.city];
    }
    PushAfterStreet(addr.street, examined, addr.city);
    examined := examined + [addr.city];
    assert parts == [addr.street] + NonEmpty(examined);
    if Truthy(addr.state) {
      parts := parts + [addr.state];
    }
    PushAfterStreet(addr.street, examined, addr.state);
    examined := examined + [addr.state];
    assert parts == [addr.street] + NonEmpty(examined);
    if Truthy(addr.zip) {
      parts := parts + [addr.zip];
    }
    PushAfterStreet(addr.street, examined, addr.zip);
    examined := examined + [addr.zip];
    assert parts == [addr.street] + NonEmpty(examined);
    if Truthy(addr.country) {
      parts := parts + [addr.country];
    }
    PushAfterStreet(addr.street, examined, addr.country);
    examined := examined + [addr.country];
    assert examined == OptionalParts(addr);
    assert parts == AddressParts(addr);
    text := Join(parts, ", ");
  }
}
