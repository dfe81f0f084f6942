/**
 * The backend's customer resolver (housecallpro-backend/src/services/housecallService.ts):
 * `findCustomerByQuery` turns the supplied fields into search strings, runs one
 * upstream search per string, reads a failed search as no hits, concatenates the
 * hits in query order and keeps the first record per customer id;
 * `findCustomerById` maps the three outcomes of a lookup by id.
 *
 * The upstream API is a parameter: a function from a request to its outcome. The
 * searches, which the source starts in parallel and joins with `Promise.all`, run
 * here one after another in query order; only that order reaches the result.
 */
module HousecallService {
  import opened Seqs
  import opened Text
  import opened Records

  /** The optional fields of a search; an absent string field is `""`. */
  datatype SearchFields = SearchFields(name: string, email: string, phone: string, address: Option<Address>)

  /** Page size sent with every search. */
  const PerPage: int := 50

  /** The query parameters of one `GET /customers` request. */
  datatype SearchRequest = SearchRequest(q: string, perPage: int)

  /** What a search request gives back: the `customers` of its response, or a thrown error. */
  datatype SearchOutcome = Found(customers: seq<Customer>) | Failed

  /** The upstream API as far as the resolver sees it. */
  type Upstream = SearchRequest -> SearchOutcome

  /** The fields that may become queries, in the order the resolver examines them. */
  function Candidates(fields: SearchFields): seq<string> {
    [fields.name, fields.email, fields.phone] +
    match fields.address
    case None => []
    case Some(a) => [a.street, a.streetLine2]
  }

  /** The search strings: the truthy candidates, in order. */
  function Queries(fields: SearchFields): seq<string> {
    NonEmpty(Candidates(fields))
  }

  /** The queries are exactly the non-empty fields, in field order, one per field even when
      two fields hold the same text; with every field empty or absent there is none. */
  lemma QueriesAreTruthyFields(fields: SearchFields)
    ensures forall q :: multiset(Queries(fields))[q] == if Truthy(q) then multiset(Candidates(fields))[q] else 0
    ensures forall q :: q in Queries(fields) <==> q in Candidates(fields) && Truthy(q)
    ensures IsSubsequence(Queries(fields), Candidates(fields))
    ensures Queries(fields) == [] <==>
      && !Truthy(fields.name) && !Truthy(fields.email) && !Truthy(fields.phone)
      && (fields.address.Some? ==> !Truthy(fields.address.value.street) && !Truthy(fields.address.value.streetLine2))
  {
    NonEmptyMembers(Candidates(fields));
    NonEmptyKeepsOrder(Candidates(fields));
  }

  /** Builds the query list by pushing each truthy field in turn. */
  method BuildQueries(fields: SearchFields) returns (queries: seq<string>)
    ensures queries == Queries(fields)
  {
    queries := [];
    if Truthy(fields.name) {
      queries := queries + [fields.name];
    }
    NonEmptyPush([], fields.name);
    assert [] + [fields.name] == [fields.name];
    assert queries == NonEmpty([fields.name]);
    if Truthy(fields.email) {
      queries := queries + [fields.email];
    }
    NonEmptyPush([fields.name], fields.email);
    assert queries == NonEmpty([fields.name, fields.email]);
    if Truthy(fields.phone) {
      queries := queries + [fields.phone];
    }
    NonEmptyPush([fields.name, fields.email], fields.phone);
    assert queries == NonEmpty([fields.name, fields.email, fields.phone]);
    if fields.address.Some? {
      var address := fields.address.value;
      if Truthy(address.street) {
        queries := queries + [address.street];
      }
      NonEmptyPush([fields.name, fields.email, fields.phone], address.street);
      assert [fields.name, fields.email, fields.phone] + [address.street] == [fields.name, fields.email, fields.phone, address.street];
      assert queries == NonEmpty([fields.name, fields.email, fields.phone, address.street]);
      if Truthy(address.streetLine2) {
        queries := queries + [address.streetLine2];
      }
      NonEmptyPush([fields.name, fields.email, fields.phone, address.street], address.streetLine2);
      assert [fields.name, fields.email, fields.phone, address.street] + [address.streetLine2]
        == [fields.name, fields.email, fields.phone, address.street, address.streetLine2];
      assert Candidates(fields) == [fields.name, fields.email, fields.phone, address.street, address.streetLine2];
    } else {
      assert Candidates(fields) == [fields.name, fields.email, fields.phone];
    }
  }

  /** One search for `q`; the `catch` turns a failure into no hits. */
  function Search(upstream: Upstream, q: string): seq<Customer> {
    match upstream(SearchRequest(q, PerPage))
    case Found(cs) => cs
    case Failed => []
  }

  /** `results.flat()`: the hits of every query, concatenated in query order. */
  function Merge(upstream: Upstream, queries: seq<string>): seq<Customer>
    decreases |queries|
  {
    if queries == [] then []
    else Merge(upstream, queries[..|queries| - 1]) + Search(upstream, queries[|queries| - 1])
  }

  /** Merging two runs of queries concatenates their hits. */
  lemma {:induction false} MergeAppend(upstream: Upstream, a: seq<string>, b: seq<string>)
    ensures Merge(upstream, a + b) == Merge(upstream, a) + Merge(upstream, b)
    decreases |b|
  {
    if b != [] {
      var init := b[..|b| - 1];
      MergeAppend(upstream, a, init);
      assert (a + b)[..|a + b| - 1] == a + init;
      assert (a + b)[|a + b| - 1] == b[|b| - 1];
    } else {
      assert a + b == a;
    }
  }

  /** A record is in the merged list exactly when some query's search found it. */
  lemma {:induction false} MergeMembers(upstream: Upstream, queries: seq<string>, c: Customer)
    ensures c in Merge(upstream, queries) <==>
      exists i :: 0 <= i < |queries| && c in Search(upstream, queries[i])
    decreases |queries|
  {
    if queries != [] {
      var init := queries[..|queries| - 1];
      MergeMembers(upstream, init, c);
      if c in Merge(upstream, queries) {
        if c !in Merge(upstream, init) {
          assert c in Search(upstream, queries[|queries| - 1]);
        } else {
          var i :| 0 <= i < |init| && c in Search(upstream, init[i]);
          assert queries[i] == init[i];
        }
      }
      if exists i :: 0 <= i < |queries| && c in Search(upstream, queries[i]) {
        var i :| 0 <= i < |queries| && c in Search(upstream, queries[i]);
        if i < |init| {
          assert init[i] == queries[i];
        }
      }
    }
  }

  /** A failed search contributes nothing: the merge is the same as if its query were absent. */
  lemma MergeSkipsFailed(upstream: Upstream, queries: seq<string>, i: nat)
    requires i < |queries| && upstream(SearchRequest(queries[i], PerPage)).Failed?
    ensures Merge(upstream, queries) == Merge(upstream, queries[..i] + queries[i + 1..])
  {
    var before, failed, after := queries[..i], [queries[i]], queries[i + 1..];
    assert queries == (before + failed) + after;
    MergeAppend(upstream, before + failed, after);
    MergeAppend(upstream, before, failed);
    MergeOne(upstream, queries[i]);
    MergeAppend(upstream, before, after);
  }

  /** A single query merges to its own hits. */
  lemma MergeOne(upstream: Upstream, q: string)
    ensures Merge(upstream, [q]) == Search(upstream, q)
  {
    assert [q][..0] == [];
  }

  /** The position of the first record with id `id`. */
  function FirstIndex(cs: seq<Customer>, id: string): (i: nat)
    requires id in Ids(cs)
    ensures i < |cs| && cs[i].id == id
    ensures forall j :: 0 <= j < i ==> cs[j].id != id
    decreases |cs|
  {
    if cs[0].id == id then 0
    else
      assert exists c :: c in cs[1..] && c.id == id by {
        var c :| c in cs && c.id == id;
        var k :| 0 <= k < |cs| && cs[k] == c;
        assert cs[1..][k - 1] == c;
      }
      FirstIndex(cs[1..], id) + 1
  }

  /** The deduplication the resolver specifies: walking the list, a record is kept unless a
      record with its id was kept already. */
  function FirstById(cs: seq<Customer>): seq<Customer>
    decreases |cs|
  {
    if cs == [] then []
    else
      var kept := FirstById(cs[..|cs| - 1]);
      if cs[|cs| - 1].id in Ids(kept) then kept else kept + [cs[|cs| - 1]]
  }

  /** Deduplication loses no id and invents none. */
  lemma {:induction false} FirstByIdIds(cs: seq<Customer>)
    ensures Ids(FirstById(cs)) == Ids(cs)
    decreases |cs|
  {
    if cs != [] {
      var init := cs[..|cs| - 1];
      var last := cs[|cs| - 1];
      FirstByIdIds(init);
      assert cs == init + [last];
      assert Ids(cs) == Ids(init) + {last.id};
      assert Ids(FirstById(init) + [last]) == Ids(FirstById(init)) + {last.id};
    }
  }

  /** No two kept records share an id. */
  lemma {:induction false} FirstByIdDistinct(cs: seq<Customer>)
    ensures forall i, j :: 0 <= i < j < |FirstById(cs)| ==> FirstById(cs)[i].id != FirstById(cs)[j].id
    decreases |cs|
  {
    if cs != [] {
      var kept := FirstById(cs[..|cs| - 1]);
      FirstByIdDistinct(cs[..|cs| - 1]);
      var last := cs[|cs| - 1];
      if last.id !in Ids(kept) {
        forall i | 0 <= i < |kept|
          ensures kept[i].id != last.id
        {
          assert kept[i] in kept;
        }
      }
    }
  }

  /** The first record with an id in a prefix stays the first one when the list grows. */
  lemma FirstIndexOfPrefix(cs: seq<Customer>, n: nat, id: string)
    requires n <= |cs| && id in Ids(cs[..n])
    ensures id in Ids(cs) && FirstIndex(cs, id) == FirstIndex(cs[..n], id)
  {
    var i := FirstIndex(cs[..n], id);
    assert cs[i] == cs[..n][i] && cs[i] in cs;
    var k := FirstIndex(cs, id);
    assert k <= i;
    assert cs[..n][k] == cs[k];
  }

  /** `c` is the first record in `cs` that carries its id. */
  predicate IsFirstWithId(cs: seq<Customer>, c: Customer) {
    c.id in Ids(cs) && cs[FirstIndex(cs, c.id)] == c
  }

  /** Id `a` occurs in `cs` before id `b` first does. */
  predicate FirstSeenBefore(cs: seq<Customer>, a: string, b: string) {
    a in Ids(cs) && b in Ids(cs) && FirstIndex(cs, a) < FirstIndex(cs, b)
  }

  /** A record whose id no earlier record carries is where that id first occurs. */
  lemma FirstIndexOfNew(cs: seq<Customer>, n: nat)
    requires n < |cs|
    requires forall j :: 0 <= j < n ==> cs[j].id != cs[n].id
    ensures cs[n].id in Ids(cs) && FirstIndex(cs, cs[n].id) == n
  {
    assert cs[n] in cs;
  }

  /** Each kept record is the first record with its id. */
  lemma {:induction false} FirstByIdFirstOccurrence(cs: seq<Customer>)
    ensures forall k :: 0 <= k < |FirstById(cs)| ==> IsFirstWithId(cs, FirstById(cs)[k])
    decreases |cs|
  {
    if cs != [] {
      var n := |cs| - 1;
      var init := cs[..n];
      var kept := FirstById(init);
      FirstByIdFirstOccurrence(init);
      forall k | 0 <= k < |kept|
        ensures IsFirstWithId(cs, kept[k])
      {
        assert IsFirstWithId(init, kept[k]);
        FirstIndexOfPrefix(cs, n, kept[k].id);
      }
      if cs[n].id !in Ids(kept) {
        FirstByIdIds(init);
        forall j | 0 <= j < n
          ensures cs[j].id != cs[n].id
        {
          assert init[j] in init;
        }
        FirstIndexOfNew(cs, n);
      }
    }
  }

  /** The kept records appear in the order in which their ids first occur. */
  lemma {:induction false} FirstByIdOrder(cs: seq<Customer>)
    ensures forall k, l :: 0 <= k < l < |FirstById(cs)| ==>
      FirstSeenBefore(cs, FirstById(cs)[k].id, FirstById(cs)[l].id)
    decreases |cs|
  {
    if cs != [] {
      var n := |cs| - 1;
      var init := cs[..n];
      var kept := FirstById(init);
      FirstByIdOrder(init);
      forall k, l | 0 <= k < l < |kept|
        ensures FirstSeenBefore(cs, kept[k].id, kept[l].id)
      {
        assert FirstSeenBefore(init, kept[k].id, kept[l].id);
        FirstIndexOfPrefix(cs, n, kept[k].id);
        FirstIndexOfPrefix(cs, n, kept[l].id);
      }
      if cs[n].id !in Ids(kept) {
        FirstByIdIds(init);
        forall j | 0 <= j < n
          ensures cs[j].id != cs[n].id
        {
          assert init[j] in init;
        }
        FirstIndexOfNew(cs, n);
        forall k | 0 <= k < |kept|
          ensures FirstSeenBefore(cs, kept[k].id, cs[n].id)
        {
          assert kept[k] in kept;
          FirstIndexOfPrefix(cs, n, kept[k].id);
        }
      }
    }
  }

  /** `uniqueCustomersMap` filled by the `forEach` loop and read back with
      `Array.from(values())`: a map keyed by id, together with the order in which its keys
      were inserted, which is the order a JavaScript `Map` iterates in. */
  method DedupById(all: seq<Customer>) returns (unique: seq<Customer>)
    ensures unique == FirstById(all)
  {
    var byId: map<string, Customer> := map[];
    var insertionOrder: seq<string> := [];
    ghost var kept: seq<Customer> := [];
    for i := 0 to |all|
      invariant kept == FirstById(all[..i])
      invariant |insertionOrder| == |kept|
      invariant byId.Keys == Ids(kept)
      invariant forall k :: 0 <= k < |kept| ==>
        insertionOrder[k] == kept[k].id && insertionOrder[k] in byId && byId[insertionOrder[k]] == kept[k]
    {
      var customer := all[i];
      assert all[..i + 1][..i] == all[..i];
      assert all[..i + 1][i] == customer;
      if customer.id !in byId {
        forall k | 0 <= k < |kept|
          ensures insertionOrder[k] != customer.id
        {
          assert kept[k] in kept;
        }
        byId := byId[customer.id := customer];
        insertionOrder := insertionOrder + [customer.id];
        assert Ids(kept + [customer]) == Ids(kept) + {customer.id};
        kept := kept + [customer];
      }
    }
    assert all[..|all|] == all;
    unique := [];
    for k := 0 to |insertionOrder|
      invariant unique == kept[..k]
    {
      unique := unique + [byId[insertionOrder[k]]];
    }
  }

  /** What `findCustomerByQuery` resolves to. */
  function SearchResult(upstream: Upstream, fields: SearchFields): seq<Customer> {
    FirstById(Merge(upstream, Queries(fields)))
  }

  /** The resolved list names each customer once; each record is the first one the merged
      searches found with its id, the records follow the order in which their ids were first
      found, every record was found by some search, and the ids are exactly the ids that the
      successful searches found. */
  lemma SearchResultMerged(upstream: Upstream, fields: SearchFields)
    ensures forall i, j :: 0 <= i < j < |SearchResult(upstream, fields)| ==>
      SearchResult(upstream, fields)[i].id != SearchResult(upstream, fields)[j].id
    ensures forall k :: 0 <= k < |SearchResult(upstream, fields)| ==>
      IsFirstWithId(Merge(upstream, Queries(fields)), SearchResult(upstream, fields)[k])
    ensures forall k, l :: 0 <= k < l < |SearchResult(upstream, fields)| ==>
      FirstSeenBefore(Merge(upstream, Queries(fields)), SearchResult(upstream, fields)[k].id, SearchResult(upstream, fields)[l].id)
    ensures forall c :: c in SearchResult(upstream, fields) ==>
      exists i :: 0 <= i < |Queries(fields)| && c in Search(upstream, Queries(fields)[i])
    ensures forall id :: id in Ids(SearchResult(upstream, fields)) <==>
      exists i :: 0 <= i < |Queries(fields)| && id in Ids(Search(upstream, Queries(fields)[i]))
  {
    var queries := Queries(fields);
    var all := Merge(upstream, queries);
    var r := SearchResult(upstream, fields);
    FirstByIdDistinct(all);
    FirstByIdIds(all);
    FirstByIdFirstOccurrence(all);
    FirstByIdOrder(all);
    forall c | c in r
      ensures exists i :: 0 <= i < |queries| && c in Search(upstream, queries[i])
    {
      var k :| 0 <= k < |r| && r[k] == c;
      assert IsFirstWithId(all, r[k]);
      assert c in all;
      MergeMembers(upstream, queries, c);
    }
    forall id
      ensures id in Ids(r) <==> exists i :: 0 <= i < |queries| && id in Ids(Search(upstream, queries[i]))
    {
      if id in Ids(r) {
        var c :| c in all && c.id == id;
        MergeMembers(upstream, queries, c);
        var i :| 0 <= i < |queries| && c in Search(upstream, queries[i]);
        assert id in Ids(Search(upstream, queries[i]));
      }
      if exists i :: 0 <= i < |queries| && id in Ids(Search(upstream, queries[i])) {
        var i :| 0 <= i < |queries| && id in Ids(Search(upstream, queries[i]));
        var c :| c in Search(upstream, queries[i]) && c.id == id;
        MergeMembers(upstream, queries, c);
        assert id in Ids(all);
      }
    }
  }

  /** When every search fails the resolver still answers, with no customers. */
  lemma NothingFoundWhenAllSearchesFail(upstream: Upstream, fields: SearchFields)
    requires forall q :: q in Queries(fields) ==> upstream(SearchRequest(q, PerPage)).Failed?
    ensures SearchResult(upstream, fields) == []
  {
    var queries := Queries(fields);
    var all := Merge(upstream, queries);
    forall i | 0 <= i < |queries|
      ensures Search(upstream, queries[i]) == []
    {
      assert queries[i] in queries;
    }
    if all != [] {
      MergeMembers(upstream, queries, all[0]);
    }
  }

  /** `findCustomerByQuery`: builds the queries, returns at once when there is none, otherwise
      sends one request per query and merges the hits. `issued` lists the requests sent. */
  method FindCustomerByQuery(upstream: Upstream, fields: SearchFields)
    returns (customers: seq<Customer>, issued: seq<SearchRequest>)
    ensures |issued| == |Queries(fields)|
    ensures forall i :: 0 <= i < |issued| ==> issued[i] == SearchRequest(Queries(fields)[i], PerPage)
    ensures customers == SearchResult(upstream, fields)
    ensures Queries(fields) == [] ==> customers == [] && issued == []
  {
    var queries := BuildQueries(fields);
    if |queries| == 0 {
      return [], [];
    }
    var all: seq<Customer> := [];
    issued := [];
    for i := 0 to |queries|
      invariant |issued| == i
      invariant forall k :: 0 <= k < i ==> issued[k] == SearchRequest(queries[k], PerPage)
      invariant all == Merge(upstream, queries[..i])
    {
      var request := SearchRequest(queries[i], PerPage);
      issued := issued + [request];
      var hits := match upstream(request) case Found(cs) => cs case Failed => [];
      assert queries[..i + 1][..i] == queries[..i];
      all := all + hits;
    }
    assert queries[..|queries|] == queries;
    customers := DedupById(all);
  }

  /** How a lookup by id ends upstream: the record, an HTTP error status, or no response. */
  datatype LookupOutcome = Fetched(customer: Customer) | HttpError(status: int) | NoResponse

  /** What `findCustomerById` resolves to: the record, `null`, or a thrown error. */
  datatype Lookup = Retrieved(customer: Customer) | NotFound | LookupFailed(message: string)

  const RetrieveError := "Failed to retrieve customer."

  /** `findCustomerById`: a fetched record is returned, a 404 answers `null`, and every other
      failure is rethrown with a fixed message. */
  function FindCustomerById(lookup: string -> LookupOutcome, id: string): (r: Lookup)
    ensures r.Retrieved? <==> lookup(id).Fetched?
    ensures r.Retrieved? ==> r.customer == lookup(id).customer
    ensures r.NotFound? <==> lookup(id) == HttpError(404)
    ensures r.LookupFailed? <==> (lookup(id).HttpError? && lookup(id).status != 404) || lookup(id).NoResponse?
    ensures r.LookupFailed? ==> r.message == RetrieveError
  {
    match lookup(id)
    case Fetched(c) => Retrieved(c)
    case HttpError(status) => if status == 404 then NotFound else LookupFailed(RetrieveError)
    case NoResponse => LookupFailed(RetrieveError)
  }
}
