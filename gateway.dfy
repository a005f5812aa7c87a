/** The search gateway (`oneshot_search`). The remote search service and the
    SDK's connection, job and JSON-reader calls are replaced by an oracle: a
    caller-supplied function from the position of a query in the session and
    the query text to what the service would answer. The gateway keeps the
    log of every query it was asked to run. */
module Gateway {

  /** One decoded result row: field name to value. */
  type ResultRow = map<string, string>

  /** What the results reader yields: result rows and diagnostic messages. */
  datatype Entry = Fields(row: ResultRow) | Message(text: string)

  /** What the service does with one query. */
  datatype Response = Entries(entries: seq<Entry>) | AuthenticationError | QueryError

  /** What `oneshot_search` gives back to its caller: the result rows, or one
      of the two ways it stops the program (the authentication handler's
      `exit(1)`, or any other exception of the SDK, which propagates). */
  datatype SearchResult = Rows(rows: seq<ResultRow>) | AuthFailed | QueryFailed

  type Oracle = (nat, string) -> Response

  /** `[result for result in reader if isinstance(result, dict)]` */
  function RowsOnly(entries: seq<Entry>): (rows: seq<ResultRow>)
    ensures |rows| <= |entries|
    decreases |entries|
  {
    if entries == [] then []
    else
      var rest := RowsOnly(entries[1..]);
      match entries[0]
      case Fields(row) => [row] + rest
      case Message(_) => rest
  }

  /** The filter keeps exactly the row entries. */
  lemma {:induction false} RowsOnlyMembers(entries: seq<Entry>)
    ensures forall r :: r in RowsOnly(entries) <==> Fields(r) in entries
    decreases |entries|
  {
    if entries != [] {
      RowsOnlyMembers(entries[1..]);
      assert forall e :: e in entries <==> e == entries[0] || e in entries[1..];
    }
  }

  /** The filter keeps the rows in the order the reader yields them: filtering
      a concatenation is concatenating the filtered halves. */
  lemma {:induction false} RowsOnlyAppend(a: seq<Entry>, b: seq<Entry>)
    ensures RowsOnly(a + b) == RowsOnly(a) + RowsOnly(b)
    decreases |a|
  {
    if a != [] {
      assert (a + b)[0] == a[0];
      assert (a + b)[1..] == a[1..] + b;
      RowsOnlyAppend(a[1..], b);
      match a[0]
      case Fields(row) =>
        assert RowsOnly(a + b) == [row] + RowsOnly(a[1..] + b);
      case Message(_) =>
    } else {
      assert a + b == b;
    }
  }

  /** A reply made of messages only decodes to no rows at all. */
  lemma {:induction false} RowsOnlyMessages(entries: seq<Entry>)
    requires forall k :: 0 <= k < |entries| ==> entries[k].Message?
    ensures RowsOnly(entries) == []
    decreases |entries|
  {
    if entries != [] {
      RowsOnlyMessages(entries[1..]);
    }
  }

  function Decode(response: Response): SearchResult
  {
    match response
    case Entries(entries) => Rows(RowsOnly(entries))
    case AuthenticationError => AuthFailed
    case QueryError => QueryFailed
  }

  class SearchGateway {
    /** Every query issued so far, oldest first. */
    var log: seq<string>
    /** The service's answers. */
    const answer: Oracle

    constructor (answer: Oracle)
      ensures log == [] && this.answer == answer
    {
      log := [];
      this.answer := answer;
    }

    /** `oneshot_search(spl_query)`: issue the query, then hand back the rows
        of the service's reply, dropping reader entries that are not rows. */
    method OneshotSearch(query: string) returns (result: SearchResult)
      modifies this
      ensures log == old(log) + [query]
      ensures result == Decode(answer(|old(log)|, query))
    {
      var response := answer(|log|, query);
      log := log + [query];
      match response
      case Entries(entries) =>
        result := Rows(RowsOnly(entries));
      case AuthenticationError =>
        result := AuthFailed;
      case QueryError =>
        result := QueryFailed;
    }
  }
}
