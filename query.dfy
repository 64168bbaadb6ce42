/**
 * The request sent for one batch: a fixed query identifier per analysis and a
 * single text parameter named "addresses" holding the batch joined with ",".
 * What the remote service does with the request is not modelled here; the
 * pipeline treats it as an oracle from request to response.
 */
module Query {

  /** The two analyses the extract script runs. */
  datatype Analysis = TokenBalances | DefiTrades

  /** The identifier of the saved query behind each analysis. */
  function QueryId(a: Analysis): string
  {
    match a
    case TokenBalances => "4140317"
    case DefiTrades => "4140137"
  }

  /** The CSV file each analysis writes to. */
  function OutputFile(a: Analysis): string
  {
    match a
    case TokenBalances => "token_balances.csv"
    case DefiTrades => "defi_trades.csv"
  }

  /** A query execution request: the query identifier and the "addresses" text parameter. */
  datatype QueryRequest = QueryRequest(queryId: string, addresses: string)

  /** The number of characters in all of `xs` together. */
  function TotalLength(xs: seq<string>): nat
  {
    if xs == [] then 0 else |xs[0]| + TotalLength(xs[1..])
  }

  /**
   * Python's ",".join(xs): every address once, in order, with one "," between
   * neighbours and none at either end.
   */
  function JoinComma(xs: seq<string>): string
  {
    if xs == [] then ""
    else if |xs| == 1 then xs[0]
    else xs[0] + "," + JoinComma(xs[1..])
  }

  /** The joined text holds every address and one "," between each pair of neighbours, no more. */
  lemma {:induction false} JoinCommaLength(xs: seq<string>)
    ensures |JoinComma(xs)| == if xs == [] then 0 else TotalLength(xs) + |xs| - 1
  {
    if |xs| > 1 {
      JoinCommaLength(xs[1..]);
    }
  }

  /** The index of the first "," in `s`, or |s| when there is none. */
  function CommaIndex(s: string): (i: nat)
    ensures i <= |s|
    ensures forall k :: 0 <= k < i ==> s[k] != ','
    ensures i < |s| ==> s[i] == ','
  {
    if s == [] || s[0] == ',' then 0 else 1 + CommaIndex(s[1..])
  }

  /**
   * Python's s.split(","): the pieces between commas, in order. There is
   * always at least one piece, so "".split(",") is [""].
   */
  function SplitComma(s: string): (pieces: seq<string>)
    ensures |pieces| >= 1
    decreases |s|
  {
    var i := CommaIndex(s);
    if i == |s| then [s] else [s[..i]] + SplitComma(s[i + 1..])
  }

  /** No piece of a split contains a comma. */
  lemma {:induction false} SplitCommaPieces(s: string)
    ensures forall k :: 0 <= k < |SplitComma(s)| ==> ',' !in SplitComma(s)[k]
    decreases |s|
  {
    var i := CommaIndex(s);
    if i < |s| {
      SplitCommaPieces(s[i + 1..]);
      var rest := SplitComma(s[i + 1..]);
      assert SplitComma(s) == [s[..i]] + rest;
      forall k | 1 <= k < |rest| + 1
        ensures SplitComma(s)[k] == rest[k - 1]
      {
      }
    }
  }

  /** Joining the pieces of a split gives back the string. */
  lemma {:induction false} JoinSplit(s: string)
    ensures JoinComma(SplitComma(s)) == s
    decreases |s|
  {
    var i := CommaIndex(s);
    if i < |s| {
      var rest := SplitComma(s[i + 1..]);
      JoinSplit(s[i + 1..]);
      JoinCons(s[..i], rest);
      assert s == s[..i] + "," + s[i + 1..];
    }
  }

  /** Joining a non-empty tail puts one "," after the head. */
  lemma {:induction false} JoinCons(x: string, rest: seq<string>)
    requires rest != []
    ensures JoinComma([x] + rest) == x + "," + JoinComma(rest)
  {
    assert ([x] + rest)[1..] == rest;
  }

  /**
   * Splitting the joined parameter gives back the batch, provided the batch
   * is not empty and no address contains a comma.
   */
  lemma {:induction false} SplitJoin(xs: seq<string>)
    requires |xs| >= 1
    requires forall k :: 0 <= k < |xs| ==> ',' !in xs[k]
    ensures SplitComma(JoinComma(xs)) == xs
  {
    var x := xs[0];
    if |xs| == 1 {
      assert CommaIndex(x) == |x|;
    } else {
      var rest := JoinComma(xs[1..]);
      var s := x + "," + rest;
      assert JoinComma(xs) == s;
      CommaIndexAfter(x, rest);
      assert s[..|x|] == x && s[|x| + 1..] == rest;
      SplitJoin(xs[1..]);
      assert SplitComma(s) == [x] + SplitComma(rest);
    }
  }

  /** The first comma of x + "," + rest is the one after x when x has none. */
  lemma {:induction false} CommaIndexAfter(x: string, rest: string)
    requires ',' !in x
    ensures CommaIndex(x + "," + rest) == |x|
  {
    var s := x + "," + rest;
    var i := CommaIndex(s);
    assert s[|x|] == ',';
  }

  /** The request execute_dune_query builds for one batch of analysis `a`. */
  function Request(a: Analysis, batch: seq<string>): QueryRequest
  {
    QueryRequest(QueryId(a), JoinComma(batch))
  }

  /**
   * The request names the analysis's query, and its parameter splits back
   * into the batch when the batch is not empty and no address has a comma.
   */
  lemma {:induction false} RequestRoundTrip(a: Analysis, batch: seq<string>)
    requires |batch| >= 1
    requires forall k :: 0 <= k < |batch| ==> ',' !in batch[k]
    ensures Request(a, batch).queryId == QueryId(a)
    ensures SplitComma(Request(a, batch).addresses) == batch
  {
    SplitJoin(batch);
  }

  /** An address with a comma in it does not survive the round trip. */
  lemma {:induction false} CommaInAddressSplits()
    ensures SplitComma(JoinComma(["0xAA,0xBB"])) == ["0xAA", "0xBB"]
  {
    var xs := ["0xAA", "0xBB"];
    JoinCons("0xAA", ["0xBB"]);
    assert JoinComma(xs) == "0xAA,0xBB";
    SplitJoin(xs);
  }
}
