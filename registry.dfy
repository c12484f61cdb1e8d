/**
 The oracle registry as values: the two tables, the two calls that change
 them, and what the tables hold after any history of calls.

 The contract in the oracle module is tied to `Step` call by call; the lemmas
 here say what that means over a whole history: `get_response` reports the
 last response written for an account (or the starting value when none was),
 requests never touch responses and responses never touch requests.
 */
module Registry {

  /** Account identities are opaque strings; their format is not checked here. */
  type AccountId = string

  datatype Option<+T> = None | Some(value: T) {
    /** This value when present, otherwise `fallback`. */
    function Or(fallback: Option<T>): Option<T> {
      if Some? then this else fallback
    }
  }

  /** A prediction request: the free-form input and the model identifier. */
  datatype Request = Request(input: string, model: string)

  /** The contract's persistent state: `requests` and `responses`, both keyed by account. */
  datatype Tables = Tables(requests: map<AccountId, Request>, responses: map<AccountId, string>)

  /** The state of a freshly constructed contract: no account has a request or a response. */
  function Empty(): (t: Tables)
    ensures forall a :: Get(t.requests, a) == None && Lookup(t, a) == None
  {
    Tables(map[], map[])
  }

  /** The two state-changing entry points, with the caller of `RequestPrediction` made explicit. */
  datatype Call =
    | RequestPrediction(caller: AccountId, input: string, model: string)
    | SetResponse(account: AccountId, response: string)

  /** Map lookup that keeps "absent" apart from every stored value. */
  function Get<K, V>(m: map<K, V>, k: K): (r: Option<V>)
    ensures r.None? <==> k !in m
    ensures r.Some? ==> m[k] == r.value
  {
    if k in m then Some(m[k]) else None
  }

  /**
   What `get_response` reports in state `t`: absent exactly when no response
   is stored for `account`, so a stored `""` is present.
   */
  function Lookup(t: Tables, account: AccountId): (r: Option<string>)
    ensures r.None? <==> account !in t.responses
    ensures r.Some? ==> r.value == t.responses[account]
  {
    Get(t.responses, account)
  }

  /**
   The effect of one call: an insert-or-overwrite under one account in exactly
   one table; every other entry of that table, and the whole other table, stay.
   */
  function Step(t: Tables, c: Call): (r: Tables)
    ensures c.RequestPrediction? ==>
      && r.responses == t.responses
      && forall a :: Get(r.requests, a)
           == if a == c.caller then Some(Request(c.input, c.model)) else Get(t.requests, a)
    ensures c.SetResponse? ==>
      && r.requests == t.requests
      && forall a :: Lookup(r, a) == if a == c.account then Some(c.response) else Lookup(t, a)
  {
    match c
    case RequestPrediction(caller, input, model) =>
      t.(requests := t.requests[caller := Request(input, model)])
    case SetResponse(account, response) =>
      t.(responses := t.responses[account := response])
  }

  /**
   The state after the calls of `history`, oldest first, starting from `t`.
   Entries are never removed: the accounts with a request (a response) are
   those that had one at the start and those a call in the history wrote to.
   */
  function Run(t: Tables, history: seq<Call>): (r: Tables)
    decreases |history|
    ensures forall a :: a in r.requests <==>
      a in t.requests || exists i :: 0 <= i < |history| && WritesRequest(history[i], a)
    ensures forall a :: a in r.responses <==>
      a in t.responses || exists i :: 0 <= i < |history| && WritesResponse(history[i], a)
  {
    if history == [] then t
    else
      var prefix := history[..|history| - 1];
      assert forall i :: 0 <= i < |prefix| ==> prefix[i] == history[i];
      Step(Run(t, prefix), history[|history| - 1])
  }

  predicate WritesResponse(c: Call, account: AccountId) {
    c.SetResponse? && c.account == account
  }

  predicate WritesRequest(c: Call, account: AccountId) {
    c.RequestPrediction? && c.caller == account
  }

  /**
   The response of the last `SetResponse` for `account` in `history`, if any:
   a reference definition stated independently of the tables.
   */
  function LastResponse(history: seq<Call>, account: AccountId): (r: Option<string>)
    decreases |history|
    ensures r.None? <==> forall i :: 0 <= i < |history| ==> !WritesResponse(history[i], account)
    ensures r.Some? ==>
      exists i :: 0 <= i < |history| && history[i] == SetResponse(account, r.value)
        && forall j :: i < j < |history| ==> !WritesResponse(history[j], account)
  {
    if history == [] then None
    else
      var last := history[|history| - 1];
      if WritesResponse(last, account) then
        assert history[|history| - 1] == SetResponse(account, last.response);
        Some(last.response)
      else
        LastResponse(history[..|history| - 1], account)
  }

  /** The request of the last `RequestPrediction` made by `account` in `history`, if any. */
  function LastRequest(history: seq<Call>, account: AccountId): (r: Option<Request>)
    decreases |history|
    ensures r.None? <==> forall i :: 0 <= i < |history| ==> !WritesRequest(history[i], account)
    ensures r.Some? ==>
      exists i :: 0 <= i < |history|
        && history[i] == RequestPrediction(account, r.value.input, r.value.model)
        && forall j :: i < j < |history| ==> !WritesRequest(history[j], account)
  {
    if history == [] then None
    else
      var last := history[|history| - 1];
      if WritesRequest(last, account) then
        assert history[|history| - 1] == RequestPrediction(account, last.input, last.model);
        Some(Request(last.input, last.model))
      else
        LastRequest(history[..|history| - 1], account)
  }

  /**
   After any history, `get_response(account)` is the last response written for
   that account; only when none was written is it what it was at the start.
   Requests in the history play no part: last write wins, no history is kept.
   */
  lemma {:induction false} RunLookup(t: Tables, history: seq<Call>, account: AccountId)
    ensures Lookup(Run(t, history), account) == LastResponse(history, account).Or(Lookup(t, account))
    decreases |history|
  {
    if history != [] {
      RunLookup(t, history[..|history| - 1], account);
    }
  }

  /** After any history, the request stored for `account` is the last one that account made. */
  lemma {:induction false} RunRequests(t: Tables, history: seq<Call>, account: AccountId)
    ensures Get(Run(t, history).requests, account) == LastRequest(history, account).Or(Get(t.requests, account))
    decreases |history|
  {
    if history != [] {
      RunRequests(t, history[..|history| - 1], account);
    }
  }

  /**
   Starting from a fresh contract, `get_response(account)` is absent exactly
   when no `SetResponse` for that account was ever made; a request by the
   account does not make a response appear.
   */
  lemma {:induction false} AbsentIffNeverSet(history: seq<Call>, account: AccountId)
    ensures Lookup(Run(Empty(), history), account).None?
        <==> forall i :: 0 <= i < |history| ==> !WritesResponse(history[i], account)
  {
    RunLookup(Empty(), history, account);
  }

  /**
   A response written as the empty string is present, not absent, and stays
   so whatever later calls do to other accounts or to requests.
   */
  lemma EmptyResponseIsPresent(t: Tables, history: seq<Call>, account: AccountId)
    requires LastResponse(history, account) == Some("")
    ensures Lookup(Run(t, history), account) == Some("")
    ensures Lookup(Run(t, history), account) != None
  {
    RunLookup(t, history, account);
  }

  /** Two writes for one account leave the state the second write alone would have left. */
  lemma LastWriteWins(t: Tables, account: AccountId, first: string, second: string)
    ensures Run(t, [SetResponse(account, first), SetResponse(account, second)])
         == Step(t, SetResponse(account, second))
    ensures Lookup(Run(t, [SetResponse(account, first), SetResponse(account, second)]), account)
         == Some(second)
  {
    var h := [SetResponse(account, first), SetResponse(account, second)];
    assert h[..1] == [SetResponse(account, first)];
    assert [SetResponse(account, first)][..0] == [];
    assert Run(t, h[..1]) == Step(t, SetResponse(account, first));
    assert t.responses[account := first][account := second] == t.responses[account := second];
  }

  lemma {:induction false} SuffixSameResponses(t: Tables, u: Tables, suffix: seq<Call>)
    requires t.responses == u.responses
    ensures Run(t, suffix).responses == Run(u, suffix).responses
    decreases |suffix|
  {
    if suffix != [] {
      SuffixSameResponses(t, u, suffix[..|suffix| - 1]);
    }
  }

  lemma {:induction false} SuffixSameRequests(t: Tables, u: Tables, suffix: seq<Call>)
    requires t.requests == u.requests
    ensures Run(t, suffix).requests == Run(u, suffix).requests
    decreases |suffix|
  {
    if suffix != [] {
      SuffixSameRequests(t, u, suffix[..|suffix| - 1]);
    }
  }

  /** Running `prefix` then `suffix` is running the concatenated history. */
  lemma {:induction false} RunConcat(t: Tables, prefix: seq<Call>, suffix: seq<Call>)
    ensures Run(t, prefix + suffix) == Run(Run(t, prefix), suffix)
    decreases |suffix|
  {
    if suffix == [] {
      assert prefix + suffix == prefix;
    } else {
      var n := |suffix| - 1;
      assert (prefix + suffix)[..|prefix + suffix| - 1] == prefix + suffix[..n];
      RunConcat(t, prefix, suffix[..n]);
    }
  }

  /**
   Inserting a `RequestPrediction` anywhere in a history changes no account's
   response: `get_response` is the same for every account, the caller included.
   */
  lemma RequestKeepsResponses(t: Tables, before: seq<Call>, c: Call, after: seq<Call>)
    requires c.RequestPrediction?
    ensures Run(t, before + [c] + after).responses == Run(t, before + after).responses
  {
    RunConcat(t, before + [c], after);
    RunConcat(t, before, after);
    assert (before + [c])[..|before|] == before;
    SuffixSameResponses(Run(t, before + [c]), Run(t, before), after);
  }

  /** Inserting a `SetResponse` anywhere in a history changes no account's request. */
  lemma ResponseKeepsRequests(t: Tables, before: seq<Call>, c: Call, after: seq<Call>)
    requires c.SetResponse?
    ensures Run(t, before + [c] + after).requests == Run(t, before + after).requests
  {
    RunConcat(t, before + [c], after);
    RunConcat(t, before, after);
    assert (before + [c])[..|before|] == before;
    SuffixSameRequests(Run(t, before + [c]), Run(t, before), after);
  }
}
