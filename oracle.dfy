/**
 The `Oracle` contract object: two tables updated in place by
 `RequestPrediction` and `SetResponse`, read by `GetResponse`.

 Each state-changing method states its whole new state, and also that it is
 one `Registry.Step` away from the old one, so that the history lemmas of the
 `Registry` module apply to any sequence of calls on one object.
 */
module OracleContract {
  import opened Registry

  class Oracle {
    var requests: map<AccountId, Request>   // caller -> (input, model)
    var responses: map<AccountId, string>

    /** The tables as a value. */
    function View(): Tables
      reads this
    {
      Tables(requests, responses)
    }

    /** `Default::default`: both tables empty, so no account has a response. */
    constructor ()
      ensures requests == map[] && responses == map[]
      ensures View() == Empty()
      ensures forall a :: GetResponse(a) == None
    {
      requests := map[];
      responses := map[];
    }

    /**
     Stores `(input, model)` under the calling account, replacing any earlier
     request of that account. `caller` stands for the account that invoked the
     contract. No response changes, the caller's included.
     */
    method RequestPrediction(caller: AccountId, input: string, model: string)
      modifies this
      ensures requests == old(requests)[caller := Request(input, model)]
      ensures responses == old(responses)
      ensures View() == Step(old(View()), Call.RequestPrediction(caller, input, model))
      ensures forall a :: GetResponse(a) == old(GetResponse(a))
    {
      requests := requests[caller := Request(input, model)];
    }

    /**
     Stores `response` under `account`, replacing any earlier response. Any
     account may be named, whether or not it ever made a request; no
     ownership check is made, and requests are untouched.
     */
    method SetResponse(account: AccountId, response: string)
      modifies this
      ensures responses == old(responses)[account := response]
      ensures requests == old(requests)
      ensures View() == Step(old(View()), Call.SetResponse(account, response))
      ensures GetResponse(account) == Some(response)
      ensures forall a :: a != account ==> GetResponse(a) == old(GetResponse(a))
    {
      responses := responses[account := response];
    }

    /** The stored response for `account`, or `None` when none was ever set (which is not `Some("")`). */
    function GetResponse(account: AccountId): (r: Option<string>)
      reads this
      ensures r.None? <==> account !in responses
      ensures r.Some? ==> r.value == responses[account]
    {
      Lookup(View(), account)
    }
  }

  /**
   Performs the calls of `history` on `contract`, oldest first: whatever
   sequence of calls one contract object receives, its tables end up as
   `Registry.Run` says, so the history lemmas of `Registry` apply to it.
   */
  method Replay(contract: Oracle, history: seq<Call>)
    modifies contract
    ensures contract.View() == Run(old(contract.View()), history)
  {
    ghost var start := contract.View();
    var i := 0;
    while i < |history|
      invariant 0 <= i <= |history|
      invariant contract.View() == Run(start, history[..i])
    {
      assert history[..i + 1][..i] == history[..i];
      match history[i] {
        case RequestPrediction(caller, input, model) =>
          contract.RequestPrediction(caller, input, model);
        case SetResponse(account, response) =>
          contract.SetResponse(account, response);
      }
      i := i + 1;
    }
    assert history[..i] == history;
  }

  /**
   The `request_and_set_response` scenario: an account requests a
   prediction, a response is set for it, and reading it back gives that
   response.
   */
  method RequestAndSetResponse() returns (r: Option<string>)
    ensures r == Some("response_data")
  {
    var contract := new Oracle();
    contract.RequestPrediction("bob.near", "input_data", "model_name");
    contract.SetResponse("bob.near", "response_data");
    r := contract.GetResponse("bob.near");
  }

  /** The `get_nonexistent_response` scenario: a fresh contract has no response. */
  method GetNonexistentResponse() returns (r: Option<string>)
    ensures r == None
  {
    var contract := new Oracle();
    r := contract.GetResponse("francis.near");
  }

  /**
   A response set for an account that never requested anything is stored,
   the empty string is stored as present, and a request made afterwards by
   that account leaves its response as it was.
   */
  method ResponseWithoutRequest() returns (before: Option<string>, after: Option<string>)
    ensures before == Some("") && after == Some("")
  {
    var contract := new Oracle();
    contract.SetResponse("carol.near", "");
    before := contract.GetResponse("carol.near");
    contract.RequestPrediction("carol.near", "2+2", "calc-v1");
    after := contract.GetResponse("carol.near");
  }
}
