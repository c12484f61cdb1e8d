# Oracle registry, modelled in Dafny

The contract is a small on-chain request/response registry. An account submits
a prediction request: a free-form `input` and a `model` identifier, keyed by
the account that made the call. Later, a writer attaches a response string to
an account. Anyone can read the response stored for an account.

The state is two tables keyed by account:

- `requests` maps an account to its `(input, model)` pair.
- `responses` maps an account to a response string.

There is no deletion and no history. Each write inserts a new entry or
overwrites the old one. `set_response` makes no ownership or authorisation
check. It works for any account, including one that never made a request.

The project has two modules:

- `oracle.dfy`, module `OracleContract`: class `Oracle`, with the two tables
  as `map` fields that are updated in place. The constructor models
  `Default::default`. `RequestPrediction` and `SetResponse` are methods that
  state their whole new state. `GetResponse` is a function that reads the
  object and returns `Option<string>`, so "absent" (`None`) stays distinct
  from "present but empty" (`Some("")`). The methods that end the module
  replay the source's two unit tests, plus a response set without any
  request.
- `registry.dfy`, module `Registry`: the same state as a value (`Tables`),
  one `Step` per call, and `Run` over a history of calls. Every
  state-changing method of `Oracle` ensures
  `View() == Step(old(View()), call)`. `Replay` performs any sequence of
  calls on one object and ensures its tables end as `Run` says, so the
  history lemmas here apply to that object. `LastResponse` and `LastRequest` are
  reference definitions. Each states in its contract which call in the
  history was the last write for an account.

The caller identity that the source takes from `env::predecessor_account_id()`
is the explicit `caller` parameter of `RequestPrediction`.

## Model

| member | source | states |
|---|---|---|
| `OracleContract.Oracle.constructor` | src/lib.rs:20-27 | Both tables start empty, so `GetResponse(a)` is `None` for every account `a` |
| `OracleContract.Oracle.RequestPrediction` | src/lib.rs:31-34 | Stores exactly `(input, model)` under the caller and overwrites any earlier request from that caller. Every other request is unchanged. `responses` is unchanged, so `GetResponse(j)` is the same for every `j`, the caller included |
| `OracleContract.Oracle.SetResponse` | src/lib.rs:36-38 | No precondition. Afterwards `GetResponse(account)` is `Some(response)`, including for the empty string. Every other account's response is unchanged and `requests` is untouched |
| `OracleContract.Oracle.GetResponse` | src/lib.rs:40-42 | Read-only. Returns `None` exactly when the account has no stored response, and otherwise `Some` of the stored string |
| `OracleContract.RequestAndSetResponse` | src/lib.rs:62-75 | After a request and a response for the same account, reading that account gives back the response |
| `OracleContract.GetNonexistentResponse` | src/lib.rs:77-81 | A fresh contract returns `None` for an account that was never written |
| `OracleContract.ResponseWithoutRequest` | src/lib.rs:36-42 | A response can be set for an account that made no request. An empty response reads back as `Some("")`. A later request by that account leaves its response unchanged |
| `OracleContract.Replay` | src/lib.rs:29-43 | Performing any sequence of calls on one contract object leaves its tables equal to `Run` of that history from the object's starting tables |
| `Registry.Empty` | src/lib.rs:20-27 | In the state of a fresh contract, no account has a request and no account has a response |
| `Registry.Lookup` | src/lib.rs:40-42 | The value-level `get_response`. It is absent exactly when no response is stored for the account, and otherwise it is the stored string, so a stored `""` counts as present |
| `Registry.Step` | src/lib.rs:31-38 | A request by `caller` sets exactly `caller`'s request to `(input, model)`. Every other account's request stays the same, and the response table is unchanged. A response write sets exactly that account's response. Every other account's response stays the same, and the request table is unchanged |
| `Registry.Run` | src/lib.rs:29-43 | Entries are never removed. After a history, an account has a request exactly when it had one at the start or made one during the history. An account has a response exactly when it had one at the start or some `SetResponse` named it |
| `Registry.LastResponse` | src/lib.rs:36-38 | Reference definition of the response a history leaves for an account. It is `None` exactly when no `SetResponse` names the account. Otherwise it is the response of a `SetResponse` for that account after which no other `SetResponse` names the account |
| `Registry.LastRequest` | src/lib.rs:31-34 | The same as `LastResponse` for requests: the pair from the caller's last `RequestPrediction`, or `None` if the caller made none |
| `Registry.RunLookup` | src/lib.rs:36-42 | After any history, `get_response(a)` is the last response written for `a`. Only when no response was written is it the starting value. Requests play no part, and the last write wins with no history kept |
| `Registry.RunRequests` | src/lib.rs:31-34 | After any history, the request stored for an account is that account's last request. Only when it made none is it the starting value |
| `Registry.AbsentIffNeverSet` | src/lib.rs:20-27 | Starting from a fresh contract, `get_response(a)` is absent exactly when no `SetResponse` for `a` occurs in the history. This holds in both directions |
| `Registry.EmptyResponseIsPresent` | src/lib.rs:36-42 | If the last response written for `a` in a history is `""`, then `get_response(a)` is `Some("")`, which is not `None`. This holds whatever later calls do to other accounts or to requests |
| `Registry.LastWriteWins` | src/lib.rs:37 | Two writes to one account leave exactly the state the second write alone would leave, and reading the account gives the second response |
| `Registry.RequestKeepsResponses` | src/lib.rs:31-34 | Inserting a `RequestPrediction` anywhere in a history changes no response for any account |
| `Registry.ResponseKeepsRequests` | src/lib.rs:36-38 | Inserting a `SetResponse` anywhere in a history changes no stored request |
| `Registry.RunConcat` | src/lib.rs:29-43 | Calls compose in sequence. Running a prefix and then a suffix is the same as running the concatenated history |

## Left out

- NEAR SDK plumbing is not modelled: the `#[near_bindgen]` macros, the
  Borsh serialisation derives and the `StorageKey` storage prefixes
  (src/lib.rs:5-7, 13-18 and 29). They are the runtime's persistence and encoding layout.
  Both tables are Dafny `map`s.
- `LookupMap` internals are not modelled. It is treated as a finite map
  with insert and get.
- `env::predecessor_account_id()` is not modelled. It becomes the `caller`
  parameter, so the model does not show that a caller cannot choose this
  value.
- `AccountId` format validation is not modelled. Accounts are opaque strings.
- The test harness (`VMContextBuilder`, `testing_env!`) is not modelled. The
  tests appear only as the scenario methods. The test account `accounts(1)`
  is written as the literal `"bob.near"`.
- Storage costs, gas and persistence across contract upgrades are not
  modelled. They belong to the runtime.
