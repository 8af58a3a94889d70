/** The validation pass of `validateConfig` (src/cli.js): given the already
    parsed configuration object, reject a missing or empty server list, merge
    the shared `default` block under every server entry, check each merged
    server's required fields in a fixed order (one error per failing server),
    default `timeout` to 600 on servers that pass, and hand back the error
    list (or null) together with the server list. */
module Validator {
  import opened Wrappers
  import opened Json
  import opened Decimal
  import opened Merge

  /** The two properties of the parsed configuration object the validator
      reads: `servers` and `default`, each possibly undefined. */
  datatype Config = Config(servers: Option<Value>, default: Option<Value>)

  /** The two arguments handed to the callback: the error list (None for
      null) and the server list (None for null). */
  datatype Outcome = Outcome(errors: Option<seq<string>>, servers: Option<seq<Object>>)

  /** How a run ends: the callback receives the outcome, or building the
      `localAddr:localPort` key of the server at `server` throws a TypeError
      that nothing catches, so the callback is never called. */
  datatype Ending = Called(outcome: Outcome) | Uncaught(server: nat)

  const NoServersMessage: string := "No defined servers in config file"

  /** The value written to `timeout` when a valid server leaves it falsy. */
  const DefaultTimeout: real := 600.0

  /** The guard `!configObj.servers || !configObj.servers.length`. */
  predicate NoServers(servers: Option<Value>) {
    !Truthy(servers) || !Truthy(JsLength(servers))
  }

  /** The shapes of `servers` this model covers: everything except a
      non-empty string and an object whose own `length` is truthy, which pass
      the guard and are then walked key by key as if they were arrays. */
  predicate ModelledServersShape(servers: Option<Value>) {
    match servers
    case Some(JStr(s)) => s == ""
    case Some(JObj(fields)) => !Truthy(Get(fields, "length"))
    case _ => true
  }

  /** Within the modelled shapes the guard lets exactly the non-empty arrays through. */
  lemma GuardAdmitsNonEmptyArrays(servers: Option<Value>)
    requires ModelledServersShape(servers)
    ensures !NoServers(servers) <==> servers.Some? && servers.value.JArr? && |servers.value.items| > 0
  {
  }

  /** `extend({}, configObj.default, servers[i])`. */
  function MergeDefault(default: Option<Value>, server: Option<Value>): Object {
    Extend(map[], [default, server])
  }

  /** The required-field checks, in the order the validator runs them. */
  datatype Check = RemoteAddress | LocalAddress | Method | Password

  const CheckOrder: seq<Check> := [RemoteAddress, LocalAddress, Method, Password]

  /** The check `c` fails on the merged server `s`. */
  predicate Fails(s: Object, c: Check) {
    match c
    case RemoteAddress => !Truthy(Get(s, "serverAddr")) || !Truthy(Get(s, "serverPort"))
    case LocalAddress => !Truthy(Get(s, "localAddr")) || !Truthy(Get(s, "localPort"))
    case Method => !Truthy(Get(s, "method"))
    case Password => !Truthy(Get(s, "password"))
  }

  /** The position of the first check of `checks` that fails on `s`, or
      `|checks|` when every check passes. */
  function FirstFailingIndex(s: Object, checks: seq<Check>): (r: nat)
    ensures r <= |checks|
    ensures forall j :: 0 <= j < r ==> !Fails(s, checks[j])
    ensures r < |checks| ==> Fails(s, checks[r])
  {
    if |checks| == 0 then 0
    else if Fails(s, checks[0]) then 0
    else 1 + FirstFailingIndex(s, checks[1..])
  }

  /** The check that rejects the merged server `s`, or None when `s` is valid. */
  function FirstFailure(s: Object): Option<Check> {
    var r := FirstFailingIndex(s, CheckOrder);
    if r < |CheckOrder| then Some(CheckOrder[r]) else None
  }

  /** The tail of each error message. */
  function Describe(c: Check): string {
    match c
    case RemoteAddress => "serverAddr/serverPort not defined"
    case LocalAddress => "localAddr/localPort not defined"
    case Method => "method not defined"
    case Password => "password not defined"
  }

  /** `server #${i} - ...`: the message for server `i` failing check `c`. */
  function Message(i: nat, c: Check): string {
    "server #" + (DecimalString(i) + (" - " + Describe(c)))
  }

  /** The error produced by server `i`: none when it is valid, else the message of its first failing check. */
  function ErrorFor(i: nat, s: Object): seq<string> {
    match FirstFailure(s)
    case None => []
    case Some(c) => [Message(i, c)]
  }

  /** The errors of a list of merged servers, in index order. */
  function Errors(merged: seq<Object>): seq<string> {
    if |merged| == 0 then []
    else Errors(merged[..|merged| - 1]) + ErrorFor(|merged| - 1, merged[|merged| - 1])
  }

  /** The `timeout` defaulting step, reached only by a server with no failing check. */
  function WithTimeoutDefault(s: Object): Object {
    if FirstFailure(s).None? && !Truthy(Get(s, "timeout")) then s["timeout" := JNum(DefaultTimeout)]
    else s
  }

  /** `curSrv.localAddr + ":" + curSrv.localPort` throws on the merged server
      `s`. The expression is only reached by a server that passes all four
      checks; `timeout` defaulting does not touch the two fields it reads. */
  predicate AddressKeyThrows(s: Object) {
    FirstFailure(s).None? &&
    ((Get(s, "localAddr").Some? && ConversionThrows(Get(s, "localAddr").value)) ||
     (Get(s, "localPort").Some? && ConversionThrows(Get(s, "localPort").value)))
  }

  /** The index of the first merged server on which building the address key
      throws, or `|merged|` when it throws on none. */
  function FirstThrowing(merged: seq<Object>): (r: nat)
    ensures r <= |merged|
    ensures forall j :: 0 <= j < r ==> !AddressKeyThrows(merged[j])
    ensures r < |merged| ==> AddressKeyThrows(merged[r])
  {
    if |merged| == 0 then 0
    else if AddressKeyThrows(merged[0]) then 0
    else 1 + FirstThrowing(merged[1..])
  }

  /** Every merged server after the `timeout` defaulting step. */
  function DefaultTimeouts(merged: seq<Object>): (out: seq<Object>)
    ensures |out| == |merged|
  {
    seq(|merged|, i requires 0 <= i < |merged| => WithTimeoutDefault(merged[i]))
  }

  /** The merged server list, one entry per element of the `servers` array. */
  function MergeAll(default: Option<Value>, items: seq<Value>): (merged: seq<Object>)
    ensures |merged| == |items|
    ensures forall i :: 0 <= i < |items| ==> merged[i] == MergeDefault(default, Some(items[i]))
  {
    seq(|items|, i requires 0 <= i < |items| => MergeDefault(default, Some(items[i])))
  }

  /** The validation pass as one expression: the reference the loop-based
      `ValidateConfig` is proved against. */
  function Validate(config: Config): Outcome
    requires ModelledServersShape(config.servers)
  {
    if NoServers(config.servers) then Outcome(Some([NoServersMessage]), None)
    else
      var merged := MergeAll(config.default, config.servers.value.items);
      var errs := Errors(merged);
      Outcome(if |errs| == 0 then None else Some(errs), Some(DefaultTimeouts(merged)))
  }

  /** The whole run: the callback's arguments, unless building some passing
      server's address key throws first. */
  function Run(config: Config): Ending
    requires ModelledServersShape(config.servers)
  {
    if NoServers(config.servers) then Called(Validate(config))
    else
      var t := FirstThrowing(MergeAll(config.default, config.servers.value.items));
      if t < |config.servers.value.items| then Uncaught(t) else Called(Validate(config))
  }

  /** The four checks run in the source's order and the first failing one decides. */
  lemma ChecksRunInOrder(s: Object)
    ensures FirstFailure(s) == Some(RemoteAddress) <==> Fails(s, RemoteAddress)
    ensures FirstFailure(s) == Some(LocalAddress) <==> !Fails(s, RemoteAddress) && Fails(s, LocalAddress)
    ensures FirstFailure(s) == Some(Method) <==>
      !Fails(s, RemoteAddress) && !Fails(s, LocalAddress) && Fails(s, Method)
    ensures FirstFailure(s) == Some(Password) <==>
      !Fails(s, RemoteAddress) && !Fails(s, LocalAddress) && !Fails(s, Method) && Fails(s, Password)
    ensures FirstFailure(s) == None <==>
      !Fails(s, RemoteAddress) && !Fails(s, LocalAddress) && !Fails(s, Method) && !Fails(s, Password)
  {
    var r := FirstFailingIndex(s, CheckOrder);
    assert CheckOrder[0] == RemoteAddress && CheckOrder[1] == LocalAddress;
    assert CheckOrder[2] == Method && CheckOrder[3] == Password;
    assert r == 0 || r == 1 || r == 2 || r == 3 || r == 4;
  }

  /** One server's turn in the validation loop: the error it records and the
      entry it leaves in the list. A failing check records its message and
      skips the rest of the body (`continue`), so `timeout` is only touched
      on a server that passes all four checks. */
  method CheckServer(i: nat, cur: Object) returns (error: seq<string>, updated: Object, threw: bool)
    ensures error == ErrorFor(i, cur)
    ensures updated == WithTimeoutDefault(cur)
    ensures threw == AddressKeyThrows(cur)
  {
    ChecksRunInOrder(cur);
    updated, threw := cur, false;
    if !Truthy(Get(cur, "serverAddr")) || !Truthy(Get(cur, "serverPort")) {
      return [Message(i, RemoteAddress)], updated, false;
    }
    if !Truthy(Get(cur, "localAddr")) || !Truthy(Get(cur, "localPort")) {
      return [Message(i, LocalAddress)], updated, false;
    }
    if !Truthy(Get(cur, "method")) {
      return [Message(i, Method)], updated, false;
    }
    if !Truthy(Get(cur, "password")) {
      return [Message(i, Password)], updated, false;
    }
    if !Truthy(Get(cur, "timeout")) {
      updated := cur["timeout" := JNum(DefaultTimeout)];
    }
    error := [];
    var addr, port := Get(updated, "localAddr"), Get(updated, "localPort");
    threw := (addr.Some? && ConversionThrows(addr.value)) || (port.Some? && ConversionThrows(port.value));
  }

  /** The validation loop over the merged servers, updating the list in
      place. It stops at `thrown`, the first server whose address key throws;
      `thrown` is `|merged|` when the loop runs to the end, and only then are
      the error list and the server list handed on. */
  method CheckServers(merged: seq<Object>) returns (errs: seq<string>, list: seq<Object>, thrown: nat)
    ensures thrown == FirstThrowing(merged)
    ensures thrown == |merged| ==> errs == Errors(merged) && list == DefaultTimeouts(merged)
  {
    errs, list, thrown := [], merged, |merged|;
    var i := 0;
    while i < thrown
      invariant 0 <= i <= thrown <= |merged| == |list|
      invariant errs == Errors(merged[..i])
      invariant forall j :: 0 <= j < i ==> list[j] == WithTimeoutDefault(merged[j])
      invariant forall j :: i <= j < |list| ==> list[j] == merged[j]
      invariant forall j :: 0 <= j < i ==> !AddressKeyThrows(merged[j])
      invariant thrown < |merged| ==> i == thrown && AddressKeyThrows(merged[i])
      decreases thrown - i
    {
      assert merged[..i + 1][..i] == merged[..i];
      var error, updated, threw := CheckServer(i, list[i]);
      if threw {
        thrown := i;
      } else {
        errs := errs + error;
        list := list[i := updated];
        i := i + 1;
      }
    }
    assert merged[..|merged|] == merged;
  }

  /** The validator as the source writes it: reject a missing or empty
      server list, merge `default` under each array element, then run the
      validation loop and report null when it recorded no error, unless the
      loop throws first. */
  method ValidateConfig(config: Config) returns (ending: Ending)
    requires ModelledServersShape(config.servers)
    ensures ending == Run(config)
    ensures ending.Called? ==> ending.outcome == Validate(config)
  {
    if NoServers(config.servers) {
      return Called(Outcome(Some([NoServersMessage]), None));
    }
    var items := config.servers.value.items;
    var merged: seq<Object> := [];
    for i := 0 to |items|
      invariant |merged| == i
      invariant forall j :: 0 <= j < i ==> merged[j] == MergeDefault(config.default, Some(items[j]))
    {
      merged := merged + [MergeDefault(config.default, Some(items[i]))];
    }
    assert merged == MergeAll(config.default, items);
    var errs, list, thrown := CheckServers(merged);
    if thrown < |merged| {
      return Uncaught(thrown);
    }
    ending := Called(Outcome(if |errs| > 0 then Some(errs) else None, Some(list)));
  }
}
