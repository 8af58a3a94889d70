/** What the validator promises its caller, stated over the reference
    `Validate` (which the loop-based `ValidateConfig` is proved equal to). */
module ValidateProperties {
  import opened Wrappers
  import opened Json
  import opened Decimal
  import opened Merge
  import opened Validator

  // ---------------------------------------------------------------------
  // Merging `default` under a server entry
  // ---------------------------------------------------------------------

  /** A key the server entry supplies wins; a key only `default` supplies is
      inherited; no other key appears. */
  lemma MergePrecedence(default: Option<Value>, server: Option<Value>)
    ensures forall k :: k in MergeDefault(default, server) <==> k in Enumerable(server) || k in Enumerable(default)
    ensures forall k :: k in Enumerable(server) ==> MergeDefault(default, server)[k] == Enumerable(server)[k]
    ensures forall k :: k in Enumerable(default) && k !in Enumerable(server) ==>
      MergeDefault(default, server)[k] == Enumerable(default)[k]
  {
    var sources := [default, server];
    assert sources[0] == default && sources[1] == server;
    ExtendKeys(map[], sources);
    forall k | k in MergeDefault(default, server)
      ensures k in Enumerable(server) || k in Enumerable(default)
    {
      var j :| SuppliedBy(sources, j, k);
    }
    forall k | k in Enumerable(server)
      ensures k in MergeDefault(default, server) && MergeDefault(default, server)[k] == Enumerable(server)[k]
    {
      assert LastSupplier(sources, 1, k);
      ExtendLastSourceWins(map[], sources, 1, k);
    }
    forall k | k in Enumerable(default) && k !in Enumerable(server)
      ensures k in MergeDefault(default, server) && MergeDefault(default, server)[k] == Enumerable(default)[k]
    {
      assert !SuppliedBy(sources, 1, k);
      assert LastSupplier(sources, 0, k);
      ExtendLastSourceWins(map[], sources, 0, k);
    }
    forall k | k in Enumerable(server) || k in Enumerable(default)
      ensures k in MergeDefault(default, server)
    {
      if k in Enumerable(server) {
        assert SuppliedBy(sources, 1, k);
      } else {
        assert SuppliedBy(sources, 0, k);
      }
    }
  }

  /** Without a `default` block (or with one that has no enumerable keys) a
      server entry that is an object is copied unchanged. */
  lemma MergeWithoutDefaultCopies(default: Option<Value>, fields: Object)
    requires Enumerable(default) == map[]
    ensures MergeDefault(default, Some(JObj(fields))) == fields
  {
    MergePrecedence(default, Some(JObj(fields)));
  }

  // ---------------------------------------------------------------------
  // The error list
  // ---------------------------------------------------------------------

  /** Error messages identify the server and the failing check: two equal
      messages name the same index and the same check. */
  lemma MessageInjective(i: nat, c: Check, j: nat, d: Check)
    ensures Message(i, c) == Message(j, d) ==> i == j && c == d
  {
    if Message(i, c) == Message(j, d) {
      var tc := " - " + Describe(c);
      var td := " - " + Describe(d);
      assert DecimalString(i) + tc == Message(i, c)[8..];
      assert DecimalString(j) + td == Message(j, d)[8..];
      SplitAfterDigits(DecimalString(i), tc, DecimalString(j), td);
      DecimalInjective(i, j);
      assert Describe(c) == tc[3..] && Describe(d) == td[3..];
      DescribeInjective(c, d);
    }
  }

  lemma DescribeInjective(c: Check, d: Check)
    ensures Describe(c) == Describe(d) ==> c == d
  {
    assert |Describe(RemoteAddress)| == 33 && |Describe(LocalAddress)| == 31;
    assert |Describe(Method)| == 18 && |Describe(Password)| == 20;
  }

  /** The indices of the merged servers that fail a check, in index order. */
  function FailingIndices(merged: seq<Object>): seq<nat> {
    if |merged| == 0 then []
    else
      var n := |merged| - 1;
      FailingIndices(merged[..n]) + (if FirstFailure(merged[n]).Some? then [n] else [])
  }

  /** `FailingIndices` lists exactly the failing servers, each once, in increasing order. */
  lemma {:induction false} FailingIndicesExact(merged: seq<Object>)
    ensures |FailingIndices(merged)| <= |merged|
    ensures forall j :: 0 <= j < |FailingIndices(merged)| ==> FailingIndices(merged)[j] < |merged|
    ensures forall a, b :: 0 <= a < b < |FailingIndices(merged)| ==>
      FailingIndices(merged)[a] < FailingIndices(merged)[b]
    ensures forall i :: 0 <= i < |merged| ==> (i in FailingIndices(merged) <==> FirstFailure(merged[i]).Some?)
  {
    if |merged| > 0 {
      var n := |merged| - 1;
      FailingIndicesExact(merged[..n]);
      assert forall i :: 0 <= i < n ==> merged[..n][i] == merged[i];
    }
  }

  /** The error list holds one message per failing server, in index order,
      each naming that server's first failing check. */
  lemma {:induction false} ErrorsAlongFailingIndices(merged: seq<Object>)
    ensures |Errors(merged)| == |FailingIndices(merged)|
    ensures forall j :: 0 <= j < |Errors(merged)| ==>
      FailingIndices(merged)[j] < |merged| &&
      FirstFailure(merged[FailingIndices(merged)[j]]).Some? &&
      Errors(merged)[j] == Message(FailingIndices(merged)[j], FirstFailure(merged[FailingIndices(merged)[j]]).value)
  {
    if |merged| > 0 {
      var n := |merged| - 1;
      var pre := merged[..n];
      ErrorsAlongFailingIndices(pre);
      FailingIndicesExact(pre);
      var errs, failing := Errors(merged), FailingIndices(merged);
      assert errs == Errors(pre) + ErrorFor(n, merged[n]);
      assert failing == FailingIndices(pre) + (if FirstFailure(merged[n]).Some? then [n] else []);
      forall j | 0 <= j < |errs|
        ensures failing[j] < |merged| && FirstFailure(merged[failing[j]]).Some?
        ensures errs[j] == Message(failing[j], FirstFailure(merged[failing[j]]).value)
      {
        if j < |Errors(pre)| {
          assert errs[j] == Errors(pre)[j];
          assert failing[j] == FailingIndices(pre)[j];
          assert merged[failing[j]] == pre[failing[j]];
        } else {
          assert failing[j] == n;
        }
      }
    }
  }

  /** The error list is empty exactly when every merged server passes every check. */
  lemma {:induction false} ErrorsEmptyIffAllValid(merged: seq<Object>)
    ensures |Errors(merged)| == 0 <==> forall i :: 0 <= i < |merged| ==> FirstFailure(merged[i]).None?
  {
    ErrorsAlongFailingIndices(merged);
    FailingIndicesExact(merged);
    if |Errors(merged)| > 0 {
      assert FailingIndices(merged)[0] in FailingIndices(merged);
    } else {
      assert FailingIndices(merged) == [];
    }
  }

  /** Two server lists whose entries fail the same checks produce the same errors. */
  lemma {:induction false} ErrorsDependOnVerdictsOnly(a: seq<Object>, b: seq<Object>)
    requires |a| == |b|
    requires forall i :: 0 <= i < |a| ==> FirstFailure(a[i]) == FirstFailure(b[i])
    ensures Errors(a) == Errors(b)
  {
    if |a| > 0 {
      var n := |a| - 1;
      ErrorsDependOnVerdictsOnly(a[..n], b[..n]);
    }
  }

  // ---------------------------------------------------------------------
  // The whole validation pass
  // ---------------------------------------------------------------------

  /** The `servers` array once `default` has been merged under each entry. */
  function Merged(config: Config): (merged: seq<Object>)
    requires ModelledServersShape(config.servers) && !NoServers(config.servers)
    ensures |merged| == |config.servers.value.items|
  {
    MergeAll(config.default, config.servers.value.items)
  }

  /** A missing, falsy or empty `servers` yields exactly the one "no servers"
      error and a null server list; any other modelled `servers` (a non-empty
      array) yields a server list. */
  lemma NoServersRejected(config: Config)
    requires ModelledServersShape(config.servers)
    ensures NoServers(config.servers) ==> Validate(config) == Outcome(Some([NoServersMessage]), None)
    ensures Validate(config).servers.None? <==>
      !(config.servers.Some? && config.servers.value.JArr? && |config.servers.value.items| > 0)
  {
    GuardAdmitsNonEmptyArrays(config.servers);
  }

  /** The returned list has one entry per input entry, in the same order,
      whether or not errors are reported: entry `i` holds, apart from
      `timeout`, exactly the keys of `servers[i]` and of `default`, with the
      server's own value winning. */
  lemma ServersFollowInputOrder(config: Config)
    requires ModelledServersShape(config.servers) && !NoServers(config.servers)
    ensures Validate(config).servers.Some?
    ensures |Validate(config).servers.value| == |config.servers.value.items|
    ensures forall i, k :: 0 <= i < |config.servers.value.items| && k != "timeout" ==>
      var entry := Enumerable(Some(config.servers.value.items[i]));
      var shared := Enumerable(config.default);
      var out := Validate(config).servers.value[i];
      (k in out <==> k in entry || k in shared) &&
      (k in entry ==> out[k] == entry[k]) &&
      (k !in entry && k in shared ==> out[k] == shared[k])
  {
    var items := config.servers.value.items;
    forall i | 0 <= i < |items| {
      MergePrecedence(config.default, Some(items[i]));
    }
  }

  /** Validation writes no key other than `timeout`. */
  lemma OnlyTimeoutWritten(config: Config)
    requires ModelledServersShape(config.servers) && !NoServers(config.servers)
    ensures forall i, k :: 0 <= i < |Merged(config)| && k != "timeout" ==>
      (k in Validate(config).servers.value[i] <==> k in Merged(config)[i]) &&
      (k in Merged(config)[i] ==> Validate(config).servers.value[i][k] == Merged(config)[i][k])
  {
  }

  /** `timeout` defaulting: a server that passes every check and has a falsy
      `timeout` ends with 600; a truthy `timeout` is kept; a server that
      failed a check keeps its merged entry untouched. */
  lemma TimeoutDefaulting(config: Config, i: nat)
    requires ModelledServersShape(config.servers) && !NoServers(config.servers)
    requires i < |Merged(config)|
    ensures FirstFailure(Merged(config)[i]).None? && !Truthy(Get(Merged(config)[i], "timeout")) ==>
      Get(Validate(config).servers.value[i], "timeout") == Some(JNum(600.0))
    ensures Truthy(Get(Merged(config)[i], "timeout")) ==>
      Get(Validate(config).servers.value[i], "timeout") == Get(Merged(config)[i], "timeout")
    ensures FirstFailure(Merged(config)[i]).Some? ==> Validate(config).servers.value[i] == Merged(config)[i]
  {
  }

  /** The error result is null exactly when every merged server passes all four checks. */
  lemma ErrorsNullIffAllValid(config: Config)
    requires ModelledServersShape(config.servers) && !NoServers(config.servers)
    ensures Validate(config).errors.None? <==>
      forall i :: 0 <= i < |Merged(config)| ==> FirstFailure(Merged(config)[i]).None?
  {
    ErrorsEmptyIffAllValid(Merged(config));
  }

  /** Otherwise it lists one message per failing server, in index order, each
      carrying that server's index and its first failing check. */
  lemma ErrorsListFailingServers(config: Config)
    requires ModelledServersShape(config.servers) && !NoServers(config.servers)
    ensures Validate(config).errors.Some? ==>
      var errs := Validate(config).errors.value;
      var failing := FailingIndices(Merged(config));
      |errs| == |failing| &&
      forall j :: 0 <= j < |errs| ==>
        failing[j] < |Merged(config)| &&
        FirstFailure(Merged(config)[failing[j]]).Some? &&
        errs[j] == Message(failing[j], FirstFailure(Merged(config)[failing[j]]).value)
  {
    ErrorsAlongFailingIndices(Merged(config));
  }

  /** There are never more errors than servers. */
  lemma ErrorCountBounded(config: Config)
    requires ModelledServersShape(config.servers) && !NoServers(config.servers)
    ensures Validate(config).errors.Some? ==> |Validate(config).errors.value| <= |Merged(config)|
  {
    ErrorsAlongFailingIndices(Merged(config));
    FailingIndicesExact(Merged(config));
  }

  /** No server is reported twice: two different messages of the error list
      never name the same server index. */
  lemma NoServerReportedTwice(config: Config, a: nat, b: nat, i: nat, c: Check, d: Check)
    requires ModelledServersShape(config.servers) && !NoServers(config.servers)
    requires Validate(config).errors.Some?
    requires a < b < |Validate(config).errors.value|
    requires Validate(config).errors.value[a] == Message(i, c)
    ensures Validate(config).errors.value[b] != Message(i, d)
  {
    var merged := Merged(config);
    var errs := Validate(config).errors.value;
    ErrorsAlongFailingIndices(merged);
    FailingIndicesExact(merged);
    var failing := FailingIndices(merged);
    assert errs == Errors(merged);
    MessageInjective(failing[a], FirstFailure(merged[failing[a]]).value, i, c);
    MessageInjective(failing[b], FirstFailure(merged[failing[b]]).value, i, d);
  }

  /** Two servers sharing one `localAddr:localPort` are both accepted: the
      duplicate-address check is disabled, so when both pass the four field
      checks no message names either of them, whatever the other servers do. */
  lemma DuplicateLocalAddressesAccepted(config: Config, i: nat, j: nat)
    requires ModelledServersShape(config.servers) && !NoServers(config.servers)
    requires i < j < |Merged(config)|
    requires Get(Merged(config)[i], "localAddr") == Get(Merged(config)[j], "localAddr")
    requires Get(Merged(config)[i], "localPort") == Get(Merged(config)[j], "localPort")
    requires FirstFailure(Merged(config)[i]).None? && FirstFailure(Merged(config)[j]).None?
    ensures Validate(config).errors.Some? ==>
      forall t, c :: 0 <= t < |Validate(config).errors.value| ==>
        Validate(config).errors.value[t] != Message(i, c) && Validate(config).errors.value[t] != Message(j, c)
  {
    ValidServerNotNamed(Merged(config), i);
    ValidServerNotNamed(Merged(config), j);
  }

  /** A merged server that passes every check is named by no error message. */
  lemma ValidServerNotNamed(merged: seq<Object>, i: nat)
    requires i < |merged| && FirstFailure(merged[i]).None?
    ensures forall t, c :: 0 <= t < |Errors(merged)| ==> Errors(merged)[t] != Message(i, c)
  {
    ErrorsAlongFailingIndices(merged);
    var failing := FailingIndices(merged);
    var errs := Errors(merged);
    forall t, c | 0 <= t < |errs|
      ensures errs[t] != Message(i, c)
    {
      assert failing[t] != i;
      MessageInjective(failing[t], FirstFailure(merged[failing[t]]).value, i, c);
    }
  }

  /** The callback receives `Validate`'s outcome exactly when no merged
      server that passes the four checks has an address field that cannot be
      converted to a string; otherwise the run stops at the first such server. */
  lemma RunReachesCallback(config: Config)
    requires ModelledServersShape(config.servers)
    ensures Run(config).Called? ==> Run(config).outcome == Validate(config)
    ensures NoServers(config.servers) ==> Run(config).Called?
    ensures !NoServers(config.servers) ==>
      (Run(config).Uncaught? <==> exists i :: 0 <= i < |Merged(config)| && AddressKeyThrows(Merged(config)[i]))
    ensures Run(config).Uncaught? ==>
      var i := Run(config).server;
      !NoServers(config.servers) && i < |Merged(config)| &&
      FirstFailure(Merged(config)[i]).None? && AddressKeyThrows(Merged(config)[i]) &&
      forall j :: 0 <= j < i ==> !AddressKeyThrows(Merged(config)[j])
  {
    if !NoServers(config.servers) {
      var merged := Merged(config);
      var t := FirstThrowing(merged);
      assert Run(config) == if t < |merged| then Uncaught(t) else Called(Validate(config));
      if i :| 0 <= i < |merged| && AddressKeyThrows(merged[i]) {
        assert t <= i;
      }
    }
  }

  /** A value that is neither an array nor an object always converts. */
  predicate Scalar(v: Option<Value>) {
    v.None? || !(v.value.JArr? || v.value.JObj?)
  }

  /** When every merged server's `localAddr` and `localPort` are strings,
      numbers, booleans, null or absent, the run always reaches the callback. */
  lemma ScalarAddressesReachCallback(config: Config)
    requires ModelledServersShape(config.servers) && !NoServers(config.servers)
    requires forall i :: 0 <= i < |Merged(config)| ==>
      Scalar(Get(Merged(config)[i], "localAddr")) && Scalar(Get(Merged(config)[i], "localPort"))
    ensures Run(config) == Called(Validate(config))
  {
    var merged := Merged(config);
    forall i | 0 <= i < |merged|
      ensures !AddressKeyThrows(merged[i])
    {
      assert Scalar(Get(merged[i], "localAddr")) && Scalar(Get(merged[i], "localPort"));
    }
    assert FirstThrowing(merged) == |merged|;
  }

  /** A server that passes every check but whose `localAddr` is the object
      `{"toString": 0}` stops the run: the callback is never called. */
  lemma ToStringAddressHaltsRun(rest: seq<Value>)
    ensures
      var server := map["serverAddr" := JStr("host"), "serverPort" := JNum(8388.0),
                         "localAddr" := JObj(map["toString" := JNum(0.0)]), "localPort" := JNum(1080.0),
                         "method" := JStr("aes-256-cfb"), "password" := JStr("secret")];
      Run(Config(Some(JArr([JObj(server)] + rest)), None)) == Uncaught(0)
  {
    var server := map["serverAddr" := JStr("host"), "serverPort" := JNum(8388.0),
                      "localAddr" := JObj(map["toString" := JNum(0.0)]), "localPort" := JNum(1080.0),
                      "method" := JStr("aes-256-cfb"), "password" := JStr("secret")];
    var config := Config(Some(JArr([JObj(server)] + rest)), None);
    MergeWithoutDefaultCopies(None, server);
    ChecksRunInOrder(server);
    assert Merged(config)[0] == server;
    assert AddressKeyThrows(server);
  }

  /** The validated server list is a fixed point: feeding it back (as an
      array of objects, without a `default`) reproduces the same errors and
      the same server list. */
  lemma RevalidationIsStable(config: Config)
    requires ModelledServersShape(config.servers) && !NoServers(config.servers)
    ensures
      var out := Validate(config).servers.value;
      var again := Config(Some(JArr(seq(|out|, i requires 0 <= i < |out| => JObj(out[i])))), None);
      ModelledServersShape(again.servers) && !NoServers(again.servers) &&
      Validate(again) == Validate(config)
  {
    var merged := Merged(config);
    var out := Validate(config).servers.value;
    var items := seq(|out|, i requires 0 <= i < |out| => JObj(out[i]));
    var again := Config(Some(JArr(items)), None);
    var merged' := Merged(again);
    forall i | 0 <= i < |out|
      ensures merged'[i] == out[i]
      ensures FirstFailure(merged'[i]) == FirstFailure(merged[i])
      ensures WithTimeoutDefault(merged'[i]) == out[i]
    {
      MergeWithoutDefaultCopies(None, out[i]);
      TimeoutWriteKeepsVerdict(merged[i]);
    }
    ErrorsDependOnVerdictsOnly(merged', merged);
    assert Validate(again).servers.value == out;
  }

  /** Feeding the validated list back also ends the run the same way: the
      callback is reached again, or the same server's address key throws. */
  lemma RevalidationEndsAlike(config: Config)
    requires ModelledServersShape(config.servers) && !NoServers(config.servers)
    ensures
      var out := Validate(config).servers.value;
      var again := Config(Some(JArr(seq(|out|, i requires 0 <= i < |out| => JObj(out[i])))), None);
      ModelledServersShape(again.servers) && !NoServers(again.servers) &&
      Run(again) == Run(config)
  {
    RevalidationIsStable(config);
    var merged := Merged(config);
    var out := Validate(config).servers.value;
    var items := seq(|out|, i requires 0 <= i < |out| => JObj(out[i]));
    var again := Config(Some(JArr(items)), None);
    var merged' := Merged(again);
    forall i | 0 <= i < |out|
      ensures AddressKeyThrows(merged'[i]) == AddressKeyThrows(merged[i])
    {
      MergeWithoutDefaultCopies(None, out[i]);
      TimeoutWriteKeepsVerdict(merged[i]);
      assert merged'[i] == out[i] == WithTimeoutDefault(merged[i]);
      assert Get(out[i], "localAddr") == Get(merged[i], "localAddr");
      assert Get(out[i], "localPort") == Get(merged[i], "localPort");
    }
    FirstThrowingDependsOnVerdicts(merged', merged);
  }

  /** Writing `timeout` does not change which check a server fails, and doing it twice changes nothing more. */
  lemma TimeoutWriteKeepsVerdict(s: Object)
    ensures FirstFailure(WithTimeoutDefault(s)) == FirstFailure(s)
    ensures WithTimeoutDefault(WithTimeoutDefault(s)) == WithTimeoutDefault(s)
  {
    var t := WithTimeoutDefault(s);
    assert forall c :: Fails(t, c) == Fails(s, c);
    ChecksRunInOrder(s);
    ChecksRunInOrder(t);
  }

  /** Where the run stops depends only on which servers' address keys throw. */
  lemma FirstThrowingDependsOnVerdicts(a: seq<Object>, b: seq<Object>)
    requires |a| == |b|
    requires forall i :: 0 <= i < |a| ==> AddressKeyThrows(a[i]) == AddressKeyThrows(b[i])
    ensures FirstThrowing(a) == FirstThrowing(b)
  {
  }
}
