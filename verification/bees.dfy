/**
 The bee lifecycle of bees.py: `up` (create the roster), `report`, `down`
 (terminate and delete the roster) and `attack` (split the load, sting the
 target from every bee, partition and aggregate the results).

 EC2 and SSH are reduced to their observable answers: the instances EC2
 reports for the roster's ids, the ids it launches, and a `Remote` function
 standing for one SSH session that runs a command and yields its stdout or
 fails. The pool of worker processes is modelled by its result: an
 order-preserving map that fails as a whole when any bee raises.
 */
module Bees {
  import opened Wrappers
  import opened Text
  import opened Tester
  import opened AbTester
  import opened Roster

  // ---------------------------------------------------------------------
  // Splitting the load
  // ---------------------------------------------------------------------

  /** `int(float(n) / count)`: the quotient rounded toward zero. */
  function TruncDiv(n: int, count: nat): (q: int)
    requires count > 0
    ensures n >= 0 ==> 0 <= q * count <= n < q * count + count
    ensures n < 0 ==> q * count - count < n <= q * count <= 0
  {
    if n >= 0 then
      DivFloor(n, count);
      n / count
    else
      DivFloor(-n, count);
      -((-n) / count)
  }

  lemma DivFloor(m: nat, count: nat)
    requires count > 0
    ensures 0 <= (m / count) * count <= m < (m / count) * count + count
  {
    assert m == (m / count) * count + m % count;
  }

  /** Rounding toward zero is symmetric, unlike Dafny's `/`. */
  lemma TruncDivNegate(n: int, count: nat)
    requires count > 0
    ensures TruncDiv(-n, count) == -TruncDiv(n, count)
  {
  }

  /** An EC2 instance as `attack` sees it. */
  datatype Instance = Instance(id: string, publicDnsName: string)

  /** The dictionary `attack` prepares for each bee. */
  datatype AttackParams = AttackParams(
    i: nat,
    instanceId: string,
    instanceName: string,
    url: string,
    concurrentRequests: int,
    numRequests: int,
    username: string,
    keyName: string,
    keepalive: bool)

  /**
   The loop of `attack` that builds one parameter record per instance: bee `i`
   targets instance `i`, and every bee gets the same share of the load.
   */
  method BuildParams(instances: seq<Instance>, url: string, perInstance: int, connectionsPerInstance: int,
                     username: string, keyName: string, keepalive: bool)
    returns (params: seq<AttackParams>)
    ensures |params| == |instances|
    ensures forall i :: 0 <= i < |params| ==> params[i].i == i
    ensures forall i :: 0 <= i < |params| ==>
      params[i].instanceId == instances[i].id && params[i].instanceName == instances[i].publicDnsName
    ensures forall i :: 0 <= i < |params| ==>
      params[i].url == url && params[i].keepalive == keepalive
      && params[i].numRequests == perInstance && params[i].concurrentRequests == connectionsPerInstance
      && params[i].username == username && params[i].keyName == keyName
  {
    params := [];
    var k := 0;
    while k < |instances|
      invariant k <= |instances| && |params| == k
      invariant forall i :: 0 <= i < k ==>
        params[i] == AttackParams(i, instances[i].id, instances[i].publicDnsName, url,
                                  connectionsPerInstance, perInstance, username, keyName, keepalive)
    {
      params := params + [AttackParams(k, instances[k].id, instances[k].publicDnsName, url,
                                       connectionsPerInstance, perInstance, username, keyName, keepalive)];
      k := k + 1;
    }
  }

  /** Requests the bees fire together. */
  function TotalRequests(params: seq<AttackParams>): int {
    if |params| == 0 then 0 else params[0].numRequests + TotalRequests(params[1..])
  }

  lemma {:induction false} TotalOfEqualShares(params: seq<AttackParams>, share: int)
    requires forall i :: 0 <= i < |params| ==> params[i].numRequests == share
    ensures TotalRequests(params) == share * |params|
  {
    if |params| > 0 {
      TotalOfEqualShares(params[1..], share);
    }
  }

  /**
   The swarm fires at most the requested number of requests, and falls short by
   less than one request per bee (the remainder of the division is dropped).
   */
  lemma SharesCoverRequest(params: seq<AttackParams>, n: nat)
    requires |params| > 0
    requires forall i :: 0 <= i < |params| ==> params[i].numRequests == TruncDiv(n, |params|)
    ensures TotalRequests(params) <= n < TotalRequests(params) + |params|
  {
    TotalOfEqualShares(params, TruncDiv(n, |params|));
  }

  // ---------------------------------------------------------------------
  // One bee: _attack
  // ---------------------------------------------------------------------

  /** `~/.ssh/KEY.pem`, the key file `up` checks for and every bee connects with. */
  function PemPath(keyName: string): string {
    "~/.ssh/" + keyName + ".pem"
  }

  /** What a bee asks of its instance over SSH. */
  datatype Session = Session(host: string, username: string, keyPath: string, command: string)

  /**
   How an SSH session ends: the command's stdout, a `socket.error` itself, an
   instance of one of its subclasses (`socket.timeout`, `socket.gaierror` when
   the host name does not resolve, `socket.herror`), or any other exception.
   */
  datatype Reply =
    | Stdout(text: string)
    | SocketFailure(reason: string)
    | SocketSubclassFailure(reason: string)
    | SshFailure(reason: string)

  /** One SSH session to an instance, supplied from outside the model. */
  type Remote = Session -> Reply

  /**
   What `_attack` returns: a parsed result, `None` (no usable output), or the
   caught exception, which is either exactly a `socket.error` or an instance of
   one of its subclasses.
   */
  datatype BeeResult =
    | Finished(result: TesterResult)
    | NoResult
    | SocketError(reason: string)
    | SocketSubclassError(reason: string)

  /** `isinstance(r, socket.error)`: what `except socket.error` catches. */
  predicate IsSocketError(b: BeeResult) {
    b.SocketError? || b.SocketSubclassError?
  }

  /** The session bee `p` opens: its instance, the roster's user and key, and the `ab` command for its share. */
  function SessionOf(p: AttackParams): Session {
    Session(p.instanceName, p.username, PemPath(p.keyName),
            GetCommand(p.numRequests, p.concurrentRequests, p.keepalive, p.url))
  }

  /**
   `_attack`: None when an exception other than `socket.error` escapes (an SSH
   failure, or `float()` raising inside `parse_output`). A socket error of any
   subclass is caught and returned as it is.
   */
  function Sting(p: AttackParams, remote: Remote): (r: Option<BeeResult>)
    ensures remote(SessionOf(p)).SocketFailure? ==> r == Some(SocketError(remote(SessionOf(p)).reason))
    ensures remote(SessionOf(p)).SocketSubclassFailure? ==>
      r == Some(SocketSubclassError(remote(SessionOf(p)).reason))
    ensures r.Some? && IsSocketError(r.value) <==>
      remote(SessionOf(p)).SocketFailure? || remote(SessionOf(p)).SocketSubclassFailure?
    ensures remote(SessionOf(p)).SshFailure? ==> r.None?
    ensures remote(SessionOf(p)).Stdout? ==>
      var outcome := ParseOutput(remote(SessionOf(p)).text);
      && (r.None? <==> outcome.ValueError?)
      && (r == Some(NoResult) <==> outcome.NoData?)
      && (r.Some? && r.value.Finished? <==> outcome.Parsed?)
      && (outcome.Parsed? ==> r == Some(Finished(outcome.result)))
  {
    match remote(SessionOf(p))
    case SocketFailure(e) => Some(SocketError(e))
    case SocketSubclassFailure(e) => Some(SocketSubclassError(e))
    case SshFailure(_) => None
    case Stdout(out) =>
      match ParseOutput(out)
      case Parsed(result) => Some(Finished(result))
      case NoData => Some(NoResult)
      case ValueError => None
  }

  /** The command every bee runs carries exactly its parameters. */
  lemma SessionCommandDecodes(p: AttackParams)
    ensures DecodeCommand(SessionOf(p).command)
            == Some(AbCommand(p.numRequests, p.concurrentRequests, p.keepalive, p.url))
  {
    CommandRoundTrip(p.numRequests, p.concurrentRequests, p.keepalive, p.url);
  }

  // ---------------------------------------------------------------------
  // The swarm: pool.map(_attack, params)
  // ---------------------------------------------------------------------

  /** `pool.map`: results in the order of the parameters, or None when any bee raises. */
  function Swarm(params: seq<AttackParams>, remote: Remote): (r: Option<seq<BeeResult>>)
    ensures r.None? <==> exists i :: 0 <= i < |params| && Sting(params[i], remote).None?
    ensures r.Some? ==> |r.value| == |params|
    ensures r.Some? ==> forall i :: 0 <= i < |params| ==> Sting(params[i], remote) == Some(r.value[i])
  {
    var sting := (p: AttackParams) => Sting(p, remote);
    assert forall i :: 0 <= i < |params| ==> sting(params[i]) == Sting(params[i], remote);
    PoolMap(sting, params)
  }

  /** Applies `f` to every element in order; an exception (None) from any call aborts the whole map. */
  function PoolMap<A, B>(f: A -> Option<B>, xs: seq<A>): (r: Option<seq<B>>)
    ensures r.None? <==> exists i :: 0 <= i < |xs| && f(xs[i]).None?
    ensures r.Some? ==> |r.value| == |xs|
    ensures r.Some? ==> forall i :: 0 <= i < |xs| ==> f(xs[i]) == Some(r.value[i])
  {
    if |xs| == 0 then Some([])
    else
      var tail := xs[1..];
      assert forall i :: 1 <= i < |xs| ==> xs[i] == tail[i - 1];
      var first := f(xs[0]);
      var rest := PoolMap(f, tail);
      if first.None? then None
      else if rest.None? then
        var i :| 0 <= i < |tail| && f(tail[i]).None?;
        assert xs[i + 1] == tail[i];
        None
      else
        Some([first.value] + rest.value)
  }

  // ---------------------------------------------------------------------
  // Sorting the results
  // ---------------------------------------------------------------------

  /** `timeout_bees`: the bees whose `parse_output` returned None. */
  function Timeouts(results: seq<BeeResult>): (n: nat)
    ensures n <= |results|
  {
    if |results| == 0 then 0
    else (if results[0].NoResult? then 1 else 0) + Timeouts(results[1..])
  }

  /**
   `exception_bees` as evidently intended: every socket error, whatever its
   subclass, in bee order.
   */
  function SocketErrors(results: seq<BeeResult>): (e: seq<string>)
    ensures |e| <= |results|
  {
    if |results| == 0 then []
    else (if IsSocketError(results[0]) then [results[0].reason] else []) + SocketErrors(results[1..])
  }

  /** `complete_bees`: the parsed results, in bee order. */
  function CompleteResults(results: seq<BeeResult>): (c: seq<TesterResult>)
    ensures |c| <= |results|
    ensures forall k :: 0 <= k < |c| ==> Finished(c[k]) in results
  {
    if |results| == 0 then []
    else
      var rest := CompleteResults(results[1..]);
      assert forall k :: 0 <= k < |rest| ==> Finished(rest[k]) in results[1..];
      (if results[0].Finished? then [results[0].result] else []) + rest
  }

  /** The timeout count is the number of bees whose result was None. */
  lemma {:induction false} TimeoutsCount(results: seq<BeeResult>)
    ensures Timeouts(results) == multiset(results)[NoResult]
  {
    if |results| > 0 {
      TimeoutsCount(results[1..]);
      assert results == [results[0]] + results[1..];
    }
  }

  /** Every reported socket error is the reason of some bee's socket error. */
  lemma {:induction false} SocketErrorsFromBees(results: seq<BeeResult>)
    ensures forall k :: 0 <= k < |SocketErrors(results)| ==>
      SocketError(SocketErrors(results)[k]) in results || SocketSubclassError(SocketErrors(results)[k]) in results
  {
    if |results| > 0 {
      SocketErrorsFromBees(results[1..]);
      var rest := SocketErrors(results[1..]);
      assert forall k :: 0 <= k < |rest| ==>
        SocketError(rest[k]) in results[1..] || SocketSubclassError(rest[k]) in results[1..];
    }
  }

  /** No socket error, of any subclass, is left out of the report. */
  lemma {:induction false} SocketErrorsKeepAll(results: seq<BeeResult>, i: nat)
    requires i < |results| && IsSocketError(results[i])
    ensures results[i].reason in SocketErrors(results)
  {
    if i > 0 {
      SocketErrorsKeepAll(results[1..], i - 1);
      assert results[1..][i - 1] == results[i];
    }
  }

  /** Every result lands in exactly one of the three groups. */
  lemma {:induction false} PartitionCounts(results: seq<BeeResult>)
    ensures Timeouts(results) + |SocketErrors(results)| + |CompleteResults(results)| == |results|
  {
    if |results| > 0 {
      PartitionCounts(results[1..]);
    }
  }

  /** Every parsed result is kept: nothing finished is dropped from `complete_bees`. */
  lemma {:induction false} CompleteResultsKeepAll(results: seq<BeeResult>, i: nat)
    requires i < |results| && results[i].Finished?
    ensures results[i].result in CompleteResults(results)
  {
    if i > 0 {
      CompleteResultsKeepAll(results[1..], i - 1);
      assert results[1..][i - 1] == results[i];
    }
  }

  /** The groups keep bee order: sorting a concatenation sorts each part. */
  lemma {:induction false} TimeoutsAppend(a: seq<BeeResult>, b: seq<BeeResult>)
    ensures Timeouts(a + b) == Timeouts(a) + Timeouts(b)
  {
    if |a| > 0 {
      assert (a + b)[1..] == a[1..] + b;
      TimeoutsAppend(a[1..], b);
    } else {
      assert a + b == b;
    }
  }

  lemma {:induction false} SocketErrorsAppend(a: seq<BeeResult>, b: seq<BeeResult>)
    ensures SocketErrors(a + b) == SocketErrors(a) + SocketErrors(b)
  {
    if |a| > 0 {
      assert (a + b)[1..] == a[1..] + b;
      SocketErrorsAppend(a[1..], b);
    } else {
      assert a + b == b;
    }
  }

  lemma {:induction false} CompleteResultsAppend(a: seq<BeeResult>, b: seq<BeeResult>)
    ensures CompleteResults(a + b) == CompleteResults(a) + CompleteResults(b)
  {
    if |a| > 0 {
      assert (a + b)[1..] == a[1..] + b;
      CompleteResultsAppend(a[1..], b);
    } else {
      assert a + b == b;
    }
  }

  /**
   Three bees, the middle one refused by its host: the socket error is reported
   and the other two results are aggregated in bee order.
   */
  lemma OneSocketErrorAmongThree(a: TesterResult, b: TesterResult, reason: string)
    ensures var results := [Finished(a), SocketError(reason), Finished(b)];
      && Timeouts(results) == 0
      && SocketErrors(results) == [reason]
      && CompleteResults(results) == [a, b]
  {
    var r3 := [Finished(b)];
    var r2 := [SocketError(reason)] + r3;
    var r1 := [Finished(a)] + r2;
    assert r3[1..] == [] && r2[1..] == r3 && r1[1..] == r2;
    assert Timeouts(r3) == 0 && SocketErrors(r3) == [] && CompleteResults(r3) == [b];
    assert Timeouts(r2) == 0 && SocketErrors(r2) == [reason] && CompleteResults(r2) == [b];
    assert r1 == [Finished(a), SocketError(reason), Finished(b)];
  }

  // ---------------------------------------------------------------------
  // The partition as written: exact type test
  // ---------------------------------------------------------------------

  /** `exception_bees` as written: `type(r) == socket.error` keeps only the exact type. */
  function ExceptionBeesAsWritten(results: seq<BeeResult>): (e: seq<string>)
    ensures |e| <= |results|
  {
    if |results| == 0 then []
    else (if results[0].SocketError? then [results[0].reason] else []) + ExceptionBeesAsWritten(results[1..])
  }

  /**
   `complete_bees` as written: everything that is neither None nor exactly a
   `socket.error`, so a socket error of a subclass is kept with the results.
   */
  function CompleteBeesAsWritten(results: seq<BeeResult>): (c: seq<BeeResult>)
    ensures |c| <= |results|
    ensures forall k :: 0 <= k < |c| ==> c[k] in results && (c[k].Finished? || c[k].SocketSubclassError?)
  {
    if |results| == 0 then []
    else
      var rest := CompleteBeesAsWritten(results[1..]);
      assert forall k :: 0 <= k < |rest| ==> rest[k] in results[1..];
      (if results[0].Finished? || results[0].SocketSubclassError? then [results[0]] else []) + rest
  }

  /** A socket error of a subclass is never dropped from `complete_bees` as written. */
  lemma {:induction false} CompleteBeesAsWrittenKeepsSubclass(results: seq<BeeResult>, i: nat)
    requires i < |results| && results[i].SocketSubclassError?
    ensures results[i] in CompleteBeesAsWritten(results)
  {
    if i > 0 {
      CompleteBeesAsWrittenKeepsSubclass(results[1..], i - 1);
      assert results[1..][i - 1] == results[i];
    }
  }

  /** The parsed results among `complete_bees` as written are exactly the parsed results. */
  lemma {:induction false} CompleteBeesAsWrittenResults(results: seq<BeeResult>)
    ensures CompleteResults(CompleteBeesAsWritten(results)) == CompleteResults(results)
  {
    if |results| > 0 {
      CompleteBeesAsWrittenResults(results[1..]);
      var rest := CompleteBeesAsWritten(results[1..]);
      if results[0].Finished? || results[0].SocketSubclassError? {
        assert ([results[0]] + rest)[1..] == rest;
      } else {
        assert [] + rest == rest;
      }
    }
  }

  /** Without subclass errors the exact type test finds every socket error. */
  lemma {:induction false} ExceptionBeesWithoutSubclass(results: seq<BeeResult>)
    requires forall i :: 0 <= i < |results| ==> !results[i].SocketSubclassError?
    ensures ExceptionBeesAsWritten(results) == SocketErrors(results)
  {
    if |results| > 0 {
      assert forall i :: 0 <= i < |results[1..]| ==> results[1..][i] == results[i + 1];
      ExceptionBeesWithoutSubclass(results[1..]);
    }
  }

  // ---------------------------------------------------------------------
  // attack
  // ---------------------------------------------------------------------

  /** Why an attack stopped with an exception. */
  datatype Crash =
    | ZeroDivision    // EC2 reported no instances for the roster's ids
    | PingFailed      // `urllib2.urlopen(url)` raised
    | BeeRaised       // an exception escaped `pool.map`
    | NothingToAggregate  // no bee completed: `max([])` raises
    | NotAResult      // `r.concurrency` on a socket error raises AttributeError

  /** How `attack` ends. */
  datatype AttackOutcome =
    | NotReady
    | Crashed(crash: Crash)
    | Completed(timeouts: nat, socketErrors: seq<string>, complete: seq<TesterResult>, aggregate: TesterResult)

  /**
   The end of `attack` as written, once `pool.map` returned: partition with the
   exact type test, then `get_aggregate_result(complete_bees)`, whose first
   field access fails on a kept socket error before `max` sees an empty list.
   */
  function ConcludeAsWritten(results: seq<BeeResult>): (o: AttackOutcome)
    ensures o.Completed? || o == Crashed(NotAResult) || o == Crashed(NothingToAggregate)
    ensures o.Completed? ==> |o.complete| > 0 && o.aggregate == Aggregate(o.complete)
  {
    var complete := CompleteBeesAsWritten(results);
    if exists k :: 0 <= k < |complete| && !complete[k].Finished? then Crashed(NotAResult)
    else if |complete| == 0 then Crashed(NothingToAggregate)
    else
      var finished := CompleteResults(complete);
      CompleteResultsKeepAll(complete, 0);
      Completed(Timeouts(results), ExceptionBeesAsWritten(results), finished, Aggregate(finished))
  }

  /** As written, the attack crashes on the aggregation exactly when some bee returned a subclass socket error. */
  lemma SubclassCrashesAsWritten(results: seq<BeeResult>)
    ensures ConcludeAsWritten(results) == Crashed(NotAResult)
            <==> exists i :: 0 <= i < |results| && results[i].SocketSubclassError?
  {
    var complete := CompleteBeesAsWritten(results);
    if i :| 0 <= i < |results| && results[i].SocketSubclassError? {
      CompleteBeesAsWrittenKeepsSubclass(results, i);
      var k :| 0 <= k < |complete| && complete[k] == results[i];
      assert !complete[k].Finished?;
    }
  }

  /** With no subclass socket error, the code as written and the corrected conclusion agree. */
  lemma AsWrittenAgreesWithoutSubclass(results: seq<BeeResult>)
    requires forall i :: 0 <= i < |results| ==> !results[i].SocketSubclassError?
    ensures ConcludeAsWritten(results) == Conclude(results)
  {
    SubclassCrashesAsWritten(results);
    CompleteBeesAsWrittenResults(results);
    ExceptionBeesWithoutSubclass(results);
    var complete := CompleteBeesAsWritten(results);
    if |complete| > 0 {
      CompleteResultsKeepAll(complete, 0);
    } else {
      assert CompleteResults(complete) == [];
    }
  }

  /**
   One bee finished and one could not resolve its host (`socket.gaierror`):
   the code as written crashes in `get_aggregate_result`, while the corrected
   partition reports the error and aggregates the finished bee.
   */
  lemma UnresolvedHostCrashesAsWritten(a: TesterResult, reason: string)
    ensures ConcludeAsWritten([Finished(a), SocketSubclassError(reason)]) == Crashed(NotAResult)
    ensures Conclude([Finished(a), SocketSubclassError(reason)]) == Completed(0, [reason], [a], a)
  {
    var results := [Finished(a), SocketSubclassError(reason)];
    SubclassCrashesAsWritten(results);
    var tail := [SocketSubclassError(reason)];
    assert results[1..] == tail && tail[1..] == [];
    assert CompleteResults(results) == [a];
    assert SocketErrors(results) == [reason];
    AggregateSingleton(a);
  }

  /**
   The end of `attack` with the evidently intended partition: every socket
   error is reported, and the parsed results are aggregated unless there are
   none, when `max([])` raises.
   */
  function Conclude(results: seq<BeeResult>): (o: AttackOutcome)
    ensures o.Completed? <==> |CompleteResults(results)| > 0
    ensures !o.Completed? ==> o == Crashed(NothingToAggregate)
    ensures o.Completed? ==>
      && o.timeouts == Timeouts(results)
      && o.socketErrors == SocketErrors(results)
      && o.complete == CompleteResults(results)
      && o.aggregate == Aggregate(o.complete)
      && o.timeouts + |o.socketErrors| + |o.complete| == |results|
  {
    var complete := CompleteResults(results);
    if |complete| == 0 then Crashed(NothingToAggregate)
    else
      PartitionCounts(results);
      Completed(Timeouts(results), SocketErrors(results), complete, Aggregate(complete))
  }

  /** The corrected attack completes exactly when some bee finished, whatever the socket errors. */
  lemma ConcludeCompletesIffFinished(results: seq<BeeResult>)
    ensures Conclude(results).Completed? <==> exists i :: 0 <= i < |results| && results[i].Finished?
  {
    if i :| 0 <= i < |results| && results[i].Finished? {
      CompleteResultsKeepAll(results, i);
    } else if |CompleteResults(results)| > 0 {
      assert Finished(CompleteResults(results)[0]) in results;
    }
  }

  /**
   `attack(url, n, c, keepalive)`. `roster` is what `_read_server_list` returned,
   `instances` what EC2 reports for its ids, `pingOk` whether fetching the URL once
   succeeded, and `remote` runs each bee's SSH session. Socket errors are
   partitioned as `Conclude` does.
   */
  method Attack(roster: Option<Roster>, instances: seq<Instance>, url: string, n: int, c: int,
                keepalive: bool, pingOk: bool, remote: Remote)
    returns (outcome: AttackOutcome, params: seq<AttackParams>)
    ensures outcome.NotReady? <==> !Mobilized(roster)
    ensures Mobilized(roster) && |instances| == 0 ==> outcome == Crashed(ZeroDivision)
    ensures Mobilized(roster) && |instances| > 0 && !pingOk ==> outcome == Crashed(PingFailed)
    ensures Mobilized(roster) && |instances| > 0 ==>
      && |params| == |instances|
      && forall i :: 0 <= i < |params| ==>
           params[i].i == i
           && params[i].instanceId == instances[i].id
           && params[i].instanceName == instances[i].publicDnsName
           && params[i].url == url && params[i].keepalive == keepalive
           && params[i].numRequests == TruncDiv(n, |instances|)
           && params[i].concurrentRequests == TruncDiv(c, |instances|)
           && params[i].username == roster.value.username && params[i].keyName == roster.value.keyName
    ensures Mobilized(roster) && |instances| > 0 && pingOk ==>
      (outcome == Crashed(BeeRaised) <==> Swarm(params, remote).None?)
    ensures Mobilized(roster) && |instances| > 0 && pingOk && Swarm(params, remote).Some? ==>
      && (outcome.Completed? <==> |CompleteResults(Swarm(params, remote).value)| > 0)
      && (outcome == Crashed(NothingToAggregate) <==> |CompleteResults(Swarm(params, remote).value)| == 0)
    ensures Mobilized(roster) && |instances| > 0 && pingOk ==>
      (outcome.Completed? <==>
         Swarm(params, remote).Some?
         && exists i :: 0 <= i < |params| && Sting(params[i], remote).Some? && Sting(params[i], remote).value.Finished?)
    ensures outcome.Completed? ==>
      && Swarm(params, remote).Some?
      && var results := Swarm(params, remote).value;
         && outcome.timeouts == Timeouts(results)
         && outcome.socketErrors == SocketErrors(results)
         && outcome.complete == CompleteResults(results)
         && |outcome.complete| > 0
         && outcome.aggregate == Aggregate(outcome.complete)
         && outcome.timeouts + |outcome.socketErrors| + |outcome.complete| == |instances|
  {
    params := [];
    if !Mobilized(roster) {
      return NotReady, params;
    }
    var count := |instances|;
    if count == 0 {
      return Crashed(ZeroDivision), params;
    }
    var perInstance := TruncDiv(n, count);
    var connectionsPerInstance := TruncDiv(c, count);
    params := BuildParams(instances, url, perInstance, connectionsPerInstance,
                          roster.value.username, roster.value.keyName, keepalive);
    if !pingOk {
      return Crashed(PingFailed), params;
    }
    var swarm := Swarm(params, remote);
    if swarm.None? {
      return Crashed(BeeRaised), params;
    }
    var results := swarm.value;
    ConcludeCompletesIffFinished(results);
    outcome := Conclude(results);
  }

  // ---------------------------------------------------------------------
  // up, down, report
  // ---------------------------------------------------------------------

  /** How `up` ends; `Assembled` carries the roster file it writes. */
  datatype UpOutcome = AlreadyAssembled | NoKeyFile(path: string) | Assembled(file: string)

  /**
   `up`: refuses when a roster exists, stops when the key file is missing, and
   otherwise writes the ids of the instances EC2 launched (`launched`) into a
   new roster. `keyFileExists` answers for `PemPath(keyName)`.
   */
  function Up(rosterFile: Option<string>, keyFileExists: bool, username: string, keyName: string,
              launched: seq<string>): (r: UpOutcome)
    ensures r.AlreadyAssembled? <==> rosterFile.Some?
    ensures r.NoKeyFile? <==> rosterFile.None? && !keyFileExists
    ensures r.NoKeyFile? ==> r.path == PemPath(keyName)
  {
    MobilizedIffFile(rosterFile);
    if Mobilized(ReadServerList(rosterFile)) then AlreadyAssembled
    else if !keyFileExists then NoKeyFile(PemPath(keyName))
    else Assembled(WriteServerList(username, keyName, launched))
  }

  /** The roster `up` writes is the one `attack`, `report` and `down` read back. */
  lemma UpThenRead(keyFileExists: bool, username: string, keyName: string, launched: seq<string>)
    requires LineValue(username) && LineValue(keyName)
    requires |launched| >= 1 && forall i :: 0 <= i < |launched| ==> '\n' !in launched[i]
    ensures Up(None, keyFileExists, username, keyName, launched).Assembled? <==> keyFileExists
    ensures keyFileExists ==>
      ReadServerList(Some(Up(None, keyFileExists, username, keyName, launched).file))
      == Some(Roster(username, keyName, launched))
  {
    if keyFileExists {
      RosterRoundTrip(username, keyName, launched);
    }
  }

  /** `down`: the ids it asks EC2 to terminate (None when nothing is mobilized) and the roster file afterwards. */
  function Down(rosterFile: Option<string>): (r: (Option<seq<string>>, Option<string>))
    ensures r.1.None?
    ensures r.0.Some? <==> rosterFile.Some?
    ensures r.0.Some? ==> r.0.value == ReadServerList(rosterFile).value.instanceIds
  {
    MobilizedIffFile(rosterFile);
    var roster := ReadServerList(rosterFile);
    if !Mobilized(roster) then (None, rosterFile)
    else (Some(roster.value.instanceIds), None)
  }

  /** After `down` nothing is mobilized: a second `down` does nothing and `up` may run again. */
  lemma DownThenNothing(rosterFile: Option<string>, keyFileExists: bool, username: string, keyName: string,
                        launched: seq<string>)
    ensures Down(Down(rosterFile).1).0.None?
    ensures !Mobilized(ReadServerList(Down(rosterFile).1))
    ensures !Up(Down(rosterFile).1, keyFileExists, username, keyName, launched).AlreadyAssembled?
  {
  }

  /** `report`: the ids whose state it asks EC2 for, or None when nothing is mobilized. */
  function Report(rosterFile: Option<string>): (r: Option<seq<string>>)
    ensures r.Some? <==> rosterFile.Some?
    ensures r.Some? ==> r.value == ReadServerList(rosterFile).value.instanceIds && |r.value| >= 1
  {
    MobilizedIffFile(rosterFile);
    var roster := ReadServerList(rosterFile);
    if Mobilized(roster) then Some(roster.value.instanceIds) else None
  }
}
