/** The MessagePack-RPC correlation table of the `Functions` class in
    lib/Functions.js, with the lazily spawned nvim process behind it.

    A request goes out as the tuple [0, id, method, args] (a Request message
    of the MessagePack-RPC specification); each chunk nvim writes to stdout
    is taken to decode to one tuple [type, id, error, result] (a Response
    message). Besides the fields of the class, the state records what the
    object is connected to: the requests written to nvim's stdin, how many
    processes were spawned and killed, the state of the promise each request
    returned, and the timer each request armed. */
module Rpc {
  import opened Js

  /** The type tag of a request message. */
  const RequestType := 0

  /** The delay every request arms its timeout timer with; the timeout the
      object was constructed with is not used here. */
  const ResponseTimeoutMs := 10000

  /** [0, id, method, args], as written to nvim's stdin. */
  datatype Request = Request(kind: int, id: nat, rpcMethod: string, args: seq<Value>)

  /** [type, id, error, result], as decoded from one stdout chunk. */
  datatype Response = Response(kind: Value, id: int, error: Value, result: Value)

  /** Why a request's promise was rejected. */
  datatype Rejection = RemoteError(error: Value) | Timeout(rpcMethod: string)

  datatype PromiseState = Pending | Fulfilled(result: Value) | Rejected(reason: Rejection)

  /** The timer armed by one request: the method it names in its message,
      its delay, and whether it has fired. */
  datatype Timer = Timer(rpcMethod: string, delay: int, fired: bool)

  /** An entry of #rpcJobs: the resolve/reject pair of the request whose id
      is its key (kept here as the name of the request's method). */
  datatype Job = Job(rpcMethod: string)

  datatype Bridge = Bridge(
    requestId: nat,
    rpcJobs: map<nat, Job>,
    started: bool,
    spawns: nat,
    kills: nat,
    stdin: seq<Request>,
    promises: seq<PromiseState>,
    timers: seq<Timer>)
  // promises[id - 1] and timers[id - 1] belong to the request with that id

  /** The error a rejected request's promise carries. */
  function RejectionError(r: Rejection): Exception {
    match r
    case RemoteError(e) => Error(JsString(e))
    case Timeout(m) => Error("Timeout waiting for response to " + m + " request")
  }

  /** A fresh object: no request sent, no process spawned. */
  const Initial := Bridge(0, map[], false, 0, 0, [], [], [])

  /** What every reachable state satisfies. Note what it does NOT say: an
      entry in the table may belong to a promise already rejected by its
      timer, and a pending promise may have no entry. */
  ghost predicate Invariant(b: Bridge) {
    && |b.stdin| == b.requestId
    && |b.promises| == b.requestId
    && |b.timers| == b.requestId
    && (forall i :: 0 <= i < |b.stdin| ==>
          && b.stdin[i].kind == RequestType
          && b.stdin[i].id == i + 1
          && b.timers[i].rpcMethod == b.stdin[i].rpcMethod
          && b.timers[i].delay == ResponseTimeoutMs)
    && (forall id :: id in b.rpcJobs ==>
          && 1 <= id <= b.requestId
          && b.rpcJobs[id].rpcMethod == b.stdin[id - 1].rpcMethod
          && (b.promises[id - 1] == Pending || b.promises[id - 1] == Rejected(Timeout(b.rpcJobs[id].rpcMethod))))
    && b.spawns == (if b.started then 1 else 0)
    && (b.requestId > 0 ==> b.started)
    && (b.kills > 0 ==> b.started)
  }

  /** A new object's state satisfies the invariant. */
  lemma InitialInvariant()
    ensures Invariant(Initial)
  {
  }

  /** A promise settles once: whatever settled before stays as it was. */
  ghost predicate SettledKept(b: Bridge, b': Bridge) {
    && |b.promises| <= |b'.promises|
    && forall i :: 0 <= i < |b.promises| && !b.promises[i].Pending? ==> b'.promises[i] == b.promises[i]
  }

  /** Resolving or rejecting a promise that has settled does nothing. */
  function Settle(p: PromiseState, s: PromiseState): PromiseState {
    if p.Pending? then s else p
  }

  /** `#sendRpcRequest(method, args)`. Writing to stdin goes through the
      `#nvim` getter, which spawns nvim unless `#_nvim` is already set. */
  function Send(b: Bridge, rpcMethod: string, args: seq<Value>): (b': Bridge)
    requires Invariant(b)
    ensures Invariant(b')
    ensures SettledKept(b, b')
  {
    var id := b.requestId + 1;
    b.(requestId := id,
       started := true,
       spawns := if b.started then b.spawns else b.spawns + 1,
       stdin := b.stdin + [Request(RequestType, id, rpcMethod, args)],
       rpcJobs := b.rpcJobs[id := Job(rpcMethod)],
       promises := b.promises + [Pending],
       timers := b.timers + [Timer(rpcMethod, ResponseTimeoutMs, false)])
  }

  /** The stdout `data` handler, for one decoded response. */
  function Receive(b: Bridge, response: Response): (b': Bridge)
    requires Invariant(b)
    ensures Invariant(b')
    ensures SettledKept(b, b')
  {
    if response.id >= 0 && response.id as nat in b.rpcJobs then
      var id := response.id as nat;
      var outcome :=
        if Truthy(response.error) then Rejected(RemoteError(response.error))
        else Fulfilled(response.result);
      var b' := b.(rpcJobs := b.rpcJobs - {id},
                   promises := b.promises[id - 1 := Settle(b.promises[id - 1], outcome)]);
      assert forall j :: j in b'.rpcJobs ==> j in b.rpcJobs && b'.promises[j - 1] == b.promises[j - 1];
      b'
    else b
  }

  /** A timer that request `k` armed and that has not fired yet. */
  predicate Armed(b: Bridge, k: nat) {
    1 <= k <= |b.timers| && !b.timers[k - 1].fired
  }

  /** The timer armed by request `k` fires. It looks up the entry of the
      CURRENT counter, deletes that one, and rejects request k's promise. */
  function Fire(b: Bridge, k: nat): (b': Bridge)
    requires Invariant(b) && Armed(b, k)
    ensures Invariant(b')
    ensures SettledKept(b, b')
  {
    var t := b.timers[k - 1];
    var timers := b.timers[k - 1 := t.(fired := true)];
    if b.requestId in b.rpcJobs then
      b.(timers := timers,
         rpcJobs := b.rpcJobs - {b.requestId},
         promises := b.promises[k - 1 := Settle(b.promises[k - 1], Rejected(Timeout(t.rpcMethod)))])
    else b.(timers := timers)
  }

  /** `dispose()`: kill nvim if it was ever spawned; `#_nvim` stays set. */
  function Disposed(b: Bridge): (b': Bridge)
    requires Invariant(b)
    ensures Invariant(b')
    ensures SettledKept(b, b')
    // only the kill count moves: pending requests stay pending, their
    // entries and timers stay, and nothing is written
    ensures && b'.promises == b.promises && b'.rpcJobs == b.rpcJobs && b'.timers == b.timers
            && b'.stdin == b.stdin && b'.requestId == b.requestId && b'.started == b.started
            && b'.spawns == b.spawns
    ensures b'.kills == if b.started then b.kills + 1 else b.kills
  {
    if b.started then b.(kills := b.kills + 1) else b
  }

  /** Sending several requests one after another. */
  function SendAll(b: Bridge, calls: seq<(string, seq<Value>)>): (b': Bridge)
    requires Invariant(b)
    ensures Invariant(b')
    decreases |calls|
  {
    if |calls| == 0 then b else SendAll(Send(b, calls[0].0, calls[0].1), calls[1..])
  }

  /** Each send takes the next id and writes [0, id, method, args] after
      the requests already written. */
  lemma SendWritesNextId(b: Bridge, rpcMethod: string, args: seq<Value>)
    requires Invariant(b)
    ensures var b' := Send(b, rpcMethod, args); var id := b.requestId + 1;
      && b'.requestId == id
      && Last(b'.stdin) == Request(0, id, rpcMethod, args)
      && b'.stdin[..|b.stdin|] == b.stdin
  {
    var b' := Send(b, rpcMethod, args);
    assert b'.stdin == b.stdin + [Request(0, b.requestId + 1, rpcMethod, args)];
  }

  /** Each send adds exactly one table entry, under a key that was free,
      and nothing else in the table changes. */
  lemma SendAddsOneEntry(b: Bridge, rpcMethod: string, args: seq<Value>)
    requires Invariant(b)
    ensures var b' := Send(b, rpcMethod, args); var id := b.requestId + 1;
      && id !in b.rpcJobs
      && b'.rpcJobs.Keys == b.rpcJobs.Keys + {id}
      && |b'.rpcJobs| == |b.rpcJobs| + 1
      && (forall j :: j in b.rpcJobs ==> b'.rpcJobs[j] == b.rpcJobs[j])
  {
    var id := b.requestId + 1;
    assert id !in b.rpcJobs;
    assert Send(b, rpcMethod, args).rpcJobs == b.rpcJobs[id := Job(rpcMethod)];
    MapInsertFresh(b.rpcJobs, id, Job(rpcMethod));
  }

  lemma MapInsertFresh<K, V>(m: map<K, V>, k: K, v: V)
    requires k !in m
    ensures m[k := v].Keys == m.Keys + {k}
    ensures |m[k := v]| == |m| + 1
  {
  }

  /** The promise of a new request starts pending, and the timer it arms
      waits 10000 ms whatever timeout the object was constructed with. */
  lemma SendArmsFixedTimer(b: Bridge, rpcMethod: string, args: seq<Value>)
    requires Invariant(b)
    ensures var b' := Send(b, rpcMethod, args);
      && Last(b'.promises) == Pending
      && Last(b'.timers) == Timer(rpcMethod, 10000, false)
      // the earlier requests' promises and timers are left as they were
      && b'.promises == b.promises + [Pending]
      && b'.timers == b.timers + [Timer(rpcMethod, 10000, false)]
  {
  }

  /** From a fresh object, the requests sent carry the ids 1, 2, 3, ... in
      order, and the table holds exactly those ids. */
  lemma IdsCountFromOne(calls: seq<(string, seq<Value>)>)
    ensures var b := SendAll(Initial, calls);
      && b.requestId == |calls|
      && (forall i :: 0 <= i < |calls| ==> b.stdin[i] == Request(0, i + 1, calls[i].0, calls[i].1))
      && (forall id :: id in b.rpcJobs <==> 1 <= id <= |calls|)
  {
    SendAllAppends(Initial, calls);
  }

  lemma SendAllAppends(b: Bridge, calls: seq<(string, seq<Value>)>)
    requires Invariant(b)
    ensures var b' := SendAll(b, calls);
      && b'.requestId == b.requestId + |calls|
      && b'.stdin[..|b.stdin|] == b.stdin
      && (forall i :: 0 <= i < |calls| ==>
            b'.stdin[|b.stdin| + i] == Request(0, b.requestId + i + 1, calls[i].0, calls[i].1))
      && (forall id :: id in b'.rpcJobs <==> id in b.rpcJobs || b.requestId < id <= b'.requestId)
  {
    SendAllStdin(b, calls);
    SendAllJobs(b, calls);
  }

  lemma {:induction false} SendAllStdin(b: Bridge, calls: seq<(string, seq<Value>)>)
    requires Invariant(b)
    ensures var b' := SendAll(b, calls);
      && b'.requestId == b.requestId + |calls|
      && b'.stdin[..|b.stdin|] == b.stdin
      && (forall i :: 0 <= i < |calls| ==>
            b'.stdin[|b.stdin| + i] == Request(0, b.requestId + i + 1, calls[i].0, calls[i].1))
    decreases |calls|
  {
    if |calls| > 0 {
      var s := Send(b, calls[0].0, calls[0].1);
      var first := Request(0, b.requestId + 1, calls[0].0, calls[0].1);
      assert s.stdin == b.stdin + [first];
      SendAllStdin(s, calls[1..]);
      var b' := SendAll(s, calls[1..]);
      assert b' == SendAll(b, calls);
      assert b'.stdin[..|s.stdin|] == s.stdin;
      forall i | 0 <= i < |calls|
        ensures b'.stdin[|b.stdin| + i] == Request(0, b.requestId + i + 1, calls[i].0, calls[i].1)
      {
        if i == 0 {
          assert b'.stdin[|b.stdin|] == s.stdin[|b.stdin|];
        } else {
          assert b'.stdin[|s.stdin| + (i - 1)] == Request(0, s.requestId + (i - 1) + 1, calls[1..][i - 1].0, calls[1..][i - 1].1);
          assert calls[1..][i - 1] == calls[i];
        }
      }
      assert b'.stdin[..|b.stdin|] == s.stdin[..|b.stdin|];
    }
  }

  lemma {:induction false} SendAllJobs(b: Bridge, calls: seq<(string, seq<Value>)>)
    requires Invariant(b)
    ensures forall id :: id in SendAll(b, calls).rpcJobs <==>
      id in b.rpcJobs || b.requestId < id <= b.requestId + |calls|
    decreases |calls|
  {
    if |calls| > 0 {
      var s := Send(b, calls[0].0, calls[0].1);
      SendKeys(b, calls[0].0, calls[0].1);
      SendAllJobs(s, calls[1..]);
      var b' := SendAll(s, calls[1..]);
      assert b' == SendAll(b, calls);
      forall id: nat
        ensures id in b'.rpcJobs <==> id in b.rpcJobs || b.requestId < id <= b.requestId + |calls|
      {
        assert id in s.rpcJobs <==> id in b.rpcJobs || id == b.requestId + 1;
      }
    }
  }

  lemma SendKeys(b: Bridge, rpcMethod: string, args: seq<Value>)
    requires Invariant(b)
    ensures Send(b, rpcMethod, args).requestId == b.requestId + 1
    ensures forall id :: id in Send(b, rpcMethod, args).rpcJobs <==> id in b.rpcJobs || id == b.requestId + 1
  {
  }

  /** A response for a registered id removes that entry and no other,
      rejects the promise when `error` is truthy and resolves it with
      `result` otherwise (unless its timer has already rejected it). */
  lemma ResponseSettlesItsEntry(b: Bridge, response: Response)
    requires Invariant(b)
    requires response.id >= 0 && response.id as nat in b.rpcJobs
    ensures var b' := Receive(b, response); var id := response.id as nat;
      && b'.rpcJobs.Keys == b.rpcJobs.Keys - {id}
      && (forall j :: j in b'.rpcJobs ==> b'.rpcJobs[j] == b.rpcJobs[j])
      && (b.promises[id - 1].Pending? && Truthy(response.error) ==>
            b'.promises[id - 1] == Rejected(RemoteError(response.error)))
      && (b.promises[id - 1].Pending? && !Truthy(response.error) ==>
            b'.promises[id - 1] == Fulfilled(response.result))
      && (forall i :: 0 <= i < |b.promises| && i != id - 1 ==> b'.promises[i] == b.promises[i])
  {
  }

  /** A response whose id has no entry (never issued, already answered or
      removed by a timer) changes nothing. */
  lemma UnknownResponseIgnored(b: Bridge, response: Response)
    requires Invariant(b)
    requires !(response.id >= 0 && response.id as nat in b.rpcJobs)
    ensures Receive(b, response) == b
  {
  }

  /** When request k's timer fires, the entry removed is the one under the
      current counter, whichever request that is, and the promise rejected
      is request k's own. */
  lemma TimerRemovesCurrentCounter(b: Bridge, k: nat)
    requires Invariant(b) && Armed(b, k)
    ensures var b' := Fire(b, k);
      && b'.rpcJobs.Keys == b.rpcJobs.Keys - {b.requestId}
      && (b.requestId in b.rpcJobs && b.promises[k - 1].Pending? ==>
            b'.promises[k - 1] == Rejected(Timeout(b.stdin[k - 1].rpcMethod)))
      && (forall i :: 0 <= i < |b.promises| && i != k - 1 ==> b'.promises[i] == b.promises[i])
      && (b.requestId !in b.rpcJobs ==> b'.promises == b.promises)
      && !Armed(b', k)
      // only its own timer is marked fired, and nothing is sent or spawned
      && b'.timers == b.timers[k - 1 := b.timers[k - 1].(fired := true)]
      && b'.stdin == b.stdin && b'.requestId == b.requestId
      && b'.started == b.started && b'.spawns == b.spawns && b'.kills == b.kills
  {
  }

  /** A request left with a pending promise, no table entry and a timer
      that has already fired. */
  ghost predicate Stranded(b: Bridge, id: nat) {
    && 1 <= id <= |b.promises| && id <= |b.timers|
    && b.promises[id - 1] == Pending
    && id !in b.rpcJobs
    && b.timers[id - 1].fired
  }

  /** A stranded request stays stranded whatever happens next: its promise
      never settles. */
  lemma StrandedForever(b: Bridge, id: nat, rpcMethod: string, args: seq<Value>, response: Response, k: nat)
    requires Invariant(b) && Stranded(b, id)
    ensures Stranded(Send(b, rpcMethod, args), id)
    ensures Stranded(Receive(b, response), id)
    ensures Armed(b, k) ==> Stranded(Fire(b, k), id)
    ensures Stranded(Disposed(b), id)
  {
    SendKeepsStranded(b, id, rpcMethod, args);
    ReceiveKeepsStranded(b, id, response);
    if Armed(b, k) {
      FireKeepsStranded(b, id, k);
    }
  }

  lemma SendKeepsStranded(b: Bridge, id: nat, rpcMethod: string, args: seq<Value>)
    requires Invariant(b) && Stranded(b, id)
    ensures Stranded(Send(b, rpcMethod, args), id)
  {
    var s := Send(b, rpcMethod, args);
    assert s.promises[id - 1] == b.promises[id - 1] && s.timers[id - 1] == b.timers[id - 1];
    assert id != b.requestId + 1;
  }

  lemma ReceiveKeepsStranded(b: Bridge, id: nat, response: Response)
    requires Invariant(b) && Stranded(b, id)
    ensures Stranded(Receive(b, response), id)
  {
  }

  lemma FireKeepsStranded(b: Bridge, id: nat, k: nat)
    requires Invariant(b) && Stranded(b, id) && Armed(b, k)
    ensures Stranded(Fire(b, k), id)
  {
    var f := Fire(b, k);
    assert f.timers[id - 1].fired;
    assert f.promises[id - 1] == Pending by {
      if k != id {
        assert f.promises[id - 1] == b.promises[id - 1];
      }
    }
  }

  /** Two requests in flight; the first one's timer fires first. It deletes
      the SECOND request's entry and rejects the first request's promise,
      whose entry stays in the table. The second request's answer is then
      dropped, its own timer finds no entry, and its promise is stranded. */
  lemma TimerStrandsLaterRequest(a: string, c: string, answer: Value)
    ensures var b2 := Send(Send(Initial, a, []), c, []);
      var b3 := Fire(b2, 1);
      && 2 !in b3.rpcJobs && 1 in b3.rpcJobs
      && b3.promises[0] == Rejected(Timeout(a))
      && b3.promises[1] == Pending
      && var b4 := Receive(b3, Response(Int(1), 2, Nil, answer));
      && b4 == b3
      && Stranded(Fire(b4, 2), 2)
  {
    var b1 := Send(Initial, a, []);
    var b2 := Send(b1, c, []);
    assert b2.timers[0] == Timer(a, ResponseTimeoutMs, false);
    assert b2.rpcJobs.Keys == {1, 2};
  }

  /** The process is spawned at most once: the first send spawns it, later
      sends reuse it, and after dispose a send writes to the killed process
      instead of spawning a new one. Disposing a never-started object does
      nothing. */
  lemma SpawnedAtMostOnce(b: Bridge, rpcMethod: string, args: seq<Value>)
    requires Invariant(b)
    ensures Send(b, rpcMethod, args).spawns == 1
    ensures Send(Disposed(b), rpcMethod, args).spawns == 1
    ensures b.started ==> Disposed(b).kills == b.kills + 1 && Disposed(b).started
    ensures !b.started ==> Disposed(b) == b && Disposed(Disposed(b)) == b
  {
  }

  /** The object behind the model: the source's fields, and the
      surroundings they talk to. */
  class Functions {
    const cwd: string
    const timeout: int
    var requestId: nat
    var rpcJobs: map<nat, Job>
    /** whether `#_nvim` has been assigned */
    var started: bool
    var spawns: nat
    var kills: nat
    var stdin: seq<Request>
    var promises: seq<PromiseState>
    var timers: seq<Timer>

    function State(): Bridge
      reads this
    {
      Bridge(requestId, rpcJobs, started, spawns, kills, stdin, promises, timers)
    }

    ghost predicate Valid()
      reads this
    {
      Invariant(State())
    }

    constructor (cwd: string, timeout: int)
      ensures Valid() && State() == Initial
      ensures this.cwd == cwd && this.timeout == timeout
    {
      this.cwd := cwd;
      this.timeout := timeout;
      requestId := 0;
      rpcJobs := map[];
      started := false;
      spawns := 0;
      kills := 0;
      stdin := [];
      promises := [];
      timers := [];
    }

    /** The `#nvim` getter. */
    method Nvim()
      modifies this`started, this`spawns
      ensures started
      ensures spawns == if old(started) then old(spawns) else old(spawns) + 1
    {
      if !started {
        started := true;
        spawns := spawns + 1;
      }
    }

    method SendRpcRequest(rpcMethod: string, args: seq<Value>) returns (id: nat)
      requires Valid()
      modifies this
      ensures Valid()
      ensures State() == Send(old(State()), rpcMethod, args)
      ensures id == requestId == old(requestId) + 1
    {
      ghost var next := Send(State(), rpcMethod, args);
      requestId := requestId + 1;
      var request := Request(RequestType, requestId, rpcMethod, args);
      Nvim();
      stdin := stdin + [request];
      rpcJobs := rpcJobs[requestId := Job(rpcMethod)];
      promises := promises + [Pending];
      timers := timers + [Timer(rpcMethod, ResponseTimeoutMs, false)];
      id := requestId;
      assert State() == next;
    }

    /** The stdout `data` handler. */
    method OnData(response: Response)
      requires Valid()
      modifies this`rpcJobs, this`promises
      ensures Valid()
      ensures State() == Receive(old(State()), response)
    {
      ghost var next := Receive(State(), response);
      if response.id >= 0 && response.id as nat in rpcJobs {
        var id := response.id as nat;
        rpcJobs := rpcJobs - {id};
        if promises[id - 1].Pending? {
          if Truthy(response.error) {
            promises := promises[id - 1 := Rejected(RemoteError(response.error))];
          } else {
            promises := promises[id - 1 := Fulfilled(response.result)];
          }
        }
      }
      assert State() == next;
    }

    /** The timeout callback armed by request `k`. */
    method OnTimeout(k: nat)
      requires Valid() && Armed(State(), k)
      modifies this`rpcJobs, this`promises, this`timers
      ensures Valid()
      ensures State() == Fire(old(State()), k)
    {
      ghost var next := Fire(State(), k);
      var t := timers[k - 1];
      timers := timers[k - 1 := t.(fired := true)];
      if requestId in rpcJobs {
        rpcJobs := rpcJobs - {requestId};
        if promises[k - 1].Pending? {
          promises := promises[k - 1 := Rejected(Timeout(t.rpcMethod))];
        }
      }
      assert State() == next;
    }

    method Dispose()
      requires Valid()
      modifies this`kills
      ensures Valid()
      ensures State() == Disposed(old(State()))
    {
      if started {
        kills := kills + 1;
      }
    }
  }
}
