/** Creating a balance or a transfer over a network that loses, delays and repeats messages, against
    a server that keeps one resource for each idempotency key. Calls and their retries interleave
    freely; a message once sent may be processed at any later time and any number of times. */
module Idempotency {

  /** What the server deduplicates on: the X-Idempotence-Uuid header of a balance creation; the
      transaction id together with quote and target account of a transfer. */
  datatype Key = BalanceKey(uuid: string) | TransferKey(transaction: string, quote: string, target: int)

  datatype Create = NewBalance(idempotencyKey: string) | NewTransfer(transaction: string, quote: string, target: int)

  /** The key a call works with; generated is the fresh UUID of a balance call without its own. */
  function ChooseKey(request: Create, generated: string): Key {
    match request
    case NewBalance(key) => BalanceKey(if key == "" then generated else key)
    case NewTransfer(transaction, quote, target) => TransferKey(transaction, quote, target)
  }

  /** The key attempt number n of call c puts on the wire, given the key the call has chosen. */
  type Policy = (nat, Key, nat) -> Key

  /** The SDK's policy: headers and body are built before the retry loop starts. */
  const CHOSEN_ONCE: Policy := (c: nat, key: Key, n: nat) => key

  datatype Phase = Ready | Waiting | Created(resource: nat) | Failed

  datatype Call = Call(key: Key, attempts: nat, phase: Phase)

  datatype Message = Message(call: nat, attempt: nat, key: Key)

  datatype Reply = Reply(message: Message, resource: nat)

  /** created lists the messages that made the server create a resource, in order; a resource is its
      position in that list. */
  datatype World = World(calls: map<nat, Call>, sent: set<Message>, replies: set<Reply>,
                         store: map<Key, nat>, created: seq<Message>)

  datatype Action =
    | Start(call: nat, request: Create, generated: string)
    | Send(call: nat)
    | Process(message: Message)              // the server handles a message it has been sent
    | Receive(reply: Reply)                  // a reply to the current attempt arrives
    | GiveUp(call: nat, retryable: bool)     // lost request, lost reply, error status or timeout

  const EMPTY := World(map[], {}, {}, map[], [])

  function Step(policy: Policy, maxAttempts: int, w: World, a: Action): World {
    match a
    case Start(c, request, generated) =>
      if c in w.calls then w
      else w.(calls := w.calls[c := Call(ChooseKey(request, generated), 0, Ready)])
    case Send(c) =>
      if c !in w.calls || w.calls[c].phase != Ready || w.calls[c].attempts >= maxAttempts then w
      else
        var n := w.calls[c].attempts + 1;
        w.(calls := w.calls[c := w.calls[c].(attempts := n, phase := Waiting)],
           sent := w.sent + {Message(c, n, policy(c, w.calls[c].key, n))})
    case Process(m) =>
      if m !in w.sent then w
      else if m.key in w.store then w.(replies := w.replies + {Reply(m, w.store[m.key])})
      else
        w.(store := w.store[m.key := |w.created|],
           created := w.created + [m],
           replies := w.replies + {Reply(m, |w.created|)})
    case Receive(r) =>
      var c := r.message.call;
      if r !in w.replies || c !in w.calls then w
      else if w.calls[c].phase != Waiting || w.calls[c].attempts != r.message.attempt then w
      else w.(calls := w.calls[c := w.calls[c].(phase := Created(r.resource))])
    case GiveUp(c, retryable) =>
      if c !in w.calls || w.calls[c].phase != Waiting then w
      else
        var next := if retryable && w.calls[c].attempts < maxAttempts then Ready else Failed;
        w.(calls := w.calls[c := w.calls[c].(phase := next)])
  }

  function After(policy: Policy, maxAttempts: int, w: World, actions: seq<Action>): World
    decreases |actions|
  {
    if actions == [] then w
    else After(policy, maxAttempts, Step(policy, maxAttempts, w, actions[0]), actions[1..])
  }

  // ----- The invariant of every run -----

  ghost predicate StoreInv(w: World) {
    forall k <- w.store :: w.store[k] < |w.created| && w.created[w.store[k]].key == k
  }

  ghost predicate CreatedInv(w: World) {
    forall i :: 0 <= i < |w.created| ==>
      w.created[i] in w.sent && w.created[i].key in w.store && w.store[w.created[i].key] == i
  }

  ghost predicate ReplyInv(w: World) {
    forall r <- w.replies :: r.message in w.sent && r.message.key in w.store && w.store[r.message.key] == r.resource
  }

  ghost predicate ServerInv(w: World) { StoreInv(w) && CreatedInv(w) && ReplyInv(w) }

  ghost predicate SentInv(policy: Policy, maxAttempts: int, w: World) {
    && (forall m <- w.sent :: m.call in w.calls && 1 <= m.attempt <= w.calls[m.call].attempts
                              && m.key == policy(m.call, w.calls[m.call].key, m.attempt))
    && (forall c <- w.calls :: 0 <= w.calls[c].attempts <= (if maxAttempts > 0 then maxAttempts else 0))
  }

  ghost predicate Backed(w: World, c: nat, resource: nat) {
    exists m <- w.sent :: m.call == c && m.key in w.store && w.store[m.key] == resource
  }

  ghost predicate ResultInv(w: World) {
    forall c <- w.calls :: w.calls[c].phase.Created? ==> Backed(w, c, w.calls[c].phase.resource)
  }

  lemma StoreStep(policy: Policy, maxAttempts: int, w: World, m: Message)
    requires StoreInv(w)
    ensures StoreInv(Step(policy, maxAttempts, w, Process(m)))
  {
  }

  lemma CreatedStep(policy: Policy, maxAttempts: int, w: World, m: Message)
    requires CreatedInv(w)
    ensures CreatedInv(Step(policy, maxAttempts, w, Process(m)))
  {
  }

  lemma ReplyStep(policy: Policy, maxAttempts: int, w: World, m: Message)
    requires ReplyInv(w)
    ensures ReplyInv(Step(policy, maxAttempts, w, Process(m)))
  {
  }

  lemma ServerStep(policy: Policy, maxAttempts: int, w: World, a: Action)
    requires ServerInv(w)
    ensures ServerInv(Step(policy, maxAttempts, w, a))
  {
    if a.Process? {
      hide Step, StoreInv, CreatedInv, ReplyInv;
      StoreStep(policy, maxAttempts, w, a.message);
      CreatedStep(policy, maxAttempts, w, a.message);
      ReplyStep(policy, maxAttempts, w, a.message);
    }
  }

  lemma SentStep(policy: Policy, maxAttempts: int, w: World, a: Action)
    requires SentInv(policy, maxAttempts, w)
    ensures SentInv(policy, maxAttempts, Step(policy, maxAttempts, w, a))
  {
  }

  lemma StepKeepsBacking(policy: Policy, maxAttempts: int, w: World, a: Action, c: nat, resource: nat)
    requires Backed(w, c, resource)
    ensures Backed(Step(policy, maxAttempts, w, a), c, resource)
  {
    var v := Step(policy, maxAttempts, w, a);
    var m :| m in w.sent && m.call == c && m.key in w.store && w.store[m.key] == resource;
    assert m in v.sent && m.key in v.store && v.store[m.key] == resource;
  }

  lemma ResultStep(policy: Policy, maxAttempts: int, w: World, a: Action)
    requires ServerInv(w) && ResultInv(w)
    ensures ResultInv(Step(policy, maxAttempts, w, a))
  {
    var v := Step(policy, maxAttempts, w, a);
    forall c | c in v.calls && v.calls[c].phase.Created?
      ensures Backed(v, c, v.calls[c].phase.resource)
    {
      if c in w.calls && w.calls[c].phase == v.calls[c].phase {
        StepKeepsBacking(policy, maxAttempts, w, a, c, v.calls[c].phase.resource);
      } else {
        assert a.Receive? && a.reply.message in v.sent;
      }
    }
  }

  lemma {:induction false} InvAfter(policy: Policy, maxAttempts: int, w: World, actions: seq<Action>)
    requires ServerInv(w) && SentInv(policy, maxAttempts, w) && ResultInv(w)
    ensures var v := After(policy, maxAttempts, w, actions);
            ServerInv(v) && SentInv(policy, maxAttempts, v) && ResultInv(v)
    decreases |actions|
  {
    if actions != [] {
      ServerStep(policy, maxAttempts, w, actions[0]);
      SentStep(policy, maxAttempts, w, actions[0]);
      ResultStep(policy, maxAttempts, w, actions[0]);
      InvAfter(policy, maxAttempts, Step(policy, maxAttempts, w, actions[0]), actions[1..]);
    }
  }

  // ----- At most one resource a call -----

  ghost predicate OneCreationPerCall(w: World) {
    forall i, j :: 0 <= i < j < |w.created| ==> w.created[i].call != w.created[j].call
  }

  /** Attempts a retry budget allows to be sent carry one key for each call. */
  ghost predicate OneKeyPerCall(policy: Policy, maxAttempts: int) {
    forall c, key, m, n :: 1 <= m <= maxAttempts && 1 <= n <= maxAttempts ==> policy(c, key, m) == policy(c, key, n)
  }

  /** In every run of the SDK's policy, calls that share a key create at most one resource together, and each of
      them that returns successfully returns that resource. */
  lemma AtMostOneResource(maxAttempts: int, actions: seq<Action>, i: nat, j: nat)
    requires var w := After(CHOSEN_ONCE, maxAttempts, EMPTY, actions); i < |w.created| && j < |w.created|
    ensures var w := After(CHOSEN_ONCE, maxAttempts, EMPTY, actions);
            w.created[i].call in w.calls && w.created[j].call in w.calls
            && (w.calls[w.created[i].call].key == w.calls[w.created[j].call].key ==> i == j)
  {
    InvAfter(CHOSEN_ONCE, maxAttempts, EMPTY, actions);
  }

  lemma SuccessNamesTheResource(maxAttempts: int, actions: seq<Action>, c: nat)
    requires var w := After(CHOSEN_ONCE, maxAttempts, EMPTY, actions); c in w.calls && w.calls[c].phase.Created?
    ensures var w := After(CHOSEN_ONCE, maxAttempts, EMPTY, actions);
            var resource := w.calls[c].phase.resource;
            && resource < |w.created| && w.created[resource].key == w.calls[c].key
            && (forall i :: 0 <= i < |w.created| && w.created[i].call == c ==> i == resource)
            && (forall d <- w.calls :: w.calls[d].key == w.calls[c].key && w.calls[d].phase.Created? ==>
                  w.calls[d].phase.resource == resource)
  {
    InvAfter(CHOSEN_ONCE, maxAttempts, EMPTY, actions);
  }

  lemma AttemptsBounded(maxAttempts: int, actions: seq<Action>, c: nat)
    requires maxAttempts >= 0 && c in After(CHOSEN_ONCE, maxAttempts, EMPTY, actions).calls
    ensures After(CHOSEN_ONCE, maxAttempts, EMPTY, actions).calls[c].attempts <= maxAttempts
  {
    InvAfter(CHOSEN_ONCE, maxAttempts, EMPTY, actions);
  }

  /** Choosing the key before the loop is not only enough but needed: a policy keeps every run to one
      creation a call exactly when all attempts of a call carry the same key. */
  lemma OneKeyIffOneCreation(policy: Policy, maxAttempts: int)
    ensures (forall actions :: OneCreationPerCall(After(policy, maxAttempts, EMPTY, actions)))
       <==> OneKeyPerCall(policy, maxAttempts)
  {
    if OneKeyPerCall(policy, maxAttempts) {
      forall actions
        ensures OneCreationPerCall(After(policy, maxAttempts, EMPTY, actions))
      {
        InvAfter(policy, maxAttempts, EMPTY, actions);
      }
    } else {
      var c, key, m, n :| 1 <= m <= maxAttempts && 1 <= n <= maxAttempts && policy(c, key, m) != policy(c, key, n);
      var actions := TwoCreations(policy, maxAttempts, c, key, m, n);
      assert !OneCreationPerCall(After(policy, maxAttempts, EMPTY, actions));
    }
  }

  // ----- The run that creates twice when two attempts carry different keys -----

  function RequestFor(key: Key): (r: Create)
    ensures ChooseKey(r, "") == key
  {
    match key
    case BalanceKey(uuid) => NewBalance(uuid)
    case TransferKey(transaction, quote, target) => NewTransfer(transaction, quote, target)
  }

  /** n attempts in a row, each given up retryably after its message has left. */
  function Failing(c: nat, n: nat): seq<Action> {
    if n == 0 then [] else [Send(c), GiveUp(c, true)] + Failing(c, n - 1)
  }

  lemma {:induction false} AfterAppend(policy: Policy, maxAttempts: int, w: World, a: seq<Action>, b: seq<Action>)
    ensures After(policy, maxAttempts, w, a + b) == After(policy, maxAttempts, After(policy, maxAttempts, w, a), b)
    decreases |a|
  {
    if a == [] {
      assert a + b == b;
    } else {
      assert (a + b)[1..] == a[1..] + b;
      AfterAppend(policy, maxAttempts, Step(policy, maxAttempts, w, a[0]), a[1..], b);
    }
  }

  lemma AfterOne(policy: Policy, maxAttempts: int, w: World, a: Action)
    ensures After(policy, maxAttempts, w, [a]) == Step(policy, maxAttempts, w, a)
  {
    hide Step;
    assert [a][1..] == [];
  }

  lemma AfterThree(policy: Policy, maxAttempts: int, w: World, a: Action, b: Action, c: Action)
    ensures After(policy, maxAttempts, w, [a, b, c])
         == Step(policy, maxAttempts, Step(policy, maxAttempts, Step(policy, maxAttempts, w, a), b), c)
  {
    hide Step;
    assert [a, b, c] == [a] + ([b] + [c]);
    AfterAppend(policy, maxAttempts, w, [a], [b] + [c]);
    AfterAppend(policy, maxAttempts, Step(policy, maxAttempts, w, a), [b], [c]);
    AfterOne(policy, maxAttempts, w, a);
    AfterOne(policy, maxAttempts, Step(policy, maxAttempts, w, a), b);
    AfterOne(policy, maxAttempts, Step(policy, maxAttempts, Step(policy, maxAttempts, w, a), b), c);
  }

  ghost predicate Trying(policy: Policy, w: World, c: nat, key: Key, n: nat) {
    && c in w.calls && w.calls[c] == Call(key, n, Ready)
    && w.store == map[] && w.created == []
    && forall i :: 1 <= i <= n ==> Message(c, i, policy(c, key, i)) in w.sent
  }

  lemma {:induction false} FailingKeepsTrying(policy: Policy, maxAttempts: int, w: World,
                                                        c: nat, key: Key, n: nat, k: nat)
    requires Trying(policy, w, c, key, n) && n + k < maxAttempts
    ensures Trying(policy, After(policy, maxAttempts, w, Failing(c, k)), c, key, n + k)
    decreases k
  {
    if k > 0 {
      var v := Step(policy, maxAttempts, w, Send(c));
      var u := Step(policy, maxAttempts, v, GiveUp(c, true));
      assert Trying(policy, u, c, key, n + 1);
      FailingKeepsTrying(policy, maxAttempts, u, c, key, n + 1, k - 1);
      var rest := Failing(c, k - 1);
      assert Failing(c, k)[1..][1..] == rest;
    }
  }

  lemma TwoCreations(policy: Policy, maxAttempts: int, c: nat, key: Key, m: nat, n: nat) returns (actions: seq<Action>)
    requires 1 <= m <= maxAttempts && 1 <= n <= maxAttempts && policy(c, key, m) != policy(c, key, n)
    ensures !OneCreationPerCall(After(policy, maxAttempts, EMPTY, actions))
  {
    var last := if m < n then n else m;
    var start, tries := [Start(c, RequestFor(key), "")], Failing(c, last - 1);
    var first, second := Message(c, m, policy(c, key, m)), Message(c, n, policy(c, key, n));
    var w0 := After(policy, maxAttempts, EMPTY, start);
    AfterOne(policy, maxAttempts, EMPTY, start[0]);
    var w1 := After(policy, maxAttempts, w0, tries);
    FailingKeepsTrying(policy, maxAttempts, w0, c, key, 0, last - 1);
    var w2 := Step(policy, maxAttempts, w1, Send(c));
    assert first in w2.sent && second in w2.sent;
    var w3 := Step(policy, maxAttempts, w2, Process(first));
    var w4 := Step(policy, maxAttempts, w3, Process(second));
    assert w4.created == [first, second];
    var ending := [Send(c), Process(first), Process(second)];
    AfterThree(policy, maxAttempts, w1, Send(c), Process(first), Process(second));
    AfterAppend(policy, maxAttempts, EMPTY, start, tries + ending);
    AfterAppend(policy, maxAttempts, w0, tries, ending);
    actions := start + (tries + ending);
    assert After(policy, maxAttempts, EMPTY, actions) == w4;
    assert w4.created[0].call == w4.created[1].call;
  }

  // ----- Requests, and what the wire and the server make of them -----

  /** The first start of call c in a run, the one that counts, is with this request and fresh UUID. */
  ghost predicate StartedAs(actions: seq<Action>, c: nat, request: Create, generated: string) {
    exists k :: FirstStart(actions, c, k) && actions[k] == Start(c, request, generated)
  }

  ghost predicate FirstStart(actions: seq<Action>, c: nat, k: int) {
    && 0 <= k < |actions| && actions[k].Start? && actions[k].call == c
    && forall j :: 0 <= j < k ==> !(actions[j].Start? && actions[j].call == c)
  }

  lemma {:induction false} KeyKept(policy: Policy, maxAttempts: int, w: World, actions: seq<Action>, c: nat)
    requires c in w.calls
    ensures var v := After(policy, maxAttempts, w, actions); c in v.calls && v.calls[c].key == w.calls[c].key
    decreases |actions|
  {
    if actions != [] { KeyKept(policy, maxAttempts, Step(policy, maxAttempts, w, actions[0]), actions[1..], c); }
  }

  lemma {:induction false} KeyChosen(policy: Policy, maxAttempts: int, w: World, actions: seq<Action>,
                                     c: nat, request: Create, generated: string, k: int)
    requires c !in w.calls && FirstStart(actions, c, k) && actions[k] == Start(c, request, generated)
    ensures var v := After(policy, maxAttempts, w, actions);
            c in v.calls && v.calls[c].key == ChooseKey(request, generated)
    decreases |actions|
  {
    var u := Step(policy, maxAttempts, w, actions[0]);
    if k == 0 {
      hide ChooseKey;
      KeyKept(policy, maxAttempts, u, actions[1..], c);
    } else {
      KeyChosen(policy, maxAttempts, u, actions[1..], c, request, generated, k - 1);
    }
  }

  /** A started call's messages all carry what its request says: the caller's key, or the call's own
      fresh UUID when there is none; the triple of a transfer. */
  lemma MessagesCarryTheRequest(maxAttempts: int, actions: seq<Action>, c: nat, request: Create, generated: string)
    requires StartedAs(actions, c, request, generated)
    ensures var w := After(CHOSEN_ONCE, maxAttempts, EMPTY, actions);
            && c in w.calls
            && forall m <- w.sent :: m.call == c ==>
                 match request
                 case NewBalance(key) =>
                   && (key != "" ==> m.key == BalanceKey(key)) && (key == "" ==> m.key == BalanceKey(generated))
                 case NewTransfer(transaction, quote, target) => m.key == TransferKey(transaction, quote, target)
  {
    var k :| FirstStart(actions, c, k) && actions[k] == Start(c, request, generated);
    KeyChosen(CHOSEN_ONCE, maxAttempts, EMPTY, actions, c, request, generated, k);
    InvAfter(CHOSEN_ONCE, maxAttempts, EMPTY, actions);
    hide After, ServerInv, ResultInv;
  }

  /** Two requests for one thing: the same transfer, or balances under one caller key, or balances
      without a key whose calls happen to have the same fresh UUID, or one of each. */
  predicate SameThing(r: Create, generatedR: string, s: Create, generatedS: string) {
    if r.NewTransfer? || s.NewTransfer? then r == s
    else if r.idempotencyKey != "" && s.idempotencyKey != "" then r.idempotencyKey == s.idempotencyKey
    else if r.idempotencyKey != "" then r.idempotencyKey == generatedS
    else if s.idempotencyKey != "" then generatedR == s.idempotencyKey
    else generatedR == generatedS
  }

  lemma ChosenAlike(r: Create, generatedR: string, s: Create, generatedS: string)
    ensures ChooseKey(r, generatedR) == ChooseKey(s, generatedS) <==> SameThing(r, generatedR, s, generatedS)
  {
  }

  /** Two calls, or one taken twice, have not created two resources. */
  ghost predicate CreateOnce(w: World, c: nat, d: nat) {
    forall i, j :: 0 <= i < |w.created| && 0 <= j < |w.created| ==>
      w.created[i].call == c && w.created[j].call == d ==> i == j
  }

  /** Calls for one thing create at most one resource together; calls for different things never end
      with the same one. */
  lemma OneResourcePerThing(maxAttempts: int, actions: seq<Action>, c: nat, r: Create, generatedC: string,
                            d: nat, s: Create, generatedD: string)
    requires StartedAs(actions, c, r, generatedC) && StartedAs(actions, d, s, generatedD)
    ensures var w := After(CHOSEN_ONCE, maxAttempts, EMPTY, actions);
            && c in w.calls && d in w.calls
            && (SameThing(r, generatedC, s, generatedD) ==> CreateOnce(w, c, d))
            && (w.calls[c].phase.Created? && w.calls[d].phase.Created? ==>
                  (w.calls[c].phase.resource == w.calls[d].phase.resource
                   <==> SameThing(r, generatedC, s, generatedD)))
  {
    var k :| FirstStart(actions, c, k) && actions[k] == Start(c, r, generatedC);
    var l :| FirstStart(actions, d, l) && actions[l] == Start(d, s, generatedD);
    KeyChosen(CHOSEN_ONCE, maxAttempts, EMPTY, actions, c, r, generatedC, k);
    KeyChosen(CHOSEN_ONCE, maxAttempts, EMPTY, actions, d, s, generatedD, l);
    ChosenAlike(r, generatedC, s, generatedD);
    hide After, ChooseKey, SameThing, StartedAs, FirstStart;
    ResourcesByKey(maxAttempts, actions, c, d);
  }

  lemma ResourcesByKey(maxAttempts: int, actions: seq<Action>, c: nat, d: nat)
    requires var w := After(CHOSEN_ONCE, maxAttempts, EMPTY, actions); c in w.calls && d in w.calls
    ensures var w := After(CHOSEN_ONCE, maxAttempts, EMPTY, actions);
            var alike := w.calls[c].key == w.calls[d].key;
            && (alike ==> CreateOnce(w, c, d))
            && (w.calls[c].phase.Created? && w.calls[d].phase.Created? ==>
                  (w.calls[c].phase.resource == w.calls[d].phase.resource <==> alike))
  {
    hide After;
    var w := After(CHOSEN_ONCE, maxAttempts, EMPTY, actions);
    forall i, j | 0 <= i < |w.created| && 0 <= j < |w.created| && w.created[i].call == c && w.created[j].call == d
                  && w.calls[c].key == w.calls[d].key
      ensures i == j
    {
      AtMostOneResource(maxAttempts, actions, i, j);
    }
    if w.calls[c].phase.Created? { SuccessNamesTheResource(maxAttempts, actions, c); }
    if w.calls[d].phase.Created? { SuccessNamesTheResource(maxAttempts, actions, d); }
  }

  /** Every call is one that some request has started. */
  lemma {:induction false} CallsAreStarted(policy: Policy, maxAttempts: int, w: World, actions: seq<Action>, c: nat)
    requires c !in w.calls
    ensures c in After(policy, maxAttempts, w, actions).calls <==> exists r, g :: StartedAs(actions, c, r, g)
    decreases |actions|
  {
    if actions != [] {
      var a, rest := actions[0], actions[1..];
      var u := Step(policy, maxAttempts, w, a);
      if a.Start? && a.call == c {
        KeyKept(policy, maxAttempts, u, rest, c);
        assert FirstStart(actions, c, 0);
        assert StartedAs(actions, c, a.request, a.generated);
      } else {
        CallsAreStarted(policy, maxAttempts, u, rest, c);
        hide Step, After;
        forall r, g
          ensures StartedAs(actions, c, r, g) <==> StartedAs(rest, c, r, g)
        {
          StartedLater(actions, c, r, g);
        }
      }
    }
  }

  lemma StartedLater(actions: seq<Action>, c: nat, r: Create, g: string)
    requires actions != [] && !(actions[0].Start? && actions[0].call == c)
    ensures StartedAs(actions, c, r, g) <==> StartedAs(actions[1..], c, r, g)
  {
    if k :| FirstStart(actions, c, k) && actions[k] == Start(c, r, g) {
      assert FirstStart(actions[1..], c, k - 1);
    }
    if k :| FirstStart(actions[1..], c, k) && actions[1..][k] == Start(c, r, g) {
      assert FirstStart(actions, c, k + 1);
    }
  }

  /** When the reply to the first attempt is lost, the second one ends the call with the resource that
      the first has created. */
  lemma LostReplyRecovered(maxAttempts: int, request: Create, generated: string) returns (actions: seq<Action>)
    requires maxAttempts >= 2
    ensures StartedAs(actions, 0, request, generated)
    ensures var w := After(CHOSEN_ONCE, maxAttempts, EMPTY, actions);
            && |w.created| == 1 && w.created[0].attempt == 1
            && 0 in w.calls && w.calls[0].attempts == 2 && w.calls[0].phase == Created(0)
  {
    var key := ChooseKey(request, generated);
    var first, second := Message(0, 1, key), Message(0, 2, key);
    var start := Start(0, request, generated);
    var w1 := After(CHOSEN_ONCE, maxAttempts, EMPTY, [start]);
    AfterOne(CHOSEN_ONCE, maxAttempts, EMPTY, start);
    AfterThree(CHOSEN_ONCE, maxAttempts, w1, Send(0), Process(first), GiveUp(0, true));
    var w2 := After(CHOSEN_ONCE, maxAttempts, w1, [Send(0), Process(first), GiveUp(0, true)]);
    AfterThree(CHOSEN_ONCE, maxAttempts, w2, Send(0), Process(second), Receive(Reply(second, 0)));
    var lost, recovered := [Send(0), Process(first), GiveUp(0, true)],
                           [Send(0), Process(second), Receive(Reply(second, 0))];
    AfterAppend(CHOSEN_ONCE, maxAttempts, EMPTY, [start], lost + recovered);
    AfterAppend(CHOSEN_ONCE, maxAttempts, w1, lost, recovered);
    hide After, ChooseKey;
    actions := [start] + (lost + recovered);
    assert FirstStart(actions, 0, 0);
  }

  // ----- What settles a call -----

  predicate Settled(w: World, c: nat) { c in w.calls && (w.calls[c].phase.Created? || w.calls[c].phase.Failed?) }

  /** A call that has succeeded or failed stays as it is and sends nothing more. */
  lemma {:induction false} SettledStays(policy: Policy, maxAttempts: int, w: World, actions: seq<Action>, c: nat)
    requires Settled(w, c)
    ensures var v := After(policy, maxAttempts, w, actions);
            && c in v.calls && v.calls[c] == w.calls[c]
            && forall m <- v.sent :: m.call == c ==> m in w.sent
    decreases |actions|
  {
    if actions != [] { SettledStays(policy, maxAttempts, Step(policy, maxAttempts, w, actions[0]), actions[1..], c); }
  }

  /** A failure that is not retryable settles a waiting call, and so does one of its last attempt. */
  lemma GivenUpForGood(policy: Policy, maxAttempts: int, w: World, c: nat, retryable: bool)
    requires c in w.calls && w.calls[c].phase == Waiting
    ensures Settled(Step(policy, maxAttempts, w, GiveUp(c, retryable)), c)
       <==> !retryable || w.calls[c].attempts >= maxAttempts
  {
  }

  ghost predicate AnswerInv(w: World) {
    && (forall r <- w.replies :: r.message in w.sent)
    && forall c <- w.calls :: w.calls[c].phase.Created? ==> LastAnswered(w, c)
  }

  /** The last attempt of the call has got a reply with the resource it ends with. */
  ghost predicate LastAnswered(w: World, c: nat)
    requires c in w.calls && w.calls[c].phase.Created?
  {
    exists r <- w.replies ::
      r.message.call == c && r.message.attempt == w.calls[c].attempts && r.resource == w.calls[c].phase.resource
  }

  lemma AnswerStep(policy: Policy, maxAttempts: int, w: World, a: Action)
    requires AnswerInv(w)
    ensures AnswerInv(Step(policy, maxAttempts, w, a))
  {
    var v := Step(policy, maxAttempts, w, a);
    forall c <- v.calls | v.calls[c].phase.Created?
      ensures LastAnswered(v, c)
    {
      if c in w.calls && w.calls[c] == v.calls[c] {
        assert LastAnswered(w, c);
        var r :| r in w.replies && r.message.call == c && r.message.attempt == w.calls[c].attempts
                 && r.resource == w.calls[c].phase.resource;
        assert r in v.replies;
      } else {
        assert a.Receive? && a.reply in v.replies;
      }
    }
  }

  /** A call succeeds by the reply to its last attempt, never by a late one to an attempt given up. */
  lemma {:induction false} LastAttemptAnswered(policy: Policy, maxAttempts: int, w: World, actions: seq<Action>, c: nat)
    requires AnswerInv(w)
    ensures var v := After(policy, maxAttempts, w, actions);
            c in v.calls && v.calls[c].phase.Created? ==> LastAnswered(v, c)
    decreases |actions|
  {
    if actions != [] {
      hide Step;
      AnswerStep(policy, maxAttempts, w, actions[0]);
      LastAttemptAnswered(policy, maxAttempts, Step(policy, maxAttempts, w, actions[0]), actions[1..], c);
    }
  }
}
