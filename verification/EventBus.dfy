/** The in-memory event bus: subscriber lists of one-slot channels. */
module EventBus {

  datatype Kind = Services | Configs

  /** A subscription key, `namespace#group#name`, of one of the two subscriber maps. */
  datatype Topic = Topic(kind: Kind, key: string)

  /** Channels are numbered as they are made; each has a buffer of one token and may be closed. */
  datatype Bus = Bus(subs: map<Topic, seq<nat>>, tokens: seq<nat>, open: seq<bool>)

  datatype Op =
    | Subscribe(topic: Topic)
    | Publish(topic: Topic)
    | Unsubscribe(topic: Topic, ch: nat)
    | Receive(ch: nat)

  function Subscribers(subs: map<Topic, seq<nat>>, t: Topic): seq<nat> {
    if t in subs then subs[t] else []
  }

  /** The list without the first occurrence of a channel. */
  function Without(list: seq<nat>, ch: nat): seq<nat> {
    if list == [] then []
    else if list[0] == ch then list[1..]
    else [list[0]] + Without(list[1..], ch)
  }

  /** A full slot swallows the token. */
  function Filled(tokens: seq<nat>, list: seq<nat>): (r: seq<nat>)
    ensures |r| == |tokens|
  {
    seq(|tokens|, i requires 0 <= i < |tokens| => if i in list then 1 else tokens[i])
  }

  function Apply(b: Bus, op: Op): Bus {
    match op
    case Subscribe(t) =>
      Bus(b.subs[t := Subscribers(b.subs, t) + [|b.tokens|]], b.tokens + [0], b.open + [true])
    case Publish(t) => b.(tokens := Filled(b.tokens, Subscribers(b.subs, t)))
    case Unsubscribe(t, ch) =>
      var list := Subscribers(b.subs, t);
      if ch in list && ch < |b.open| then b.(subs := b.subs[t := Without(list, ch)], open := b.open[ch := false]) else b
    case Receive(ch) => if ch < |b.tokens| then b.(tokens := b.tokens[ch := 0]) else b
  }

  function Run(h: seq<Op>): Bus {
    if h == [] then Bus(map[], [], []) else Apply(Run(h[..|h| - 1]), h[|h| - 1])
  }

  // ---------- what the history says ----------

  /** The number of subscriptions made. */
  function Births(h: seq<Op>): nat {
    if h == [] then 0 else Births(h[..|h| - 1]) + (if h[|h| - 1].Subscribe? then 1 else 0)
  }

  /** The position of the subscription that made channel `ch`, or -1. */
  function BornAt(h: seq<Op>, ch: nat): (i: int)
    ensures -1 <= i < |h|
    ensures i >= 0 ==> h[i].Subscribe?
    ensures i >= 0 <==> ch < Births(h)
  {
    if h == [] then -1
    else if h[|h| - 1].Subscribe? && Births(h[..|h| - 1]) == ch then |h| - 1
    else BornAt(h[..|h| - 1], ch)
  }

  /** The channel subscribed to `t` and has not been unsubscribed from it since. */
  ghost predicate Live(h: seq<Op>, ch: nat, t: Topic) {
    var i := BornAt(h, ch);
    i >= 0 && h[i].topic == t && forall j :: i < j < |h| ==> h[j] != Unsubscribe(t, ch)
  }

  /** `t` was published after position `from`, and `ch` has not received since. */
  ghost predicate PublishedSince(h: seq<Op>, from: int, t: Topic, ch: nat) {
    exists i :: 0 <= i < |h| && from < i && h[i] == Publish(t) && NoReceive(h, i, ch)
  }

  ghost predicate NoReceive(h: seq<Op>, from: nat, ch: nat) {
    forall j :: from < j < |h| ==> h[j] != Receive(ch)
  }

  ghost predicate Increasing(list: seq<nat>) {
    forall i, j :: 0 <= i < j < |list| ==> list[i] < list[j]
  }

  /** A list holds exactly the live channels of its topic, in the order of their subscription. */
  ghost predicate ListsLive(b: Bus, h: seq<Op>, t: Topic) {
    var list := Subscribers(b.subs, t);
    Increasing(list) && forall ch :: ch in list <==> Live(h, ch, t)
  }

  /** A channel is open exactly while it lives, and then holds one token exactly when its topic was
      published since its last receive; no channel ever holds more. */
  ghost predicate Tells(b: Bus, h: seq<Op>, ch: nat)
    requires ch < |b.tokens| == |b.open|
  {
    && b.tokens[ch] <= 1
    && (b.open[ch] <==> exists t :: Live(h, ch, t))
    && forall t :: Live(h, ch, t) ==> (b.tokens[ch] == 1 <==> PublishedSince(h, BornAt(h, ch), t, ch))
  }

  ghost predicate Agrees(b: Bus, h: seq<Op>) {
    && |b.tokens| == |b.open| == Births(h)
    && (forall t :: ListsLive(b, h, t))
    && (forall ch: nat :: ch < |b.tokens| ==> Tells(b, h, ch))
  }

  // ---------- one more operation ----------

  lemma Longer(h: seq<Op>, op: Op, ch: nat)
    ensures Births(h + [op]) == Births(h) + (if op.Subscribe? then 1 else 0)
    ensures BornAt(h + [op], ch) == if op.Subscribe? && Births(h) == ch then |h| else BornAt(h, ch)
    ensures Run(h + [op]) == Apply(Run(h), op)
  {
    assert (h + [op])[..|h|] == h;
  }

  lemma LiveStep(h: seq<Op>, op: Op, ch: nat, t: Topic)
    ensures Live(h + [op], ch, t) <==>
            (op == Subscribe(t) && ch == Births(h)) || (Live(h, ch, t) && op != Unsubscribe(t, ch))
  {
    var g := h + [op];
    Longer(h, op, ch);
    var i := BornAt(h, ch);
    if i >= 0 {
      assert g[|h|] == op && forall j :: 0 <= j < |h| ==> g[j] == h[j];
    }
  }

  lemma PublishedStep(h: seq<Op>, op: Op, from: int, t: Topic, ch: nat)
    requires from < |h|
    ensures PublishedSince(h + [op], from, t, ch) <==>
            op == Publish(t) || (op != Receive(ch) && PublishedSince(h, from, t, ch))
  {
    var g := h + [op];
    assert g[|h|] == op && forall j :: 0 <= j < |h| ==> g[j] == h[j];
    assert NoReceive(g, |h|, ch);
    forall i: nat | i < |h| ensures NoReceive(g, i, ch) <==> NoReceive(h, i, ch) && op != Receive(ch) {
    }
    assert forall i: nat :: i < |h| && h[i] == Publish(t) ==> g[i] == Publish(t);
  }

  lemma HeadIsLeast(list: seq<nat>)
    requires Increasing(list) && list != []
    ensures Increasing(list[1..]) && forall c :: c in list[1..] ==> list[0] < c
    ensures forall c :: c in list <==> c == list[0] || c in list[1..]
  {
    assert list == [list[0]] + list[1..];
  }

  lemma PrependKeepsOrder(first: nat, rest: seq<nat>)
    requires Increasing(rest) && forall c :: c in rest ==> first < c
    ensures Increasing([first] + rest)
  {
    assert forall k :: 0 <= k < |rest| ==> rest[k] in rest;
  }

  lemma {:induction false} WithoutKeepsOrder(list: seq<nat>, ch: nat)
    requires Increasing(list)
    ensures Increasing(Without(list, ch))
    ensures forall c :: c in Without(list, ch) <==> c in list && c != ch
  {
    if list != [] {
      HeadIsLeast(list);
      if list[0] != ch {
        WithoutKeepsOrder(list[1..], ch);
        PrependKeepsOrder(list[0], Without(list[1..], ch));
      }
    }
  }

  lemma ListsStep(b: Bus, h: seq<Op>, op: Op, t: Topic)
    requires Agrees(b, h)
    ensures ListsLive(Apply(b, op), h + [op], t)
  {
    var list := Subscribers(b.subs, t);
    assert ListsLive(b, h, t);
    forall ch ensures Live(h + [op], ch, t) <==>
                      (op == Subscribe(t) && ch == Births(h)) || (Live(h, ch, t) && op != Unsubscribe(t, ch)) {
      LiveStep(h, op, ch, t);
    }
    forall k | 0 <= k < |list| ensures list[k] < Births(h) {
      assert list[k] in list && Live(h, list[k], t);
    }
    if op.Unsubscribe? && op.topic == t {
      WithoutKeepsOrder(list, op.ch);
    }
  }

  lemma NoTwoTopics(h: seq<Op>, ch: nat, t: Topic, u: Topic)
    requires Live(h, ch, t) && Live(h, ch, u)
    ensures t == u
  {
  }

  lemma OpenStep(b: Bus, h: seq<Op>, op: Op, ch: nat)
    requires Agrees(b, h) && ch < |b.tokens|
    ensures Apply(b, op).open[ch] <==> exists t :: Live(h + [op], ch, t)
  {
    assert Tells(b, h, ch);
    forall t ensures Live(h + [op], ch, t) <==> Live(h, ch, t) && op != Unsubscribe(t, ch) {
      LiveStep(h, op, ch, t);
    }
    if op.Unsubscribe? {
      assert ListsLive(b, h, op.topic);
      if op.ch == ch && Live(h, ch, op.topic) {
        forall u | Live(h, ch, u) ensures u == op.topic {
          NoTwoTopics(h, ch, u, op.topic);
        }
      }
    }
  }

  lemma TellsStep(b: Bus, h: seq<Op>, op: Op, ch: nat)
    requires Agrees(b, h) && ch < |b.tokens|
    ensures Tells(Apply(b, op), h + [op], ch)
  {
    assert Tells(b, h, ch);
    var after := Apply(b, op);
    Longer(h, op, ch);
    OpenStep(b, h, op, ch);
    forall t | Live(h + [op], ch, t)
      ensures after.tokens[ch] == 1 <==> PublishedSince(h + [op], BornAt(h + [op], ch), t, ch)
    {
      LiveStep(h, op, ch, t);
      PublishedStep(h, op, BornAt(h, ch), t, ch);
      assert ListsLive(b, h, t);
      match op
      case Publish(u) =>
        assert ListsLive(b, h, u);
        if ch in Subscribers(b.subs, u) {
          NoTwoTopics(h, ch, t, u);
        }
      case Unsubscribe(u, c) =>
        assert ListsLive(b, h, u);
        if c == ch && c in Subscribers(b.subs, u) {
          NoTwoTopics(h, ch, t, u);
        }
      case Subscribe(_) =>
      case Receive(_) =>
    }
  }

  lemma NewChannel(b: Bus, h: seq<Op>, t: Topic)
    requires Agrees(b, h)
    ensures Tells(Apply(b, Subscribe(t)), h + [Subscribe(t)], |b.tokens|)
  {
    LiveStep(h, Subscribe(t), |b.tokens|, t);
  }

  lemma StepAgrees(b: Bus, h: seq<Op>, op: Op)
    requires Agrees(b, h)
    ensures Agrees(Apply(b, op), h + [op])
  {
    var after := Apply(b, op);
    Longer(h, op, 0);
    forall t ensures ListsLive(after, h + [op], t) {
      ListsStep(b, h, op, t);
    }
    forall ch: nat | ch < |after.tokens| ensures Tells(after, h + [op], ch) {
      if ch < |b.tokens| {
        TellsStep(b, h, op, ch);
      } else {
        NewChannel(b, h, op.topic);
      }
    }
  }

  /** In every run each subscriber list is exactly what the history says, and so are the tokens. */
  lemma {:induction false} BusTellsHistory(h: seq<Op>)
    ensures Agrees(Run(h), h)
  {
    if h == [] {
      assert forall ch: nat, t :: !Live(h, ch, t);
    } else {
      var before := h[..|h| - 1];
      BusTellsHistory(before);
      StepAgrees(Run(before), before, h[|h| - 1]);
      assert h == before + [h[|h| - 1]];
    }
  }

  /** So no list repeats a channel, no channel is in two lists, and every listed channel is open:
      a publish never sends on a closed channel, and nothing is closed twice. */
  lemma ListedIsOpen(h: seq<Op>, t: Topic, ch: nat)
    requires ch in Subscribers(Run(h).subs, t)
    ensures ch < |Run(h).open| && Run(h).open[ch]
    ensures forall u :: ch in Subscribers(Run(h).subs, u) ==> u == t
    ensures var list := Subscribers(Run(h).subs, t);
            forall i, j :: 0 <= i < j < |list| ==> list[i] != list[j]
  {
    BusTellsHistory(h);
    var b := Run(h);
    assert ListsLive(b, h, t) && Live(h, ch, t);
    assert Tells(b, h, ch);
    forall u | ch in Subscribers(b.subs, u) ensures u == t {
      assert ListsLive(b, h, u);
      NoTwoTopics(h, ch, t, u);
    }
  }

  /** What a publish or an unsubscription finds. */
  lemma Ready(h: seq<Op>, t: Topic)
    ensures var b := Run(h);
            && |b.tokens| == |b.open| == Births(h)
            && forall k :: 0 <= k < |Subscribers(b.subs, t)| ==>
                             var ch := Subscribers(b.subs, t)[k];
                             ch < |b.open| && b.open[ch] && b.tokens[ch] <= 1
  {
    var b := Run(h);
    BusTellsHistory(h);
    forall k | 0 <= k < |Subscribers(b.subs, t)|
      ensures var ch := Subscribers(b.subs, t)[k];
              ch < |b.open| && b.open[ch] && b.tokens[ch] <= 1
    {
      ListedIsOpen(h, t, Subscribers(b.subs, t)[k]);
      assert Tells(b, h, Subscribers(b.subs, t)[k]);
    }
  }

  lemma FilledOneMore(tokens: seq<nat>, list: seq<nat>, ch: nat)
    requires ch < |tokens|
    ensures Filled(tokens, list + [ch]) == Filled(tokens, list)[ch := 1]
  {
  }

  lemma Unsubscribed(h: seq<Op>, t: Topic, ch: nat, i: nat)
    requires var list := Subscribers(Run(h).subs, t); i < |list| && list[i] == ch && ch !in list[..i]
    requires ch < |Run(h).open|
    ensures var b := Run(h);
            var list := Subscribers(b.subs, t);
            Run(h + [Unsubscribe(t, ch)]) == Bus(b.subs[t := list[..i] + list[i + 1..]], b.tokens, b.open[ch := false])
  {
    Longer(h, Unsubscribe(t, ch), 0);
    RemovedAt(Subscribers(Run(h).subs, t), i, ch);
  }

  // ---------- the bus ----------

  class EventBus {
    var subs: map<Topic, seq<nat>>
    var tokens: seq<nat>
    var open: seq<bool>
    ghost var history: seq<Op>

    constructor ()
      ensures Valid() && history == []
    {
      subs, tokens, open, history := map[], [], [], [];
    }

    ghost predicate Valid()
      reads this
    {
      Bus(subs, tokens, open) == Run(history)
    }

    /** A send that is dropped when the slot is full. On a closed channel it would panic. */
    method Send(ch: nat)
      requires ch < |tokens| == |open| && open[ch]
      modifies this`tokens
      ensures tokens == if old(tokens)[ch] < 1 then old(tokens)[ch := 1] else old(tokens)
    {
      if tokens[ch] < 1 {
        tokens := tokens[ch := tokens[ch] + 1];
      }
    }

    /** Closing a closed channel would panic. */
    method Close(ch: nat)
      requires ch < |open| && open[ch]
      modifies this`open
      ensures open == old(open)[ch := false]
    {
      open := open[ch := false];
    }

    method SubscribeTo(t: Topic) returns (ch: nat)
      requires Valid()
      modifies this
      ensures Valid() && history == old(history) + [Subscribe(t)] && ch == Births(old(history))
    {
      Ready(history, t);
      Longer(history, Subscribe(t), 0);
      ch := |tokens|;
      tokens, open := tokens + [0], open + [true];
      subs := subs[t := Subscribers(subs, t) + [ch]];
      history := history + [Subscribe(t)];
    }

    method PublishChange(t: Topic)
      requires Valid()
      modifies this
      ensures Valid() && history == old(history) + [Publish(t)]
    {
      Ready(history, t);
      var list := Subscribers(subs, t);
      for i := 0 to |list|
        invariant subs == old(subs) && open == old(open) && history == old(history)
        invariant |tokens| == |open| && tokens == Filled(old(tokens), list[..i])
      {
        assert list[..i + 1] == list[..i] + [list[i]];
        FilledOneMore(old(tokens), list[..i], list[i]);
        Send(list[i]);
      }
      assert list[..|list|] == list;
      Longer(history, Publish(t), 0);
      history := history + [Publish(t)];
    }

    method UnsubscribeFrom(t: Topic, ch: nat)
      requires Valid()
      modifies this
      ensures Valid() && history == old(history) + [Unsubscribe(t, ch)]
    {
      Ready(history, t);
      var list := Subscribers(subs, t);
      for i := 0 to |list|
        invariant subs == old(subs) && open == old(open) && tokens == old(tokens) && history == old(history)
        invariant ch !in list[..i]
      {
        if list[i] == ch {
          Unsubscribed(history, t, ch, i);
          subs := subs[t := list[..i] + list[i + 1..]];
          Close(ch);
          history := history + [Unsubscribe(t, ch)];
          return;
        }
      }
      Longer(history, Unsubscribe(t, ch), 0);
      assert ch !in list;
      history := history + [Unsubscribe(t, ch)];
    }

    /** A receive takes the token; without one it would wait, and takes nothing here. */
    method ReceiveFrom(ch: nat) returns (got: bool)
      requires Valid() && ch < |tokens|
      modifies this
      ensures Valid() && history == old(history) + [Receive(ch)]
      ensures forall t :: Live(old(history), ch, t) ==>
                            (got <==> PublishedSince(old(history), BornAt(old(history), ch), t, ch))
    {
      BusTellsHistory(history);
      Longer(history, Receive(ch), 0);
      assert Tells(Run(history), history, ch);
      got := tokens[ch] > 0;
      if got {
        tokens := tokens[ch := tokens[ch] - 1];
      }
      history := history + [Receive(ch)];
    }
  }

  lemma {:induction false} RemovedAt(list: seq<nat>, i: nat, ch: nat)
    requires i < |list| && list[i] == ch && ch !in list[..i]
    ensures Without(list, ch) == list[..i] + list[i + 1..]
  {
    if i > 0 {
      assert list[0] == list[..i][0];
      assert list[..i][1..] == list[1..][..i - 1];
      assert forall c :: c in list[1..][..i - 1] ==> c in list[..i];
      RemovedAt(list[1..], i - 1, ch);
    }
  }
}
