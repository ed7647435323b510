/** A sequence of `receive_message` calls on one state, in delivery order: the
    state machine the counter forms over many messages. */
module Trace {
  import opened Results
  import opened LittleEndian
  import opened Private
  import opened Protocol

  /** A message with its candidate tag, as it reaches the receiver. A trace
      threads only 32-byte candidates, so a delivery's tag is a `Tag`, even
      though a single `Receive` under a rejected key takes any length. */
  datatype Delivery = Delivery(message: seq<Byte>, tag: Tag)

  type Outcome = Result<(), ReceiveError>

  /** How many outcomes are acceptances. */
  function Accepted(os: seq<Outcome>): (n: nat)
    ensures n <= |os|
  {
    if |os| == 0 then 0
    else Accepted(os[..|os| - 1]) + (if os[|os| - 1].Ok? then 1 else 0)
  }

  lemma AcceptedSnoc(os: seq<Outcome>, o: Outcome)
    ensures Accepted(os + [o]) == Accepted(os) + (if o.Ok? then 1 else 0)
  {
    assert (os + [o])[..|os|] == os;
  }

  /** If `q` is `p` bumped once per acceptance in `os`, then bumping `q`
      exactly when outcome `o` is an acceptance gives `p` bumped once per
      acceptance in `os + [o]`. */
  lemma {:induction false} BumpPerAcceptance(p: State, os: seq<Outcome>, q: State, o: Outcome, q': State)
    requires q == BumpN(p, Accepted(os))
    requires q' == if o.Ok? then Bump(q) else q
    ensures q' == BumpN(p, Accepted(os + [o]))
  {
    AcceptedSnoc(os, o);
    if o.Ok? {
      var k := Accepted(os);
      assert BumpN(p, k + 1) == Bump(BumpN(p, k));
    }
  }

  /** Feed the deliveries to `Receive` one after another, threading the
      state. The final state has moved on by exactly one bump per
      acceptance: failures never touch the state. */
  function ReceiveAll(h: MacPrimitive, p: State, ds: seq<Delivery>): (r: (seq<Outcome>, State))
    ensures |r.0| == |ds|
    ensures r.1 == BumpN(p, Accepted(r.0))
    decreases |ds|
  {
    if |ds| == 0 then ([], p)
    else
      var prev := ReceiveAll(h, p, ds[..|ds| - 1]);
      var d := ds[|ds| - 1];
      var step := Receive(h, prev.1, d.message, d.tag);
      BumpPerAcceptance(p, prev.0, prev.1, step.0, step.1);
      (prev.0 + [step.0], step.1)
  }

  /** Each delivery is judged by `Receive` against exactly the state its
      predecessors left behind: there is no search over other counters. */
  lemma {:induction false} JudgedInOrder(h: MacPrimitive, p: State, ds: seq<Delivery>, i: nat)
    requires i < |ds|
    ensures ReceiveAll(h, p, ds).0[i]
         == Receive(h, ReceiveAll(h, p, ds[..i]).1, ds[i].message, ds[i].tag).0
    decreases |ds|
  {
    var last := |ds| - 1;
    var init := ds[..last];
    var prev := ReceiveAll(h, p, init);
    var step := Receive(h, prev.1, ds[last].message, ds[last].tag);
    assert ReceiveAll(h, p, ds) == (prev.0 + [step.0], step.1);
    if i == last {
      assert init == ds[..i];
    } else {
      assert init[..i] == ds[..i];
      assert init[i] == ds[i];
      JudgedInOrder(h, p, init, i);
    }
  }
}
