/** The `main` driver of src/main.rs, with its console output turned into a
    returned list of lines: one state is used for sending and receiving,
    a tag is received twice, then a fresh tag is sent and received. */
module Demo {
  import opened Results
  import opened LittleEndian
  import opened Private
  import opened Protocol

  /** One thing `main` reports: a labelled `receive_message` result
      (`println!`) or a `send_message` failure (`eprint!`). */
  datatype Line = Printed(caption: string, outcome: Result<(), ReceiveError>) | SendFailed(error: InvalidLength)

  /** The bytes of an ASCII string, as `str::as_bytes` gives them. */
  function AsciiBytes(s: string): (b: seq<Byte>)
    requires forall i :: 0 <= i < |s| ==> s[i] as int < 128
    ensures |b| == |s|
    ensures forall i :: 0 <= i < |s| ==> b[i] == s[i] as int
  {
    seq(|s|, i requires 0 <= i < |s| => s[i] as int)
  }

  const MESSAGE: seq<Byte> := AsciiBytes("Hello how are you")
  /** The secret literal at src/main.rs:55. It is split into four pieces
      only so that the ASCII precondition of each `AsciiBytes` call is
      checked on a short string; the pieces join to exactly that literal. */
  const SECRET: seq<Byte> :=
    AsciiBytes("this-should-be-") + AsciiBytes("super-long-and-") + AsciiBytes("very-secret-key-")
    + AsciiBytes("noone-can-guess")

  /** Lines 59-70 of `main`: send once, then receive that tag twice. With
      an accepted key the first receive always succeeds ("Should succeed"),
      and the state ends one bump further if the replay fails, two if it
      does not; with a rejected key only the send error is reported. */
  function SendAndReplay(h: MacPrimitive, p: State, message: seq<Byte>): (r: (seq<Line>, State))
    ensures r.1.key == p.key
    ensures |r.0| == (if h.keyOk(p.key) then 2 else 1)
    ensures h.keyOk(p.key) ==> r.0[0] == Printed("First", Ok(()))
    ensures h.keyOk(p.key) ==> r.0[1].Printed? && r.0[1].caption == "Replay"
    ensures h.keyOk(p.key) ==> r.1 == (if r.0[1].outcome.Ok? then Bump(Bump(p)) else Bump(p))
    ensures !h.keyOk(p.key) ==> r == ([SendFailed(InvalidLength)], p)
  {
    match Send(h, p, message)
    case Ok(tag) =>
      var first := Receive(h, p, message, tag);
      var replay := Receive(h, first.1, message, tag);
      ([Printed("First", first.0), Printed("Replay", replay.0)], replay.1)
    case Err(e) => ([SendFailed(e)], p)
  }

  /** Lines 72-79 of `main`: send at the current counter and receive it.
      With an accepted key the fresh tag is always accepted. */
  function Resend(h: MacPrimitive, p: State, message: seq<Byte>): (r: (Line, State))
    ensures r.1.key == p.key
    ensures r.0.SendFailed? <==> !h.keyOk(p.key)
    ensures h.keyOk(p.key) ==> r == (Printed("Resent", Ok(())), Bump(p))
    ensures !h.keyOk(p.key) ==> r == (SendFailed(InvalidLength), p)
  {
    match Send(h, p, message)
    case Ok(tag) =>
      var resent := Receive(h, p, message, tag);
      (Printed("Resent", resent.0), resent.1)
    case Err(e) => (SendFailed(e), p)
  }

  /** The replay at src/main.rs:65 fails ("This replay should fail") for
      any state with an accepted key, provided `mac` does not collide on the
      inputs for the current counter and its successor; the state then ends
      exactly one bump further. */
  lemma ReplayLineFails(h: MacPrimitive, p: State, message: seq<Byte>)
    requires h.keyOk(p.key)
    requires CollisionFreeOn(h, p.key, MacInput(message, p.counter), MacInput(message, Bump(p).counter))
    ensures SendAndReplay(h, p, message)
         == ([Printed("First", Ok(())), Printed("Replay", Err(BadSignature))], Bump(p))
  {
    var tag := Send(h, p, message).value;
    ReceiveAcceptsSentTag(h, p, message);
    ReplayRejected(h, p, message, tag);
  }

  /** `main`, given the MAC primitive, the secret and the message. */
  function Driver(h: MacPrimitive, secret: seq<Byte>, message: seq<Byte>): (r: (seq<Line>, State))
    ensures r.1.key == secret
    ensures |r.0| == (if h.keyOk(secret) then 3 else 2)
  {
    var first := SendAndReplay(h, New(secret), message);
    var last := Resend(h, first.1, message);
    (first.0 + [last.0], last.1)
  }

  /** The demonstrated sequence: first accepted (counter 1), replay rejected
      (counter stays 1), resend at the new counter accepted (counter 2).
      Only the replay step needs a hypothesis: `mac` does not collide on the
      inputs for counters 0 and 1. */
  lemma DriverScenario(h: MacPrimitive, secret: seq<Byte>, message: seq<Byte>)
    requires h.keyOk(secret)
    requires CollisionFreeOn(h, secret, MacInput(message, 0), MacInput(message, 1))
    ensures Driver(h, secret, message)
         == ([Printed("First", Ok(())), Printed("Replay", Err(BadSignature)), Printed("Resent", Ok(()))],
             State(secret, 2))
  {
    var p := New(secret);
    var q := Bump(p);
    assert q == State(secret, 1);
    ReplayLineFails(h, p, message);
    assert Resend(h, q, message) == (Printed("Resent", Ok(())), State(secret, 2));
    assert [Printed("First", Ok(())), Printed("Replay", Err(BadSignature))] + [Printed("Resent", Ok(()))]
        == [Printed("First", Ok(())), Printed("Replay", Err(BadSignature)), Printed("Resent", Ok(()))];
  }

  /** With a key `new_from_slice` rejects, both sends report the error,
      nothing is received and the counter stays at 0. */
  lemma DriverBadKey(h: MacPrimitive, secret: seq<Byte>, message: seq<Byte>)
    requires !h.keyOk(secret)
    ensures Driver(h, secret, message) == ([SendFailed(InvalidLength), SendFailed(InvalidLength)], New(secret))
  {
    assert SendAndReplay(h, New(secret), message) == ([SendFailed(InvalidLength)], New(secret));
    assert Resend(h, New(secret), message) == (SendFailed(InvalidLength), New(secret));
    assert [SendFailed(InvalidLength)] + [SendFailed(InvalidLength)]
        == [SendFailed(InvalidLength), SendFailed(InvalidLength)];
  }

  /** The scenario with the program's own message and secret. */
  lemma MainScenario(h: MacPrimitive)
    requires h.keyOk(SECRET)
    requires CollisionFreeOn(h, SECRET, MacInput(MESSAGE, 0), MacInput(MESSAGE, 1))
    ensures Driver(h, SECRET, MESSAGE).0
         == [Printed("First", Ok(())), Printed("Replay", Err(BadSignature)), Printed("Resent", Ok(()))]
    ensures Driver(h, SECRET, MESSAGE).1.counter == 2
  {
    DriverScenario(h, SECRET, MESSAGE);
  }
}
