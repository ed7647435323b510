/** Tag computation (`send_message`) and verify-and-advance (`receive_message`).

    HMAC-SHA256 is a foreign library. It enters the model as a `MacPrimitive`
    value: `keyOk` says whether `new_from_slice` accepts a key, and `mac` is
    the keyed function from data to a 32-byte tag. Nothing is assumed of
    either beyond its type, except where a lemma names a non-collision
    hypothesis (`CollisionFreeOn`) explicitly. */
module Protocol {
  import opened Results
  import opened LittleEndian
  import opened Private

  /** HMAC-SHA256 output length in bytes. */
  const TAG_LEN: nat := 32

  type Tag = t: seq<Byte> | |t| == TAG_LEN witness seq(TAG_LEN, _ => 0)

  datatype MacPrimitive = MacPrimitive(
    keyOk: seq<Byte> -> bool,
    mac: (seq<Byte>, seq<Byte>) -> Tag)

  /** `hmac::digest::InvalidLength`, the error `send_message` forwards. */
  datatype InvalidLength = InvalidLength

  /** `ReceiveError` in src/main.rs. */
  datatype ReceiveError = BadKey | BadSignature

  /** The bytes the MAC is fed: the message, then the counter as 8
      little-endian bytes. The result splits back into both parts. */
  function MacInput(message: seq<Byte>, counter: U64): (d: seq<Byte>)
    ensures |d| == |message| + 8
    ensures d[..|message|] == message
    ensures FromLE8(d[|message|..]) == counter
  {
    var d := message + LE8(counter);
    assert d[|message|..] == LE8(counter);
    LE8RoundTrip(counter);
    d
  }

  /** Distinct (message, counter) pairs give distinct MAC inputs. */
  lemma MacInputInjective(m1: seq<Byte>, c1: U64, m2: seq<Byte>, c2: U64)
    ensures MacInput(m1, c1) == MacInput(m2, c2) <==> m1 == m2 && c1 == c2
  {
    if MacInput(m1, c1) == MacInput(m2, c2) {
      var d := MacInput(m1, c1);
      assert |m1| == |m2|;
      assert m1 == d[..|m1|] == m2;
      assert c1 == FromLE8(d[|m1|..]) == c2;
    }
  }

  /** The one cryptographic hypothesis the replay lemmas use: `mac` under
      `key` does not collide on the two given inputs. It is stated per
      input pair, because a 32-byte tag cannot be injective on all data. */
  ghost predicate CollisionFreeOn(h: MacPrimitive, key: seq<Byte>, d1: seq<Byte>, d2: seq<Byte>)
  {
    d1 != d2 ==> h.mac(key, d1) != h.mac(key, d2)
  }

  /** `send_message`: the tag for `message` at the state's current counter.
      It only reads the state, so no new state is returned. */
  function Send(h: MacPrimitive, p: State, message: seq<Byte>): (r: Result<Tag, InvalidLength>)
    ensures r.Err? <==> !h.keyOk(p.key)
    ensures r.Ok? ==> r.value == h.mac(p.key, MacInput(message, p.counter))
  {
    if !h.keyOk(p.key) then Err(InvalidLength)
    else Ok(h.mac(p.key, MacInput(message, p.counter)))
  }

  /** `receive_message`: recompute the tag at the receiver's own counter,
      compare it with the candidate, and bump the counter only on a match.
      A rejected key is reported before the candidate is looked at, so only
      under an accepted key must the candidate have the MAC's length (see
      README, Left out). */
  function Receive(h: MacPrimitive, p: State, message: seq<Byte>, tag: seq<Byte>)
    : (r: (Result<(), ReceiveError>, State))
    requires |tag| == TAG_LEN || !h.keyOk(p.key)
    ensures r.1.key == p.key
    ensures r.0 == Err(BadKey) <==> !h.keyOk(p.key)
    ensures r.0 == Ok(()) <==> Send(h, p, message) == Ok(tag)
    ensures r.0.Ok? ==> r.1 == Bump(p)
    ensures r.0.Err? ==> r.1 == p
  {
    if !h.keyOk(p.key) then (Err(BadKey), p)
    else
      var expected := h.mac(p.key, MacInput(message, p.counter));
      if expected == tag then (Ok(()), Bump(p)) else (Err(BadSignature), p)
  }

  /** A tag produced by `Send` is accepted by `Receive` on the same state,
      which then advances by exactly one. */
  lemma ReceiveAcceptsSentTag(h: MacPrimitive, p: State, message: seq<Byte>)
    requires h.keyOk(p.key)
    ensures Send(h, p, message).Ok?
    ensures Receive(h, p, message, Send(h, p, message).value) == (Ok(()), Bump(p))
    ensures Bump(p).counter == (p.counter + 1) % U64_MODULUS
  {
    WrappingAddIsModular(p.counter, 1);
  }

  /** A key that `new_from_slice` rejects fails both operations with the
      key error, never with `BadSignature`, whatever the tag. */
  lemma BadKeyFailsBoth(h: MacPrimitive, p: State, message: seq<Byte>, tag: seq<Byte>)
    requires !h.keyOk(p.key)
    ensures Send(h, p, message) == Err(InvalidLength)
    ensures Receive(h, p, message, tag) == (Err(BadKey), p)
  {
  }

  /** Tamper rejection: any candidate other than the expected tag — one bit
      flipped or all bytes changed — fails with `BadSignature` and leaves
      the state as it was. */
  lemma TamperedTagRejected(h: MacPrimitive, p: State, message: seq<Byte>, tag: seq<Byte>)
    requires |tag| == TAG_LEN
    requires h.keyOk(p.key)
    requires tag != Send(h, p, message).value
    ensures Receive(h, p, message, tag) == (Err(BadSignature), p)
  {
  }

  /** A tag made for `message` at counter `c` is rejected by a receiver whose
      counter is different, provided `mac` does not collide on the two MAC
      inputs. This is what stops a replay: the receiver has moved on. */
  lemma StaleTagRejected(h: MacPrimitive, p: State, message: seq<Byte>, c: U64)
    requires h.keyOk(p.key)
    requires c != p.counter
    requires CollisionFreeOn(h, p.key, MacInput(message, c), MacInput(message, p.counter))
    ensures Receive(h, p, message, h.mac(p.key, MacInput(message, c))) == (Err(BadSignature), p)
  {
    MacInputInjective(message, c, message, p.counter);
  }

  /** Cross-message rejection: a tag for `m` at the current counter does not
      authenticate a different message `m2` at that counter. */
  lemma OtherMessageRejected(h: MacPrimitive, p: State, m: seq<Byte>, m2: seq<Byte>)
    requires h.keyOk(p.key)
    requires m != m2
    requires CollisionFreeOn(h, p.key, MacInput(m, p.counter), MacInput(m2, p.counter))
    ensures Receive(h, p, m2, Send(h, p, m).value) == (Err(BadSignature), p)
  {
    MacInputInjective(m, p.counter, m2, p.counter);
  }

  /** Replay rejection: once `(message, tag)` has been accepted, handing the
      same pair to the advanced state fails with `BadSignature` and changes
      nothing. The hypothesis is non-collision of `mac` on the inputs for the
      old and the new counter. */
  lemma ReplayRejected(h: MacPrimitive, p: State, message: seq<Byte>, tag: seq<Byte>)
    requires |tag| == TAG_LEN
    requires Receive(h, p, message, tag).0 == Ok(())
    requires CollisionFreeOn(h, p.key, MacInput(message, p.counter), MacInput(message, Bump(p).counter))
    ensures Receive(h, Bump(p), message, tag) == (Err(BadSignature), Bump(p))
  {
    var q := Bump(p);
    assert q.counter != p.counter;
    assert tag == h.mac(p.key, MacInput(message, p.counter));
    StaleTagRejected(h, q, message, p.counter);
  }
}
