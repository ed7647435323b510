/** The authenticator's state (`Private` in src/main.rs): a borrowed key and a
    `u64` counter that names the next message the holder expects. */
module Private {
  import opened LittleEndian
  import opened Arithmetic

  datatype State = State(key: seq<Byte>, counter: U64)

  /** `Private::new`: a fresh state holds the given key and starts at counter 0. */
  function New(key: seq<Byte>): (p: State)
    ensures p.key == key
    ensures p.counter == 0
  {
    State(key, 0)
  }

  /** `u64::wrapping_add`. Two `u64` operands overflow by less than 2^64,
      so one subtraction brings the sum back into range. */
  function WrappingAdd(a: U64, b: U64): U64
  {
    if a + b < U64_MODULUS then a + b else a + b - U64_MODULUS
  }

  /** `WrappingAdd` is addition modulo 2^64, the documented meaning of
      `wrapping_add`. */
  lemma WrappingAddIsModular(a: U64, b: U64)
    ensures WrappingAdd(a, b) == (a + b) % U64_MODULUS
  {
    if a + b >= U64_MODULUS {
      DivUnique(a + b, U64_MODULUS, 1, a + b - U64_MODULUS);
    } else {
      DivUnique(a + b, U64_MODULUS, 0, a + b);
    }
  }

  /** `Private::bump`: advance the counter by one, wrapping `u64::MAX` to 0. */
  function Bump(p: State): (r: State)
    ensures r.key == p.key
    ensures p.counter < U64_MAX ==> r.counter == p.counter + 1
    ensures p.counter == U64_MAX ==> r.counter == 0
    ensures r != p
  {
    p.(counter := WrappingAdd(p.counter, 1))
  }

  /** `Bump` applied `k` times. */
  function BumpN(p: State, k: nat): State
    decreases k
  {
    if k == 0 then p else Bump(BumpN(p, k - 1))
  }

  /** Iterated bumping is addition modulo 2^64, and never touches the key. */
  lemma {:induction false} BumpNCounter(p: State, k: nat)
    ensures BumpN(p, k).key == p.key
    ensures BumpN(p, k).counter == (p.counter + k) % U64_MODULUS
    decreases k
  {
    if k > 0 {
      BumpNCounter(p, k - 1);
      var prev := BumpN(p, k - 1);
      var x := p.counter + (k - 1);
      assert prev.counter == x % U64_MODULUS;
      assert BumpN(p, k).counter == WrappingAdd(prev.counter, 1);
      WrappingAddIsModular(prev.counter, 1);
      ModSucc(x, U64_MODULUS);
    }
  }

  /** Bumping `k` times gives back the starting state exactly when `k` is a
      multiple of 2^64: fewer than 2^64 bumps never return to the counter a
      tag was made for. */
  lemma BumpNReturns(p: State, k: nat)
    ensures BumpN(p, k) == p <==> k % U64_MODULUS == 0
  {
    BumpNCounter(p, k);
    var c := p.counter;
    if k % U64_MODULUS == 0 {
      assert (c + k) % U64_MODULUS == c by {
        ModAddMultiple(c, k, U64_MODULUS);
      }
    } else {
      ModAddNonMultiple(c, k, U64_MODULUS);
    }
  }
}
