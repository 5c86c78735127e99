/** Hook identity and the invalidation boundary (include/gcnport/native_hooks.h). */
module HookKeys {
  import opened Words

  type Digest = bytes: seq<u8> | |bytes| == 32 witness seq(32, _ => 0)

  datatype ImageIdentity = ImageIdentity(sha256: Digest) {
    predicate IsAuthenticated() {
      exists i :: 0 <= i < 32 && sha256[i] != 0
    }
  }

  datatype ExecutionIdentity = ExecutionIdentity(image: ImageIdentity, moduleGeneration: u64)

  datatype HookKey = HookKey(identity: ExecutionIdentity, address: u32) {
    predicate IsValid() {
      identity.image.IsAuthenticated() && address != 0 && address % 4 == 0
    }
  }

  /** The n-th instruction word, not counting the one at address 0. */
  predicate WordAt(address: int, n: nat) {
    n > 0 && address == 4 * n
  }

  /** A digest of zeros, or an address that is no instruction word. */
  ghost predicate Malformed(key: HookKey) {
    || (forall i :: 0 <= i < 32 ==> key.identity.image.sha256[i] == 0)
    || (forall n: nat :: !WordAt(key.address, n))
  }

  lemma MalformedIff(key: HookKey)
    ensures Malformed(key) <==> !key.IsValid()
  {
    if key.address != 0 && key.address % 4 == 0 {
      assert WordAt(key.address, key.address / 4);
    }
    forall n: nat | WordAt(key.address, n) ensures key.address != 0 && key.address % 4 == 0 {}
  }

  /** One nonzero byte authenticates an image, wherever it stands, and every instruction word will do. */
  lemma OneByteIsEnough(key: HookKey, i: nat, byte: u8)
    requires i < 32 && key.identity.image.sha256 == seq(32, _ => 0)[i := byte]
    ensures Malformed(key) <==> byte == 0 || forall n: nat :: !WordAt(key.address, n)
  {
    var digest := key.identity.image.sha256;
    assert digest[i] == byte;
    assert forall k :: 0 <= k < 32 && k != i ==> digest[k] == 0;
  }

  /** One call on the invalidator; `done` is false when it threw. */
  datatype Invalidation = Invalidation(address: u32, done: bool)

  /** An arbitrary invalidator: whether a call throws may depend on every earlier call. */
  class CodeInvalidator {
    const accepts: (seq<Invalidation>, u32) -> bool
    var log: seq<Invalidation>

    constructor (accepts: (seq<Invalidation>, u32) -> bool)
      ensures this.accepts == accepts && log == []
    {
      this.accepts := accepts;
      log := [];
    }

    method InvalidateInstruction(address: u32) returns (done: bool)
      modifies this
      ensures done == accepts(old(log), address)
      ensures log == old(log) + [Invalidation(address, done)]
    {
      done := accepts(log, address);
      log := log + [Invalidation(address, done)];
    }
  }
}
