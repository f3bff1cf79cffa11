/**
 * The license-key validator of the License Gate application: a format gate,
 * a blacklist gate and a 32-bit mixing checksum that must hit a fixed target.
 * The candidate key is the byte sequence of the entered text; `bv32` gives
 * the exact wrap-around, XOR and rotation semantics of Rust's `u32`.
 */
module LicenseGate {
  import opened ByteStrings

  const KeyLength: nat := 14
  const FirstDash: nat := 4
  const SecondDash: nat := 9
  const Dash: bv8 := 0x2D                      // '-'
  const ForbiddenPrefix: seq<bv8> := [0x54, 0x45, 0x53, 0x54]   // "TEST"
  const ForbiddenRun: seq<bv8> := [0x41, 0x41, 0x41, 0x41]      // "AAAA"

  const InitialAccumulator: bv32 := 0x1234_5678
  const MixAddend: bv32 := 0x9E37_79B9
  const MixPostXor: bv32 := 0xA5A5_5A5A
  const RoundXor: bv32 := 0x1111_1111
  const Target: bv32 := 0x85FD_063D

  // ---------------------------------------------------------------------
  // The mixing step and its inverse
  // ---------------------------------------------------------------------

  /**
   * One mixing step: XOR the byte in, rotate left by 5 bit positions,
   * add the addend modulo 2^32 (`bv32` addition wraps), XOR with the post
   * constant.  Being total on `bv32`, it cannot fault.
   */
  function Mix(x: bv32, byte: bv8): bv32
  {
    ((x ^ byte as bv32).RotateLeft(5) + MixAddend) ^ MixPostXor
  }

  /** Undoes `Mix` for a known byte: XOR the post constant out, subtract, rotate back, XOR the byte out. */
  function Unmix(r: bv32, byte: bv8): bv32
  {
    ((r ^ MixPostXor) - MixAddend).RotateRight(5) ^ byte as bv32
  }

  /** The word that was XORed into `x` by a mixing step that produced `r`. */
  function MixedInWord(x: bv32, r: bv32): bv32
  {
    ((r ^ MixPostXor) - MixAddend).RotateRight(5) ^ x
  }

  /** For each byte, every word is the mix of some accumulator, namely its `Unmix`. */
  lemma MixOnto(r: bv32, byte: bv8)
    ensures Mix(Unmix(r, byte), byte) == r
  {
    var w := (r ^ MixPostXor) - MixAddend;
    assert (w.RotateRight(5) ^ byte as bv32) ^ byte as bv32 == w.RotateRight(5);
    assert w.RotateRight(5).RotateLeft(5) == w;
    assert w + MixAddend == r ^ MixPostXor;
    assert (r ^ MixPostXor) ^ MixPostXor == r;
  }

  /** Unmixing a word written out as a mix of `x` gives back `x`. */
  lemma UnmixStep(x: bv32, byte: bv8, r: bv32)
    requires r == ((x ^ byte as bv32).RotateLeft(5) + MixAddend) ^ MixPostXor
    ensures Unmix(r, byte) == x
  {
  }

  /** `Unmix` recovers the accumulator, so `Mix` is a bijection for each byte. */
  lemma MixInverse(x: bv32, byte: bv8)
    ensures Unmix(Mix(x, byte), byte) == x
  {
    UnmixStep(x, byte, Mix(x, byte));
  }

  /** For each byte, only equal accumulators mix to equal words. */
  lemma MixInjective(x1: bv32, x2: bv32, byte: bv8)
    requires Mix(x1, byte) == Mix(x2, byte)
    ensures x1 == x2
  {
    MixInverse(x1, byte);
    MixInverse(x2, byte);
  }

  /** From a word written out as a mix of `x`, the widened byte is recovered. */
  lemma MixedInStep(x: bv32, byte: bv8, r: bv32)
    requires r == ((x ^ byte as bv32).RotateLeft(5) + MixAddend) ^ MixPostXor
    ensures MixedInWord(x, r) == byte as bv32
  {
  }

  /** Widening a byte to 32 bits loses nothing. */
  lemma WidenInjective(b1: bv8, b2: bv8)
    requires b1 as bv32 == b2 as bv32
    ensures b1 == b2
  {
  }

  /** For each accumulator, only equal bytes mix to equal words. */
  lemma MixInjectiveInByte(x: bv32, b1: bv8, b2: bv8)
    requires Mix(x, b1) == Mix(x, b2)
    ensures b1 == b2
  {
    MixedInStep(x, b1, Mix(x, b1));
    MixedInStep(x, b2, Mix(x, b2));
    WidenInjective(b1, b2);
  }

  // ---------------------------------------------------------------------
  // The checksum as a left fold
  // ---------------------------------------------------------------------

  /** One round per byte: mix the byte in, then XOR with the round constant. */
  function Round(x: bv32, byte: bv8): bv32
  {
    Mix(x, byte) ^ RoundXor
  }

  /** For each byte, only equal accumulators give equal round results. */
  lemma RoundInjective(a1: bv32, a2: bv32, byte: bv8)
    requires Round(a1, byte) == Round(a2, byte)
    ensures a1 == a2
  {
    assert (Mix(a1, byte) ^ RoundXor) ^ RoundXor == Mix(a1, byte);
    MixInjective(a1, a2, byte);
  }

  /** For each accumulator, only equal bytes give equal round results. */
  lemma RoundInjectiveInByte(x: bv32, b1: bv8, b2: bv8)
    requires Round(x, b1) == Round(x, b2)
    ensures b1 == b2
  {
    assert (Mix(x, b1) ^ RoundXor) ^ RoundXor == Mix(x, b1);
    MixInjectiveInByte(x, b1, b2);
  }

  /** XORing the round constant into a mixed word completes the round. */
  lemma RoundAfterMix(acc: bv32, byte: bv8, x: bv32)
    requires x == Mix(acc, byte)
    ensures x ^ RoundXor == Round(acc, byte)
  {
  }

  /** Left fold of `Round` over `s`, in index order, starting from `acc`. */
  function FoldFrom(acc: bv32, s: seq<bv8>): bv32
    decreases |s|
  {
    if s == [] then acc else FoldFrom(Round(acc, s[0]), s[1..])
  }

  /** The checksum of a candidate: every byte, dashes included, folded from the initial value. */
  function Checksum(b: seq<bv8>): bv32
  {
    FoldFrom(InitialAccumulator, b)
  }

  /** Folding over one more byte is one more round on the previous result. */
  lemma {:induction false} FoldFromSnoc(acc: bv32, s: seq<bv8>, c: bv8)
    ensures FoldFrom(acc, s + [c]) == Round(FoldFrom(acc, s), c)
    decreases |s|
  {
    if s == [] {
      assert [c][1..] == [];
    } else {
      assert (s + [c])[1..] == s[1..] + [c];
      FoldFromSnoc(Round(acc, s[0]), s[1..], c);
    }
  }

  /** Folding over `p + q` is folding over `q` from the result for `p`. */
  lemma {:induction false} FoldFromAppend(acc: bv32, p: seq<bv8>, q: seq<bv8>)
    ensures FoldFrom(acc, p + q) == FoldFrom(FoldFrom(acc, p), q)
    decreases |p|
  {
    if p == [] {
      assert p + q == q;
    } else {
      assert (p + q)[1..] == p[1..] + q;
      FoldFromAppend(Round(acc, p[0]), p[1..], q);
    }
  }

  /** For a fixed byte sequence, only equal starting values fold to equal results. */
  lemma {:induction false} FoldFromInjective(a1: bv32, a2: bv32, s: seq<bv8>)
    requires FoldFrom(a1, s) == FoldFrom(a2, s)
    ensures a1 == a2
    decreases |s|
  {
    if s != [] {
      FoldFromInjective(Round(a1, s[0]), Round(a2, s[0]), s[1..]);
      RoundInjective(a1, a2, s[0]);
    }
  }

  /**
   * The checksum pins down any single byte once the others are fixed: two
   * candidates that differ only at one position have different checksums.
   */
  lemma SingleByteDeterminesChecksum(p: seq<bv8>, c1: bv8, c2: bv8, q: seq<bv8>)
    requires Checksum(p + [c1] + q) == Checksum(p + [c2] + q)
    ensures c1 == c2
  {
    ChecksumAround(p, c1, q);
    ChecksumAround(p, c2, q);
    FoldFromInjective(Round(Checksum(p), c1), Round(Checksum(p), c2), q);
    RoundInjectiveInByte(Checksum(p), c1, c2);
  }

  /** The checksum of `p + [c] + q` continues from one round on the checksum of `p`. */
  lemma ChecksumAround(p: seq<bv8>, c: bv8, q: seq<bv8>)
    ensures Checksum(p + [c] + q) == FoldFrom(Round(Checksum(p), c), q)
  {
    FoldFromAppend(InitialAccumulator, p + [c], q);
    FoldFromSnoc(InitialAccumulator, p, c);
  }

  // ---------------------------------------------------------------------
  // The gates and the acceptance condition
  // ---------------------------------------------------------------------

  /** Gate 1 and gate 2: fourteen bytes, dashes at offsets 4 and 9. */
  predicate WellFormed(b: seq<bv8>)
  {
    |b| == KeyLength && b[FirstDash] == Dash && b[SecondDash] == Dash
  }

  /** Gate 3: neither the forbidden prefix nor the forbidden run. */
  predicate NotBlacklisted(b: seq<bv8>)
  {
    !StartsWith(b, ForbiddenPrefix) && !Contains(b, ForbiddenRun)
  }

  predicate PassesGates(b: seq<bv8>)
  {
    WellFormed(b) && NotBlacklisted(b)
  }

  /** The keys the validator accepts. */
  predicate Accepted(b: seq<bv8>)
  {
    PassesGates(b) && Checksum(b) == Target
  }

  // ---------------------------------------------------------------------
  // The validator, with its three-state loop
  // ---------------------------------------------------------------------

  /**
   * The validator.  The loop runs a three-state machine over the bytes:
   * state 0 mixes `b[i]` in, state 1 XORs the round constant, state 2
   * advances `i`.  `mixed` counts the calls to `Mix` and shows that a
   * rejected key is either never mixed or mixed over all of its bytes.
   */
  method VerifyKey(b: seq<bv8>) returns (ok: bool, ghost mixed: nat)
    ensures ok <==> Accepted(b)
    ensures mixed == if PassesGates(b) then |b| else 0
  {
    mixed := 0;
    if |b| != KeyLength { return false, mixed; }
    if b[FirstDash] != Dash || b[SecondDash] != Dash { return false, mixed; }

    if StartsWith(b, ForbiddenPrefix) || Contains(b, ForbiddenRun) { return false, mixed; }

    assert PassesGates(b);
    var x: bv32 := InitialAccumulator;
    var i: nat := 0;
    var state: nat := 0;
    ghost var acc: bv32 := InitialAccumulator;
    while i < |b|
      invariant i <= |b|
      invariant state <= 2
      invariant state != 0 ==> i < |b|
      invariant mixed == if state == 0 then i else i + 1
      invariant acc == FoldFrom(InitialAccumulator, b[..i])
      invariant state == 0 ==> x == acc
      invariant state == 1 ==> x == Mix(acc, b[i])
      invariant state == 2 ==> x == Round(acc, b[i])
      decreases 3 * (|b| - i) - state
    {
      match state {
        case 0 =>
          x := Mix(x, b[i]);
          mixed := mixed + 1;
          state := 1;
        case 1 =>
          RoundAfterMix(acc, b[i], x);
          x := x ^ RoundXor;
          state := 2;
        case _ =>
          assert b[..i + 1] == b[..i] + [b[i]];
          FoldFromSnoc(InitialAccumulator, b[..i], b[i]);
          acc := Round(acc, b[i]);
          i := i + 1;
          state := 0;
      }
    }
    assert b[..i] == b;
    assert x == Checksum(b);
    ok := x == Target;
  }

  // ---------------------------------------------------------------------
  // Properties of the acceptance condition
  // ---------------------------------------------------------------------

  /** Any candidate whose length is not 14 is rejected. */
  lemma WrongLengthRejected(b: seq<bv8>)
    requires |b| != KeyLength
    ensures !Accepted(b) && !PassesGates(b)
  {
  }

  /** A fourteen-byte candidate without a dash at offset 4 or at offset 9 is rejected. */
  lemma MissingDashRejected(b: seq<bv8>)
    requires |b| == KeyLength
    requires b[FirstDash] != Dash || b[SecondDash] != Dash
    ensures !Accepted(b) && !PassesGates(b)
  {
  }

  /**
   * A fourteen-byte candidate holds the forbidden run exactly when one of
   * its three dash-separated groups is that run: a dash at offset 4 or 9
   * breaks every other window.
   */
  lemma {:induction false} ForbiddenRunInGroup(b: seq<bv8>)
    requires WellFormed(b)
    ensures Contains(b, ForbiddenRun)
        <==> b[0..4] == ForbiddenRun || b[5..9] == ForbiddenRun || b[10..14] == ForbiddenRun
  {
    WindowsCrossingDash(b);
    if Contains(b, ForbiddenRun) {
      var k :| OccursAt(b, ForbiddenRun, k);
      assert k == 0 || k == 5 || k == 10;
    }
    if b[0..4] == ForbiddenRun { assert OccursAt(b, ForbiddenRun, 0); }
    if b[5..9] == ForbiddenRun { assert OccursAt(b, ForbiddenRun, 5); }
    if b[10..14] == ForbiddenRun { assert OccursAt(b, ForbiddenRun, 10); }
  }

  /** A window of four bytes that covers one of the dashes is not "AAAA". */
  lemma WindowsCrossingDash(b: seq<bv8>)
    requires WellFormed(b)
    ensures forall k :: 0 < k <= FirstDash ==> !OccursAt(b, ForbiddenRun, k)
    ensures forall k :: FirstDash + 1 < k <= SecondDash ==> !OccursAt(b, ForbiddenRun, k)
  {
    forall k | 0 < k <= FirstDash ensures !OccursAt(b, ForbiddenRun, k) {
      assert b[k..k + 4][FirstDash - k] == Dash;
    }
    forall k | FirstDash + 1 < k <= SecondDash ensures !OccursAt(b, ForbiddenRun, k) {
      assert b[k..k + 4][SecondDash - k] == Dash;
    }
  }

  /** A candidate that begins with "TEST" is rejected whatever its checksum. */
  lemma TestPrefixRejected(b: seq<bv8>)
    requires StartsWith(b, ForbiddenPrefix)
    ensures !Accepted(b)
  {
  }

  /** A candidate with "AAAA" at any offset is rejected whatever its checksum. */
  lemma ForbiddenRunRejected(b: seq<bv8>, k: int)
    requires OccursAt(b, ForbiddenRun, k)
    ensures !Accepted(b)
  {
  }

  // ---------------------------------------------------------------------
  // Concrete candidates
  // ---------------------------------------------------------------------

  /** The empty string is rejected by the length gate. */
  lemma EmptyRejected()
    ensures !Accepted([])
  {
  }

  /** "AAAA-AAAA-AAAA" is well formed but rejected by the blacklist. */
  lemma AllARejected(b: seq<bv8>)
    requires b == [0x41, 0x41, 0x41, 0x41, 0x2D, 0x41, 0x41, 0x41, 0x41, 0x2D, 0x41, 0x41, 0x41, 0x41]
    ensures WellFormed(b) && !Accepted(b)
  {
    assert OccursAt(b, ForbiddenRun, 0);
  }

  /** "TEST-0000-0000" is well formed but rejected by the prefix gate. */
  lemma TestKeyRejected(b: seq<bv8>)
    requires b == [0x54, 0x45, 0x53, 0x54, 0x2D, 0x30, 0x30, 0x30, 0x30, 0x2D, 0x30, 0x30, 0x30, 0x30]
    ensures WellFormed(b) && !Accepted(b)
  {
    assert b[..4] == ForbiddenPrefix;
  }

  /**
   * A trace of accumulator values, one per prefix, each obtained from the
   * previous by one round, ends in the checksum: a trace is a round-by-round
   * witness for `FoldFrom`.
   */
  predicate IsTrace(acc: bv32, s: seq<bv8>, trace: seq<bv32>)
  {
    |trace| == |s| + 1 && trace[0] == acc
    && forall k :: 0 <= k < |s| ==> Round(trace[k], s[k]) == trace[k + 1]
  }

  lemma {:induction false} TraceEndsInFold(acc: bv32, s: seq<bv8>, trace: seq<bv32>)
    requires IsTrace(acc, s, trace)
    ensures FoldFrom(acc, s) == trace[|s|]
    decreases |s|
  {
    if s != [] {
      assert IsTrace(trace[1], s[1..], trace[1..]) by {
        forall k | 0 <= k < |s| - 1
          ensures Round(trace[1..][k], s[1..][k]) == trace[1..][k + 1]
        {
          assert Round(trace[k + 1], s[k + 1]) == trace[k + 2];
        }
      }
      TraceEndsInFold(trace[1], s[1..], trace[1..]);
    }
  }

  /** "1234-5678-9012" passes every gate ... */
  lemma SampleKeyPassesGates(b: seq<bv8>)
    requires b == [0x31, 0x32, 0x33, 0x34, 0x2D, 0x35, 0x36, 0x37, 0x38, 0x2D, 0x39, 0x30, 0x31, 0x32]
    ensures PassesGates(b)
  {
    ForbiddenRunInGroup(b);
    assert b[0..4] != ForbiddenRun && b[5..9] != ForbiddenRun && b[10..14] != ForbiddenRun by {
      assert b[0] != 0x41 && b[5] != 0x41 && b[10] != 0x41;
    }
    assert b[..4] != ForbiddenPrefix by { assert b[0] != 0x54; }
  }

  /** ... and its fourteen rounds end in 0x3DEB5D2F, ... */
  lemma SampleKeyChecksum(b: seq<bv8>)
    requires b == [0x31, 0x32, 0x33, 0x34, 0x2D, 0x35, 0x36, 0x37, 0x38, 0x2D, 0x39, 0x30, 0x31, 0x32]
    ensures Checksum(b) == 0x3DEB_5D2F
  {
    var trace: seq<bv32> := [
      0x1234_5678, 0x5076_0990, 0x184C_E548, 0x1360_6257, 0xBEF7_8D50, 0xC99D_623B, 0x6557_F0D9,
      0xFD81_DCEE, 0xFAC7_5FB3, 0x4397_2073, 0xA5AF_CECA, 0xE085_1366, 0x1A6D_AFDE, 0x5F59_3CD7,
      0x3DEB_5D2F];
    assert IsTrace(InitialAccumulator, b, trace) by {
      forall k | 0 <= k < |b| ensures Round(trace[k], b[k]) == trace[k + 1] {
        if k == 0 {} else if k == 1 {} else if k == 2 {} else if k == 3 {} else if k == 4 {}
        else if k == 5 {} else if k == 6 {} else if k == 7 {} else if k == 8 {} else if k == 9 {}
        else if k == 10 {} else if k == 11 {} else if k == 12 {} else {}
      }
    }
    TraceEndsInFold(InitialAccumulator, b, trace);
  }

  /** ... which is not the target, so the key is rejected. */
  lemma SampleKeyRejected(b: seq<bv8>)
    requires b == [0x31, 0x32, 0x33, 0x34, 0x2D, 0x35, 0x36, 0x37, 0x38, 0x2D, 0x39, 0x30, 0x31, 0x32]
    ensures PassesGates(b) && !Accepted(b)
  {
    SampleKeyPassesGates(b);
    SampleKeyChecksum(b);
  }
}
