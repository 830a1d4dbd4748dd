/** The OEM frame checksum of serial_test.py: an XOR of every byte value of a
    partial frame (start byte through end byte, without the checksum itself). */
module Checksum {

  /** A byte value as Python hands it out when iterating over a bytestring. */
  type Byte = b: nat | b < 256

  /** Bitwise exclusive or on non-negative integers (Python's `^` on ints),
      defined bit by bit from the least significant end. */
  function Xor(a: nat, b: nat): nat
    decreases a + b
  {
    if a == 0 && b == 0 then 0
    else 2 * Xor(a / 2, b / 2) + (a % 2 + b % 2) % 2
  }

  function Pow2(k: nat): (r: nat)
    ensures r >= 1
  {
    if k == 0 then 1 else 2 * Pow2(k - 1)
  }

  lemma {:induction false} XorZero(a: nat)
    ensures Xor(a, 0) == a && Xor(0, a) == a
    decreases a
  {
    if a != 0 {
      XorZero(a / 2);
    }
  }

  lemma {:induction false} XorSelf(a: nat)
    ensures Xor(a, a) == 0
    decreases a
  {
    if a != 0 {
      XorSelf(a / 2);
    }
  }

  /** XOR never sets a bit above the operands' width. */
  lemma {:induction false} XorBounded(a: nat, b: nat, k: nat)
    requires a < Pow2(k) && b < Pow2(k)
    ensures Xor(a, b) < Pow2(k)
    decreases k
  {
    if k > 0 && !(a == 0 && b == 0) {
      XorBounded(a / 2, b / 2, k - 1);
    }
  }

  /** XOR with a fixed value is injective: a changed operand always changes the result. */
  lemma {:induction false} XorInjective(x: nat, a: nat, b: nat)
    requires Xor(x, a) == Xor(x, b)
    ensures a == b
    decreases a + b
  {
    if a != b {
      if x == 0 && a == 0 {
        XorZero(b);
      } else if x == 0 && b == 0 {
        XorZero(a);
      } else {
        assert (x % 2 + a % 2) % 2 == (x % 2 + b % 2) % 2;
        assert Xor(x / 2, a / 2) == Xor(x / 2, b / 2);
        XorInjective(x / 2, a / 2, b / 2);
      }
    }
  }

  /** The for-loop of `_buildChecksum` as a fold: `acc` is the running `checksum`. */
  function FoldXor(acc: nat, s: seq<nat>): nat
    decreases |s|
  {
    if s == [] then acc else FoldXor(Xor(acc, s[0]), s[1..])
  }

  /** The value `_buildChecksum` returns for a partial frame. */
  function XorChecksum(s: seq<nat>): nat
  {
    FoldXor(0, s)
  }

  /** `_buildChecksum`: start from 0 and XOR every byte into the accumulator. */
  method BuildChecksum(partialFrame: seq<nat>) returns (checksum: nat)
    ensures checksum == XorChecksum(partialFrame)
  {
    checksum := 0;
    var i := 0;
    while i < |partialFrame|
      invariant 0 <= i <= |partialFrame|
      invariant FoldXor(checksum, partialFrame[i..]) == XorChecksum(partialFrame)
    {
      assert partialFrame[i..][1..] == partialFrame[i + 1..];
      checksum := Xor(checksum, partialFrame[i]);
      i := i + 1;
    }
  }

  lemma {:induction false} FoldXorSnoc(acc: nat, s: seq<nat>, b: nat)
    ensures FoldXor(acc, s + [b]) == Xor(FoldXor(acc, s), b)
    decreases |s|
  {
    if s == [] {
      assert [b][1..] == [];
    } else {
      assert (s + [b])[1..] == s[1..] + [b];
      FoldXorSnoc(Xor(acc, s[0]), s[1..], b);
    }
  }

  /** The checksum is a left fold: appending a byte XORs it into the old checksum. */
  lemma ChecksumSnoc(s: seq<nat>, b: nat)
    ensures XorChecksum(s + [b]) == Xor(XorChecksum(s), b)
  {
    FoldXorSnoc(0, s, b);
  }

  /** The checksum of an empty partial frame is 0. */
  lemma ChecksumEmpty()
    ensures XorChecksum([]) == 0
  {
  }

  lemma {:induction false} FoldXorBounded(acc: nat, s: seq<nat>)
    requires acc < 256
    requires forall i :: 0 <= i < |s| ==> s[i] < 256
    ensures FoldXor(acc, s) < 256
    decreases |s|
  {
    if s != [] {
      assert Pow2(8) == 256;
      XorBounded(acc, s[0], 8);
      FoldXorBounded(Xor(acc, s[0]), s[1..]);
    }
  }

  /** Over bytes the checksum is itself a byte. */
  lemma ChecksumIsByte(s: seq<Byte>)
    ensures XorChecksum(s) < 256
  {
    FoldXorBounded(0, s);
  }

  /** Appending a frame's own checksum and folding again gives 0. */
  lemma SealedFrameFoldsToZero(s: seq<nat>)
    ensures XorChecksum(s + [XorChecksum(s)]) == 0
  {
    ChecksumSnoc(s, XorChecksum(s));
    XorSelf(XorChecksum(s));
  }

  lemma {:induction false} FoldXorInjective(a: nat, b: nat, s: seq<nat>)
    requires FoldXor(a, s) == FoldXor(b, s)
    ensures a == b
    decreases |s|
  {
    if s != [] {
      FoldXorInjective(Xor(a, s[0]), Xor(b, s[0]), s[1..]);
      assert Xor(s[0], a) == Xor(s[0], b) by {
        XorCommutes(a, s[0]);
        XorCommutes(b, s[0]);
      }
      XorInjective(s[0], a, b);
    }
  }

  lemma {:induction false} XorCommutes(a: nat, b: nat)
    ensures Xor(a, b) == Xor(b, a)
    decreases a + b
  {
    if !(a == 0 && b == 0) {
      XorCommutes(a / 2, b / 2);
    }
  }

  /** Corrupting any single byte of a partial frame changes its checksum. */
  lemma ChecksumDetectsOneCorruptByte(s: seq<nat>, i: nat, b: nat)
    requires i < |s| && b != s[i]
    ensures XorChecksum(s[i := b]) != XorChecksum(s)
  {
    var t := s[i := b];
    var pre := s[..i];
    assert s == pre + [s[i]] + s[i + 1..];
    assert t == pre + [b] + s[i + 1..];
    if XorChecksum(t) == XorChecksum(s) {
      FoldXorAppend(0, pre + [b], s[i + 1..]);
      FoldXorAppend(0, pre + [s[i]], s[i + 1..]);
      FoldXorInjective(FoldXor(0, pre + [b]), FoldXor(0, pre + [s[i]]), s[i + 1..]);
      FoldXorSnoc(0, pre, b);
      FoldXorSnoc(0, pre, s[i]);
      XorInjective(FoldXor(0, pre), b, s[i]);
    }
  }

  lemma {:induction false} FoldXorAppend(acc: nat, s: seq<nat>, t: seq<nat>)
    ensures FoldXor(acc, s + t) == FoldXor(FoldXor(acc, s), t)
    decreases |s|
  {
    if s == [] {
      assert s + t == t;
    } else {
      assert (s + t)[1..] == s[1..] + t;
      FoldXorAppend(Xor(acc, s[0]), s[1..], t);
    }
  }

  /** The partial frame sent at serial_test.py:36-37: start 0x02, address byte
      0x31, sequence byte 0x31, payload "?76", end 0x03. */
  const PartialOemCommand: seq<Byte> := [0x02, 0x31, 0x31, 0x3F, 0x37, 0x36, 0x03]

  /** The frame as serial_test.py:36 writes it: the partial frame followed by 'c'. */
  const OemCommandAsWritten: seq<Byte> := PartialOemCommand + [0x63]

  /** The frame with the checksum `_buildChecksum` actually yields appended. */
  const OemCommand: seq<Byte> := PartialOemCommand + [0x3F]

  /** The XOR fold of the partial frame is 0x3F ('?'), so the byte 'c' (0x63)
      that serial_test.py:36 sends is not its checksum. */
  lemma OemCommandChecksumMismatch()
    ensures XorChecksum(OemCommandAsWritten[..7]) == 0x3F
    ensures OemCommandAsWritten[7] != XorChecksum(OemCommandAsWritten[..7])
  {
    assert OemCommandAsWritten[..7] == PartialOemCommand;
    OemCommandChecksum();
  }

  /** The six XOR steps of the fold over the partial frame at serial_test.py:36,
      each unfolded bit by bit down to an operand that is 0 or equal to the other. */
  lemma OemCommandXorSteps()
    ensures Xor(0x02, 0x31) == 0x33 && Xor(0x33, 0x31) == 0x02 && Xor(0x02, 0x3F) == 0x3D
    ensures Xor(0x3D, 0x37) == 0x0A && Xor(0x0A, 0x36) == 0x3C && Xor(0x3C, 0x03) == 0x3F
  {
    XorZero(12); XorZero(15); XorZero(3);
    XorSelf(12); XorSelf(3);
    assert Xor(1, 24) == 25;
    assert Xor(25, 24) == 1;
    assert Xor(1, 31) == 30;
    assert Xor(7, 6) == 1 && Xor(15, 13) == 2 && Xor(30, 27) == 5;
    assert Xor(1, 6) == 7 && Xor(2, 13) == 15 && Xor(5, 27) == 30;
    assert Xor(30, 1) == 31;
  }

  /** The corrected frame carries its own checksum and folds to 0 as a whole. */
  lemma OemCommandChecksum()
    ensures XorChecksum(PartialOemCommand) == 0x3F
    ensures OemCommand[7] == XorChecksum(OemCommand[..7])
    ensures XorChecksum(OemCommand) == 0
  {
    OemCommandXorSteps();
    XorZero(0x02);
    var s := PartialOemCommand;
    assert s[1..] == [0x31, 0x31, 0x3F, 0x37, 0x36, 0x03];
    assert FoldXor(0x3C, [0x03]) == 0x3F;
    assert FoldXor(0x0A, [0x36, 0x03]) == 0x3F;
    assert FoldXor(0x3D, [0x37, 0x36, 0x03]) == 0x3F;
    assert FoldXor(0x02, [0x3F, 0x37, 0x36, 0x03]) == 0x3F;
    assert FoldXor(0x33, [0x31, 0x3F, 0x37, 0x36, 0x03]) == 0x3F;
    assert FoldXor(0x02, [0x31, 0x31, 0x3F, 0x37, 0x36, 0x03]) == 0x3F;
    assert OemCommand[..7] == PartialOemCommand;
    SealedFrameFoldsToZero(PartialOemCommand);
  }
}
