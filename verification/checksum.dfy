/** The Internet checksum of RFC 1071 as the router computes it (utils.go).

    `Sum16` is the reference meaning of the word sum; `SumByteArr` is the
    source's index loop, proved to compute it. `CalcChecksum` folds the carry
    exactly once, as the source does and as every sender in this model
    writes it: the receiver test passes exactly when that one fold leaves no
    carry. `FullFoldChecksum` folds until no carry is left, agrees with it
    whenever one fold suffices, and passes the test for every message. */
module Checksum {
  import opened Bytes

  const WORD: nat := 0x1_0000

  /** The sum of the big-endian 16-bit words of an even-length byte string. */
  function Sum16(p: seq<u8>): nat
    requires |p| % 2 == 0
  {
    if |p| == 0 then 0 else BytesToU16(p) + Sum16(p[2..])
  }

  /** `sumByteArr`: walks every index and adds the word starting at each even
      one. The source reads past the end of an odd-length input (a run-time
      panic), hence the precondition. */
  method SumByteArr(packet: seq<u8>) returns (sum: nat)
    requires |packet| % 2 == 0
    ensures sum == Sum16(packet)
  {
    sum := 0;
    var i := 0;
    while i < |packet|
      invariant 0 <= i <= |packet|
      invariant i % 2 == 0 ==> sum + Sum16(packet[i..]) == Sum16(packet)
      invariant i % 2 == 1 ==> sum + Sum16(packet[i + 1..]) == Sum16(packet)
    {
      if i % 2 == 0 {
        assert packet[i..][2..] == packet[i + 2..];
        assert Sum16(packet[i..]) == BytesToU16(packet[i..]) + Sum16(packet[i + 2..]);
        sum := sum + BytesToU16(packet[i..]);
      }
      i := i + 1;
    }
  }

  /** The word sum of a suffix starting at an aligned offset: its first word
      plus the sum of the rest. */
  lemma Sum16Suffix(p: seq<u8>, i: nat)
    requires |p| % 2 == 0 && i % 2 == 0 && i + 2 <= |p|
    ensures Sum16(p[i..]) == p[i] as int * 0x100 + p[i + 1] as int + Sum16(p[i + 2..])
  {
    assert p[i..][2..] == p[i + 2..];
  }

  /** The word sum of a concatenation is the sum of the word sums, as long as
      the first part has even length (so the words stay aligned). */
  lemma {:induction false} Sum16Append(a: seq<u8>, b: seq<u8>)
    requires |a| % 2 == 0 && |b| % 2 == 0
    ensures Sum16(a + b) == Sum16(a) + Sum16(b)
    decreases |a|
  {
    if |a| == 0 {
      assert a + b == b;
    } else {
      assert (a + b)[2..] == a[2..] + b;
      Sum16Append(a[2..], b);
    }
  }

  /** One carry fold: `(sum & 0xffff) + sum >> 16`. */
  function Fold1(s: nat): nat
  {
    s % WORD + s / WORD
  }

  /** `calcChecksum`: the complement of the once-folded word sum, truncated to
      16 bits, as two big-endian bytes. */
  function CalcChecksum(packet: seq<u8>): (r: seq<u8>)
    requires |packet| % 2 == 0
    ensures |r| == 2
    ensures BytesToU16(r) + Fold1(Sum16(packet)) % WORD == 0xffff
  {
    U16ToBytes(0xffff - Fold1(Sum16(packet)) % WORD)
  }

  /** `p` with the two bytes at offset `k` replaced by `w`. */
  function Splice(p: seq<u8>, k: nat, w: seq<u8>): (r: seq<u8>)
    requires k + 2 <= |p| && |w| == 2
    ensures |r| == |p|
  {
    p[..k] + w + p[k + 2..]
  }

  /** The word sum split around the aligned word at offset `k`. */
  lemma Sum16AtWord(p: seq<u8>, k: nat)
    requires |p| % 2 == 0 && k % 2 == 0 && k + 2 <= |p|
    ensures Sum16(p) == Sum16(p[..k]) + BytesToU16(p[k..k + 2]) + Sum16(p[k + 2..])
  {
    var mid := p[k..];
    assert p == p[..k] + mid;
    Sum16Append(p[..k], mid);
    assert mid[2..] == p[k + 2..];
    assert BytesToU16(mid) == BytesToU16(p[k..k + 2]);
  }

  /** Replacing an aligned word changes the word sum by exactly the difference. */
  lemma Sum16Splice(p: seq<u8>, k: nat, w: seq<u8>)
    requires |p| % 2 == 0 && k % 2 == 0 && k + 2 <= |p| && |w| == 2
    ensures Sum16(Splice(p, k, w)) + BytesToU16(p[k..k + 2]) == Sum16(p) + BytesToU16(w)
  {
    var q := Splice(p, k, w);
    Sum16AtWord(p, k);
    Sum16AtWord(q, k);
    assert q[..k] == p[..k] && q[k..k + 2] == w && q[k + 2..] == p[k + 2..];
  }

  /** The standard receiver test: the word sum, folded until no carry is
      left, is all ones. */
  function FullFold(s: nat): (r: nat)
    ensures r < WORD
    ensures (r - s) % 0xffff == 0
    ensures r == 0 <==> s == 0
    decreases s
  {
    if s < WORD then s else FullFold(Fold1(s))
  }

  predicate Verifies(p: seq<u8>)
    requires |p| % 2 == 0
  {
    FullFold(Sum16(p)) == 0xffff
  }

  /** When the single fold already leaves no carry, writing `CalcChecksum` into
      a zeroed checksum field yields a message that passes the receiver test,
      and whose own `CalcChecksum` is zero. */
  lemma ChecksumVerifiesWithoutSecondCarry(p: seq<u8>, k: nat)
    requires |p| % 2 == 0 && k % 2 == 0 && k + 2 <= |p|
    requires p[k] == 0 && p[k + 1] == 0
    requires Fold1(Sum16(p)) < WORD
    ensures Verifies(Splice(p, k, CalcChecksum(p)))
    ensures CalcChecksum(Splice(p, k, CalcChecksum(p))) == [0, 0]
  {
    var s := Sum16(p);
    var c := CalcChecksum(p);
    Sum16Splice(p, k, c);
    var s' := Sum16(Splice(p, k, c));
    assert p[k..k + 2] == [0, 0];
    SmallModIdentity(Fold1(s));
    assert BytesToU16(c) == 0xffff - Fold1(s);
    assert s' == s + 0xffff - Fold1(s);
    RefoldIsAllOnes(s, s');
    SmallModIdentity(Fold1(s'));
    assert FullFold(s') == 0xffff by {
      if s' >= WORD {
        assert FullFold(s') == FullFold(Fold1(s'));
      }
    }
  }

  /** One carry fold leaves no carry: the case in which `CalcChecksum` is the
      complement the receiver test expects. */
  predicate OneFoldSuffices(p: seq<u8>)
    requires |p| % 2 == 0
  {
    Fold1(Sum16(p)) < WORD
  }

  /** No word exceeds 0xffff. */
  lemma {:induction false} Sum16Bound(p: seq<u8>)
    requires |p| % 2 == 0
    ensures Sum16(p) * 2 <= |p| * 0xffff
    decreases |p|
  {
    if |p| > 0 {
      Sum16Bound(p[2..]);
    }
  }

  /** When the single fold leaves a carry, writing `CalcChecksum` into a
      zeroed checksum field yields a message whose sum folds to 1, not to
      all ones: it fails the receiver test. The sum must fit in 32 bits, as
      it does for any message of at most 0x10000 words. */
  lemma CarryBreaksChecksum(p: seq<u8>, k: nat)
    requires |p| % 2 == 0 && k % 2 == 0 && k + 2 <= |p|
    requires p[k] == 0 && p[k + 1] == 0
    requires Sum16(p) < WORD * WORD && !OneFoldSuffices(p)
    ensures FullFold(Sum16(Splice(p, k, CalcChecksum(p)))) == 1
    ensures !Verifies(Splice(p, k, CalcChecksum(p)))
  {
    var s := Sum16(p);
    var c := CalcChecksum(p);
    Sum16Splice(p, k, c);
    var s' := Sum16(Splice(p, k, c));
    assert p[k..k + 2] == [0, 0];
    var a := s / WORD;
    var b := s % WORD;
    assert s == a * WORD + b;
    assert a < WORD;
    var f := Fold1(s);
    assert f == a + b && WORD <= f < 2 * WORD;
    DivModWord(f, 1, f - WORD);
    assert s' == s + 0xffff - (f - WORD);
    assert s' == a * 0xffff + 2 * 0xffff + 1;
    var g := FullFold(s');
    var q: int := (g as int - s') / 0xffff;
    assert g as int - s' == q * 0xffff;
    var m: int := q + a + 2;
    assert g == m * 0xffff + 1;
    assert m == 0;
    assert g == 1;
  }

  /** Writing `CalcChecksum` into a zeroed, aligned checksum field passes the
      receiver test when one fold leaves no carry, and, for a message of at
      most 0x10000 words, only then. */
  lemma CalcChecksumVerifies(p: seq<u8>, k: nat)
    requires |p| % 2 == 0 && k % 2 == 0 && k + 2 <= |p|
    requires p[k] == 0 && p[k + 1] == 0
    ensures OneFoldSuffices(p) ==> Verifies(Splice(p, k, CalcChecksum(p)))
    ensures |p| <= 2 * WORD ==> (Verifies(Splice(p, k, CalcChecksum(p))) <==> OneFoldSuffices(p))
  {
    if OneFoldSuffices(p) {
      ChecksumVerifiesWithoutSecondCarry(p, k);
    } else if |p| <= 2 * WORD {
      Sum16Bound(p);
      assert Sum16(p) * 2 <= 2 * WORD * 0xffff;
      CarryBreaksChecksum(p, k);
    }
  }

  /** Splicing twice at the same offset keeps only the second word. */
  lemma SpliceTwice(p: seq<u8>, k: nat, w: seq<u8>, w': seq<u8>)
    requires k + 2 <= |p| && |w| == 2 && |w'| == 2
    ensures Splice(Splice(p, k, w), k, w') == Splice(p, k, w')
  {
    var q := Splice(p, k, w);
    assert q[..k] == p[..k];
    assert q[k + 2..] == p[k + 2..];
  }

  /** Quotient and remainder by `WORD` are determined by any decomposition. */
  lemma DivModWord(x: nat, a: nat, b: nat)
    requires b < WORD && x == a * WORD + b
    ensures x / WORD == a && x % WORD == b
  {
  }

  /** The arithmetic of a second checksum pass when one fold leaves a carry:
      adding the first checksum makes the sum fold to exactly `WORD`, and
      adding 0xffff instead leaves the fold unchanged. */
  lemma CarryRefold(s: nat)
    requires s < WORD * WORD && Fold1(s) >= WORD
    ensures Fold1(s + (0xffff - Fold1(s) % WORD)) == WORD
    ensures Fold1(s + 0xffff) == Fold1(s)
  {
    var a := s / WORD;
    var b := s % WORD;
    assert s == a * WORD + b;
    assert a < WORD && b >= 1;
    var f := a + b;
    assert f == Fold1(s) && WORD <= f < 2 * WORD;
    DivModWord(f, 1, f - WORD);
    DivModWord(s + (0xffff - (f - WORD)), a + 1, WORD - 1 - a);
    DivModWord(s + 0xffff, a + 1, b - 1);
  }

  /** The second pass when one fold leaves a carry: the checksum of the
      checksummed message is ff ff, and putting ff ff in the field instead
      gives back the first checksum. */
  lemma RechecksumAfterCarry(p: seq<u8>, k: nat)
    requires |p| % 2 == 0 && k % 2 == 0 && k + 2 <= |p|
    requires p[k] == 0 && p[k + 1] == 0
    requires Sum16(p) < WORD * WORD && !OneFoldSuffices(p)
    ensures CalcChecksum(Splice(p, k, CalcChecksum(p))) == [0xff, 0xff]
    ensures CalcChecksum(Splice(p, k, [0xff, 0xff])) == CalcChecksum(p)
  {
    var s := Sum16(p);
    var c1 := CalcChecksum(p);
    assert p[k..k + 2] == [0, 0];
    CarryRefold(s);
    var s1 := Sum16(Splice(p, k, c1));
    assert s1 == s + (0xffff - Fold1(s) % WORD) by {
      Sum16Splice(p, k, c1);
    }
    assert Fold1(s1) % WORD == 0 by {
      assert Fold1(s1) == WORD;
    }
    assert CalcChecksum(Splice(p, k, c1)) == U16ToBytes(0xffff);
    assert Sum16(Splice(p, k, [0xff, 0xff])) == s + 0xffff by {
      Sum16Splice(p, k, [0xff, 0xff]);
    }
    assert U16ToBytes(0xffff) == [0xff, 0xff];
  }

  /** Checksumming again: with the first checksum `c1` written into the
      zeroed field, the checksum `c2` of the result is zero when one fold
      sufficed and ff ff when it did not; either way, writing `c2` into the
      field and checksumming once more gives back `c1`. */
  lemma RechecksumIsStable(p: seq<u8>, k: nat)
    requires |p| % 2 == 0 && k % 2 == 0 && k + 2 <= |p|
    requires p[k] == 0 && p[k + 1] == 0
    requires Sum16(p) < WORD * WORD
    ensures OneFoldSuffices(p) ==> CalcChecksum(Splice(p, k, CalcChecksum(p))) == [0, 0]
    ensures !OneFoldSuffices(p) ==> CalcChecksum(Splice(p, k, CalcChecksum(p))) == [0xff, 0xff]
    ensures CalcChecksum(Splice(p, k, CalcChecksum(Splice(p, k, CalcChecksum(p))))) == CalcChecksum(p)
  {
    if OneFoldSuffices(p) {
      ChecksumVerifiesWithoutSecondCarry(p, k);
      assert Splice(p, k, [0, 0]) == p by {
        assert p[k..k + 2] == [0, 0];
        assert p == p[..k] + p[k..k + 2] + p[k + 2..];
      }
    } else {
      RechecksumAfterCarry(p, k);
    }
  }

  /** The arithmetic behind `ChecksumVerifiesWithoutSecondCarry`: adding the
      complement of a carry-free fold to the sum leaves a sum that folds to
      all ones in one step. */
  lemma RefoldIsAllOnes(s: nat, s': nat)
    requires Fold1(s) < WORD
    requires s' == s + 0xffff - Fold1(s)
    ensures Fold1(s') == 0xffff
  {
    var h := s / WORD;
    assert s == h * WORD + s % WORD;
    assert s' == (h + 1) * 0xffff;
    assert h + 1 <= WORD;
    assert s' == h * WORD + (WORD - (h + 1));
    assert s' / WORD == h && s' % WORD == WORD - (h + 1);
  }

  /** The checksum with the carry folded until none is left. */
  function FullFoldChecksum(packet: seq<u8>): (r: seq<u8>)
    requires |packet| % 2 == 0
    ensures |r| == 2
    ensures BytesToU16(r) + FullFold(Sum16(packet)) == 0xffff
  {
    U16ToBytes(0xffff - FullFold(Sum16(packet)))
  }

  /** For every message with a zeroed, aligned checksum field, writing
      `FullFoldChecksum` into it yields a message that passes the receiver test. */
  lemma FullFoldChecksumVerifies(p: seq<u8>, k: nat)
    requires |p| % 2 == 0 && k % 2 == 0 && k + 2 <= |p|
    requires p[k] == 0 && p[k + 1] == 0
    ensures Verifies(Splice(p, k, FullFoldChecksum(p)))
  {
    var s := Sum16(p);
    var c := FullFoldChecksum(p);
    Sum16Splice(p, k, c);
    var s' := Sum16(Splice(p, k, c));
    assert s' == s + 0xffff - FullFold(s);
    ComplementFoldsToAllOnes(s, FullFold(s), s', FullFold(s'));
  }

  /** The arithmetic behind `FullFoldChecksumVerifies`: a non-zero fold
      result congruent to a multiple of 0xffff is 0xffff itself. */
  lemma ComplementFoldsToAllOnes(s: nat, f: nat, s': nat, g: nat)
    requires (f - s) % 0xffff == 0 && f < WORD && (f == 0 <==> s == 0)
    requires s' == s + 0xffff - f
    requires (g - s') % 0xffff == 0 && g < WORD && (g == 0 <==> s' == 0)
    ensures g == 0xffff
  {
    var a := (f - s) / 0xffff;
    var b := (g - s') / 0xffff;
    assert f - s == a * 0xffff;
    assert g - s' == b * 0xffff;
    assert s' > 0 && g > 0;
    assert g == (b - a + 1) * 0xffff;
  }

  /** Whenever one fold leaves no carry, the two checksums are the same. */
  lemma FullFoldAgreesWithSingleFold(p: seq<u8>)
    requires |p| % 2 == 0 && Fold1(Sum16(p)) < WORD
    ensures FullFoldChecksum(p) == CalcChecksum(p)
  {
    var s := Sum16(p);
    FullFoldOfSmallFold(s);
    SmallModIdentity(Fold1(s));
    var w: u16 := 0xffff - Fold1(s);
    assert FullFoldChecksum(p) == U16ToBytes(w);
    assert CalcChecksum(p) == U16ToBytes(w);
  }

  lemma SmallModIdentity(f: nat)
    requires f < WORD
    ensures f % WORD == f
  {
  }

  lemma FullFoldOfSmallFold(s: nat)
    requires Fold1(s) < WORD
    ensures FullFold(s) == Fold1(s)
  {
    if s < WORD {
      assert s / WORD == 0;
    }
  }

  /** A message that passes the receiver test has checksum zero. */
  lemma VerifiedHasZeroChecksum(p: seq<u8>)
    requires |p| % 2 == 0 && Verifies(p)
    ensures FullFoldChecksum(p) == [0, 0]
  {
  }

  /** The single fold is not enough: a message whose words sum to 0x1ffff gets
      checksum 0xffff, and with it in place the message fails the receiver
      test (its words then sum to 0x2fffe, which folds to 0xfffe). */
  lemma SingleFoldCounterexample()
    ensures var p: seq<u8> := [0xff, 0xff, 0xff, 0xff, 0x00, 0x01, 0x00, 0x00];
      && CalcChecksum(p) == [0xff, 0xff]
      && !Verifies(Splice(p, 6, CalcChecksum(p)))
      && FullFoldChecksum(p) == [0xff, 0xfe]
  {
    var p: seq<u8> := [0xff, 0xff, 0xff, 0xff, 0x00, 0x01, 0x00, 0x00];
    assert Sum16(p[6..]) == 0;
    assert Sum16(p[4..]) == 1;
    assert Sum16(p[2..]) == 0x1_0000;
    assert Sum16(p) == 0x1_ffff;
    var q := Splice(p, 6, CalcChecksum(p));
    assert q == [0xff, 0xff, 0xff, 0xff, 0x00, 0x01, 0xff, 0xff];
    assert Sum16(q[6..]) == 0xffff;
    assert Sum16(q[4..]) == 0x1_0000;
    assert Sum16(q[2..]) == 0x1_ffff;
    assert Sum16(q) == 0x2_fffe;
    assert FullFold(0x2_fffe) == FullFold(0x1_0000) == 1;
    assert FullFold(0x1_ffff) == FullFold(0x1_0000) == 1;
  }

  /** The sample IPv4 header 45 00 00 3c f0 0a 40 00 40 06 (c6 5c) c0 a8 01 03
      c0 a8 02 01 with its checksum bytes zeroed. */
  const SAMPLE_HEADER: seq<u8> :=
    [0x45, 0x00, 0x00, 0x3c, 0xf0, 0x0a, 0x40, 0x00, 0x40, 0x06,
     0x00, 0x00, 0xc0, 0xa8, 0x01, 0x03, 0xc0, 0xa8, 0x02, 0x01]

  /** A 20-byte header's word sum, written out word by word. */
  lemma Sum16Of20(p: seq<u8>)
    requires |p| == 20
    ensures Sum16(p) == p[0] as int * 0x100
                        + p[1] as int
                        + p[2] as int * 0x100
                        + p[3] as int
                        + p[4] as int * 0x100
                        + p[5] as int
                        + p[6] as int * 0x100
                        + p[7] as int
                        + p[8] as int * 0x100
                        + p[9] as int
                        + p[10] as int * 0x100
                        + p[11] as int
                        + p[12] as int * 0x100
                        + p[13] as int
                        + p[14] as int * 0x100
                        + p[15] as int
                        + p[16] as int * 0x100
                        + p[17] as int
                        + p[18] as int * 0x100
                        + p[19] as int
  {
    assert Sum16(p[18..]) == p[18] as int * 0x100 + p[19] as int + Sum16(p[20..]);
    assert Sum16(p[16..]) == p[16] as int * 0x100 + p[17] as int + Sum16(p[18..]);
    assert Sum16(p[14..]) == p[14] as int * 0x100 + p[15] as int + Sum16(p[16..]);
    assert Sum16(p[12..]) == p[12] as int * 0x100 + p[13] as int + Sum16(p[14..]);
    assert Sum16(p[10..]) == p[10] as int * 0x100 + p[11] as int + Sum16(p[12..]);
    assert Sum16(p[8..]) == p[8] as int * 0x100 + p[9] as int + Sum16(p[10..]);
    assert Sum16(p[6..]) == p[6] as int * 0x100 + p[7] as int + Sum16(p[8..]);
    assert Sum16(p[4..]) == p[4] as int * 0x100 + p[5] as int + Sum16(p[6..]);
    assert Sum16(p[2..]) == p[2] as int * 0x100 + p[3] as int + Sum16(p[4..]);
    assert Sum16(p[0..]) == p[0] as int * 0x100 + p[1] as int + Sum16(p[2..]);
  }

  /** The sample header checksums to c6 5c, with either fold. */
  lemma CalcChecksumTestVector()
    ensures CalcChecksum(SAMPLE_HEADER) == [0xc6, 0x5c]
    ensures FullFoldChecksum(SAMPLE_HEADER) == [0xc6, 0x5c]
  {
    var p := SAMPLE_HEADER;
    assert p[0] == 0x45;
    assert p[1] == 0x00;
    assert p[2] == 0x00;
    assert p[3] == 0x3c;
    assert p[4] == 0xf0;
    assert p[5] == 0x0a;
    assert p[6] == 0x40;
    assert p[7] == 0x00;
    assert p[8] == 0x40;
    assert p[9] == 0x06;
    assert p[10] == 0x00;
    assert p[11] == 0x00;
    assert p[12] == 0xc0;
    assert p[13] == 0xa8;
    assert p[14] == 0x01;
    assert p[15] == 0x03;
    assert p[16] == 0xc0;
    assert p[17] == 0xa8;
    assert p[18] == 0x02;
    assert p[19] == 0x01;
    Sum16Of20(p);
    var s := Sum16(p);
    assert s == 0x3_39a0;
    assert Fold1(s) == 0x39a3;
    assert CalcChecksum(p) == U16ToBytes(0xc65c);
    assert U16ToBytes(0xc65c) == [0xc6, 0x5c];
    FullFoldAgreesWithSingleFold(p);
  }
}
