// The IPv4 header checksum (decode-ipv4.h): a hand-unrolled sum over 16-bit
// words that is folded once, against the end-around-carry sum of RFC 1071.
module Ipv4Checksum {
  newtype uint16 = x: int | 0 <= x < 0x1_0000
  newtype uint32 = x: int | 0 <= x < 0x1_0000_0000

  // The sum of all words but number 5, which is the checksum itself.
  function Sum(words: seq<uint16>): nat
    decreases |words|
  {
    if words == [] then 0
    else Sum(words[..|words| - 1]) + if |words| == 6 then 0 else words[|words| - 1] as int
  }

  // Header lengths are 20 to 60 in steps of 4; with any other length the
  // code sums the fixed part only.
  function SummedWords(hlen: uint16): nat {
    if 20 <= hlen <= 60 && hlen % 4 == 0 then hlen as int / 2 else 10
  }

  // Carries are added back into the low word once.
  function FoldOnce(sum: nat): nat {
    sum / 0x1_0000 + sum % 0x1_0000
  }

  // ---- the one's complement sum of RFC 1071, section 1 ----

  function AddWithCarry(a: nat, b: nat): nat {
    if a + b < 0x1_0000 then a + b else a + b - 0xFFFF
  }

  function OnesSum(words: seq<uint16>): (r: nat)
    ensures r < 0x1_0000
    decreases |words|
  {
    if words == [] then 0 else AddWithCarry(OnesSum(words[..|words| - 1]), words[|words| - 1] as int)
  }

  function Rfc1071(words: seq<uint16>): uint16 {
    (0xFFFF - OnesSum(words)) as uint16
  }

  // The value a sum has once every carry has been added back.
  function Settled(sum: nat): nat {
    if sum == 0 then 0 else (sum - 1) % 0xFFFF + 1
  }

  lemma SettledStep(s: nat, w: nat)
    requires w < 0x1_0000
    ensures Settled(s + w) == AddWithCarry(Settled(s), w)
  {
    if s > 0 {
      var q, r := (s - 1) / 0xFFFF, (s - 1) % 0xFFFF;
      assert s + w == q * 0xFFFF + r + w + 1;
      if r + w + 1 < 0x1_0000 {
        assert (q * 0xFFFF + (r + w)) % 0xFFFF == r + w;
      } else {
        assert ((q + 1) * 0xFFFF + (r + w - 0xFFFF)) % 0xFFFF == r + w - 0xFFFF;
      }
    }
  }

  lemma {:induction false} OnesSumSettles(words: seq<uint16>)
    requires |words| > 5 ==> words[5] == 0
    ensures OnesSum(words) == Settled(Sum(words))
    decreases |words|
  {
    if words != [] {
      OnesSumSettles(words[..|words| - 1]);
      SettledStep(Sum(words[..|words| - 1]), if |words| == 6 then 0 else words[|words| - 1] as int);
    }
  }

  lemma {:induction false} SumIgnoresChecksum(words: seq<uint16>, w: uint16)
    requires |words| > 5
    ensures Sum(words[5 := w]) == Sum(words)
    decreases |words|
  {
    if |words| > 6 {
      assert words[5 := w][..|words| - 1] == words[..|words| - 1][5 := w];
      SumIgnoresChecksum(words[..|words| - 1], w);
    } else {
      assert words[5 := w][..5] == words[..5];
    }
  }

  lemma {:induction false} SumBound(words: seq<uint16>)
    ensures Sum(words) <= |words| * 0xFFFF
    decreases |words|
  {
    if words != [] {
      SumBound(words[..|words| - 1]);
    }
  }

  // What the code returns.
  function Result(words: seq<uint16>): uint16
    requires |words| <= 30
  {
    SumBound(words);
    ((0xFFFF_FFFF - FoldOnce(Sum(words))) % 0x1_0000) as uint16
  }

  // ---- the code ----

  lemma NextWord(words: seq<uint16>, k: nat)
    requires k < |words|
    ensures Sum(words[..k + 1]) == Sum(words[..k]) + if k == 5 then 0 else words[k] as int
  {
    assert words[..k + 1][..k] == words[..k];
  }

  lemma FixedPart(pkt: seq<uint16>)
    requires |pkt| >= 10
    ensures Sum(pkt[..10]) == pkt[0] as int + pkt[1] as int + pkt[2] as int + pkt[3] as int + pkt[4] as int
      + pkt[6] as int + pkt[7] as int + pkt[8] as int + pkt[9] as int
  {
    NextWord(pkt, 0); NextWord(pkt, 1); NextWord(pkt, 2); NextWord(pkt, 3); NextWord(pkt, 4);
    NextWord(pkt, 5); NextWord(pkt, 6); NextWord(pkt, 7); NextWord(pkt, 8); NextWord(pkt, 9);
    assert pkt[..0] == [];
  }

  // The first n words after the fixed part.
  function OptionSum(options: seq<uint16>, n: nat): nat
    requires n <= |options|
    decreases n
  {
    if n == 0 then 0 else OptionSum(options, n - 1) + options[n - 1] as int
  }

  lemma {:induction false} FixedAndOptions(pkt: seq<uint16>, n: nat)
    requires |pkt| >= 10 + n
    ensures Sum(pkt[..10 + n]) == Sum(pkt[..10]) + OptionSum(pkt[10..], n)
    decreases n
  {
    if n > 0 {
      FixedAndOptions(pkt, n - 1);
      NextWord(pkt, 10 + n - 1);
    }
  }

  // The unrolled sum is the sum of all header words but the checksum, for
  // every header length, and no addition leaves 32 bits.
  method IPV4CalculateChecksum(pkt: seq<uint16>, hlen: uint16) returns (r: uint16)
    requires |pkt| >= 10 && |pkt| >= SummedWords(hlen)
    ensures r == Result(pkt[..SummedWords(hlen)])
  {
    var csum := pkt[0] as uint32;
    csum := csum + (pkt[1] as int + pkt[2] as int + pkt[3] as int + pkt[4] as int + pkt[6] as int
      + pkt[7] as int + pkt[8] as int + pkt[9] as int) as uint32;
    FixedPart(pkt);
    FixedAndOptions(pkt, SummedWords(hlen) - 10);
    var sum := UnrolledOptions(pkt[10..], if hlen >= 20 then hlen - 20 else hlen + 0xFFEC);
    SumBound(pkt[..SummedWords(hlen)]);
    csum := csum + sum as uint32;
    csum := csum / 0x1_0000 + csum % 0x1_0000;
    r := ((0xFFFF_FFFF - csum) % 0x1_0000) as uint16;
  }

  // Word by word.
  lemma OptionSteps(pkt: seq<uint16>, n: nat)
    requires n <= |pkt|
    ensures OptionSum(pkt, 0) == 0
    ensures forall k: nat {:trigger pkt[k]} | k < n :: OptionSum(pkt, k + 1) == OptionSum(pkt, k) + pkt[k] as int
  {
  }

  method UnrolledShortOptions(pkt: seq<uint16>, hlen: uint16) returns (sum: int)
    requires hlen <= 24 && hlen % 4 == 0 ==> |pkt| >= hlen as int / 2
    ensures sum == if hlen <= 24 && hlen % 4 == 0 then OptionSum(pkt, hlen as int / 2) else 0
  {
    sum := 0;
    if hlen <= 24 && hlen % 4 == 0 {
      OptionSteps(pkt, hlen as int / 2);
    }
    if hlen == 4 {
      sum := pkt[0] as int + pkt[1] as int;
    } else if hlen == 8 {
      sum := pkt[0] as int + pkt[1] as int + pkt[2] as int + pkt[3] as int;
    } else if hlen == 12 {
      sum := pkt[0] as int + pkt[1] as int + pkt[2] as int + pkt[3] as int + pkt[4] as int + pkt[5] as int;
    } else if hlen == 16 {
      sum := pkt[0] as int + pkt[1] as int + pkt[2] as int + pkt[3] as int + pkt[4] as int + pkt[5] as int
        + pkt[6] as int + pkt[7] as int;
    } else if hlen == 20 {
      sum := pkt[0] as int + pkt[1] as int + pkt[2] as int + pkt[3] as int + pkt[4] as int + pkt[5] as int
        + pkt[6] as int + pkt[7] as int + pkt[8] as int + pkt[9] as int;
    } else if hlen == 24 {
      sum := pkt[0] as int + pkt[1] as int + pkt[2] as int + pkt[3] as int + pkt[4] as int + pkt[5] as int
        + pkt[6] as int + pkt[7] as int + pkt[8] as int + pkt[9] as int + pkt[10] as int + pkt[11] as int;
    }
  }

  method UnrolledOptions(pkt: seq<uint16>, hlen: uint16) returns (sum: int)
    requires hlen <= 40 && hlen % 4 == 0 ==> |pkt| >= hlen as int / 2
    ensures sum == if hlen <= 40 && hlen % 4 == 0 then OptionSum(pkt, hlen as int / 2) else 0
  {
    sum := UnrolledShortOptions(pkt, hlen);
    if hlen == 28 {
      OptionSteps(pkt, 14);
      sum := pkt[0] as int + pkt[1] as int + pkt[2] as int + pkt[3] as int + pkt[4] as int + pkt[5] as int
        + pkt[6] as int + pkt[7] as int + pkt[8] as int + pkt[9] as int + pkt[10] as int + pkt[11] as int
        + pkt[12] as int + pkt[13] as int;
    }
    if hlen == 32 {
      OptionSteps(pkt, 16);
      sum := pkt[0] as int + pkt[1] as int + pkt[2] as int + pkt[3] as int + pkt[4] as int + pkt[5] as int
        + pkt[6] as int + pkt[7] as int + pkt[8] as int + pkt[9] as int + pkt[10] as int + pkt[11] as int
        + pkt[12] as int + pkt[13] as int + pkt[14] as int + pkt[15] as int;
    }
    if hlen == 36 {
      OptionSteps(pkt, 18);
      sum := pkt[0] as int + pkt[1] as int + pkt[2] as int + pkt[3] as int + pkt[4] as int + pkt[5] as int
        + pkt[6] as int + pkt[7] as int + pkt[8] as int + pkt[9] as int + pkt[10] as int + pkt[11] as int
        + pkt[12] as int + pkt[13] as int + pkt[14] as int + pkt[15] as int + pkt[16] as int + pkt[17] as int;
    }
    if hlen == 40 {
      OptionSteps(pkt, 20);
      sum := pkt[0] as int + pkt[1] as int + pkt[2] as int + pkt[3] as int + pkt[4] as int + pkt[5] as int
        + pkt[6] as int + pkt[7] as int + pkt[8] as int + pkt[9] as int + pkt[10] as int + pkt[11] as int
        + pkt[12] as int + pkt[13] as int + pkt[14] as int + pkt[15] as int + pkt[16] as int + pkt[17] as int
        + pkt[18] as int + pkt[19] as int;
    }
  }

  // ---- what the result is ----

  lemma FoldOnceSettles(sum: nat)
    requires sum <= 30 * 0xFFFF
    ensures FoldOnce(sum) < 0x1_0000 ==> Settled(sum) == FoldOnce(sum)
    ensures FoldOnce(sum) >= 0x1_0000 ==> Settled(sum) == FoldOnce(sum) - 0xFFFF && FoldOnce(sum) < 0x1_0000 + 30
  {
    var hi, lo := sum / 0x1_0000, sum % 0x1_0000;
    assert sum == hi * 0xFFFF + (hi + lo);
    if sum > 0 {
      if hi + lo < 0x1_0000 {
        assert (hi * 0xFFFF + (hi + lo - 1)) % 0xFFFF == hi + lo - 1;
      } else {
        assert ((hi + 1) * 0xFFFF + (hi + lo - 1 - 0xFFFF)) % 0xFFFF == hi + lo - 1 - 0xFFFF;
      }
    }
  }

  lemma ComplementOfFold(fold: nat)
    requires fold < 0x2_0000
    ensures (0xFFFF_FFFF - fold) % 0x1_0000 == if fold < 0x1_0000 then 0xFFFF - fold else 0x1_FFFF - fold
  {
  }

  // The result in terms of the settled sum.
  lemma ResultIs(header: seq<uint16>)
    requires |header| <= 30
    ensures var s := Settled(Sum(header));
      Result(header) as int == if FoldOnce(Sum(header)) < 0x1_0000 then 0xFFFF - s else 0x1_0000 - s
    ensures Settled(Sum(header)) < 0x1_0000
    ensures FoldOnce(Sum(header)) >= 0x1_0000 ==> Settled(Sum(header)) > 0
  {
    SumBound(header);
    FoldOnceSettles(Sum(header));
    ComplementOfFold(FoldOnce(Sum(header)));
  }

  // The result is the checksum of RFC 1071 of the header with its checksum
  // field cleared exactly when the one fold leaves 16 bits, and one more than
  // it otherwise.
  lemma OneFoldIsEnoughUnlessItCarries(header: seq<uint16>)
    requires 10 <= |header| <= 30
    ensures FoldOnce(Sum(header)) < 0x1_0000 ==> Result(header) == Rfc1071(header[5 := 0])
    ensures FoldOnce(Sum(header)) >= 0x1_0000 ==> Result(header) as int == Rfc1071(header[5 := 0]) as int + 1
  {
    ResultIs(header);
    SumIgnoresChecksum(header, 0);
    OnesSumSettles(header[5 := 0]);
  }

  // Filling in word 5.
  lemma {:induction false} OnesSumWith(words: seq<uint16>, c: uint16)
    requires |words| > 5
    ensures OnesSum(words[5 := c]) == Settled(Sum(words) + c as int)
    decreases |words|
  {
    var n := |words| - 1;
    if n > 5 {
      assert words[5 := c][..n] == words[..n][5 := c];
      OnesSumWith(words[..n], c);
      SettledStep(Sum(words[..n]) + c as int, words[n] as int);
    } else {
      assert words[5 := c][..n] == words[..n];
      OnesSumSettles(words[..n]);
      SettledStep(Sum(words[..n]), c as int);
    }
  }

  // A receiver accepts a header, its words adding up to all ones, if the
  // result is stored in its checksum field, exactly when the fold does not
  // carry again.
  lemma ReceiverAccepts(header: seq<uint16>)
    requires 10 <= |header| <= 30
    ensures OnesSum(header[5 := Result(header)]) == 0xFFFF <==> FoldOnce(Sum(header)) < 0x1_0000
  {
    ResultIs(header);
    ReceiverSees(header, Result(header));
    AllOnesUnlessCarried(FoldOnce(Sum(header)) >= 0x1_0000, Settled(Sum(header)), Result(header) as int);
  }

  lemma ReceiverSees(header: seq<uint16>, c: uint16)
    requires 10 <= |header| <= 30
    ensures OnesSum(header[5 := c]) == AddWithCarry(Settled(Sum(header)), c as int)
  {
    SettledStep(Sum(header), c as int);
    var seen := AddWithCarry(Settled(Sum(header)), c as int);
    assert Settled(Sum(header) + c as int) == seen;
    OnesSumWith(header, c);
  }

  lemma AllOnesUnlessCarried(carried: bool, s: nat, c: nat)
    requires c == if carried then 0x1_0000 - s else 0xFFFF - s
    ensures AddWithCarry(s, c) == 0xFFFF <==> !carried
  {
  }

  // Headers whose fold carries again exist.
  lemma AFoldThatCarries()
    ensures var header: seq<uint16> := [0xFFFF, 0xFFFF, 1, 0, 0, 0, 0, 0, 0, 0];
      FoldOnce(Sum(header)) == 0x1_0000 && Result(header) == 0xFFFF && Rfc1071(header) == 0xFFFE
  {
    var header: seq<uint16> := [0xFFFF, 0xFFFF, 1, 0, 0, 0, 0, 0, 0, 0];
    FixedPart(header);
    assert header[..10] == header;
    OneFoldIsEnoughUnlessItCarries(header);
    assert header[5 := 0] == header;
  }
}
