/** Internet checksums (kernel/net/checksum.c).

The code adds 16-bit words into a 32-bit accumulator and folds the carries at the end.
`OnesSum` is the independent definition: the word-by-word addition with end-around carry of
section 1 of RFC 1071.  The lemmas say exactly when the two agree. */
module Checksum {

  const WRAP: nat := 0x1_0000_0000

  // ----- bytes and words -----

  type byte = b: int | 0 <= b < 256
  type word = w: int | 0 <= w < 0x10000

  /** The little-endian load of the i-th `uint16_t`. */
  function Load16(data: seq<byte>, i: nat): word
    requires 2 * i + 1 < |data|
  {
    data[2 * i] as int + 256 * data[2 * i + 1] as int
  }

  function Ntohs(x: word): word {
    (x % 256) * 256 + x / 256
  }

  /** The big-endian words of `data`; a trailing odd byte is not part of any word. */
  function Words(data: seq<byte>): (ws: seq<word>)
    ensures |ws| == |data| / 2
  {
    seq(|data| / 2, i requires 0 <= i < |data| / 2 => data[2 * i] as int * 256 + data[2 * i + 1] as int)
  }

  function Pad(data: seq<byte>): seq<byte> {
    if |data| % 2 == 0 then data else data + [0]
  }

  /** The plain sum of a sequence of words. */
  function Sum(ws: seq<word>): nat {
    if ws == [] then 0 else Sum(ws[..|ws| - 1]) + ws[|ws| - 1]
  }

  /** Unsigned 32-bit arithmetic wraps. */
  function Wrap(x: int): (r: nat)
    ensures r < WRAP
  {
    x % WRAP
  }

  // ----- one's-complement arithmetic -----

  /** 16-bit addition with end-around carry. */
  function OnesAdd(a: word, b: word): word {
    if a + b > 0xFFFF then a + b - 0xFFFF else a + b
  }

  function OnesSum(ws: seq<word>): word {
    if ws == [] then 0 else OnesAdd(OnesSum(ws[..|ws| - 1]), ws[|ws| - 1])
  }

  function OnesChecksum(ws: seq<word>): word {
    0xFFFF - OnesSum(ws)
  }

  /** The one's-complement representative of a plain sum: zero only for zero. */
  function Canon(n: nat): word {
    if n == 0 then 0 else 1 + (n - 1) % 0xFFFF
  }

  // ----- the code's folding -----

  function FoldOnce(v: nat): nat {
    v / 0x10000 + v % 0x10000
  }

  /** `(uint16_t)~v` after the two folding statements. */
  function Finish(v: nat): word
    requires v < WRAP
  {
    var v1 := FoldOnce(v);
    0xFFFF - (v1 + v1 / 0x10000) % 0x10000
  }

  /** The accumulation loop, which the two checksum functions repeat: `v += ntohs(s[i])`. */
  method AddWords(start: nat, data: seq<byte>) returns (v: nat)
    requires start < WRAP
    ensures v == Wrap(start + Sum(Words(data)))
  {
    v := start;
    ghost var ws := Words(data);
    for i := 0 to |data| / 2
      invariant v == Wrap(start + Sum(ws[..i]))
    {
      NtohsIsBigEndian(data, i);
      SumSnoc(ws, i);
      WrapAdd(start + Sum(ws[..i]), ws[i]);
      v := Wrap(v + Ntohs(Load16(data, i)));
    }
    assert ws[..|data| / 2] == ws;
  }

  /** The two folding statements and the final complement. */
  method FoldAndComplement(start: nat) returns (c: word)
    requires start < WRAP
    ensures c == Finish(start)
  {
    var high, low := start / 0x10000 % 0x10000, start % 0x10000;
    assert start / 0x10000 < 0x10000;
    var v := high + low;
    assert v == FoldOnce(start) && v <= 0x1FFFE;
    var carry := v / 0x10000 % 0x10000;
    assert carry == v / 0x10000;
    c := 0xFFFF - (v + carry) % 0x10000;
  }

  method NetCalcChecksum(data: seq<byte>) returns (c: word)
    ensures c == Finish(Wrap(Sum(Words(data))))
    ensures Sum(Words(data)) < WRAP ==> c == OnesChecksum(Words(data))
  {
    hide Finish, Wrap, OnesChecksum;
    var v := AddWords(0, data);
    c := FoldAndComplement(v);
    if Sum(Words(data)) < WRAP {
      WrapId(Sum(Words(data)));
      FoldsToOnesSum(Words(data));
    }
  }

  /** What `net_calc_checksum2` adds up: the first part folded once if it needs it, then the second
      part with its odd byte padded, less the given checksum. */
  function Sum2(data1: seq<byte>, data2: seq<byte>, checksum: word): int {
    FoldIfLarge(Wrap(Sum(Words(data1)))) + Sum(Words(Pad(data2))) - checksum
  }

  function FoldIfLarge(v: nat): nat {
    if v > 0xFFFF then FoldOnce(v) else v
  }

  method NetCalcChecksum2(data1: seq<byte>, data2: seq<byte>, checksum: word) returns (c: word)
    requires |data1| % 2 == 0
    ensures c == Finish(Wrap(Sum2(data1, data2, checksum)))
  {
    hide Finish, Wrap, Sum;
    var v := AddWords(0, data1);
    if v > 0xFFFF {
      v := v / 0x10000 + v % 0x10000;
    }
    ghost var h := v;
    v := AddWords(v, data2);
    ghost var all := h + Sum(Words(data2));
    WrapAdd(all, 0 - checksum as int);
    v := Wrap(v - checksum);
    PaddedSum(data2);
    if |data2| % 2 != 0 {
      var tmp: seq<byte> := [data2[|data2| / 2 * 2], 0];
      NtohsIsBigEndian(tmp, 0);
      WrapAdd(all - checksum, data2[|data2| - 1] as int * 256);
      v := Wrap(v + Ntohs(Load16(tmp, 0)));
    }
    c := FoldAndComplement(v);
  }

  // ----- lemmas -----

  lemma WrapId(x: nat)
    requires x < WRAP
    ensures Wrap(x) == x
  {
  }

  lemma WrapAdd(x: int, y: int)
    ensures Wrap(Wrap(x) + y) == Wrap(x + y)
  {
  }

  lemma NtohsIsBigEndian(data: seq<byte>, i: nat)
    requires 2 * i + 1 < |data|
    ensures i < |Words(data)| && Ntohs(Load16(data, i)) == Words(data)[i]
  {
    var x := Load16(data, i);
    assert x % 256 == data[2 * i] && x / 256 == data[2 * i + 1];
  }

  lemma SumSnoc(ws: seq<word>, i: nat)
    requires i < |ws|
    ensures Sum(ws[..i + 1]) == Sum(ws[..i]) + ws[i]
  {
    assert ws[..i + 1][..i] == ws[..i];
  }

  lemma {:induction false} SumConcat(a: seq<word>, b: seq<word>)
    ensures Sum(a + b) == Sum(a) + Sum(b)
  {
    if b == [] {
      assert a + b == a;
    } else {
      assert (a + b)[..|a + b| - 1] == a + b[..|b| - 1];
      SumConcat(a, b[..|b| - 1]);
    }
  }

  lemma {:induction false} SumUpdate(ws: seq<word>, k: nat, w: word)
    requires k < |ws|
    ensures Sum(ws[k := w]) == Sum(ws) - ws[k] + w
  {
    var n := |ws| - 1;
    if k == n {
      assert ws[k := w][..n] == ws[..n];
    } else {
      assert ws[k := w][..n] == ws[..n][k := w];
      SumUpdate(ws[..n], k, w);
    }
  }

  /** Words of at most `n` values sum to at most `n * 0xFFFF`. */
  lemma {:induction false} SumBound(ws: seq<word>)
    ensures Sum(ws) <= |ws| * 0xFFFF
  {
    if ws != [] { SumBound(ws[..|ws| - 1]); }
  }

  lemma PaddedSum(data: seq<byte>)
    ensures Sum(Words(Pad(data))) ==
            Sum(Words(data)) + if |data| % 2 == 0 then 0 else data[|data| - 1] as int * 256
  {
    if |data| % 2 != 0 {
      var ws := Words(Pad(data));
      assert ws[..|ws| - 1] == Words(data);
    }
  }

  lemma CanonAdd(n: nat, w: word)
    ensures Canon(n + w) == OnesAdd(Canon(n), w)
  {
  }

  /** The end-around-carry sum is determined by the plain sum. */
  lemma {:induction false} OnesSumIsCanon(ws: seq<word>)
    ensures OnesSum(ws) == Canon(Sum(ws))
  {
    if ws != [] {
      OnesSumIsCanon(ws[..|ws| - 1]);
      CanonAdd(Sum(ws[..|ws| - 1]), ws[|ws| - 1]);
    }
  }

  lemma FinishIsCanon(v: nat)
    requires v < WRAP
    ensures Finish(v) == 0xFFFF - Canon(v)
  {
    var h, l := v / 0x10000, v % 0x10000;
    assert v == 0xFFFF * h + (h + l);
  }

  lemma FoldsToOnesSum(ws: seq<word>)
    ensures Sum(ws) < WRAP ==> Finish(Sum(ws)) == OnesChecksum(ws)
  {
    hide Finish, Canon;
    if Sum(ws) < WRAP {
      OnesSumIsCanon(ws);
      FinishIsCanon(Sum(ws));
    }
  }

  /** For every length a 32-bit `size` can express, the value `net_calc_checksum` returns is the
      RFC 1071 checksum if and only if the plain sum fits the 32-bit accumulator. */
  lemma ChecksumExactlyWhenSumFits(ws: seq<word>)
    requires |ws| <= 0x8000_0000
    ensures Finish(Wrap(Sum(ws))) == OnesChecksum(ws) <==> Sum(ws) < WRAP
  {
    hide Finish, Canon, Sum, OnesSum;
    SumBound(ws);
    OnesSumIsCanon(ws);
    var s := Sum(ws);
    var q, r := s / WRAP, Wrap(s);
    FinishIsCanon(r);
    if q > 0 {
      assert s == WRAP * q + r && q < 0xFFFF;
      CanonDiffers(r, q);
    }
  }

  /** Each wrap of the accumulator loses one modulo 0xFFFF, so fewer than 0xFFFF wraps always show. */
  lemma CanonDiffers(r: nat, q: nat)
    requires 0 < q < 0xFFFF
    ensures Canon(r) != Canon(WRAP * q + r)
  {
    assert WRAP * q + r == 0xFFFF * (0x10001 * q) + (q + r);
    if r > 0 {
      ModShift(q + r - 1, 0x10001 * q);
      var a := (r - 1) % 0xFFFF;
      var b := (r - 1) / 0xFFFF;
      assert q + r - 1 == 0xFFFF * b + (a + q);
      ModShift(a + q, b);
    }
  }

  lemma {:induction false} ModShift(x: nat, m: nat)
    ensures (0xFFFF * m + x) % 0xFFFF == x % 0xFFFF
  {
  }

  /** Up to 65537 words (65537 * 65535 == 2^32 - 1) the sum fits whatever the data is. */
  lemma ChecksumUpTo65537Words(ws: seq<word>)
    requires |ws| <= 65537
    ensures Finish(Wrap(Sum(ws))) == OnesChecksum(ws)
  {
    hide Finish, OnesChecksum, Sum;
    SumBound(ws);
    WrapId(Sum(ws));
    FoldsToOnesSum(ws);
  }

  /** The numerical example of section 3 of RFC 1071: the sum is 0xddf2. */
  lemma NumericalExample()
    ensures var data: seq<byte> := [0x00, 0x01, 0xf2, 0x03, 0xf4, 0xf5, 0xf6, 0xf7];
            && Words(data) == [0x0001, 0xf203, 0xf4f5, 0xf6f7]
            && OnesSum(Words(data)) == 0xddf2 && OnesChecksum(Words(data)) == 0x220d
  {
    var ws: seq<word> := [0x0001, 0xf203, 0xf4f5, 0xf6f7];
    OnesSumIsCanon(ws);
    var one: seq<word> := [0x0001];
    var two: seq<word> := [0x0001, 0xf203];
    var three: seq<word> := [0x0001, 0xf203, 0xf4f5];
    SumNext([], 0x0001);
    SumNext(one, 0xf203);
    SumNext(two, 0xf4f5);
    SumNext(three, 0xf6f7);
    assert [] + [0x0001] == one && one + [0xf203] == two && two + [0xf4f5] == three && three + [0xf6f7] == ws;
    assert Sum(ws) == 0x2ddf0;
  }

  lemma SumNext(ws: seq<word>, w: word)
    ensures Sum(ws + [w]) == Sum(ws) + w
  {
    assert (ws + [w])[..|ws|] == ws;
  }

  /** RFC 1071 pads an odd length with a zero byte; `net_calc_checksum` drops the odd byte instead.  For
      every odd length the value it returns is the standard checksum exactly when the wraps of the
      accumulator and the odd byte make up for each other. */
  lemma OddByteExactly(data: seq<byte>)
    requires |data| % 2 == 1
    ensures var s, x := Sum(Words(data)), data[|data| - 1] as int * 256;
            Finish(Wrap(s)) == OnesChecksum(Words(Pad(data))) <==>
            (s + x == 0 || (Wrap(s) != 0 && (s / WRAP + x) % 0xFFFF == 0))
  {
    hide Words, Pad, Sum, OnesSum, Finish, Canon;
    PaddedSum(data);
    OnesSumIsCanon(Words(Pad(data)));
    var s, x := Sum(Words(data)), data[|data| - 1] as int * 256;
    var q, r := s / WRAP, Wrap(s);
    FinishIsCanon(r);
    assert s + x == 0xFFFF * (0x10001 * q) + (r + (q + x));
    CanonShift(r + (q + x), 0x10001 * q);
    CanonMoves(r, q + x);
    CanonZero(s + x);
    CanonZero(r);
  }

  /** As long as the sum fits, that is when the odd byte is zero. */
  lemma OddByteDropped(data: seq<byte>)
    requires |data| % 2 == 1 && Sum(Words(data)) < WRAP
    ensures Finish(Wrap(Sum(Words(data)))) == OnesChecksum(Words(Pad(data))) <==> data[|data| - 1] == 0
  {
    hide Words, Pad, Sum, OnesSum, Finish;
    OddByteExactly(data);
    WrapId(Sum(Words(data)));
  }

  lemma CanonZero(n: nat)
    ensures Canon(n) == 0 <==> n == 0
  {
  }

  lemma CanonShift(n: nat, m: nat)
    ensures n > 0 ==> Canon(0xFFFF * m + n) == Canon(n)
  {
    if n > 0 { ModShift(n - 1, m); }
  }

  lemma CanonMoves(r: nat, d: nat)
    ensures r > 0 ==> (Canon(r + d) == Canon(r) <==> d % 0xFFFF == 0)
  {
    if r > 0 {
      var a, b := (r - 1) % 0xFFFF, (r - 1) / 0xFFFF;
      var c, e := d % 0xFFFF, d / 0xFFFF;
      assert r - 1 == 0xFFFF * b + a && d == 0xFFFF * e + c;
      assert r + d - 1 == 0xFFFF * (b + e) + (a + c);
      ModShift(a + c, b + e);
      if a + c >= 0xFFFF {
        ModShift(a + c - 0xFFFF, 1);
      }
    }
  }

  function AllOnes(n: nat): seq<word> {
    seq(n, _ => 0xFFFF)
  }

  /** ... and 65538 words of all ones already give a wrong checksum, so the bound is tight. */
  lemma ChecksumWrongAt65538Words()
    ensures |AllOnes(65538)| == 65538
    ensures Finish(Wrap(Sum(AllOnes(65538)))) != OnesChecksum(AllOnes(65538))
  {
    AllOnesSum(65538);
    ChecksumExactlyWhenSumFits(AllOnes(65538));
  }

  lemma {:induction false} AllOnesSum(n: nat)
    ensures Sum(AllOnes(n)) == n * 0xFFFF
  {
    if n > 0 {
      assert AllOnes(n)[..n - 1] == AllOnes(n - 1);
      AllOnesSum(n - 1);
    }
  }

  /** The promise receivers rely on: a checksum stored over a zeroed word makes the whole sum to zero
      when it is checked again. */
  lemma StoredChecksumVerifies(ws: seq<word>, k: nat)
    requires k < |ws| && ws[k] == 0
    ensures OnesChecksum(ws[k := OnesChecksum(ws)]) == 0
  {
    var c := OnesChecksum(ws);
    OnesSumIsCanon(ws);
    OnesSumIsCanon(ws[k := c]);
    SumUpdate(ws, k, c);
    var s := Sum(ws);
    assert s > 0 ==> s == 0xFFFF * ((s - 1) / 0xFFFF) + Canon(s);
  }

  function ZeroWord(data: seq<byte>, k: nat): (z: seq<byte>)
    requires k < |data| / 2
  {
    data[2 * k := 0][2 * k + 1 := 0]
  }

  lemma PaddedZeroWord(data: seq<byte>, k: nat)
    requires k < |data| / 2
    ensures k < |Words(Pad(data))| && Words(Pad(data))[k] == Words(data)[k]
    ensures Words(Pad(ZeroWord(data, k))) == Words(Pad(data))[k := 0]
  {
    assert Pad(ZeroWord(data, k)) == ZeroWord(Pad(data), k);
  }

  lemma WordsConcat(a: seq<byte>, b: seq<byte>)
    requires |a| % 2 == 0
    ensures Words(a + b) == Words(a) + Words(b)
  {
    var m := |a| / 2;
    forall i | 0 <= i < |Words(a + b)|
      ensures Words(a + b)[i] == (Words(a) + Words(b))[i]
    {
      if i >= m {
        assert (a + b)[2 * i] == b[2 * (i - m)] && (a + b)[2 * i + 1] == b[2 * (i - m) + 1];
      }
    }
  }

  /** `net_calc_checksum2` over a header and a segment whose own checksum word sits at word `k`:
      the result is the RFC 1071 checksum of header and padded segment with that word zeroed,
      whenever the two plain sums fit the accumulator. */
  lemma Checksum2IsConcatenated(data1: seq<byte>, data2: seq<byte>, k: nat)
    requires |data1| % 2 == 0
    requires k < |data2| / 2
    requires Sum(Words(data1)) < WRAP
    requires Sum2(data1, data2, 0) < WRAP
    ensures Finish(Wrap(Sum2(data1, data2, Words(data2)[k]))) ==
            OnesChecksum(Words(data1 + Pad(ZeroWord(data2, k))))
  {
    hide Finish, OnesChecksum, Sum, Words, Pad, ZeroWord, FoldIfLarge;
    var ws1, ws2 := Words(data1), Words(Pad(data2));
    PaddedZeroWord(data2, k);
    SumUpdate(ws2, k, 0);
    WordsConcat(data1, Pad(ZeroWord(data2, k)));
    WordsSum2(ws1, ws2[k := 0]);
  }

  lemma WordsSum2(ws1: seq<word>, ws2: seq<word>)
    requires FoldIfLarge(Sum(ws1)) + Sum(ws2) < WRAP
    ensures Finish(FoldIfLarge(Sum(ws1)) + Sum(ws2)) == OnesChecksum(ws1 + ws2)
  {
    hide Finish, Canon, Sum, OnesSum, FoldIfLarge;
    SumConcat(ws1, ws2);
    OnesSumIsCanon(ws1 + ws2);
    FinishFolded(Sum(ws1), Sum(ws2));
  }

  lemma FinishFolded(h: nat, t: nat)
    requires FoldIfLarge(h) + t < WRAP
    ensures Finish(FoldIfLarge(h) + t) == 0xFFFF - Canon(h + t)
  {
    var f := FoldIfLarge(h) + t;
    FinishIsCanon(f);
    CanonOfFolded(h, t);
  }

  lemma CanonOfFolded(h: nat, t: nat)
    ensures Canon(FoldOnce(h) + t) == Canon(h + t)
  {
    assert h == 0xFFFF * (h / 0x10000) + FoldOnce(h);
    if FoldOnce(h) + t > 0 {
      ModShift(FoldOnce(h) + t - 1, h / 0x10000);
    }
  }

  /** For all lengths that a 32-bit size can express the result is that checksum if and only if neither of the
      two sums wraps: together they wrap fewer than 0xFFFF times, and each wrap loses one modulo 0xFFFF. */
  lemma Checksum2ExactlyWhenSumsFit(data1: seq<byte>, data2: seq<byte>, k: nat)
    requires |data1| % 2 == 0 && |data1| < WRAP && |data2| < WRAP
    requires k < |data2| / 2
    ensures Finish(Wrap(Sum2(data1, data2, Words(data2)[k]))) ==
              OnesChecksum(Words(data1 + Pad(ZeroWord(data2, k)))) <==>
            Sum(Words(data1)) < WRAP && Sum2(data1, data2, Words(data2)[k]) < WRAP
  {
    hide Finish, Canon, Sum, OnesSum, Words, Pad, ZeroWord, FoldIfLarge;
    var ws1, ws2 := Words(data1), Words(Pad(ZeroWord(data2, k)));
    PaddedZeroWord(data2, k);
    SumUpdate(Words(Pad(data2)), k, 0);
    WordsConcat(data1, Pad(ZeroWord(data2, k)));
    SumConcat(ws1, ws2);
    OnesSumIsCanon(ws1 + ws2);
    WordCount(data1);
    WordCount(Pad(ZeroWord(data2, k)));
    PadLength(data2, k);
    SumBound(ws1);
    SumBound(ws2);
    TwoWraps(Sum(ws1), Sum(ws2));
  }

  lemma WordCount(data: seq<byte>)
    ensures |Words(data)| == |data| / 2
  {
  }

  lemma PadLength(data: seq<byte>, k: nat)
    requires k < |data| / 2
    ensures |Pad(ZeroWord(data, k))| <= |data| + 1
  {
  }

  /** A sum of `s` folded once behind the loop, and then `t` more. */
  lemma TwoWraps(s: nat, t: nat)
    requires s <= 0x7FFF_FFFF * 0xFFFF && t <= 0x8000_0000 * 0xFFFF
    ensures var all := FoldIfLarge(Wrap(s)) + t;
            Finish(Wrap(all)) == 0xFFFF - Canon(s + t) <==> s < WRAP && all < WRAP
  {
    hide Finish, Canon, FoldIfLarge, FoldOnce, Wrap;
    Wraps(s);
    FoldBound(Wrap(s));
    var all := FoldIfLarge(Wrap(s)) + t;
    Wraps(all);
    FinishIsCanon(Wrap(all));
    TotalIs(s, t);
    FewWraps(Wrap(all), s / WRAP + all / WRAP);
  }

  lemma Wraps(x: nat)
    ensures x == WRAP * (x / WRAP) + Wrap(x) && Wrap(x) < WRAP && (x < WRAP <==> x / WRAP == 0)
  {
  }

  /** Modulo 0xFFFF the total is what is left after the wraps, plus one for each of them. */
  lemma TotalIs(s: nat, t: nat)
    ensures var all := FoldIfLarge(Wrap(s)) + t;
            Canon(s + t) == Canon(Wrap(all) + (s / WRAP + all / WRAP))
  {
    hide Canon, FoldIfLarge, FoldOnce, Wrap;
    var all := FoldIfLarge(Wrap(s)) + t;
    var q, q' := s / WRAP, all / WRAP;
    Wraps(s);
    Wraps(all);
    CanonFoldIfLarge(Wrap(s), q + t);
    CanonWrap(q, Wrap(s) + t);
    CanonWrap(q', Wrap(all) + q);
  }

  lemma FewWraps(r: nat, q: nat)
    requires q < 0xFFFF
    ensures Canon(r) == Canon(r + q) <==> q == 0
  {
    hide Canon;
    CanonMoves(r, q);
    CanonZero(r);
    CanonZero(r + q);
  }

  lemma FoldBound(v: nat)
    requires v < WRAP
    ensures FoldIfLarge(v) <= 0x1FFFE
  {
  }

  lemma CanonFoldIfLarge(h: nat, t: nat)
    ensures Canon(FoldIfLarge(h) + t) == Canon(h + t)
  {
    hide Canon;
    CanonOfFolded(h, t);
  }

  lemma CanonWrap(q: nat, x: nat)
    ensures Canon(WRAP * q + x) == Canon(q + x)
  {
    assert WRAP * q + x == 0xFFFF * (0x10001 * q) + (q + x);
    CanonShift(q + x, 0x10001 * q);
  }

  /** The word counts for which the hypothesis of `Checksum2IsConcatenated` always holds. */
  lemma Checksum2Fits(ws1: seq<word>, ws2: seq<word>)
    requires |ws1| <= 65537 && |ws2| <= 65535
    ensures Sum(ws1) < WRAP && FoldIfLarge(Sum(ws1)) + Sum(ws2) < WRAP
  {
    SumBound(ws1);
    SumBound(ws2);
  }
}
