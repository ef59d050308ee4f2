/** One's-complement checksums, updated incrementally in a packet (RFC 1071 section 1,
    RFC 1624 section 3). */
module Checksum {
  import opened MachineWords

  const W := 0x1_0000
  const M := 0xffff    // the modulus of one's-complement arithmetic on 16-bit words

  function Not16(x: U16): U16 {
    0xffff - x
  }

  function Not32(x: U32): U32 {
    0xffff_ffff - x
  }

  /** Equal as one's-complement numbers. */
  predicate Cong(a: int, b: int) {
    (a - b) % M == 0
  }

  lemma CongBy(a: int, b: int, k: int)
    requires a - b == k * M
    ensures Cong(a, b)
  {
  }

  lemma CongTrans(a: int, b: int, c: int)
    requires Cong(a, b) && Cong(b, c)
    ensures Cong(a, c)
  {
  }

  function FoldOnce(x: U32): (r: nat)
    ensures r < 2 * W
  {
    x % W + x / W
  }

  /** Two folds, then the complement, cut to 16 bits. */
  function Fold(csum: U32): U16 {
    var sum := FoldOnce(FoldOnce(csum));
    Not32(sum) % W
  }

  function CsumAdd(csum: U32, addend: U32): U32 {
    var res := (csum + addend) % 0x1_0000_0000;
    (res + if res < addend then 1 else 0) % 0x1_0000_0000
  }

  function Csum16Add(csum: U16, addend: U16): U16 {
    var res := (csum + addend) % W;
    (res + if res < addend then 1 else 0) % W
  }

  /** The checksum after adding a 32-bit difference to the sum it stands for. */
  function ReplaceByDiff(sum: U16, diff: U32): U16 {
    Fold(CsumAdd(diff, Not32(sum)))
  }

  function Replace2(sum: U16, from: U32, to: U32): U16 {
    Not16(Csum16Add(Csum16Add(Not16(sum), Not16(from % W)), to % W))
  }

  function Replace4(sum: U16, from: U32, to: U32): U16 {
    ReplaceByDiff(sum, CsumAdd(to, Not32(from)))
  }

  function CsumDiff(from: U32, to: U32, seed: U32): U32 {
    var sum := CsumAdd(to, Not32(from));
    var res := (sum + seed) % 0x1_0000_0000;
    (res + if seed > res then 1 else 0) % 0x1_0000_0000
  }

  // ----------------------------------------------------- what they compute

  /** Two folds always leave a 16-bit sum, which is zero only for zero. */
  lemma TwoFoldsSuffice(x: U32)
    ensures 0 <= FoldOnce(FoldOnce(x)) < W
    ensures FoldOnce(FoldOnce(x)) == 0 <==> x == 0
    ensures Cong(FoldOnce(FoldOnce(x)), x)
  {
  }

  lemma FoldNegates(x: U32)
    ensures Cong(Fold(x), 0 - x)
    ensures Fold(x) == 0xffff <==> x == 0
  {
    hide FoldOnce, Cong;
    var s := FoldOnce(FoldOnce(x));
    TwoFoldsSuffice(x);
    FoldComplements(x);
    Not16Negates(s);
    CongChain(Fold(x), s, x);
  }

  lemma FoldComplements(x: U32)
    requires 0 <= FoldOnce(FoldOnce(x)) < W
    ensures Fold(x) == Not16(FoldOnce(FoldOnce(x)))
  {
    hide FoldOnce;
  }

  lemma CongChain(r: int, s: int, x: int)
    requires Cong(r, 0 - s) && Cong(s, x)
    ensures Cong(r, 0 - x)
  {
  }

  /** Adding with end-around carry is addition modulo 65535; the sum is zero only if both
      terms are. */
  lemma CsumAddAdds(a: U32, b: U32)
    ensures Cong(CsumAdd(a, b), a + b)
    ensures CsumAdd(a, b) == 0 <==> a == 0 && b == 0
  {
  }

  lemma Csum16AddAdds(a: U16, b: U16)
    ensures Cong(Csum16Add(a, b), a + b)
    ensures Csum16Add(a, b) == 0 <==> a == 0 && b == 0
  {
  }

  lemma Not32Negates(x: U32)
    ensures Cong(Not32(x), 0 - x)
  {
  }

  lemma DiffReplaces(sum: U16, diff: U32)
    ensures Cong(ReplaceByDiff(sum, diff), sum - diff)
  {
    hide CsumAdd, Fold;
    hide Cong, Not32;
    var t := CsumAdd(diff, Not32(sum));
    CsumAddAdds(diff, Not32(sum));
    Not32Negates(sum);
    FoldNegates(t);
    DiffChain(Fold(t), t, Not32(sum), sum, diff);
  }

  lemma DiffChain(r: int, t: int, ns: int, sum: int, diff: int)
    requires Cong(r, 0 - t) && Cong(t, diff + ns) && Cong(ns, 0 - sum)
    ensures Cong(r, sum - diff)
  {
  }

  /** RFC 1624: the new checksum is the old one plus the old field minus the new field. */
  lemma Replace4Adjusts(sum: U16, from: U32, to: U32)
    ensures Cong(Replace4(sum, from, to), sum + from - to)
  {
    hide CsumAdd, ReplaceByDiff;
    var d := CsumAdd(to, Not32(from));
    CsumAddAdds(to, Not32(from));
    Not32Negates(from);
    CongTrans(d, to + Not32(from), to - from);
    DiffReplaces(sum, d);
    assert Cong(sum - d, sum + from - to);
    CongTrans(Replace4(sum, from, to), sum - d, sum + from - to);
  }

  lemma Not16Negates(x: U16)
    ensures Cong(Not16(x), 0 - x)
  {
  }

  lemma Replace2Adjusts(sum: U16, from: U32, to: U32)
    ensures Cong(Replace2(sum, from, to), sum + from % W - to % W)
  {
    hide Csum16Add, Not16, Cong;
    var f, t := from % W, to % W;
    var a := Csum16Add(Not16(sum), Not16(f));
    var b := Csum16Add(a, t);
    Not16Negates(sum);
    Not16Negates(f);
    Not16Negates(b);
    Csum16AddAdds(Not16(sum), Not16(f));
    Csum16AddAdds(a, t);
    Replace2Chain(Not16(b), b, a, Not16(sum), Not16(f), sum, f, t);
  }

  lemma Replace2Chain(r: int, b: int, a: int, ns: int, nf: int, sum: int, f: int, t: int)
    requires Cong(r, 0 - b) && Cong(b, a + t) && Cong(a, ns + nf) && Cong(ns, 0 - sum) && Cong(nf, 0 - f)
    ensures Cong(r, sum + f - t)
  {
  }

  /** The 2-byte and 4-byte paths agree on 16-bit fields. */
  lemma PathsAgree(sum: U16, from: U16, to: U16)
    ensures Cong(Replace2(sum, from, to), Replace4(sum, from, to))
  {
    hide Replace2, Replace4;
    Replace2Adjusts(sum, from, to);
    Replace4Adjusts(sum, from, to);
    CongTrans(Replace2(sum, from, to), sum + from - to, Replace4(sum, from, to));
  }

  lemma CsumDiffSubtracts(from: U32, to: U32, seed: U32)
    ensures Cong(CsumDiff(from, to, seed), to - from + seed)
  {
    var s := CsumAdd(to, Not32(from));
    assert CsumDiff(from, to, seed) == CsumAdd(s, seed);
    DiffSubtracts(s, from, to, seed);
  }

  lemma DiffSubtracts(s: U32, from: U32, to: U32, seed: U32)
    requires s == CsumAdd(to, Not32(from))
    ensures Cong(CsumAdd(s, seed), to - from + seed)
  {
    hide CsumAdd;
    CsumAddAdds(to, Not32(from));
    Not32Negates(from);
    CongTrans(s, to + Not32(from), to - from);
    CsumAddAdds(s, seed);
    assert Cong(s + seed, to - from + seed);
    CongTrans(CsumAdd(s, seed), s + seed, to - from + seed);
  }

  /** A difference computed beforehand has the same effect. */
  lemma DiffThenReplace(sum: U16, from: U32, to: U32)
    ensures Cong(ReplaceByDiff(sum, CsumDiff(from, to, 0)), Replace4(sum, from, to))
  {
    hide ReplaceByDiff, CsumDiff, Replace4;
    var d := CsumDiff(from, to, 0);
    CsumDiffSubtracts(from, to, 0);
    DiffReplaces(sum, d);
    Replace4Adjusts(sum, from, to);
    assert Cong(sum - d, sum + from - to);
    CongTrans(ReplaceByDiff(sum, d), sum - d, sum + from - to);
    CongTrans(ReplaceByDiff(sum, d), sum + from - to, Replace4(sum, from, to));
  }

  // ------------------------------------------------- checksums of words

  /** Checksummed data as 16-bit words, the checksum among them. */
  function Sum(ws: seq<U16>): nat {
    if ws == [] then 0 else ws[0] + Sum(ws[1..])
  }

  /** The receiver's test: the one's-complement sum of all words is 0xffff. */
  predicate ValidSum(ws: seq<U16>) {
    Sum(ws) % M == 0 && Sum(ws) != 0
  }

  lemma {:induction false} SumUpdate(ws: seq<U16>, i: nat, x: U16)
    requires i < |ws|
    ensures Sum(ws[i := x]) == Sum(ws) - ws[i] + x
  {
    if i == 0 {
      assert ws[0 := x][1..] == ws[1..];
    } else {
      assert ws[i := x][1..] == ws[1..][i - 1 := x];
      SumUpdate(ws[1..], i - 1, x);
    }
  }

  lemma {:induction false} ZeroSum(ws: seq<U16>)
    ensures Sum(ws) == 0 <==> forall i :: 0 <= i < |ws| ==> ws[i] == 0
  {
    if ws != [] {
      ZeroSum(ws[1..]);
      assert (forall i :: 0 <= i < |ws| ==> ws[i] == 0) ==> forall i :: 0 <= i < |ws[1..]| ==> ws[1..][i] == 0;
      assert forall i :: 1 <= i < |ws| ==> ws[i] == ws[1..][i - 1];
    }
  }

  /** Data whose 16-bit field f changes and whose checksum c is updated by the 2-byte path. */
  function Updated2(ws: seq<U16>, c: nat, f: nat, x: U16): seq<U16>
    requires c < |ws| && f < |ws|
  {
    ws[f := x][c := Replace2(ws[c], ws[f], x)]
  }

  /** The same for a 32-bit field in words f and f + 1, low half first. */
  function Updated4(ws: seq<U16>, c: nat, f: nat, x: U32): seq<U16>
    requires c < |ws| && f + 1 < |ws|
  {
    ws[f := x % W][f + 1 := x / W][c := Replace4(ws[c], ws[f] + W * ws[f+1], x)]
  }

  /** Updating the checksum with the field keeps valid data valid, unless nothing but zeros
      is left: then no bit says so. */
  lemma StaysValid2(ws: seq<U16>, c: nat, f: nat, x: U16)
    requires c < |ws| && f < |ws| && c != f && ValidSum(ws)
    ensures Sum(Updated2(ws, c, f, x)) % M == 0
    ensures ValidSum(Updated2(ws, c, f, x)) <==> exists i :: 0 <= i < |ws| && Updated2(ws, c, f, x)[i] != 0
  {
    hide Replace2, Cong;
    var c', e := Replace2(ws[c], ws[f], x), ws[c] + ws[f] - x;
    SumUpdate(ws, f, x);
    SumUpdate(ws[f := x], c, c');
    Replace2Adjusts(ws[c], ws[f], x);
    assert ws[f] % W == ws[f] && x % W == x && Cong(c', e);
    SumStays(Sum(ws), Sum(Updated2(ws, c, f, x)), e, c');
    ZeroSum(Updated2(ws, c, f, x));
  }

  lemma SumStays(s: int, s': int, expected: int, c': int)
    requires Cong(c', expected) && s' - s == c' - expected && s % M == 0
    ensures s' % M == 0
  {
  }

  lemma StaysValid4(ws: seq<U16>, c: nat, f: nat, x: U32)
    requires c < |ws| && f + 1 < |ws| && c != f && c != f + 1 && ValidSum(ws)
    ensures Sum(Updated4(ws, c, f, x)) % M == 0
    ensures ValidSum(Updated4(ws, c, f, x)) <==> exists i :: 0 <= i < |ws| && Updated4(ws, c, f, x)[i] != 0
  {
    hide Replace4;
    var old32 := ws[f] + W * ws[f+1];
    var c' := Replace4(ws[c], old32, x);
    var ws1, ws2 := ws[f := x % W], ws[f := x % W][f + 1 := x / W];
    SumUpdate(ws, f, x % W);
    SumUpdate(ws1, f + 1, x / W);
    SumUpdate(ws2, c, c');
    Replace4Adjusts(ws[c], old32, x);
    var e, e' := ws[c] + old32 - x, ws[c] + ws[f] + ws[f+1] - x % W - x / W;
    CongBy(e, e', ws[f+1] - x / W);
    CongTrans(c', e, e');
    SumStays(Sum(ws), Sum(Updated4(ws, c, f, x)), e', c');
    ZeroSum(Updated4(ws, c, f, x));
  }

  // ------------------------------------------------------- byte order

  function Swap(x: U16): U16 {
    x % 0x100 * 0x100 + x / 0x100
  }

  lemma SwapIsTimes256(x: U16)
    ensures Cong(Swap(x), 256 * x) && (Swap(x) == 0 <==> x == 0)
  {
  }

  /** Adding checksums commutes with exchanging the bytes of every word. */
  lemma ByteOrderDoesNotMatter(a: U16, b: U16)
    ensures Csum16Add(Swap(a), Swap(b)) == Swap(Csum16Add(a, b))
  {
    hide Csum16Add, Swap, Cong;
    var r, s := Csum16Add(a, b), Csum16Add(Swap(a), Swap(b));
    Csum16AddAdds(a, b);
    Csum16AddAdds(Swap(a), Swap(b));
    SwapIsTimes256(a);
    SwapIsTimes256(b);
    SwapIsTimes256(r);
    SwapChain(s, Swap(a), Swap(b), a, b, r, Swap(r));
    SameClass(s, Swap(r));
  }

  lemma SwapChain(s: int, sa: int, sb: int, a: int, b: int, r: int, sr: int)
    requires Cong(s, sa + sb) && Cong(sa, 256 * a) && Cong(sb, 256 * b) && Cong(r, a + b) && Cong(sr, 256 * r)
    ensures Cong(s, sr)
  {
    CongBy(s, sr, (s - sa - sb) / M + (sa - 256 * a) / M + (sb - 256 * b) / M
                  - 256 * ((r - a - b) / M) - (sr - 256 * r) / M);
  }

  lemma SameClass(a: U16, b: U16)
    requires Cong(a, b) && (a == 0 <==> b == 0)
    ensures a == b
  {
  }

  // ------------------------------------------------------ in the packet

  const EINVAL := -22
  const EFAULT := -14

  /** The 16-bit word at an offset, as the host reads it (low byte first). */
  function WordAt(bytes: seq<U8>, i: nat): U16
    requires i + 1 < |bytes|
  {
    (bytes[i] as int) + 0x100 * (bytes[i+1] as int)
  }

  function WriteWord(bytes: seq<U8>, i: nat, x: U16): (r: seq<U8>)
    requires i + 1 < |bytes|
    ensures |r| == |bytes|
  {
    bytes[i := x % 0x100][i + 1 := x / 0x100]
  }

  function Replaced(sum: U16, from: U32, to: U32, size: nat): U16 {
    if size == 0 then ReplaceByDiff(sum, to) else if size == 2 then Replace2(sum, from, to) else Replace4(sum, from, to)
  }

  /** Error code of a request, or 0. */
  function Check(length: nat, offset: U32, flags: U32, known: nat): int
    requires known > 0
  {
    if flags / known != 0 then EINVAL
    else if offset > 0xffff || offset % 2 == 1 then EFAULT
    else if offset + 2 > length then EINVAL
    else if flags % 16 !in {0, 2, 4} then EINVAL
    else 0
  }

  /** The checksum of an IP header: `flags` holds the size of the field, 0 for a difference. */
  method L3CsumReplace(pkt: array<U8>, offset: U32, from: U32, to: U32, flags: U32) returns (rc: int)
    modifies pkt
    ensures rc == Check(pkt.Length, offset, flags, 16)
    ensures rc != 0 ==> pkt[..] == old(pkt[..])
    ensures rc == 0 ==> offset + 1 < pkt.Length
    ensures rc == 0 ==>
              pkt[..] == WriteWord(old(pkt[..]), offset, Replaced(WordAt(old(pkt[..]), offset), from, to, flags))
  {
    if flags / 16 != 0 { return EINVAL; }
    if offset > 0xffff || offset % 2 == 1 { return EFAULT; }
    if offset + 2 > pkt.Length { return EINVAL; }
    var sum: U16 := (pkt[offset] as int) + 0x100 * (pkt[offset+1] as int);
    var size := flags % 16;
    if size == 0 {
      sum := ReplaceByDiff(sum, to);
    } else if size == 2 {
      sum := Not16(Csum16Add(Csum16Add(Not16(sum), Not16(from % W)), to % W));
    } else if size == 4 {
      sum := ReplaceByDiff(sum, CsumAdd(to, Not32(from)));
    } else {
      return EINVAL;
    }
    pkt[offset], pkt[offset+1] := sum % 0x100, sum / 0x100;
    rc := 0;
  }

  /** What the transport checksum becomes: a zero that means "no checksum" stays, unless
      the update is enforced, and none is ever turned into zero when zeros are mangled. */
  function ReplacedL4(sum: U16, from: U32, to: U32, flags: U32): U16 {
    var mangle, force := flags / 32 % 2 == 1, flags / 64 % 2 == 1;
    if mangle && !force && sum == 0 then 0
    else
      var r := Replaced(sum, from, to, flags % 16);
      if mangle && r == 0 then 0xffff else r
  }

  /** A packet without checksum is left alone, before the size of the field is looked at. */
  predicate ReturnsEarly(bytes: seq<U8>, offset: U32, flags: U32) {
    && Check(|bytes|, offset, flags - flags % 16, 128) == 0
    && flags / 32 % 2 == 1 && flags / 64 % 2 == 0 && WordAt(bytes, offset) == 0
  }

  method L4CsumReplace(pkt: array<U8>, offset: U32, from: U32, to: U32, flags: U32) returns (rc: int)
    modifies pkt
    ensures rc == if ReturnsEarly(old(pkt[..]), offset, flags) then 0 else Check(pkt.Length, offset, flags, 128)
    ensures rc != 0 ==> pkt[..] == old(pkt[..])
    ensures rc == 0 ==> offset + 1 < pkt.Length
    ensures rc == 0 ==>
              pkt[..] == WriteWord(old(pkt[..]), offset, ReplacedL4(WordAt(old(pkt[..]), offset), from, to, flags))
  {
    if flags / 128 != 0 { return EINVAL; }
    var mangle, force := flags / 32 % 2 == 1, flags / 64 % 2 == 1;
    if offset > 0xffff || offset % 2 == 1 { return EFAULT; }
    if offset + 2 > pkt.Length { return EINVAL; }
    var sum: U16 := (pkt[offset] as int) + 0x100 * (pkt[offset+1] as int);
    if mangle && !force && sum == 0 {
      assert pkt[..] == WriteWord(pkt[..], offset, 0);
      return 0;
    }
    var size := flags % 16;
    if size == 0 {
      sum := ReplaceByDiff(sum, to);
    } else if size == 2 {
      sum := Not16(Csum16Add(Csum16Add(Not16(sum), Not16(from % W)), to % W));
    } else if size == 4 {
      sum := ReplaceByDiff(sum, CsumAdd(to, Not32(from)));
    } else {
      return EINVAL;
    }
    if mangle && sum == 0 {
      sum := 0xffff;
    }
    pkt[offset], pkt[offset+1] := sum % 0x100, sum / 0x100;
    rc := 0;
  }

  /** Mangling changes nothing modulo 65535 and never lets a checksum become zero; the
      checksum is adjusted by the change of the field. */
  lemma MangledZero(sum: U16, from: U32, to: U32, flags: U32)
    requires flags % 16 in {0, 2, 4} && (flags % 16 == 2 ==> from < W && to < W)
    ensures var r, change := ReplacedL4(sum, from, to, flags), if flags % 16 == 0 then to else to - from;
            && (flags / 32 % 2 == 1 ==> (r == 0 <==> sum == 0 && flags / 64 % 2 == 0))
            && (flags / 32 % 2 == 0 || flags / 64 % 2 == 1 || sum != 0 ==> Cong(r, sum - change))
            && (flags / 32 % 2 == 0 ==> r == Replaced(sum, from, to, flags % 16))
  {
    hide Replace2, Replace4, ReplaceByDiff;
    Replace4Adjusts(sum, from, to);
    Replace2Adjusts(sum, from, to);
    DiffReplaces(sum, to);
    if Replaced(sum, from, to, flags % 16) == 0 {
      CongBy(0xffff, 0, 1);
      CongTrans(0xffff, 0, sum - if flags % 16 == 0 then to else to - from);
    }
  }

  /** The error codes: what each of them means, and when there is none. */
  lemma CheckCodes(length: nat, offset: U32, flags: U32, known: nat)
    requires known in {16, 128}
    ensures var rc := Check(length, offset, flags, known);
            && rc in {0, EINVAL, EFAULT}
            && (rc == EFAULT <==> flags < known && (offset > 0xffff || offset % 2 == 1))
            && (rc == 0 <==> flags < known && flags % 16 in {0, 2, 4}
                             && offset <= 0xffff && offset % 2 == 0 && offset + 2 <= length)
  {
    if known == 16 {
      assert flags / 16 == 0 <==> flags < 16;
    } else {
      assert flags / 128 == 0 <==> flags < 128;
    }
  }

  /** Data that changed anywhere but in the checksum: replacing the checksum by the
      difference keeps them valid, unless only zeros are left. */
  lemma DiffStaysValid(ws: seq<U16>, ws': seq<U16>, c: nat, from: U32, diff: U32)
    requires c < |ws| == |ws'| && ws'[c] == ws[c] && ValidSum(ws) && Cong(diff, Sum(ws') - Sum(ws))
    ensures var r := ws'[c := Replaced(ws[c], from, diff, 0)];
            ValidSum(r) <==> exists i :: 0 <= i < |r| && r[i] != 0
  {
    hide ReplaceByDiff, Cong;
    var sum := Replaced(ws[c], from, diff, 0);
    SumUpdate(ws', c, sum);
    DiffReplaces(ws[c], diff);
    DiffSums(Sum(ws), Sum(ws'), ws[c], sum, diff);
    ZeroSum(ws'[c := sum]);
  }

  lemma DiffSums(s: int, s': int, old': int, sum: int, diff: int)
    requires Cong(sum, old' - diff) && Cong(diff, s' - s) && s % M == 0
    ensures (s' - old' + sum) % M == 0
  {
  }

  /** The same with mangled zeros, without that exception. */
  lemma MangledDiffStaysValid(ws: seq<U16>, ws': seq<U16>, c: nat, from: U32, diff: U32, flags: U32)
    requires c < |ws| == |ws'| && ws'[c] == ws[c] && ValidSum(ws) && Cong(diff, Sum(ws') - Sum(ws))
    requires flags % 16 == 0 && flags / 32 % 2 == 1 && (ws[c] != 0 || flags / 64 % 2 == 1)
    ensures ValidSum(ws'[c := ReplacedL4(ws[c], from, diff, flags)])
  {
    hide ReplacedL4, Cong;
    var sum := ReplacedL4(ws[c], from, diff, flags);
    SumUpdate(ws', c, sum);
    MangledZero(ws[c], from, diff, flags);
    DiffSums(Sum(ws), Sum(ws'), ws[c], sum, diff);
    ZeroSum(ws'[c := sum]);
    assert ws'[c := sum][c] != 0;
  }

  /** With mangled zeros, valid data with a checksum, or whose update is enforced, stay valid
      without any other condition: 16-bit fields and 32-bit fields. */
  lemma MangledStaysValid2(ws: seq<U16>, c: nat, f: nat, x: U16, flags: U32)
    requires c < |ws| && f < |ws| && c != f && ValidSum(ws)
    requires flags % 16 == 2 && flags / 32 % 2 == 1 && (ws[c] != 0 || flags / 64 % 2 == 1)
    ensures ValidSum(ws[f := x][c := ReplacedL4(ws[c], ws[f], x, flags)])
  {
    hide ReplacedL4;
    var c' := ReplacedL4(ws[c], ws[f], x, flags);
    var ws' := ws[f := x][c := c'];
    SumUpdate(ws, f, x);
    SumUpdate(ws[f := x], c, c');
    MangledZero(ws[c], ws[f], x, flags);
    SumStays(Sum(ws), Sum(ws'), ws[c] + ws[f] - x, c');
    ZeroSum(ws');
    assert ws'[c] != 0;
  }

  lemma MangledStaysValid4(ws: seq<U16>, c: nat, f: nat, x: U32, flags: U32)
    requires c < |ws| && f + 1 < |ws| && c != f && c != f + 1 && ValidSum(ws)
    requires flags % 16 == 4 && flags / 32 % 2 == 1 && (ws[c] != 0 || flags / 64 % 2 == 1)
    ensures ValidSum(ws[f := x % W][f + 1 := x / W][c := ReplacedL4(ws[c], ws[f] + W * ws[f+1], x, flags)])
  {
    hide ReplacedL4;
    var old32 := ws[f] + W * ws[f+1];
    var c' := ReplacedL4(ws[c], old32, x, flags);
    var ws1, ws2 := ws[f := x % W], ws[f := x % W][f + 1 := x / W];
    var ws' := ws2[c := c'];
    SumUpdate(ws, f, x % W);
    SumUpdate(ws1, f + 1, x / W);
    SumUpdate(ws2, c, c');
    MangledZero(ws[c], old32, x, flags);
    var e, e' := ws[c] + old32 - x, ws[c] + ws[f] + ws[f+1] - x % W - x / W;
    CongBy(e, e', ws[f+1] - x / W);
    CongTrans(c', e, e');
    SumStays(Sum(ws), Sum(ws'), e', c');
    ZeroSum(ws');
    assert ws'[c] != 0;
  }

  // ------------------------------------------- from bytes to words

  /** Bytes as 16-bit words; an odd last byte counts as if a zero followed. */
  function Words(bytes: seq<U8>): seq<U16> {
    if bytes == [] then []
    else if |bytes| == 1 then [bytes[0]]
    else [WordAt(bytes, 0)] + Words(bytes[2..])
  }

  lemma {:induction false} WordsAt(bytes: seq<U8>, i: nat)
    requires 2 * i + 1 < |bytes|
    ensures |Words(bytes)| == (|bytes| + 1) / 2 && Words(bytes)[i] == WordAt(bytes, 2 * i)
  {
    WordsLength(bytes);
    if i > 0 { WordsAt(bytes[2..], i - 1); }
  }

  lemma {:induction false} WordsLength(bytes: seq<U8>)
    ensures |Words(bytes)| == (|bytes| + 1) / 2
  {
    if |bytes| > 1 { WordsLength(bytes[2..]); }
  }

  /** Writing one word of the bytes changes that word only. */
  lemma {:induction false} WordWritten(bytes: seq<U8>, i: nat, x: U16)
    requires 2 * i + 1 < |bytes|
    ensures |Words(bytes)| == (|bytes| + 1) / 2 && Words(WriteWord(bytes, 2 * i, x)) == Words(bytes)[i := x]
  {
    WordsLength(bytes);
    var written := WriteWord(bytes, 2 * i, x);
    if i == 0 {
      assert written[2..] == bytes[2..];
    } else {
      assert written[2..] == WriteWord(bytes[2..], 2 * (i - 1), x);
      assert WordAt(written, 0) == WordAt(bytes, 0);
      WordWritten(bytes[2..], i - 1, x);
    }
  }

  /** The part of a packet between two offsets, with a word written at an even distance from
      its start. */
  lemma PartWritten(pkt: seq<U8>, a: nat, b: nat, offset: nat, x: U16)
    requires a <= offset && offset + 2 <= b <= |pkt| && (offset - a) % 2 == 0
    ensures var ws, i := Words(pkt[a..b]), (offset - a) / 2;
            && i < |ws| && ws[i] == WordAt(pkt, offset)
            && Words(WriteWord(pkt, offset, x)[a..b]) == ws[i := x]
  {
    var i := (offset - a) / 2;
    assert offset == a + 2 * i;
    assert WriteWord(pkt, offset, x)[a..b] == WriteWord(pkt[a..b], 2 * i, x);
    WordsAt(pkt[a..b], i);
    WordWritten(pkt[a..b], i, x);
  }

  /** The packet after a 32-bit field was written, low half first. */
  function WriteLong(bytes: seq<U8>, i: nat, x: U32): (r: seq<U8>)
    requires i + 3 < |bytes|
    ensures |r| == |bytes|
  {
    WriteWord(WriteWord(bytes, i, x % W), i + 2, x / W)
  }

  function LongAt(bytes: seq<U8>, i: nat): U32
    requires i + 3 < |bytes|
  {
    WordAt(bytes, i) + W * WordAt(bytes, i + 2)
  }

  lemma FieldAndSum2(pkt: seq<U8>, a: nat, b: nat, offset: nat, field: nat, x: U16, sum: U16)
    requires a <= offset && offset + 2 <= b <= |pkt| && (offset - a) % 2 == 0
    requires a <= field && field + 2 <= b && (field - a) % 2 == 0 && field != offset
    ensures WordAt(WriteWord(pkt, field, x), offset) == WordAt(pkt, offset)
    ensures var ws, c, f := Words(pkt[a..b]), (offset - a) / 2, (field - a) / 2;
            && c < |ws| && f < |ws| && c != f && ws[c] == WordAt(pkt, offset) && ws[f] == WordAt(pkt, field)
            && Words(WriteWord(WriteWord(pkt, field, x), offset, sum)[a..b]) == ws[f := x][c := sum]
  {
    hide Words, WordAt, WriteWord;
    PartWritten(pkt, a, b, offset, sum);
    PartWritten(pkt, a, b, field, x);
    PartWritten(WriteWord(pkt, field, x), a, b, offset, sum);
    assert (offset - a) / 2 != (field - a) / 2;
  }

  lemma FieldAndSum4(pkt: seq<U8>, a: nat, b: nat, offset: nat, field: nat, x: U32, sum: U16)
    requires a <= offset && offset + 2 <= b <= |pkt| && (offset - a) % 2 == 0
    requires a <= field && field + 4 <= b && (field - a) % 2 == 0 && field != offset && field + 2 != offset
    ensures WordAt(WriteLong(pkt, field, x), offset) == WordAt(pkt, offset)
    ensures var ws, c, f := Words(pkt[a..b]), (offset - a) / 2, (field - a) / 2;
            && c < |ws| && f + 1 < |ws| && c != f && c != f + 1
            && ws[c] == WordAt(pkt, offset) && ws[f] + W * ws[f+1] == LongAt(pkt, field)
            && Words(WriteWord(WriteLong(pkt, field, x), offset, sum)[a..b])
               == ws[f := x % W][f + 1 := x / W][c := sum]
  {
    hide Words, WordAt, WriteWord;
    var pkt1 := WriteWord(pkt, field, x % W);
    PartWritten(pkt, a, b, offset, sum);
    PartWritten(pkt, a, b, field, x % W);
    PartWritten(pkt, a, b, field + 2, 0);
    PartWritten(pkt1, a, b, field + 2, x / W);
    PartWritten(WriteWord(pkt1, field + 2, x / W), a, b, offset, sum);
    assert (field + 2 - a) / 2 == (field - a) / 2 + 1;
    assert (offset - a) / 2 != (field - a) / 2 && (offset - a) / 2 != (field + 2 - a) / 2;
  }

  /** A packet whose bytes between a and b are valid: when a field there is written and the
      checksum is replaced, as L3CsumReplace leaves it, they stay valid unless only zeros are
      left. */
  lemma PacketStaysValid2(pkt: seq<U8>, a: nat, b: nat, offset: nat, field: nat, x: U16)
    requires a <= offset && offset + 2 <= b <= |pkt| && (offset - a) % 2 == 0
    requires a <= field && field + 2 <= b && (field - a) % 2 == 0 && field != offset && ValidSum(Words(pkt[a..b]))
    ensures var stored := WriteWord(pkt, field, x);
            var pkt' := WriteWord(stored, offset, Replaced(WordAt(stored, offset), WordAt(pkt, field), x, 2));
            ValidSum(Words(pkt'[a..b])) <==> exists i :: 0 <= i < |Words(pkt'[a..b])| && Words(pkt'[a..b])[i] != 0
  {
    hide Words, WordAt, WriteWord, ValidSum, Replace2;
    var stored, sum := WriteWord(pkt, field, x), Replaced(WordAt(pkt, offset), WordAt(pkt, field), x, 2);
    FieldAndSum2(pkt, a, b, offset, field, x, sum);
    StaysValid2(Words(pkt[a..b]), (offset - a) / 2, (field - a) / 2, x);
  }

  lemma PacketStaysValid4(pkt: seq<U8>, a: nat, b: nat, offset: nat, field: nat, x: U32)
    requires a <= offset && offset + 2 <= b <= |pkt| && (offset - a) % 2 == 0
    requires a <= field && field + 4 <= b && (field - a) % 2 == 0 && field != offset && field + 2 != offset
    requires ValidSum(Words(pkt[a..b]))
    ensures var stored := WriteLong(pkt, field, x);
            var pkt' := WriteWord(stored, offset, Replaced(WordAt(stored, offset), LongAt(pkt, field), x, 4));
            ValidSum(Words(pkt'[a..b])) <==> exists i :: 0 <= i < |Words(pkt'[a..b])| && Words(pkt'[a..b])[i] != 0
  {
    hide Words, WordAt, WriteWord, WriteLong, LongAt, ValidSum, Replace4;
    var stored, sum := WriteLong(pkt, field, x), Replaced(WordAt(pkt, offset), LongAt(pkt, field), x, 4);
    FieldAndSum4(pkt, a, b, offset, field, x, sum);
    StaysValid4(Words(pkt[a..b]), (offset - a) / 2, (field - a) / 2, x);
  }

  /** The transport checksum with mangled zeros, as L4CsumReplace leaves it: they always stay
      valid. */
  lemma MangledPacketStaysValid2(pkt: seq<U8>, a: nat, b: nat, offset: nat, field: nat, x: U16, flags: U32)
    requires a <= offset && offset + 2 <= b <= |pkt| && (offset - a) % 2 == 0
    requires a <= field && field + 2 <= b && (field - a) % 2 == 0 && field != offset && ValidSum(Words(pkt[a..b]))
    requires flags % 16 == 2 && flags / 32 % 2 == 1 && (WordAt(pkt, offset) != 0 || flags / 64 % 2 == 1)
    ensures var stored := WriteWord(pkt, field, x);
            var pkt' := WriteWord(stored, offset, ReplacedL4(WordAt(stored, offset), WordAt(pkt, field), x, flags));
            ValidSum(Words(pkt'[a..b]))
  {
    hide Words, WordAt, WriteWord, ValidSum, ReplacedL4;
    var stored, sum := WriteWord(pkt, field, x), ReplacedL4(WordAt(pkt, offset), WordAt(pkt, field), x, flags);
    FieldAndSum2(pkt, a, b, offset, field, x, sum);
    MangledStaysValid2(Words(pkt[a..b]), (offset - a) / 2, (field - a) / 2, x, flags);
  }

  lemma MangledPacketStaysValid4(pkt: seq<U8>, a: nat, b: nat, offset: nat, field: nat, x: U32, flags: U32)
    requires a <= offset && offset + 2 <= b <= |pkt| && (offset - a) % 2 == 0
    requires a <= field && field + 4 <= b && (field - a) % 2 == 0 && field != offset && field + 2 != offset
    requires ValidSum(Words(pkt[a..b]))
    requires flags % 16 == 4 && flags / 32 % 2 == 1 && (WordAt(pkt, offset) != 0 || flags / 64 % 2 == 1)
    ensures var stored := WriteLong(pkt, field, x);
            var pkt' := WriteWord(stored, offset, ReplacedL4(WordAt(stored, offset), LongAt(pkt, field), x, flags));
            ValidSum(Words(pkt'[a..b]))
  {
    hide Words, WordAt, WriteWord, WriteLong, LongAt, ValidSum, ReplacedL4;
    var stored, sum := WriteLong(pkt, field, x), ReplacedL4(WordAt(pkt, offset), LongAt(pkt, field), x, flags);
    FieldAndSum4(pkt, a, b, offset, field, x, sum);
    MangledStaysValid4(Words(pkt[a..b]), (offset - a) / 2, (field - a) / 2, x, flags);
  }

  /** What a 32-bit field adds to the sum of the words, modulo 65535. */
  lemma FieldChange(ws: seq<U16>, f: nat, x: U32)
    requires f + 1 < |ws|
    ensures Cong(CsumDiff(ws[f] + W * ws[f+1], x, 0), Sum(ws[f := x % W][f + 1 := x / W]) - Sum(ws))
  {
    hide CsumDiff;
    var old32 := ws[f] + W * ws[f+1];
    SumUpdate(ws, f, x % W);
    SumUpdate(ws[f := x % W], f + 1, x / W);
    CsumDiffSubtracts(old32, x, 0);
    CongBy(x - old32 + 0, x % W + x / W - ws[f] - ws[f+1], x / W - ws[f+1]);
    CongTrans(CsumDiff(old32, x, 0), x - old32 + 0, x % W + x / W - ws[f] - ws[f+1]);
  }

  /** A packet whose checksum is replaced by a difference that was computed beforehand. */
  lemma PacketStaysValidByDiff(pkt: seq<U8>, a: nat, b: nat, offset: nat, field: nat, x: U32)
    requires a <= offset && offset + 2 <= b <= |pkt| && (offset - a) % 2 == 0
    requires a <= field && field + 4 <= b && (field - a) % 2 == 0 && field != offset && field + 2 != offset
    requires ValidSum(Words(pkt[a..b]))
    ensures var stored, diff := WriteLong(pkt, field, x), CsumDiff(LongAt(pkt, field), x, 0);
            var pkt' := WriteWord(stored, offset, Replaced(WordAt(stored, offset), 0, diff, 0));
            ValidSum(Words(pkt'[a..b])) <==> exists i :: 0 <= i < |Words(pkt'[a..b])| && Words(pkt'[a..b])[i] != 0
  {
    hide Words, WordAt, WriteWord, WriteLong, LongAt, ValidSum, Replaced, CsumDiff, Cong;
    var diff, ws, c, f := CsumDiff(LongAt(pkt, field), x, 0), Words(pkt[a..b]), (offset - a) / 2, (field - a) / 2;
    FieldAndSum4(pkt, a, b, offset, field, x, Replaced(WordAt(pkt, offset), 0, diff, 0));
    FieldChange(ws, f, x);
    DiffStaysValid(ws, ws[f := x % W][f + 1 := x / W], c, 0, diff);
  }

  /** A transport checksum with mangled zeros: always. */
  lemma MangledPacketStaysValidByDiff(pkt: seq<U8>, a: nat, b: nat, offset: nat, field: nat, x: U32, flags: U32)
    requires a <= offset && offset + 2 <= b <= |pkt| && (offset - a) % 2 == 0
    requires a <= field && field + 4 <= b && (field - a) % 2 == 0 && field != offset && field + 2 != offset
    requires ValidSum(Words(pkt[a..b]))
    requires flags % 16 == 0 && flags / 32 % 2 == 1 && (WordAt(pkt, offset) != 0 || flags / 64 % 2 == 1)
    ensures var stored, diff := WriteLong(pkt, field, x), CsumDiff(LongAt(pkt, field), x, 0);
            var pkt' := WriteWord(stored, offset, ReplacedL4(WordAt(stored, offset), 0, diff, flags));
            ValidSum(Words(pkt'[a..b]))
  {
    hide Words, WordAt, WriteWord, WriteLong, LongAt, ValidSum, ReplacedL4, CsumDiff, Cong;
    var diff, ws, c, f := CsumDiff(LongAt(pkt, field), x, 0), Words(pkt[a..b]), (offset - a) / 2, (field - a) / 2;
    FieldAndSum4(pkt, a, b, offset, field, x, ReplacedL4(WordAt(pkt, offset), 0, diff, flags));
    FieldChange(ws, f, x);
    MangledDiffStaysValid(ws, ws[f := x % W][f + 1 := x / W], c, 0, diff, flags);
  }

  // ------------------------------------------------ the whole IP header

  /** Recomputes the checksum over all words of a header, folding only once. */
  method UpdateCsum(header: array<U16>, check: nat)
    requires header.Length == 10 && check < 10
    modifies header
    ensures header[..] == old(header[..])[check := OnceFolded(Sum(old(header[..])))]
  {
    var csum: nat := 0;
    for i := 0 to 10
      invariant csum + Sum(header[i..]) == Sum(header[..]) && csum <= i * 0xffff
      invariant header[..] == old(header[..])
    {
      assert header[i..][1..] == header[i+1..];
      csum := csum + header[i];
    }
    header[check] := Not16((csum % W + csum / W) % W);
  }

  function OnceFolded(sum: nat): U16 {
    Not16((sum % W + sum / W) % W)
  }

  lemma {:induction false} SumBound(ws: seq<U16>)
    ensures Sum(ws) <= |ws| * 0xffff
  {
    if ws != [] { SumBound(ws[1..]); }
  }

  /** With the checksum field cleared beforehand, one fold is enough exactly when it leaves
      no second carry. */
  lemma OneFoldIsEnough(header: seq<U16>, check: nat)
    requires |header| == 10 && check < 10 && header[check] == 0
    ensures var s := Sum(header); var header' := header[check := OnceFolded(s)];
            Sum(header') % M == 0 <==> s % W + s / W < W
  {
    var s := Sum(header);
    SumUpdate(header, check, OnceFolded(s));
    SumBound(header);
    var x := s % W + s / W;
    CongBy(s, x, s / W);
    if x < W {
      CongBy(s + OnceFolded(s), 0, s / W + 1);
    } else {
      assert s + OnceFolded(s) == (s / W + 2) * M + 1;
    }
  }

  lemma SumCons(x: U16, ws: seq<U16>)
    ensures Sum([x] + ws) == x + Sum(ws)
  {
  }

  /** A header of version 4 and five words, with a length of 0xffff and an identification and
      fragment word so that its sum carries twice: the result of one fold is wrong. */
  lemma SecondCarryExists()
    ensures var h: seq<U16> := [0x0045, 0xffff, 0xffba, 1, 0, 0, 0, 0, 0, 0];
            h[5] == 0 && Sum(h[5 := OnceFolded(Sum(h))]) % M != 0
  {
    hide Sum;
    var tail: seq<U16> := [0, 0, 0, 0, 0, 0];
    ZeroSum(tail);
    SumCons(1, tail);
    SumCons(0xffba, [1] + tail);
    SumCons(0xffff, [0xffba] + ([1] + tail));
    SumCons(0x0045, [0xffff] + ([0xffba] + ([1] + tail)));
    var h: seq<U16> := [0x0045, 0xffff, 0xffba, 1, 0, 0, 0, 0, 0, 0];
    assert h == [0x0045] + ([0xffff] + ([0xffba] + ([1] + tail)));
    OneFoldIsEnough(h, 5);
  }
}
