/**
  The three UTF-8 routines of the repository: the loop encoder `appendunicode`, the branch-tree
  encoder `our_wctomb` and the decoder `from_utf8`, against the 1 to 6 octet forms of section 2
  of RFC 2279.

  Bit operations on unsigned values are written arithmetically: a shift right by 6 is `/ 64`,
  masking with a low mask m = 2^k - 1 is `% (m + 1)`, and `x & ~m` is nonzero exactly when x > m.
 */
module Utf8 {
  import opened Bytes

  // ---------------------------------------------------------------- RFC 2279, section 2

  // c without its low 6*k bits.
  function Shift(c: nat, k: nat): (h: nat) {
    if k == 0 then c else Drop6(Shift(c, k - 1))
  }

  function Drop6(c: nat): nat {
    c / 64
  }

  // Code points below Limit(n) fit into n octets.
  function Limit(n: nat): nat
    requires 1 <= n <= 6
  {
    match n
    case 1 => 0x80
    case 2 => 0x800
    case 3 => 0x1_0000
    case 4 => 0x20_0000
    case 5 => 0x400_0000
    case 6 => 0x8000_0000
  }

  // The high bits that announce a form of n octets.
  function Mark(n: nat): Byte
    requires 1 <= n <= 6
  {
    match n
    case 1 => 0x00
    case 2 => 0xC0
    case 3 => 0xE0
    case 4 => 0xF0
    case 5 => 0xF8
    case 6 => 0xFC
  }

  function Continuation(c: nat): Byte {
    0x80 + c % 64
  }

  // Values the lead octet of an n-octet form leaves for payload.
  function LeadRoom(n: nat): nat
    requires 1 <= n <= 6
  {
    match n
    case 1 => 0x80
    case 2 => 0x20
    case 3 => 0x10
    case 4 => 8
    case 5 => 4
    case 6 => 2
  }

  // The low 6*k bits of c, six per continuation octet.
  function Tail(c: nat, k: nat): (t: seq<Byte>)
    ensures |t| == k
  {
    if k == 0 then [] else [Continuation(Shift(c, k - 1))] + Tail(c, k - 1)
  }

  // The n-octet form of c, shortest or not.
  function Form(c: nat, n: nat): (f: seq<Byte>)
    requires 1 <= n <= 6 && c < Limit(n)
    ensures |f| == n
  {
    LeadFits(c, n);
    [Mark(n) + Shift(c, n - 1)] + Tail(c, n - 1)
  }

  function EncodedLength(c: nat): (n: nat)
    requires c < 0x8000_0000
    ensures 1 <= n <= 6 && c < Limit(n) && (n > 1 ==> Limit(n - 1) <= c)
  {
    if c < 0x80 then 1
    else if c < 0x800 then 2
    else if c < 0x1_0000 then 3
    else if c < 0x20_0000 then 4
    else if c < 0x400_0000 then 5
    else 6
  }

  function Encode(c: nat): (f: seq<Byte>)
    requires c < 0x8000_0000
    ensures 1 <= |f| <= 6
  {
    Form(c, EncodedLength(c))
  }

  lemma ShiftValues(c: nat)
    ensures Shift(c, 0) == c && Shift(c, 1) == c / 0x40 && Shift(c, 2) == c / 0x1000
    ensures Shift(c, 3) == c / 0x4_0000 && Shift(c, 4) == c / 0x100_0000 && Shift(c, 5) == c / 0x4000_0000
  {
    assert Shift(c, 1) == Shift(c, 0) / 64;
    assert Shift(c, 2) == Shift(c, 1) / 64;
    assert Shift(c, 3) == Shift(c, 2) / 64;
    assert Shift(c, 4) == Shift(c, 3) / 64;
    assert Shift(c, 5) == Shift(c, 4) / 64;
  }

  // Room for the payload below the mark; 0xFE and 0xFF are never reached.
  lemma LeadFits(c: nat, n: nat)
    requires 1 <= n <= 6 && c < Limit(n)
    ensures Shift(c, n - 1) < LeadRoom(n)
  {
    ShiftValues(c);
  }

  // ---------------------------------------------------------------- encoders

  // The loop of appendunicode (psffontop.c:407-413): `out` is filled from the back and `n` never
  // goes below zero.
  method FillMultibyte(u: nat, out: array<Byte>) returns (n: nat)
    requires 0x80 <= u < 0x8000_0000 && out.Length == 6
    modifies out
    ensures n <= 4 && out[n..] == Encode(u)
  {
    n := 6;
    var uc, mask := u, 0x3f;
    FilledStart(u);
    while uc > mask
      invariant 1 <= n <= 6 && Filled(u, uc, mask, out[n..])
      decreases n
    {
      FilledStep(u, uc, mask, out[n..]);
      ghost var done := out[n..];
      n := n - 1;
      out[n] := Continuation(uc);
      assert out[n..] == [out[n]] + done;
      uc := Drop6(uc);
      mask := mask / 2;
    }
    FilledStop(u, uc, mask, out[n..]);
    ghost var done := out[n..];
    n := n - 1;
    out[n] := LeadOctet(uc, mask);
    assert out[n..] == [out[n]] + done;
  }

  // After |done| rounds: `done` holds the low bits, uc the rest, mask what fits beside the mark.
  ghost predicate Filled(u: nat, uc: nat, mask: nat, done: seq<Byte>) {
    && |done| <= 5
    && done == Tail(u, |done|) && uc == Shift(u, |done|) && mask == MaskAfter(|done|)
    && (done != [] ==> Shift(u, |done| - 1) > MaskAfter(|done| - 1))
  }

  lemma FilledStart(u: nat)
    ensures Filled(u, u, 0x3f, [])
  {
  }

  lemma FilledStep(u: nat, uc: nat, mask: nat, done: seq<Byte>)
    requires u < 0x8000_0000 && Filled(u, uc, mask, done) && uc > mask
    ensures |done| <= 4 && Filled(u, Drop6(uc), mask / 2, [Continuation(uc)] + done)
  {
    PayloadStep(u, |done|);
  }

  lemma FilledStop(u: nat, uc: nat, mask: nat, done: seq<Byte>)
    requires 0x80 <= u < 0x8000_0000 && Filled(u, uc, mask, done) && uc <= mask
    ensures done != [] && mask < 0x40 && Encode(u) == [LeadOctet(uc, mask)] + done
  {
    PayloadStop(u, |done|);
    MaskValues();
  }

  // (uc + ~mask + ~mask) & 0xff in unsigned 32-bit arithmetic.
  function LeadOctet(uc: Uint32, mask: Uint32): Byte {
    ToUint32(uc + (UINT_MAX - mask) + (UINT_MAX - mask)) % 0x100
  }

  lemma SingleOctet(u: nat)
    requires u < 0x80
    ensures Encode(u) == [u]
  {
    ShiftValues(u);
  }

  // mask after k shifts to the right.
  function MaskAfter(k: nat): Uint32 {
    if k == 0 then 0x3f else MaskAfter(k - 1) / 2
  }

  lemma MaskValues()
    ensures MaskAfter(0) == 0x3f && MaskAfter(1) == 0x1f && MaskAfter(2) == 0x0f
    ensures MaskAfter(3) == 7 && MaskAfter(4) == 3 && MaskAfter(5) == 1
  {
    assert MaskAfter(1) == MaskAfter(0) / 2;
    assert MaskAfter(2) == MaskAfter(1) / 2;
    assert MaskAfter(3) == MaskAfter(2) / 2;
    assert MaskAfter(4) == MaskAfter(3) / 2;
    assert MaskAfter(5) == MaskAfter(4) / 2;
  }

  lemma PayloadStep(u: nat, k: nat)
    requires u < 0x8000_0000 && k <= 5 && Shift(u, k) > MaskAfter(k)
    ensures k <= 4
  {
    MaskValues();
    ShiftValues(u);
  }

  lemma PayloadStop(u: nat, k: nat)
    requires 0x80 <= u < 0x8000_0000 && k <= 5 && Shift(u, k) <= MaskAfter(k)
    requires k > 0 ==> Shift(u, k - 1) > MaskAfter(k - 1)
    ensures 1 <= k == EncodedLength(u) - 1
    ensures Encode(u) == [LeadOctet(Shift(u, k), MaskAfter(k))] + Tail(u, k)
  {
    MaskValues();
    StopLength(u, k);
    LeadFits(u, k + 1);
    LeadOctetMark(Shift(u, k), k);
  }

  lemma StopLength(u: nat, k: nat)
    requires 0x80 <= u < 0x8000_0000 && k <= 5 && Shift(u, k) <= MaskAfter(k)
    requires k > 0 ==> Shift(u, k - 1) > MaskAfter(k - 1)
    ensures 1 <= k == EncodedLength(u) - 1
  {
    MaskValues();
    ShiftValues(u);
  }

  lemma LeadOctetMark(uc: nat, k: nat)
    requires 1 <= k <= 5 && uc <= MaskAfter(k)
    ensures LeadOctet(uc, MaskAfter(k)) == Mark(k + 1) + uc
  {
    MaskValues();
    OctetOf(uc, MaskAfter(k));
    hide LeadOctet;
    match k
    case 1 =>
    case 2 =>
    case 3 =>
    case 4 =>
    case 5 =>
  }

  lemma OctetOf(uc: nat, mask: nat)
    requires uc <= mask < 0x40
    ensures LeadOctet(uc, mask) == 0xFE - 2 * mask + uc
  {
    var x := uc + (UINT_MAX - mask) + (UINT_MAX - mask);
    assert ToUint32(x) == x - 0x1_0000_0000 == 0xFF_FFFF * 0x100 + (0xFE - 2 * mask + uc);
  }

  // wctomb.c:54-101: the branch tree, one store per octet.
  method WcToMb(s: array<Byte>, wc: nat) returns (len: nat)
    requires wc < 0x8000_0000 && s.Length >= 6
    modifies s
    ensures 1 <= len <= 6 && s[..len] == Encode(wc)
    ensures s[len..] == old(s[len..])
  {
    WcToMbForms(wc);
    if wc > 0x7FF {
      if wc > 0x1F_FFFF {
        if wc > 0x3FF_FFFF {
          s[0] := 0xFC + wc / 0x4000_0000 % 4;
          s[1] := 0x80 + wc / 0x100_0000 % 64;
          s[2] := 0x80 + wc / 0x4_0000 % 64;
          s[3] := 0x80 + wc / 0x1000 % 64;
          s[4] := 0x80 + wc / 0x40 % 64;
          s[5] := 0x80 + wc % 64;
          return 6;
        }
        s[0] := 0xF8 + wc / 0x100_0000;
        s[1] := 0x80 + wc / 0x4_0000 % 64;
        s[2] := 0x80 + wc / 0x1000 % 64;
        s[3] := 0x80 + wc / 0x40 % 64;
        s[4] := 0x80 + wc % 64;
        return 5;
      }
      if wc > 0xFFFF {
        s[0] := 0xF0 + wc / 0x4_0000;
        s[1] := 0x80 + wc / 0x1000 % 64;
        s[2] := 0x80 + wc / 0x40 % 64;
        s[3] := 0x80 + wc % 64;
        return 4;
      }
      s[0] := 0xE0 + wc / 0x1000;
      s[1] := 0x80 + wc / 0x40 % 64;
      s[2] := 0x80 + wc % 64;
      return 3;
    }
    if wc > 0x7F {
      s[0] := 0xC0 + wc / 0x40;
      s[1] := 0x80 + wc % 64;
      return 2;
    }
    s[0] := wc;
    return 1;
  }

  function Octet(wc: nat, unit: nat): Byte
    requires unit > 0
  {
    0x80 + wc / unit % 64
  }

  // Every form written out with literal divisors.
  lemma WcToMbForms(wc: nat)
    requires wc < 0x8000_0000
    ensures wc < 0x80 ==> Encode(wc) == [wc]
    ensures 0x80 <= wc < 0x800 ==> Encode(wc) == [0xC0 + wc / 0x40, Octet(wc, 1)]
    ensures 0x800 <= wc < 0x1_0000 ==> Encode(wc) == [0xE0 + wc / 0x1000, Octet(wc, 0x40), Octet(wc, 1)]
    ensures 0x1_0000 <= wc < 0x20_0000 ==>
      Encode(wc) == [0xF0 + wc / 0x4_0000, Octet(wc, 0x1000), Octet(wc, 0x40), Octet(wc, 1)]
    ensures 0x20_0000 <= wc < 0x400_0000 ==>
      Encode(wc) == [0xF8 + wc / 0x100_0000, Octet(wc, 0x4_0000), Octet(wc, 0x1000), Octet(wc, 0x40), Octet(wc, 1)]
    ensures 0x400_0000 <= wc ==>
      Encode(wc) == [0xFC + wc / 0x4000_0000, Octet(wc, 0x100_0000), Octet(wc, 0x4_0000), Octet(wc, 0x1000),
                   Octet(wc, 0x40), Octet(wc, 1)]
  {
    ShiftValues(wc);
    TailUnroll(wc);
  }

  lemma TailUnroll(c: nat)
    ensures Tail(c, 0) == []
    ensures Tail(c, 1) == [Octet(c, 1)]
    ensures Tail(c, 2) == [Octet(c, 0x40), Octet(c, 1)]
    ensures Tail(c, 3) == [Octet(c, 0x1000), Octet(c, 0x40), Octet(c, 1)]
    ensures Tail(c, 4) == [Octet(c, 0x4_0000), Octet(c, 0x1000), Octet(c, 0x40), Octet(c, 1)]
    ensures Tail(c, 5) == [Octet(c, 0x100_0000), Octet(c, 0x4_0000), Octet(c, 0x1000), Octet(c, 0x40), Octet(c, 1)]
  {
    ShiftValues(c);
    assert Tail(c, 1) == [Octet(c, 1)] + Tail(c, 0);
    assert Tail(c, 2) == [Octet(c, 0x40)] + Tail(c, 1);
    assert Tail(c, 3) == [Octet(c, 0x1000)] + Tail(c, 2);
    assert Tail(c, 4) == [Octet(c, 0x4_0000)] + Tail(c, 3);
  }

  // ---------------------------------------------------------------- decoder

  datatype Utf8Error = Short | Bad

  // Number of leading one bits of an octet.
  function LeadingOnes(b: Byte): nat {
    if b < 0x80 then 0
    else if b < 0xC0 then 1
    else if b < 0xE0 then 2
    else if b < 0xF0 then 3
    else if b < 0xF8 then 4
    else if b < 0xFC then 5
    else if b < 0xFE then 6
    else if b < 0xFF then 7
    else 8
  }

  // Appends the payload of continuation octets to acc; None when one of them is not 10xxxxxx.
  function Gather(acc: nat, t: seq<Byte>): Option<nat>
    decreases |t|
  {
    if t == [] then Some(acc)
    else if t[0] / 0x40 == 2 then Gather(acc * 64 + t[0] % 64, t[1..])
    else None
  }

  // What the decoder makes of the octets s: the code point and the number of octets used.
  function Decode(s: seq<Byte>): (r: Result<(nat, nat), Utf8Error>)
    requires |s| > 0 && s[0] < 0xFE
    ensures r.Ok? ==> 1 <= r.value.1 <= |s|
  {
    var need := LeadingOnes(s[0]);
    if |s| < need then Err(Short)
    else if need == 1 then Err(Bad)
    else if need == 0 then Ok((s[0], 1))
    else
      match Gather(s[0] - Mark(need), s[1..need])
      case None => Err(Bad)
      case Some(c) => Ok((c, need))
  }

  // utf8.c:20-58 with cnt > 0, the number of octets from `pos` to the end of the buffer.  The caller
  // has excluded 0xFE and 0xFF (psffontop.c:58).  Note that `pos` moves on success only.
  method FromUtf8(buf: seq<Byte>, pos: nat) returns (r: Result<nat, Utf8Error>, pos': nat)
    requires pos < |buf| && buf[pos] < 0xFE
    ensures match Decode(buf[pos..])
            case Ok((c, n)) => r == Ok(c) && pos' == pos + n
            case Err(e) => r == Err(e) && pos' == pos
  {
    var cnt := |buf| - pos;
    var i := pos;
    var uc: nat := buf[i];
    i := i + 1;
    ghost var first := uc;
    var need: nat, bit: nat := 0, 0x80;
    while HasBit(uc, bit)
      invariant Counted(first, need, bit)
      decreases bit
    {
      CountedStep(first, need, bit);
      need := need + 1;
      bit := bit / 2;
    }
    CountedStop(first, need, bit);
    uc := uc % bit;
    if cnt < need {
      return Err(Short), pos;
    }
    if need == 1 {
      return Err(Bad), pos;
    }
    if need > 0 {
      ghost var end := pos + need;
      assert buf[pos..][1..need] == buf[i..end];
      ghost var goal := Gather(uc, buf[i..end]);
      need := need - 1;
      while need > 0
        invariant 0 <= need <= 5 && i + need == end
        invariant Gather(uc, buf[i..end]) == goal && uc < PayloadBound(end - pos, need)
        decreases need
      {
        var uc2 := buf[i];
        assert buf[i..end][1..] == buf[i + 1..end];
        if uc2 / 0x40 != 2 {
          return Err(Bad), pos;
        }
        NoWrap(uc, uc2, end - pos, need);
        i := i + 1;
        uc := ToUint32(uc * 64) + uc2 % 64;
        need := need - 1;
      }
      assert buf[i..end] == [];
    }
    return Ok(uc), i;
  }

  predicate HasBit(b: nat, bit: nat)
    requires bit > 0
  {
    b / bit % 2 == 1
  }

  // `bit` after k ones have been seen.
  function BitAfter(k: nat): nat
    requires k <= 6
  {
    match k
    case 0 => 0x80
    case 1 => 0x40
    case 2 => 0x20
    case 3 => 0x10
    case 4 => 8
    case 5 => 4
    case 6 => 2
  }

  // `need` ones have been seen from the top of b, and `bit` is next.
  ghost predicate Counted(b: Byte, need: nat, bit: nat) {
    && b < 0xFE && need <= LeadingOnes(b) && need <= 6 && bit > 0
    && bit == BitAfter(need)
  }

  lemma CountedStep(b: Byte, need: nat, bit: nat)
    requires Counted(b, need, bit) && HasBit(b, bit)
    ensures Counted(b, need + 1, bit / 2)
  {
    LeadingBit(b, need);
  }

  lemma CountedStop(b: Byte, need: nat, bit: nat)
    requires Counted(b, need, bit) && !HasBit(b, bit)
    ensures need == LeadingOnes(b)
    ensures need == 0 ==> b % bit == b
    ensures need >= 2 ==> b % bit == b - Mark(need) < PayloadBound(need, need - 1)
  {
    hide LeadingOnes, HasBit;
    LeadingBit(b, need);
    StopRest(b, need);
    PayloadBounds();
  }

  // What is left of a first octet below its leading ones.
  lemma StopRest(b: Byte, k: nat)
    requires b < 0xFE && k <= 6 && k == LeadingOnes(b)
    ensures k == 0 ==> b % BitAfter(k) == b
    ensures k >= 2 ==> b % BitAfter(k) == b - Mark(k) < BitAfter(k)
  {
  }

  lemma LeadingBit(b: Byte, k: nat)
    requires b < 0xFE && k <= 6 && LeadingOnes(b) >= k
    ensures HasBit(b, BitAfter(k)) <==> LeadingOnes(b) > k
  {
    if k <= 2 {
      FirstBits(b, k);
    } else if k <= 4 {
      MiddleBits(b, k);
    } else {
      LastBits(b, k);
    }
  }

  lemma FirstBits(b: Byte, k: nat)
    requires k <= 2 && LeadingOnes(b) >= k
    ensures HasBit(b, BitAfter(k)) <==> LeadingOnes(b) > k
  {
    match k
    case 0 => assert b / 0x80 % 2 == 1 <==> b >= 0x80;
    case 1 => assert b / 0x40 % 2 == 1 <==> b >= 0xC0;
    case 2 => assert b / 0x20 % 2 == 1 <==> b >= 0xE0;
  }

  lemma MiddleBits(b: Byte, k: nat)
    requires 3 <= k <= 4 && LeadingOnes(b) >= k
    ensures HasBit(b, BitAfter(k)) <==> LeadingOnes(b) > k
  {
    match k
    case 3 => assert b / 0x10 % 2 == 1 <==> b >= 0xF0;
    case 4 => assert b / 8 % 2 == 1 <==> b >= 0xF8;
  }

  lemma LastBits(b: Byte, k: nat)
    requires b < 0xFE && 5 <= k <= 6 && LeadingOnes(b) >= k
    ensures HasBit(b, BitAfter(k)) <==> LeadingOnes(b) > k
  {
    match k
    case 5 => assert b / 4 % 2 == 1 <==> b >= 0xFC;
    case 6 => assert b / 2 % 2 == 0;
  }

  // Shifting the accumulator of a form of at most six octets loses no bit.
  lemma NoWrap(uc: nat, uc2: Byte, n: nat, need: nat)
    requires 2 <= n <= 6 && 0 < need < n && uc < PayloadBound(n, need)
    ensures ToUint32(uc * 64) == uc * 64 && uc * 64 + uc2 % 64 < PayloadBound(n, need - 1)
  {
    assert Shift(Limit(n), need) == Drop6(Shift(Limit(n), need - 1));
    PayloadBoundSmall(n, need - 1);
  }

  lemma PayloadBoundSmall(n: nat, k: nat)
    requires 2 <= n <= 6 && k < n
    ensures PayloadBound(n, k) <= 0x8000_0000
  {
    if k > 0 {
      PayloadBoundSmall(n, k - 1);
    }
  }

  // The accumulator of an n-octet form with k octets still to come stays below 2^31: no wrap-around.
  function PayloadBound(n: nat, k: nat): nat
    requires 2 <= n <= 6 && k < n
  {
    Shift(Limit(n), k)
  }

  lemma PayloadBounds()
    ensures PayloadBound(2, 1) == 0x20 && PayloadBound(3, 2) == 0x10 && PayloadBound(4, 3) == 8
    ensures PayloadBound(5, 4) == 4 && PayloadBound(6, 5) == 2
  {
    ShiftValues(0x800);
    ShiftValues(0x1_0000);
    ShiftValues(0x20_0000);
    ShiftValues(0x400_0000);
    ShiftValues(0x8000_0000);
  }

  // ---------------------------------------------------------------- the codec

  lemma {:induction false} GatherTail(c: nat, k: nat)
    ensures Gather(Shift(c, k), Tail(c, k)) == Some(c)
  {
    if k > 0 {
      var t := Tail(c, k);
      assert t[1..] == Tail(c, k - 1);
      GatherTail(c, k - 1);
    }
  }

  lemma {:induction false} GatherOnlyTail(acc: nat, t: seq<Byte>, c: nat)
    requires Gather(acc, t) == Some(c)
    ensures Shift(c, |t|) == acc && t == Tail(c, |t|)
    decreases |t|
  {
    if t != [] {
      GatherOnlyTail(acc * 64 + t[0] % 64, t[1..], c);
      assert t == [t[0]] + t[1..];
    }
  }

  lemma LimitShift(c: nat, n: nat)
    requires 1 <= n <= 6
    ensures c < Limit(n) <==> Shift(c, n - 1) < LeadRoom(n)
  {
    ShiftValues(c);
  }

  // The decoder accepts exactly the forms of 1 to 6 octets, shortest or not, and returns their value.
  lemma DecodeExactly(s: seq<Byte>, c: nat, n: nat)
    requires |s| > 0 && s[0] < 0xFE
    ensures Decode(s) == Ok((c, n)) <==> 1 <= n <= 6 && n <= |s| && c < Limit(n) && s[..n] == Form(c, n)
  {
    var need := LeadingOnes(s[0]);
    if Decode(s) == Ok((c, n)) {
      LeadOfDecoded(s[0]);
      GatherOnlyTail(if need == 0 then s[0] else s[0] - Mark(need), s[1..n], c);
      LimitShift(c, n);
      assert s[..n] == [s[0]] + s[1..n];
    }
    if 1 <= n <= 6 && n <= |s| && c < Limit(n) && s[..n] == Form(c, n) {
      LimitShift(c, n);
      LeadOfForm(Shift(c, n - 1), n);
      assert s[0] == s[..n][0];
      GatherTail(c, n - 1);
      assert s[1..n] == s[..n][1..] == Tail(c, n - 1);
    }
  }

  lemma LeadOfDecoded(b: Byte)
    requires b < 0xFE
    ensures LeadingOnes(b) == 0 ==> b < LeadRoom(1)
    ensures 2 <= LeadingOnes(b) <= 6 && LeadingOnes(b) != 1 ==> b - Mark(LeadingOnes(b)) < LeadRoom(LeadingOnes(b))
    ensures LeadingOnes(b) <= 6
  {
  }

  lemma LeadOfForm(h: nat, n: nat)
    requires 1 <= n <= 6 && h < LeadRoom(n)
    ensures Mark(n) + h < 0xFE && (Mark(n) + h) / 0x40 != 2
    ensures LeadingOnes(Mark(n) + h) == if n == 1 then 0 else n
  {
  }

  lemma RoundTrip(c: nat, rest: seq<Byte>)
    requires c < 0x8000_0000
    ensures var f := Encode(c);
            f[0] < 0xFE && f[0] / 0x40 != 2 && Decode(f + rest) == Ok((c, |f|))
  {
    var f := Encode(c);
    LimitShift(c, |f|);
    LeadOfForm(Shift(c, |f| - 1), |f|);
    assert (f + rest)[..|f|] == f;
    DecodeExactly(f + rest, c, |f|);
  }

  // Overlong forms are accepted; encoding again restores the input exactly when it was shortest.
  lemma ShortestIffRestored(s: seq<Byte>, c: nat, n: nat)
    requires |s| > 0 && s[0] < 0xFE && Decode(s) == Ok((c, n))
    ensures c < 0x8000_0000 && EncodedLength(c) <= n <= |s|
    ensures Encode(c) == s[..n] <==> n == EncodedLength(c)
  {
    DecodeExactly(s, c, n);
  }
}
