/** Variable-length integers of the contract compiler (`Reader::ReadInternal`, `WriteResU`).

    The signed reader has four modes, which differ only when the last byte of a maximal-length
    encoding carries a sign flag that does not fit the result. */
module Leb128 {
  import opened Arith
  import opened Words

  datatype Mode = AutoWorkAround | Restrict | EmulateX86 | Standard

  /** What one read does: fail, or yield a value and the number of bytes consumed. `triggered` tells
      that the conflicting-flag branch was taken. */
  datatype ReadResult = Fail | Done(v: nat, len: nat, triggered: bool)

  ghost predicate Width(bits: nat) {
    bits == 32 || bits == 64
  }

  // ----- The reader, as the loop computes it -----

  /** The value left by the end-of-number branch, when the sign flag is set and does not fit. */
  function Conflict(bits: nat, mode: Mode, acc: nat, len: nat): (r: ReadResult)
    requires bits > 0
    ensures r.Done? ==> r.len == len
  {
    match mode
    case AutoWorkAround => Done(acc, len, true)
    case Standard => Done(acc, len, true)
    case Restrict => Fail
    case EmulateX86 =>
      var m := Pow2(7 * len % bits);
      Pow2Mono(7 * len % bits, bits);
      Done(acc % m + (Pow2(bits) - m), len, true)
  }

  function Finish(bits: nat, signed: bool, mode: Mode, last: byte, acc: nat, len: nat): (r: ReadResult)
    requires bits > 0
    ensures r.Done? ==> r.len == len
  {
    if signed && last >= 64 then
      if 7 * len >= bits then Conflict(bits, mode, acc, len)
      else
        Pow2Mono(7 * len, bits);
        Done(acc + (Pow2(bits) - Pow2(7 * len)), len, false)
    else Done(acc, len, false)
  }

  function ReadFrom(bits: nat, signed: bool, mode: Mode, s: seq<byte>, i: nat, acc: nat): ReadResult
    requires bits > 0
    decreases |s| - i
  {
    if i >= |s| then Fail
    else
      var acc' := acc + (s[i] % 128) * Pow2(7 * i) % Pow2(bits);
      if s[i] < 128 then Finish(bits, signed, mode, s[i], acc', i + 1)
      else if 7 * (i + 1) >= bits then Fail
      else ReadFrom(bits, signed, mode, s, i + 1, acc')
  }

  function Read(bits: nat, signed: bool, mode: Mode, s: seq<byte>): ReadResult
    requires bits > 0
  {
    ReadFrom(bits, signed, mode, s, 0, 0)
  }

  // ----- What the encoding means (section 5.2.2 of the WebAssembly Core Specification) -----

  /** Number of bytes up to the first one without a continuation flag. */
  function Length(s: seq<byte>): Option<nat> {
    if s == [] then None
    else if s[0] < 128 then Some(1)
    else
      match Length(s[1..])
      case None => None
      case Some(n) => Some(n + 1)
  }

  function DigitSum(s: seq<byte>): nat {
    if s == [] then 0
    else DigitSum(s[..|s| - 1]) + (s[|s| - 1] % 128) * Pow2(7 * (|s| - 1))
  }

  /** The integer denoted by the n-byte encoding s. */
  function Meaning(signed: bool, s: seq<byte>): int
    requires s != []
  {
    DigitSum(s) - if signed && s[|s| - 1] % 128 >= 64 then Pow2(7 * |s|) else 0
  }

  lemma {:induction false} LengthProps(s: seq<byte>, n: nat)
    ensures Length(s) == Some(n) <==>
            (1 <= n <= |s| && s[n - 1] < 128 && forall i :: 0 <= i < n - 1 ==> s[i] >= 128)
  {
    if s != [] && s[0] >= 128 {
      if n >= 1 {
        LengthProps(s[1..], n - 1);
        if 1 <= n - 1 <= |s| - 1 && s[n - 1] < 128 && forall i :: 0 <= i < n - 1 ==> s[i] >= 128 {
          assert forall i :: 0 <= i < n - 2 ==> s[1..][i] == s[i + 1];
        }
        if Length(s) == Some(n) {
          forall i | 0 <= i < n - 1 ensures s[i] >= 128 {
            assert i > 0 ==> s[1..][i - 1] == s[i];
          }
        }
      }
    }
  }

  lemma {:induction false} DigitSumBound(s: seq<byte>)
    ensures DigitSum(s) < Pow2(7 * |s|)
  {
    if s != [] {
      var k := |s| - 1;
      DigitSumBound(s[..k]);
      MulMono(s[k] % 128, 127, Pow2(7 * k));
      Pow2Add(7 * k, 7);
      assert Pow2(7) == 128;
    }
  }

  /** Feeding a digit above the bits already set is addition modulo the width. */
  lemma FeedIsModular(bits: nat, sum: nat, d: nat, k: nat)
    requires sum < Pow2(7 * k) && 7 * k <= bits
    ensures sum + d * Pow2(7 * k) % Pow2(bits) == (sum + d * Pow2(7 * k)) % Pow2(bits)
  {
    Pow2Add(7 * k, bits - 7 * k);
    ModAddBelowFactor(sum, d, Pow2(7 * k), Pow2(bits - 7 * k), Pow2(bits));
  }

  /** The loop accumulates the digit sum modulo the width, and stops exactly where the encoding ends. */
  lemma {:induction false} ReadFromMeaning(bits: nat, signed: bool, mode: Mode, s: seq<byte>, i: nat, len: nat)
    requires bits > 0
    requires i <= |s| && 7 * i < bits
    requires forall j :: 0 <= j < i ==> s[j] >= 128
    ensures
      var r := ReadFrom(bits, signed, mode, s, i, DigitSum(s[..i]));
      && (r.Done? ==> Length(s) == Some(r.len) && 7 * (r.len - 1) < bits)
      && (Length(s) == Some(len) && 7 * (len - 1) < bits ==>
            1 <= len <= |s| && r == Finish(bits, signed, mode, s[len - 1], DigitSum(s[..len]) % Pow2(bits), len))
    decreases |s| - i
  {
    hide Finish;
    LengthProps(s, len);
    LengthProps(s, i + 1);
    DigitSumBound(s[..i]);
    if i < |s| {
      var sum := DigitSum(s[..i]);
      assert s[..i + 1][..i] == s[..i];
      FeedIsModular(bits, sum, s[i] % 128, i);
      assert DigitSum(s[..i + 1]) == sum + (s[i] % 128) * Pow2(7 * i);
      if s[i] >= 128 && 7 * (i + 1) < bits {
        DigitSumBound(s[..i + 1]);
        Pow2Mono(7 * (i + 1), bits);
        DivModUnique(DigitSum(s[..i + 1]), Pow2(bits), 0, DigitSum(s[..i + 1]));
        ReadFromMeaning(bits, signed, mode, s, i + 1, len);
      }
    }
  }

  lemma {:induction false} ReadIsFinish(bits: nat, signed: bool, mode: Mode, s: seq<byte>, len: nat)
    requires bits > 0
    ensures Read(bits, signed, mode, s).Done? ==> Length(s) == Some(Read(bits, signed, mode, s).len)
    ensures Read(bits, signed, mode, s).Done? ==> 7 * (Read(bits, signed, mode, s).len - 1) < bits
    ensures Length(s) == Some(len) && 7 * (len - 1) < bits ==>
      1 <= len <= |s| &&
      Read(bits, signed, mode, s) ==
        Finish(bits, signed, mode, s[len - 1], DigitSum(s[..len]) % Pow2(bits), len)
  {
    LengthProps(s, len);
    assert s[..0] == [];
    ReadFromMeaning(bits, signed, mode, s, 0, len);
  }

  /** Standard mode, signed or not: it succeeds exactly on terminated encodings of admissible length, and
      yields the denoted integer modulo the width. */
  lemma StandardMeaning(bits: nat, signed: bool, s: seq<byte>, len: nat)
    requires bits > 0
    ensures Read(bits, signed, Standard, s).Done? <==>
            Length(s).Some? && 7 * (Length(s).value - 1) < bits
    ensures Length(s) == Some(len) && 7 * (len - 1) < bits ==>
      var r := Read(bits, signed, Standard, s);
      1 <= len <= |s| && r.Done? && r.len == len && r.v == Meaning(signed, s[..len]) % Pow2(bits)
  {
    if Length(s).Some? && 7 * (Length(s).value - 1) < bits {
      LengthProps(s, Length(s).value);
      ReadIsFinish(bits, signed, Standard, s, Length(s).value);
    }
    ReadIsFinish(bits, signed, Standard, s, len);
    if Length(s) == Some(len) && 7 * (len - 1) < bits {
      LengthProps(s, len);
      DigitSumBound(s[..len]);
      StandardFinish(bits, signed, s[..len]);
    }
  }

  lemma StandardFinish(bits: nat, signed: bool, t: seq<byte>)
    requires bits > 0 && t != [] && t[|t| - 1] < 128
    ensures Finish(bits, signed, Standard, t[|t| - 1], DigitSum(t) % Pow2(bits), |t|).Done?
    ensures Finish(bits, signed, Standard, t[|t| - 1], DigitSum(t) % Pow2(bits), |t|).v
            == Meaning(signed, t) % Pow2(bits)
    ensures Finish(bits, signed, Standard, t[|t| - 1], DigitSum(t) % Pow2(bits), |t|).len == |t|
  {
    hide Pow2, DigitSum;
    DigitSumBound(t);
    SignPadding(bits, DigitSum(t), |t|);
  }

  /** Subtracting the sign weight is padding with ones, and does nothing once all bits are fed. */
  lemma SignPadding(bits: nat, sum: nat, len: nat)
    requires bits > 0 && sum < Pow2(7 * len)
    ensures 7 * len >= bits ==> (sum - Pow2(7 * len)) % Pow2(bits) == sum % Pow2(bits)
    ensures 7 * len < bits ==>
      (sum - Pow2(7 * len)) % Pow2(bits) == sum % Pow2(bits) + (Pow2(bits) - Pow2(7 * len))
  {
    if 7 * len >= bits {
      Pow2Add(7 * len - bits, bits);
      SubtractMultiple(sum, Pow2(7 * len - bits), Pow2(bits), Pow2(7 * len));
    } else {
      Pow2StrictMono(7 * len, bits);
      ModSmall(sum, Pow2(bits));
      DivModUnique(sum - Pow2(7 * len), Pow2(bits), -1, sum - Pow2(7 * len) + Pow2(bits));
    }
  }

  lemma SubtractMultiple(x: int, c: int, m: int, w: int)
    requires 0 < m && w == c * m
    ensures (x - w) % m == x % m
  {
    assert x - w == x + (-c) * m;
    ModAddMultiple(x, -c, m);
  }

  // ----- The four modes compared -----

  /** The last byte rewritten by the work-around. */
  function Rewritten(s: seq<byte>, len: nat): seq<byte>
    requires 1 <= len <= |s| && s[len - 1] >= 64
  {
    s[len - 1 := s[len - 1] - 64]
  }

  lemma {:induction false} DropConflictingFlag(bits: nat, s: seq<byte>, len: nat)
    requires Width(bits)
    requires 1 <= len <= |s| && 64 <= s[len - 1] < 128
    requires 7 * (len - 1) < bits <= 7 * len
    ensures DigitSum(Rewritten(s, len)[..len]) % Pow2(bits) == DigitSum(s[..len]) % Pow2(bits)
  {
    hide Pow2;
    var t, t' := s[..len], Rewritten(s, len)[..len];
    assert t[..len - 1] == t'[..len - 1];
    assert DigitSum(t) == DigitSum(t') + 64 * Pow2(7 * (len - 1)) by {
      assert t[len - 1] % 128 == t'[len - 1] % 128 + 64;
      Distribute(t'[len - 1] % 128, 64, Pow2(7 * (len - 1)));
    }
    TopFlag(bits, len);
    ModAddMultiple(DigitSum(t'), Pow2(7 * len - 1 - bits), Pow2(bits));
  }

  /** The sign flag of a maximal-length encoding lies above the result. */
  lemma TopFlag(bits: nat, len: nat)
    requires Width(bits) && 1 <= len && 7 * (len - 1) < bits <= 7 * len
    ensures 64 * Pow2(7 * (len - 1)) == Pow2(7 * len - 1 - bits) * Pow2(bits)
  {
    assert Pow2(6) == 64;
    hide Pow2;
    Pow2Add(6, 7 * (len - 1));
    Pow2Add(7 * len - 1 - bits, bits);
  }

  lemma Distribute(a: int, b: int, c: int)
    ensures (a + b) * c == a * c + b * c
  {
  }

  /** The work-around yields the standard value; and the bytes it leaves behind denote, in every mode, that
      same value and length, without taking the conflicting-flag branch again. */
  lemma WorkAroundIsStandard(bits: nat, s: seq<byte>, mode: Mode)
    requires Width(bits)
    ensures Read(bits, true, AutoWorkAround, s) == Read(bits, true, Standard, s)
    ensures
      var r := Read(bits, true, AutoWorkAround, s);
      r.Done? ==>
        && 1 <= r.len <= |s|
        && (r.triggered ==>
              && s[r.len - 1] >= 64
              && Read(bits, true, mode, Rewritten(s, r.len)) == Done(r.v, r.len, false))
        && (!r.triggered ==> Read(bits, true, mode, s) == r)
  {
    hide Read, Pow2;
    var len := if Length(s).Some? then Length(s).value else 0;
    LengthProps(s, len);
    ReadIsFinish(bits, true, AutoWorkAround, s, len);
    ReadIsFinish(bits, true, Standard, s, len);
    ReadIsFinish(bits, true, mode, s, len);
    var r := Read(bits, true, AutoWorkAround, s);
    if r.Done? && r.triggered {
      var s' := Rewritten(s, len);
      LengthProps(s', len);
      DropConflictingFlag(bits, s, len);
      ReadIsFinish(bits, true, mode, s', len);
    }
  }

  /** The unfixed x86 behaviour agrees with the standard exactly when the conflicting flag is absent or the
      padding it smears over the result was there already. */
  lemma EmulationAgreesIff(bits: nat, s: seq<byte>)
    requires Width(bits)
    ensures
      var e, r := Read(bits, true, EmulateX86, s), Read(bits, true, Standard, s);
      && (e.Done? <==> r.Done?)
      && (e.Done? ==> e.len == r.len && e.triggered == r.triggered)
      && (e.Done? ==> (e.v == r.v <==>
            (r.triggered ==>
              var m := Pow2(if bits == 32 then 3 else 6);
              r.v / m == Pow2(bits) / m - 1)))
  {
    hide Read, Pow2;
    var len := if Length(s).Some? then Length(s).value else 0;
    LengthProps(s, len);
    ReadIsFinish(bits, true, EmulateX86, s, len);
    ReadIsFinish(bits, true, Standard, s, len);
    if 1 <= len <= |s| && 7 * (len - 1) < bits {
      EmulatedFinish(bits, s[len - 1], DigitSum(s[..len]) % Pow2(bits), len);
    }
  }

  lemma EmulatedFinish(bits: nat, last: byte, acc: nat, len: nat)
    requires Width(bits) && acc < Pow2(bits) && 1 <= len && 7 * (len - 1) < bits
    ensures
      var e, r := Finish(bits, true, EmulateX86, last, acc, len), Finish(bits, true, Standard, last, acc, len);
      && e.Done? && r.Done?
      && e.len == r.len && e.triggered == r.triggered
      && (e.v == r.v <==>
          (r.triggered ==>
            var m := Pow2(if bits == 32 then 3 else 6);
            r.v / m == Pow2(bits) / m - 1))
  {
    hide Pow2;
    if last >= 64 && 7 * len >= bits {
      var e := if bits == 32 then 3 else 6;
      LastDigit(bits, len);
      Pow2Add(bits - e, e);
      SmearedOnes(acc, Pow2(e), Pow2(bits - e), Pow2(bits));
    }
  }

  lemma LastDigit(bits: nat, len: nat)
    requires Width(bits) && 7 * (len - 1) < bits <= 7 * len
    ensures 7 * len % bits == if bits == 32 then 3 else 6
  {
  }

  lemma SmearedOnes(acc: nat, m: nat, c: nat, w: nat)
    requires 0 < m && 0 < c && w == c * m && acc < w
    ensures acc % m + (w - m) == acc <==> acc / m == w / m - 1
  {
    DivModUnique(w, m, c, 0);
    assert acc == (acc / m) * m + acc % m;
    assert w - m == (c - 1) * m;
    if acc / m < c - 1 {
      assert (acc / m + 1) * m == (acc / m) * m + m;
      MulMono(acc / m + 1, c - 1, m);
    } else if acc / m > c - 1 {
      MulMono(c, acc / m, m);
    }
  }

  // ----- The writer -----

  function WriteU(x: nat): (s: seq<byte>)
    ensures s != []
  {
    if x < 128 then [x] else [x % 128 + 128] + WriteU(x / 128)
  }

  lemma {:induction false} DigitSumCons(d: byte, t: seq<byte>)
    ensures DigitSum([d] + t) == d % 128 + 128 * DigitSum(t)
  {
    if t == [] {
      assert [d][..0] == [];
      assert DigitSum([d]) == d % 128;
      assert [d] + t == [d];
    } else {
      var k := |t| - 1;
      assert ([d] + t)[..|t|] == [d] + t[..k];
      DigitSumCons(d, t[..k]);
      Pow2Add(7, 7 * k);
      assert Pow2(7) == 128;
      var x := t[k] % 128;
      assert x * (128 * Pow2(7 * k)) == 128 * (x * Pow2(7 * k));
    }
  }

  /** The digits written denote x, fill no more bytes than needed, and are self-delimiting. */
  lemma {:induction false} WriteUProps(x: nat, rest: seq<byte>)
    ensures Length(WriteU(x) + rest) == Some(|WriteU(x)|)
    ensures DigitSum(WriteU(x)) == x
    ensures x > 0 ==> Pow2(7 * (|WriteU(x)| - 1)) <= x
  {
    var w := WriteU(x);
    if x < 128 {
      assert w + rest == [x] + rest;
      assert w[..0] == [];
    } else {
      var t := WriteU(x / 128);
      WriteUProps(x / 128, rest);
      assert w == [x % 128 + 128] + t;
      hide WriteU, DigitSum, Pow2;
      assert (w + rest)[1..] == t + rest;
      DigitSumCons(x % 128 + 128, t);
      MoreDigits(x, |t|);
    }
  }

  lemma MoreDigits(x: nat, n: nat)
    requires n > 0 && Pow2(7 * (n - 1)) <= x / 128
    ensures Pow2(7 * n) <= x
  {
    Pow2Add(7, 7 * (n - 1));
    assert Pow2(7) == 128;
  }

  lemma WriteURoundTrip(bits: nat, mode: Mode, x: nat, rest: seq<byte>)
    requires bits > 0 && x < Pow2(bits)
    ensures Read(bits, false, mode, WriteU(x) + rest) == Done(x, |WriteU(x)|, false)
  {
    WriteUProps(x, rest);
    var n := |WriteU(x)|;
    assert (WriteU(x) + rest)[..n] == WriteU(x);
    assert 7 * (n - 1) < bits by {
      if 7 * (n - 1) >= bits {
        Pow2Mono(bits, 7 * (n - 1));
      }
    }
    ReadIsFinish(bits, false, mode, WriteU(x) + rest, n);
    DivModUnique(x, Pow2(bits), 0, x);
  }

  // ----- The reader object -----

  lemma RewrittenSlice(b: seq<byte>, start: nat, end: nat, i: nat)
    requires start < start + i <= end <= |b| && b[start + i - 1] >= 64
    ensures b[start + i - 1 := b[start + i - 1] - 64][start..end] == Rewritten(b[start..end], i)
  {
  }

  /** The buffer after the end of a number, seen from its start. */
  lemma Sliced(b: seq<byte>, b': seq<byte>, start: nat, end: nat, i: nat, n: byte)
    requires start < start + i <= end <= |b| && n == b[start + i - 1]
    ensures n >= 64 && b' == b[start + i - 1 := n - 64] ==> b'[start..end] == Rewritten(b[start..end], i)
  {
    hide Rewritten;
    if n >= 64 {
      RewrittenSlice(b, start, end, i);
    }
  }

  class Reader {
    var buf: array<byte>
    var p0: nat
    var p1: nat
    var mode: Mode
    var modeTriggered: bool

    ghost predicate Valid()
      reads this
    {
      p0 <= p1 <= buf.Length
    }

    /** The last byte read loses its sign flag. */
    method ClearFlag(n: byte)
      requires 0 < p0 <= buf.Length && n >= 64
      modifies buf
      ensures buf[..] == old(buf[..])[p0 - 1 := n - 64]
    {
      buf[p0 - 1] := n - 64;
    }

    /** The number ends with byte n: padding, and what the mode does about a sign flag that does not fit. */
    method EndOfNumber(bits: nat, signed: bool, n: byte, acc0: nat, i: nat) returns (r: Option<nat>)
      requires Width(bits) && 0 < p0 <= buf.Length
      modifies this`modeTriggered, buf
      ensures match Finish(bits, signed, mode, n, acc0, i)
              case Fail => r == None
              case Done(v, _, trg) =>
                && r == Some(v) && modeTriggered == (old(modeTriggered) || trg) && (trg ==> n >= 64)
                && buf[..] == if trg && mode == AutoWorkAround then old(buf[..])[p0 - 1 := n - 64] else old(buf[..])
    {
      hide Pow2;
      var acc := acc0;
      if signed && n >= 64 {
        if 7 * i >= bits {
          modeTriggered := true;
          match mode {
            case AutoWorkAround =>
              ClearFlag(n);
            case EmulateX86 =>
              var m := Pow2(7 * i % bits);
              Pow2Mono(7 * i % bits, bits);
              acc := acc % m + (Pow2(bits) - m);
            case Standard =>
            case Restrict =>
              return None;
          }
        } else {
          Pow2Mono(7 * i, bits);
          acc := acc + (Pow2(bits) - Pow2(7 * i));
        }
      }
      return Some(acc);
    }

    /** `ReadInternal`: consumes the bytes of one number; only the work-around writes to the buffer, and
        then only the last byte read. */
    method ReadInternal(bits: nat, signed: bool) returns (r: Option<nat>)
      requires Valid() && Width(bits)
      modifies this`p0, this`modeTriggered, buf
      ensures Valid()
      ensures
        var o := Read(bits, signed, mode, old(buf[p0..p1]));
        match o
        case Fail => r == None
        case Done(v, len, trg) =>
          && r == Some(v)
          && p0 == old(p0) + len
          && modeTriggered == (old(modeTriggered) || trg)
          && 1 <= len <= |old(buf[p0..p1])|
          && (trg && mode == AutoWorkAround ==>
                && old(buf[p0..p1])[len - 1] >= 64
                && buf[old(p0)..p1] == Rewritten(old(buf[p0..p1]), len))
          && (!(trg && mode == AutoWorkAround) ==> buf[old(p0)..p1] == old(buf[p0..p1]))
    {
      hide Pow2, Finish, Rewritten;
      ghost var s := buf[p0..p1];
      ghost var start := p0;
      var acc: nat := 0;
      var i := 0;
      while true
        invariant 0 <= i <= |s| && p0 == start + i && p1 == old(p1) && p0 <= p1
        invariant buf[start..p1] == s
        invariant modeTriggered == old(modeTriggered)
        invariant 7 * i < bits
        invariant Read(bits, signed, mode, s) == ReadFrom(bits, signed, mode, s, i, acc)
        decreases |s| - i
      {
        if p0 == p1 {
          return None;
        }
        var n := buf[p0];
        assert n == s[i];
        p0 := p0 + 1;
        acc := acc + (n % 128) * Pow2(7 * i) % Pow2(bits);
        i := i + 1;
        if n < 128 {
          ghost var was := buf[..];
          r := EndOfNumber(bits, signed, n, acc, i);
          Sliced(was, buf[..], start, p1, i, n);
          return;
        }
        if 7 * i >= bits {
          return None;
        }
      }
    }
  }
}
