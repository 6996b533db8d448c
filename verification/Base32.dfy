/** Base32 text (section 6 of RFC 4648): the encoder's and decoder's byte-by-byte state machines, and their round trip. */
module Base32 {
  import Arith
  import opened Words

  // ----- Alphabet -----

  function Letter(v: nat): char
    requires v < 32
  {
    if v < 26 then 'a' + v as char else '2' + (v - 26) as char
  }

  /** The decoding table, which takes both cases: a value below 32, or -1. */
  function Table(c: char): (r: int)
    ensures -1 <= r < 32
  {
    if 'A' <= c <= 'Z' then (c - 'A') as int
    else if 'a' <= c <= 'z' then (c - 'a') as int
    else if '2' <= c <= '7' then (c - '2') as int + 26
    else -1
  }

  lemma TableOfLetter(v: nat)
    requires v < 32
    ensures Table(Letter(v)) == v
  {
  }

  // ----- Encoder -----

  /** Between bytes 3, 1, 4 or 2 bits are held, above the free bits of the next character. */
  predicate Held(mode: nat, left: nat) {
    left < 32 && (mode == 1 ==> left % 4 == 0) && (mode == 2 ==> left % 16 == 0) && (mode == 3 ==> left % 2 == 0)
    && (mode == 4 ==> left % 8 == 0)
  }

  function Feed(mode: nat, left: nat, x: byte): (r: (string, nat, nat))
    requires mode < 5 && Held(mode, left)
    ensures r.1 == (if mode == 4 then 0 else mode + 1) && Held(r.1, r.2)
  {
    Room(mode, left, x);
    if mode == 0 then ([Letter(x / 8)], 1, x % 8 * 4)
    else if mode == 1 then ([Letter(left + x / 64), Letter(x / 2 % 32)], 2, x % 2 * 16)
    else if mode == 2 then ([Letter(left + x / 16)], 3, x % 16 * 2)
    else if mode == 3 then ([Letter(left + x / 128), Letter(x / 4 % 32)], 4, x % 4 * 8)
    else ([Letter(left + x / 32), Letter(x % 32)], 0, left)
  }

  lemma Room(mode: nat, left: nat, x: byte)
    requires Held(mode, left)
    ensures mode == 1 ==> left + x / 64 < 32
    ensures mode == 2 ==> left + x / 16 < 32
    ensures mode == 3 ==> left + x / 128 < 32
    ensures mode == 4 ==> left + x / 32 < 32
    ensures Held(1, x % 8 * 4) && Held(2, x % 2 * 16) && Held(3, x % 16 * 2) && Held(4, x % 4 * 8)
  {
  }

  function Pad(mode: nat): string {
    if mode == 1 then "======" else if mode == 2 then "====" else if mode == 3 then "===" else if mode == 4 then "=" else ""
  }

  function Padding(mode: nat, left: nat): string
    requires mode < 5 && left < 32
  {
    if mode == 0 then "" else [Letter(left)] + Pad(mode)
  }

  function Encode(mode: nat, left: nat, bytes: seq<byte>): string
    requires mode < 5 && Held(mode, left)
    decreases |bytes|
  {
    if bytes == [] then Padding(mode, left)
    else
      var (t, m, l) := Feed(mode, left, bytes[0]);
      t + Encode(m, l, bytes[1..])
  }

  // ----- Decoder -----

  /** The bits kept between characters. */
  predicate Kept(mode: nat, left: nat) {
    mode < 8 && (mode == 1 ==> left < 32) && (mode == 2 ==> left < 4) && (mode == 3 ==> left < 128) && (mode == 4 ==> left < 16)
    && (mode == 5 ==> left < 2) && (mode == 6 ==> left < 64) && (mode == 7 ==> left < 8)
  }

  /** What one character yields, and the state after it. */
  function Eat(mode: nat, left: nat, d: nat): (r: (seq<byte>, nat, nat))
    requires Kept(mode, left) && d < 32
    ensures Kept(r.1, r.2)
  {
    if mode == 0 then ([], 1, d)
    else if mode == 1 then ([left * 8 + d / 4], 2, d % 4)
    else if mode == 2 then ([], 3, left * 32 + d)
    else if mode == 3 then ([left * 2 + d / 16], 4, d % 16)
    else if mode == 4 then ([left * 16 + d / 2], 5, d % 2)
    else if mode == 5 then ([], 6, left * 32 + d)
    else if mode == 6 then ([left * 4 + d / 8], 7, d % 8)
    else ([left * 32 + d], 0, left)
  }

  function At(s: string, i: nat): char {
    if i < |s| then s[i] else '\0'
  }

  /** n padding characters and then none of the alphabet. */
  predicate Padded(s: string, n: nat) {
    (forall i :: 0 <= i < n ==> At(s, i) == '=') && Table(At(s, n)) == -1
  }

  predicate Ends(mode: nat, left: nat, s: string) {
    if mode == 0 then true
    else if mode == 1 || mode == 3 || mode == 6 then false
    else left == 0 && Padded(s, if mode == 2 then 6 else if mode == 4 then 4 else if mode == 5 then 3 else 1)
  }

  function Decode(mode: nat, left: nat, s: string): (seq<byte>, bool)
    requires Kept(mode, left)
    decreases |s|
  {
    if Table(At(s, 0)) == -1 then ([], Ends(mode, left, s))
    else
      var (b, m, l) := Eat(mode, left, Table(At(s, 0)));
      var (rest, ok) := Decode(m, l, s[1..]);
      (b + rest, ok)
  }

  lemma DecodeStep(mode: nat, left: nat, s: string)
    requires Kept(mode, left) && Table(At(s, 0)) != -1
    ensures |s| > 0
    ensures
      var (b, m, l) := Eat(mode, left, Table(At(s, 0)));
      var (rest, ok) := Decode(m, l, s[1..]);
      Decode(mode, left, s) == (b + rest, ok)
  {
    hide Eat, Kept, Ends;
  }

  lemma DecodeEnd(mode: nat, left: nat, s: string)
    requires Kept(mode, left) && Table(At(s, 0)) == -1
    ensures Decode(mode, left, s) == ([], Ends(mode, left, s))
  {
    hide Eat, Kept, Ends;
  }

  lemma EncodeStep(mode: nat, left: nat, x: byte, bytes: seq<byte>)
    requires mode < 5 && Held(mode, left)
    ensures
      var (t, m, l) := Feed(mode, left, x);
      Encode(mode, left, [x] + bytes) == t + Encode(m, l, bytes)
  {
    hide Feed, Held, Padding;
    assert ([x] + bytes)[1..] == bytes;
  }

  lemma EncodeEnd(mode: nat, left: nat)
    requires mode < 5 && Held(mode, left)
    ensures Encode(mode, left, []) == Padding(mode, left)
  {
    hide Feed, Held, Padding;
  }

  // ----- Round trip -----

  /** The decoder's state when the encoder has taken 0 .. 4 bytes of a group. */
  function Behind(mode: nat): nat {
    if mode == 1 then 1 else if mode == 2 then 3 else if mode == 3 then 4 else if mode == 4 then 6 else 0
  }

  /** The byte whose upper bits the decoder holds and whose lower bits the encoder holds. */
  function Pending(mode: nat, d: nat, left: nat): byte
    requires 0 < mode < 5 && Kept(Behind(mode), d) && Held(mode, left)
  {
    if mode == 1 then d * 8 + left / 4
    else if mode == 2 then d * 2 + left / 16
    else if mode == 3 then d * 16 + left / 2
    else d * 4 + left / 8
  }

  lemma DecodeLetter(mode: nat, left: nat, v: nat, s: string)
    requires v < 32 && Kept(mode, left)
    ensures
      var (b, m, l) := Eat(mode, left, v);
      var (rest, ok) := Decode(m, l, s);
      Decode(mode, left, [Letter(v)] + s) == (b + rest, ok)
  {
    hide Decode, Eat, Kept, Letter, Table;
    TableOfLetter(v);
    assert At([Letter(v)] + s, 0) == Letter(v);
    DecodeStep(mode, left, [Letter(v)] + s);
    assert ([Letter(v)] + s)[1..] == s;
  }

  lemma DecodeTwo(mode: nat, left: nat, v: nat, w: nat, s: string)
    requires v < 32 && w < 32 && Kept(mode, left)
    ensures
      var (b, m, l) := Eat(mode, left, v);
      var (b', m', l') := Eat(m, l, w);
      var (rest, ok) := Decode(m', l', s);
      Decode(mode, left, [Letter(v), Letter(w)] + s) == (b + (b' + rest), ok)
  {
    hide Decode, Eat, Kept, Letter;
    assert [Letter(v), Letter(w)] + s == [Letter(v)] + ([Letter(w)] + s);
    DecodeLetter(mode, left, v, [Letter(w)] + s);
    var (b, m, l) := Eat(mode, left, v);
    DecodeLetter(m, l, w, s);
  }

  lemma DecodePad(mode: nat, left: nat)
    requires 0 < mode < 5
    ensures var m := Behind(mode) + 1; Decode(m, 0, Pad(mode)) == ([], true)
  {
    DecodeEnd(Behind(mode) + 1, 0, Pad(mode));
  }

  /** The last character completes the pending byte and leaves nothing. */
  lemma LastCharacter(mode: nat, d: nat, left: nat)
    requires 0 < mode < 5 && Held(mode, left) && Kept(Behind(mode), d)
    ensures Eat(Behind(mode), d, left) == ([Pending(mode, d, left)], Behind(mode) + 1, 0)
  {
  }

  lemma DecodePadding(mode: nat, d: nat, left: nat)
    requires 0 < mode < 5 && Held(mode, left) && Kept(Behind(mode), d)
    ensures Decode(Behind(mode), d, Padding(mode, left)) == ([Pending(mode, d, left)], true)
  {
    hide Decode, Eat, Letter, Pad, Pending;
    DecodeLetter(Behind(mode), d, left, Pad(mode));
    LastCharacter(mode, d, left);
    DecodePad(mode, left);
    assert [Pending(mode, d, left)] + [] == [Pending(mode, d, left)];
  }

  lemma {:induction false} RoundTripFrom(mode: nat, d: nat, left: nat, bytes: seq<byte>)
    requires mode < 5 && Held(mode, left) && Kept(Behind(mode), d)
    ensures Decode(Behind(mode), d, Encode(mode, left, bytes)) ==
      ((if mode == 0 then [] else [Pending(mode, d, left)]) + bytes, true)
    decreases |bytes|
  {
    hide Decode, Encode, Kept, Held, Pending, Letter, Feed, Behind, Padding;
    if bytes == [] {
      EncodeEnd(mode, left);
      if mode == 0 {
        NothingLeft(left, d);
      } else {
        DecodePadding(mode, d, left);
      }
      assert forall a: seq<byte> :: a + bytes == a;
    } else {
      var x, rest := bytes[0], bytes[1..];
      assert bytes == [x] + rest;
      EncodeStep(mode, left, x, rest);
      var (t, m, l) := Feed(mode, left, x);
      FedState(mode, left, x);
      RoundTripFrom(m, NextHeld(mode, x), l, rest);
      FeedDecoded(mode, d, left, x, Encode(m, l, rest));
      var a: seq<byte> := if mode == 0 then [] else [Pending(mode, d, left)];
      if m == 0 {
        assert [] + rest == rest && a + ([x] + rest) == a + bytes;
      } else {
        assert [] + ([x] + rest) == bytes;
      }
    }
  }

  lemma NothingLeft(left: nat, d: nat)
    requires Held(0, left)
    ensures Behind(0) == 0 && Decode(0, d, Padding(0, left)) == ([], true)
  {
    DecodeEnd(0, d, "");
  }

  /** What the decoder holds after the characters of one byte. */
  function NextHeld(mode: nat, x: byte): nat {
    if mode == 0 then x / 8 else if mode == 1 then x / 2 else if mode == 2 then x / 16 else if mode == 3 then x / 4 else x / 32
  }

  lemma FedState(mode: nat, left: nat, x: byte)
    requires mode < 5 && Held(mode, left)
    ensures
      var m := Feed(mode, left, x).1;
      m == (if mode == 4 then 0 else mode + 1) && Kept(Behind(m), NextHeld(mode, x)) &&
      (m != 0 ==> Pending(m, NextHeld(mode, x), Feed(mode, left, x).2) == x)
  {
    hide Letter;
  }

  /** The characters of one byte complete the pending byte and leave the new one pending, or complete both. */
  lemma FeedDecoded(mode: nat, d: nat, left: nat, x: byte, tail: string)
    requires mode < 5 && Held(mode, left) && Kept(Behind(mode), d)
    ensures
      var (t, m, l) := Feed(mode, left, x);
      Kept(Behind(m), NextHeld(mode, x)) &&
      var (rest, ok) := Decode(Behind(m), NextHeld(mode, x), tail);
      Decode(Behind(mode), d, t + tail) ==
        ((if mode == 0 then [] else [Pending(mode, d, left)]) + ((if m == 0 then [x] else []) + rest), ok)
  {
    hide Decode, Letter;
    FedState(mode, left, x);
    var m := Feed(mode, left, x).1;
    var (rest, ok) := Decode(Behind(m), NextHeld(mode, x), tail);
    assert [] + rest == rest;
    if mode == 0 {
      DecodeLetter(0, d, x / 8, tail);
    } else if mode == 1 {
      FeedDecoded1(d, left, x, tail);
    } else if mode == 2 {
      DecodeLetter(3, d, left + x / 16, tail);
      Halves(left, x / 16, 16);
    } else if mode == 3 {
      FeedDecoded3(d, left, x, tail);
    } else {
      FeedDecoded4(d, left, x, tail);
    }
  }

  lemma FeedDecoded1(d: nat, left: nat, x: byte, tail: string)
    requires Held(1, left) && d < 32
    ensures
      var (rest, ok) := Decode(3, x / 2, tail);
      Decode(1, d, [Letter(left + x / 64), Letter(x / 2 % 32)] + tail) == ([d * 8 + left / 4] + rest, ok)
  {
    hide Decode, Letter;
    DecodeTwo(1, d, left + x / 64, x / 2 % 32, tail);
    Halves(left, x / 64, 4);
    assert x / 64 * 32 + x / 2 % 32 == x / 2;
    var (rest, ok) := Decode(3, x / 2, tail);
    assert [] + rest == rest;
  }

  lemma FeedDecoded3(d: nat, left: nat, x: byte, tail: string)
    requires Held(3, left) && d < 16
    ensures
      var (rest, ok) := Decode(6, x / 4, tail);
      Decode(4, d, [Letter(left + x / 128), Letter(x / 4 % 32)] + tail) == ([d * 16 + left / 2] + rest, ok)
  {
    hide Decode, Letter;
    DecodeTwo(4, d, left + x / 128, x / 4 % 32, tail);
    Halves(left, x / 128, 2);
    assert x / 128 * 32 + x / 4 % 32 == x / 4;
    var (rest, ok) := Decode(6, x / 4, tail);
    assert [] + rest == rest;
  }

  lemma FeedDecoded4(d: nat, left: nat, x: byte, tail: string)
    requires Held(4, left) && d < 64
    ensures
      var (rest, ok) := Decode(0, x / 32, tail);
      Decode(6, d, [Letter(left + x / 32), Letter(x % 32)] + tail) == ([d * 4 + left / 8] + ([x] + rest), ok)
  {
    hide Decode, Letter;
    DecodeTwo(6, d, left + x / 32, x % 32, tail);
    Halves(left, x / 32, 8);
    Arith.DivMod(x, 32);
  }

  lemma Halves(left: nat, v: nat, k: nat)
    requires v < k && left % k == 0
    ensures (left + v) / k == left / k && (left + v) % k == v
  {
    Arith.DivMod(left, k);
    Arith.DivModUnique(left + v, k, left / k, v);
  }

  /** Decoding an encoded text gives the bytes back, and finds it valid. */
  lemma RoundTrip(bytes: seq<byte>)
    ensures Decode(0, 0, Encode(0, 0, bytes)) == (bytes, true)
  {
    hide Decode, Encode;
    RoundTripFrom(0, 0, 0, bytes);
    assert [] + bytes == bytes;
  }

  // ----- Which texts decode to which bytes -----

  function Lower(c: char): char {
    if 'A' <= c <= 'Z' then 'a' + (c - 'A') else c
  }

  lemma LetterOfTable(c: char)
    requires Table(c) != -1
    ensures Letter(Table(c)) == Lower(c)
  {
  }

  lemma TableOfLower(c: char)
    ensures Table(Lower(c)) == Table(c) && (Lower(c) == '=' <==> c == '=')
  {
  }

  /** The bits of the next byte that are below those the decoder holds. */
  function Below(mode: nat): (n: nat)
    ensures n > 0
  {
    if mode == 1 then 8 else if mode == 2 then 64 else if mode == 3 then 2 else if mode == 4 then 16
    else if mode == 5 then 128 else if mode == 6 then 4 else 32
  }

  /** What the decoder holds in a given state are the upper bits of the first byte to come, or padding is due. */
  predicate Owing(mode: nat, left: nat, bytes: seq<byte>) {
    if mode == 0 then true
    else if bytes == [] then mode != 1 && mode != 3 && mode != 6 && left == 0
    else bytes[0] / Below(mode) == left
  }

  /** The text still to come for these bytes. */
  function Owed(mode: nat, left: nat, bytes: seq<byte>): string
    requires mode < 8 && Owing(mode, left, bytes)
  {
    if mode == 0 then Encode(0, 0, bytes)
    else if bytes == [] then Pad(if mode == 2 then 1 else if mode == 4 then 2 else if mode == 5 then 3 else 4)
    else OwedFor(mode, bytes[0], bytes[1..])
  }

  function OwedFor(mode: nat, x: byte, rest: seq<byte>): string
    requires 0 < mode < 8
  {
    AllHeld(x);
    if mode == 1 then Encode(1, x % 8 * 4, rest)
    else if mode == 2 then [Letter(x / 2 % 32)] + Encode(2, x % 2 * 16, rest)
    else if mode == 3 then Encode(2, x % 2 * 16, rest)
    else if mode == 4 then Encode(3, x % 16 * 2, rest)
    else if mode == 5 then [Letter(x / 4 % 32)] + Encode(4, x % 4 * 8, rest)
    else if mode == 6 then Encode(4, x % 4 * 8, rest)
    else [Letter(x % 32)] + Encode(0, 0, rest)
  }

  lemma AllHeld(x: byte)
    ensures Held(0, 0) && Held(1, x % 8 * 4) && Held(2, x % 2 * 16) && Held(3, x % 16 * 2) && Held(4, x % 4 * 8)
  {
  }

  /** Between groups nothing is held. */
  lemma EncodeFresh(left: nat, bytes: seq<byte>)
    requires left < 32
    ensures Encode(0, left, bytes) == Encode(0, 0, bytes)
  {
  }

  /** The bits of the next character below those of a byte that it completes. */
  function Unit(e: nat): (k: nat)
    ensures k > 0
  {
    if e == 1 then 4 else if e == 2 then 16 else if e == 3 then 2 else 8
  }

  lemma UnitHeld(e: nat, d: nat)
    requires 0 < e < 5 && d < 32
    ensures Held(e, d / Unit(e) * Unit(e)) && d / Unit(e) * Unit(e) + d % Unit(e) == d
  {
  }

  /** A character that completes a byte, and what follows it. */
  lemma OwedNext(e: nat, d: nat, rest: seq<byte>)
    requires 0 < e < 5 && d < 32 && Owing(Behind(e) + 1, d % Unit(e), rest)
    ensures Held(e, d / Unit(e) * Unit(e))
    ensures Encode(e, d / Unit(e) * Unit(e), rest) == [Letter(d)] + Owed(Behind(e) + 1, d % Unit(e), rest)
  {
    hide Encode, Letter, Held, Feed, OwedFor, Below;
    UnitHeld(e, d);
    var left := d / Unit(e) * Unit(e);
    if rest == [] {
      EncodeEnd(e, left);
    } else {
      var y, tail := rest[0], rest[1..];
      assert rest == [y] + tail;
      EncodeStep(e, left, y, tail);
      hide Unit;
      OwedByte(e, left, d, y, tail);
    }
  }

  lemma OwedByte(e: nat, left: nat, d: nat, y: byte, tail: seq<byte>)
    requires 0 < e < 5 && d < 32 && Held(e, left) && left + y / Below(Behind(e) + 1) == d
    ensures
      var (t, m, l) := Feed(e, left, y);
      t + Encode(m, l, tail) == [Letter(d)] + OwedFor(Behind(e) + 1, y, tail)
  {
    hide Encode, Letter, Feed, OwedFor, Held;
    if e == 1 {
      OwedByte1(left, d, y, tail);
    } else if e == 2 {
      OwedByte2(left, d, y, tail);
    } else if e == 3 {
      OwedByte3(left, d, y, tail);
    } else {
      OwedByte4(left, d, y, tail);
    }
  }

  lemma OwedByte1(left: nat, d: nat, y: byte, tail: seq<byte>)
    requires d < 32 && Held(1, left) && left + y / 64 == d
    ensures
      var (t, m, l) := Feed(1, left, y);
      t + Encode(m, l, tail) == [Letter(d)] + OwedFor(2, y, tail)
  {
    hide Encode, Letter;
    Pulled(Letter(d), Letter(y / 2 % 32), Encode(2, y % 2 * 16, tail));
  }

  lemma OwedByte2(left: nat, d: nat, y: byte, tail: seq<byte>)
    requires d < 32 && Held(2, left) && left + y / 16 == d
    ensures
      var (t, m, l) := Feed(2, left, y);
      t + Encode(m, l, tail) == [Letter(d)] + OwedFor(4, y, tail)
  {
    hide Encode, Letter;
  }

  lemma OwedByte3(left: nat, d: nat, y: byte, tail: seq<byte>)
    requires d < 32 && Held(3, left) && left + y / 128 == d
    ensures
      var (t, m, l) := Feed(3, left, y);
      t + Encode(m, l, tail) == [Letter(d)] + OwedFor(5, y, tail)
  {
    hide Encode, Letter;
    Pulled(Letter(d), Letter(y / 4 % 32), Encode(4, y % 4 * 8, tail));
  }

  lemma OwedByte4(left: nat, d: nat, y: byte, tail: seq<byte>)
    requires d < 32 && Held(4, left) && left + y / 32 == d
    ensures
      var (t, m, l) := Feed(4, left, y);
      t + Encode(m, l, tail) == [Letter(d)] + OwedFor(7, y, tail)
  {
    hide Encode, Letter;
    EncodeFresh(left, tail);
    Pulled(Letter(d), Letter(y % 32), Encode(0, 0, tail));
  }

  lemma Pulled(a: char, b: char, t: string)
    ensures [a, b] + t == [a] + ([b] + t)
  {
  }

  /** A character read is the first one of what was owed. */
  lemma OwedStep(mode: nat, left: nat, d: nat, rest: seq<byte>)
    requires Kept(mode, left) && d < 32 && Owing(Eat(mode, left, d).1, Eat(mode, left, d).2, rest)
    ensures
      var (b, m, l) := Eat(mode, left, d);
      Owing(mode, left, b + rest) && Owed(mode, left, b + rest) == [Letter(d)] + Owed(m, l, rest)
  {
    hide Encode, Letter, Held;
    if mode == 0 {
      assert [] + rest == rest == [rest[0]] + rest[1..];
      AllHeld(0);
      EncodeStep(0, 0, rest[0], rest[1..]);
    } else if mode == 2 || mode == 5 {
      assert [] + rest == rest;
      Joined(left, d, rest[0]);
    } else {
      Completed(mode, left, d, rest);
    }
  }

  lemma Joined(left: nat, d: nat, x: byte)
    requires d < 32
    ensures x / 2 == left * 32 + d ==> x / 64 == left && x / 2 % 32 == d
    ensures x / 4 == left * 32 + d ==> x / 128 == left && x / 4 % 32 == d
  {
    Arith.DivModSplit(x, 2, 32);
    Arith.DivModSplit(x, 4, 32);
    if x / 2 == left * 32 + d {
      Arith.DivModUnique(x / 2, 32, left, d);
    }
    if x / 4 == left * 32 + d {
      Arith.DivModUnique(x / 4, 32, left, d);
    }
  }

  lemma Completed(mode: nat, left: nat, d: nat, rest: seq<byte>)
    requires mode == 1 || mode == 3 || mode == 4 || mode == 6 || mode == 7
    requires Kept(mode, left) && d < 32 && Owing(Eat(mode, left, d).1, Eat(mode, left, d).2, rest)
    ensures
      var (b, m, l) := Eat(mode, left, d);
      Owing(mode, left, b + rest) && Owed(mode, left, b + rest) == [Letter(d)] + Owed(m, l, rest)
  {
    hide Encode, Letter, Held;
    var x := Eat(mode, left, d).0[0];
    assert ([x] + rest)[1..] == rest;
    CompletedBits(mode, left, d);
    if mode == 1 {
      OwedNext(1, d, rest);
    } else if mode == 3 {
      OwedNext(2, d, rest);
    } else if mode == 4 {
      OwedNext(3, d, rest);
    } else if mode == 6 {
      OwedNext(4, d, rest);
    }
  }

  lemma CompletedBits(mode: nat, left: nat, d: nat)
    requires Kept(mode, left) && d < 32
    ensures mode == 1 ==> (left * 8 + d / 4) / 8 == left && (left * 8 + d / 4) % 8 == d / 4
    ensures mode == 3 ==> (left * 2 + d / 16) / 2 == left && (left * 2 + d / 16) % 2 == d / 16
    ensures mode == 4 ==> (left * 16 + d / 2) / 16 == left && (left * 16 + d / 2) % 16 == d / 2
    ensures mode == 6 ==> (left * 4 + d / 8) / 4 == left && (left * 4 + d / 8) % 4 == d / 8
    ensures mode == 7 ==> (left * 32 + d) / 32 == left && (left * 32 + d) % 32 == d
  {
  }

  /** The next digit of bytes that are still owed. */
  function NextDigit(mode: nat, bytes: seq<byte>): (d: nat)
    requires mode < 8 && bytes != []
    ensures d < 32
  {
    DigitOf(mode, bytes[0], if |bytes| > 1 then bytes[1] else 0)
  }

  /** Five bits taken from a byte, or across it and the next. */
  function DigitOf(mode: nat, x: byte, y: byte): (d: nat)
    requires mode < 8
    ensures d < 32
  {
    if mode == 0 then x / 8
    else if mode == 1 then x % 8 * 4 + y / 64
    else if mode == 2 then x / 2 % 32
    else if mode == 3 then x % 2 * 16 + y / 16
    else if mode == 4 then x % 16 * 2 + y / 128
    else if mode == 5 then x / 4 % 32
    else if mode == 6 then x % 4 * 8 + y / 32
    else x % 32
  }

  /** The upper bits of a digit taken across two bytes are the lower ones of the first, its lower bits the upper ones of the second. */
  lemma Across(x: byte, a: nat, k: nat, c: nat)
    requires a > 0 && c < k
    ensures (x % a * k + c) / k == x % a && (x % a * k + c) % k == c && x / a * a + x % a == x
  {
    Arith.DivMod(x, a);
    Arith.DivModUnique(x % a * k + c, k, x % a, c);
  }

  /** Such a digit completes the byte whose upper bits are held, and leaves the upper bits of the next. */
  lemma DigitEaten(mode: nat, left: nat, x: byte, y: byte)
    requires Kept(mode, left) && (mode != 0 ==> x / Below(mode) == left)
    ensures
      var (b, m, l) := Eat(mode, left, DigitOf(mode, x, y));
      && (mode == 0 || mode == 2 || mode == 5 ==> b == [] && l == x / Below(m))
      && (mode == 1 || mode == 3 || mode == 4 || mode == 6 || mode == 7 ==> b == [x])
      && (mode == 1 || mode == 3 || mode == 4 || mode == 6 ==> l == y / Below(m))
  {
    hide Kept;
    if mode == 1 || mode == 3 || mode == 4 || mode == 6 {
      hide Eat, DigitOf, Below;
      DigitAcross(mode, left, x, y);
    } else if mode == 2 {
      Within(x, 2);
    } else if mode == 5 {
      Within(x, 4);
    } else if mode == 7 {
      Arith.DivMod(x, 32);
    } else {
      KeptMode(mode, left);
    }
  }

  lemma DigitAcross(mode: nat, left: nat, x: byte, y: byte)
    requires Kept(mode, left) && x / Below(mode) == left && (mode == 1 || mode == 3 || mode == 4 || mode == 6)
    ensures
      var (b, m, l) := Eat(mode, left, DigitOf(mode, x, y));
      b == [x] && l == y / Below(m)
  {
    hide Kept;
    if mode == 1 {
      Across(x, 8, 4, y / 64);
    } else if mode == 3 {
      Across(x, 2, 16, y / 16);
    } else if mode == 4 {
      Across(x, 16, 2, y / 128);
    } else {
      Across(x, 4, 8, y / 32);
    }
  }

  lemma Within(x: byte, a: nat)
    requires a > 0
    ensures x / (a * 32) * 32 + x / a % 32 == x / a
  {
    Arith.DivModSplit(x, a, 32);
    Arith.DivMod(x / a, 32);
  }

  lemma NextDigitRight(mode: nat, left: nat, bytes: seq<byte>)
    requires Kept(mode, left) && bytes != [] && Owing(mode, left, bytes)
    ensures
      var (b, m, l) := Eat(mode, left, NextDigit(mode, bytes));
      && b <= bytes && Owing(m, l, bytes[|b|..]) && bytes == b + bytes[|b|..]
      && Owed(mode, left, bytes) == [Letter(NextDigit(mode, bytes))] + Owed(m, l, bytes[|b|..])
  {
    hide Encode, Letter, DigitOf, Owed;
    var d := NextDigit(mode, bytes);
    var (b, m, l) := Eat(mode, left, d);
    DigitEaten(mode, left, bytes[0], if |bytes| > 1 then bytes[1] else 0);
    assert bytes == b + bytes[|b|..];
    OwedStep(mode, left, d, bytes[|b|..]);
  }

  /** The text begins with `t`, whatever the case of its letters, and has no character of the alphabet after it. */
  predicate Begins(s: string, t: string) {
    |t| <= |s| && (forall i :: 0 <= i < |t| ==> Lower(s[i]) == t[i]) && Table(At(s, |t|)) == -1
  }

  lemma BeginsStep(s: string, c: char, t: string)
    requires |s| > 0 && Lower(s[0]) == c
    ensures Begins(s, [c] + t) <==> Begins(s[1..], t)
  {
    hide Lower, Table;
    assert At(s, |t| + 1) == At(s[1..], |t|);
    if |t| < |s| && forall i :: 0 <= i < |t| ==> Lower(s[1..][i]) == t[i] {
      forall i | 0 <= i < |t| + 1 ensures Lower(s[i]) == ([c] + t)[i] {
        assert i > 0 ==> s[i] == s[1..][i - 1];
      }
    }
    if |t| < |s| && forall i :: 0 <= i < |t| + 1 ==> Lower(s[i]) == ([c] + t)[i] {
      forall i | 0 <= i < |t| ensures Lower(s[1..][i]) == t[i] {
        assert Lower(s[i + 1]) == ([c] + t)[i + 1];
      }
    }
  }

  lemma BeginsPad(s: string, e: nat)
    requires 0 < e < 5
    ensures Begins(s, Pad(e)) <==> Padded(s, |Pad(e)|)
  {
    hide Lower, Table;
    if Begins(s, Pad(e)) {
      forall i | 0 <= i < |Pad(e)| ensures At(s, i) == '=' {
        TableOfLower(s[i]);
      }
    }
    if Padded(s, |Pad(e)|) {
      assert At(s, |Pad(e)| - 1) == '=';
      forall i | 0 <= i < |Pad(e)| ensures i < |s| && Lower(s[i]) == Pad(e)[i] {
        assert At(s, i) == '=';
        TableOfLower(s[i]);
      }
    }
  }

  /** From every state: a text is valid and gives these bytes exactly when it begins with what they owe. */
  lemma {:induction false} DecodesIff(mode: nat, left: nat, s: string, bytes: seq<byte>)
    requires Kept(mode, left)
    ensures Decode(mode, left, s) == (bytes, true) <==> Owing(mode, left, bytes) && Begins(s, Owed(mode, left, bytes))
    decreases |s|
  {
    hide Decode, Encode, Letter, Begins, Owed, Owing, Eat, NextDigit, Table, Lower, Kept;
    KeptMode(mode, left);
    if Table(At(s, 0)) == -1 {
      DecodeEnd(mode, left, s);
      NothingOwed(mode, left, s, bytes);
    } else {
      var d := Table(At(s, 0));
      DecodeStep(mode, left, s);
      LetterOfTable(s[0]);
      var (b, m, l) := Eat(mode, left, d);
      KeptMode(m, l);
      if Decode(mode, left, s) == (bytes, true) {
        var rest := Decode(m, l, s[1..]).0;
        DecodesIff(m, l, s[1..], rest);
        OwedStep(mode, left, d, rest);
        BeginsStep(s, Lower(s[0]), Owed(m, l, rest));
      }
      if Owing(mode, left, bytes) && Begins(s, Owed(mode, left, bytes)) {
        FirstOwed(mode, left, s, bytes);
        NextDigitRight(mode, left, bytes);
        var rest := bytes[|b|..];
        BeginsStep(s, Lower(s[0]), Owed(m, l, rest));
        DecodesIff(m, l, s[1..], rest);
      }
    }
  }

  lemma KeptMode(mode: nat, left: nat)
    requires Kept(mode, left)
    ensures mode < 8
  {
  }

  lemma NothingOwed(mode: nat, left: nat, s: string, bytes: seq<byte>)
    requires Kept(mode, left) && Table(At(s, 0)) == -1
    ensures ([], Ends(mode, left, s)) == (bytes, true) <==> Owing(mode, left, bytes) && Begins(s, Owed(mode, left, bytes))
  {
    hide Encode, Letter, Begins, Table, NextDigit, Eat, Padded, Lower;
    if bytes == [] {
      NoneHeld();
      EncodeEnd(0, 0);
      BeginsNone(s);
      BeginsPad(s, 1);
      BeginsPad(s, 2);
      BeginsPad(s, 3);
      BeginsPad(s, 4);
    } else if Owing(mode, left, bytes) {
      NextDigitRight(mode, left, bytes);
      NoLetterFirst(s, NextDigit(mode, bytes), Owed(mode, left, bytes));
    }
  }

  lemma BeginsNone(s: string)
    ensures Begins(s, "") <==> Table(At(s, 0)) == -1
  {
  }

  lemma NoLetterFirst(s: string, d: nat, t: string)
    requires d < 32 && t != "" && t[0] == Letter(d) && Table(At(s, 0)) == -1
    ensures !Begins(s, t)
  {
    hide Letter, Table, Lower;
    TableOfLetter(d);
    TableOfLower(At(s, 0));
  }

  /** A character of the alphabet can only be the next digit. */
  lemma FirstOwed(mode: nat, left: nat, s: string, bytes: seq<byte>)
    requires Kept(mode, left) && Table(At(s, 0)) != -1 && Owing(mode, left, bytes) && Begins(s, Owed(mode, left, bytes))
    ensures bytes != [] && Table(At(s, 0)) == NextDigit(mode, bytes)
  {
    hide Encode, Letter, Begins, Table, NextDigit, Eat, Lower;
    if bytes == [] {
      PaddingHasNoLetter(mode, left, s);
    } else {
      NextDigitRight(mode, left, bytes);
      LetterFirst(s, NextDigit(mode, bytes), Owed(mode, left, bytes));
    }
  }

  lemma PaddingHasNoLetter(mode: nat, left: nat, s: string)
    requires mode < 8 && Table(At(s, 0)) != -1 && Owing(mode, left, [])
    ensures !Begins(s, Owed(mode, left, []))
  {
    hide Letter, Encode, Lower, Begins;
    NoneHeld();
    EncodeEnd(0, 0);
    BeginsNone(s);
    BeginsPad(s, 1);
    BeginsPad(s, 2);
    BeginsPad(s, 3);
    BeginsPad(s, 4);
  }

  lemma LetterFirst(s: string, d: nat, t: string)
    requires d < 32 && t != "" && t[0] == Letter(d) && Begins(s, t)
    ensures Table(At(s, 0)) == d
  {
    hide Letter, Table, Lower;
    TableOfLetter(d);
    TableOfLower(s[0]);
  }

  /** A text is valid with these bytes exactly when it begins, up to letter case, with their encoding, followed by no character of the
      alphabet; whatever else follows is not looked at. */
  lemma ValidTexts(s: string, bytes: seq<byte>)
    ensures Decode(0, 0, s) == (bytes, true) <==> Begins(s, Encode(0, 0, bytes))
  {
    hide Decode, Encode, Begins;
    DecodesIff(0, 0, s, bytes);
  }

  // ----- The loops -----

  lemma NoneHeld()
    ensures Held(0, 0)
  {
  }

  lemma HeldFits(mode: nat, left: nat)
    requires Held(mode, left)
    ensures left < 32
  {
  }

  /** The held bits, and padding to a whole group. */
  method Pad8(prefix: string, mode: nat, left: nat) returns (s: string)
    requires mode < 5 && left < 32
    ensures s == prefix + Padding(mode, left)
  {
    s := prefix;
    if mode != 0 {
      s := s + [Letter(left)];
      var n := 0;
      while n < |Pad(mode)|
        invariant 0 <= n <= |Pad(mode)|
        invariant s == prefix + ([Letter(left)] + Pad(mode)[..n])
      {
        assert Pad(mode)[..n + 1] == Pad(mode)[..n] + "=";
        s := s + "=";
        n := n + 1;
      }
      assert Pad(mode)[..n] == Pad(mode);
    }
  }

  /** `EncodeBase32` */
  method EncodeBytes(bytes: seq<byte>) returns (s: string)
    ensures s == Encode(0, 0, bytes)
  {
    hide Encode, Letter, Padding, Held;
    s := "";
    var mode, left, i := 0, 0, 0;
    assert bytes[0..] == bytes;
    NoneHeld();
    while i < |bytes|
      invariant 0 <= i <= |bytes| && 0 <= mode < 5 && 0 <= left && Held(mode, left)
      invariant s + Encode(mode, left, bytes[i..]) == Encode(0, 0, bytes)
    {
      var x := bytes[i];
      assert bytes[i..] == [x] + bytes[i + 1..];
      EncodeStep(mode, left, x, bytes[i + 1..]);
      ghost var s0 := s;
      ghost var (t, m, l) := Feed(mode, left, x);
      Room(mode, left, x);
      assert (s + t) + Encode(m, l, bytes[i + 1..]) == s + (t + Encode(m, l, bytes[i + 1..]));
      if mode == 0 {
        s := s + [Letter(x / 8)];
        left := x % 8 * 4;
        mode := 1;
      } else if mode == 1 {
        s := s + [Letter(left + x / 64)];
        s := s + [Letter(x / 2 % 32)];
        left := x % 2 * 16;
        mode := 2;
      } else if mode == 2 {
        s := s + [Letter(left + x / 16)];
        left := x % 16 * 2;
        mode := 3;
      } else if mode == 3 {
        s := s + [Letter(left + x / 128)];
        s := s + [Letter(x / 4 % 32)];
        left := x % 4 * 8;
        mode := 4;
      } else {
        s := s + [Letter(left + x / 32)];
        s := s + [Letter(x % 32)];
        mode := 0;
      }
      assert s == s0 + t;
      i := i + 1;
    }
    assert bytes[i..] == [];
    EncodeEnd(mode, left);
    HeldFits(mode, left);
    s := Pad8(s, mode, left);
  }

  lemma NoneKept()
    ensures Kept(0, 0)
  {
  }

  /** One turn of the decoding loop. */
  method TakeDigit(bytes0: seq<byte>, mode: nat, left: nat, dec: nat) returns (bytes: seq<byte>, mode': nat, left': nat)
    requires Kept(mode, left) && dec < 32
    ensures Kept(mode', left') && mode' == Eat(mode, left, dec).1 && left' == Eat(mode, left, dec).2
    ensures bytes == bytes0 + Eat(mode, left, dec).0
  {
    assert bytes0 + [] == bytes0;
    bytes, left' := bytes0, left;
    if mode == 0 {
      left' := dec;
      mode' := 1;
    } else if mode == 1 {
      bytes := bytes + [left * 8 + dec / 4];
      left' := dec % 4;
      mode' := 2;
    } else if mode == 2 {
      left' := left * 32 + dec;
      mode' := 3;
    } else if mode == 3 {
      bytes := bytes + [left * 2 + dec / 16];
      left' := dec % 16;
      mode' := 4;
    } else if mode == 4 {
      bytes := bytes + [left * 16 + dec / 2];
      left' := dec % 2;
      mode' := 5;
    } else if mode == 5 {
      left' := left * 32 + dec;
      mode' := 6;
    } else if mode == 6 {
      bytes := bytes + [left * 4 + dec / 8];
      left' := dec % 8;
      mode' := 7;
    } else {
      bytes := bytes + [left * 32 + dec];
      mode' := 0;
    }
  }

  /** `DecodeBase32` with its validity flag. */
  method DecodeText(text: string) returns (bytes: seq<byte>, valid: bool)
    ensures (bytes, valid) == Decode(0, 0, text)
  {
    hide Decode, Table, Ends, Eat, Kept;
    NoneKept();
    bytes := [];
    var mode, left, i := 0, 0, 0;
    ghost var all := Decode(0, 0, text);
    assert text[0..] == text && [] + all.0 == all.0;
    while Table(At(text, i)) != -1
      invariant 0 <= i <= |text| && 0 <= mode && 0 <= left && Kept(mode, left)
      invariant
        var (rest, ok) := Decode(mode, left, text[i..]);
        all == (bytes + rest, ok)
      decreases |text| - i
    {
      var dec := Table(At(text, i));
      assert At(text[i..], 0) == At(text, i);
      DecodeStep(mode, left, text[i..]);
      assert text[i..][1..] == text[i + 1..];
      i := i + 1;
      ghost var was, b := bytes, Eat(mode, left, dec).0;
      bytes, mode, left := TakeDigit(bytes, mode, left, dec);
      ghost var rest := Decode(mode, left, text[i..]).0;
      assert was + (b + rest) == (was + b) + rest;
    }
    assert At(text[i..], 0) == At(text, i);
    assert bytes + [] == bytes;
    DecodeEnd(mode, left, text[i..]);
    valid := Ends(mode, left, text[i..]);
  }

  /** A text made by the encoder is taken back by the decoder. */
  method EncodeThenDecode(bytes: seq<byte>) returns (back: seq<byte>, valid: bool)
    ensures back == bytes && valid
  {
    var s := EncodeBytes(bytes);
    back, valid := DecodeText(s);
    RoundTrip(bytes);
  }
}
