/** Base64 text (section 4 of RFC 4648): the encoder's and decoder's byte-by-byte state machines, and their round trip. */
module Base64 {
  import opened Words

  // ----- Alphabet -----

  function Letter(v: nat): char
    requires v < 64
  {
    if v < 26 then 'A' + v as char
    else if v < 52 then 'a' + (v - 26) as char
    else if v < 62 then '0' + (v - 52) as char
    else if v == 62 then '+' else '/'
  }

  /** The decoding table: a value below 64, or -1. */
  function Table(c: char): (r: int)
    ensures -1 <= r < 64
  {
    if 'A' <= c <= 'Z' then (c - 'A') as int
    else if 'a' <= c <= 'z' then (c - 'a') as int + 26
    else if '0' <= c <= '9' then (c - '0') as int + 52
    else if c == '+' then 62 else if c == '/' then 63 else -1
  }

  lemma TableOfLetter(v: nat)
    requires v < 64
    ensures Table(Letter(v)) == v
  {
  }

  // ----- Encoder -----

  /** What one byte adds to the text, and the state after it: 0, 1 or 2 bytes of a group taken, and the bits held. */
  function Feed(mode: nat, left: nat, x: byte): (r: (string, nat, nat))
    requires mode < 3 && Held(mode, left)
    ensures r.1 < 3 && Held(r.1, r.2)
  {
    if mode == 0 then ([Letter(x / 4)], 1, x % 4 * 16)
    else if mode == 1 then ([Letter(left + x / 16)], 2, x % 16 * 4)
    else ([Letter(left + x / 64), Letter(x % 64)], 0, left)
  }

  /** Bits held between bytes are where the next character has them. */
  predicate Held(mode: nat, left: nat) {
    left < 64 && (mode == 1 ==> left % 16 == 0) && (mode == 2 ==> left % 4 == 0)
  }

  function Padding(mode: nat, left: nat): string
    requires mode < 3 && left < 64
  {
    if mode == 0 then "" else [Letter(left)] + if mode == 1 then "==" else "="
  }

  function Encode(mode: nat, left: nat, bytes: seq<byte>): string
    requires mode < 3 && Held(mode, left)
    decreases |bytes|
  {
    if bytes == [] then Padding(mode, left)
    else
      var (t, m, l) := Feed(mode, left, bytes[0]);
      t + Encode(m, l, bytes[1..])
  }

  // ----- Decoder -----

  /** The bits kept between characters: six, four, then two. */
  predicate Kept(mode: nat, left: nat) {
    mode < 4 && (mode == 1 ==> left < 64) && (mode == 2 ==> left < 16) && (mode == 3 ==> left < 4)
  }

  /** What one character yields, and the state after it. */
  function Eat(mode: nat, left: nat, d: nat): (r: (seq<byte>, nat, nat))
    requires Kept(mode, left) && d < 64
    ensures Kept(r.1, r.2)
  {
    if mode == 0 then ([], 1, d)
    else if mode == 1 then ([left * 4 + d / 16], 2, d % 16)
    else if mode == 2 then ([left * 16 + d / 4], 3, d % 4)
    else ([left * 64 + d], 0, left)
  }

  /** The character at an index; the text is terminated by zero. */
  function At(s: string, i: nat): char {
    if i < |s| then s[i] else '\0'
  }

  /** Whether the text ends as the state demands. */
  predicate Ends(mode: nat, left: nat, s: string) {
    if mode == 0 then true
    else if mode == 1 then false
    else if mode == 2 then left == 0 && At(s, 0) == '=' && At(s, 1) == '=' && Table(At(s, 2)) == -1
    else left == 0 && At(s, 0) == '=' && Table(At(s, 1)) == -1
  }

  /** Bytes and validity of the rest of a text. */
  function Decode(mode: nat, left: nat, s: string): (seq<byte>, bool)
    requires Kept(mode, left)
    decreases |s|
  {
    if Table(At(s, 0)) == -1 then ([], Ends(mode, left, s))
    else
      var (b, m, l) := Eat(mode, left, Table(At(s, 0)));
      var (rest, ok) := Decode(m, l, s[1..]);
      (b + rest, ok)
  }

  lemma DecodeStep(mode: nat, left: nat, s: string)
    requires Kept(mode, left) && Table(At(s, 0)) != -1
    ensures |s| > 0
    ensures
      var (b, m, l) := Eat(mode, left, Table(At(s, 0)));
      var (rest, ok) := Decode(m, l, s[1..]);
      Decode(mode, left, s) == (b + rest, ok)
  {
  }

  lemma DecodeEnd(mode: nat, left: nat, s: string)
    requires Kept(mode, left) && Table(At(s, 0)) == -1
    ensures Decode(mode, left, s) == ([], Ends(mode, left, s))
  {
  }

  lemma EncodeStep(mode: nat, left: nat, x: byte, bytes: seq<byte>)
    requires mode < 3 && Held(mode, left)
    ensures
      var (t, m, l) := Feed(mode, left, x);
      Encode(mode, left, [x] + bytes) == t + Encode(m, l, bytes)
  {
    assert ([x] + bytes)[1..] == bytes;
  }

  // ----- Round trip -----

  /** The decoder is one character behind: in mode 1 it holds the six upper bits of the pending byte and the encoder the two
      lower ones; in mode 2 four and four. */
  function Pending(mode: nat, d: nat, left: nat): byte
    requires 0 < mode < 3 && Kept(mode, d) && Held(mode, left)
  {
    if mode == 1 then d * 4 + left / 16 else d * 16 + left / 4
  }

  lemma DecodeLetter(mode: nat, left: nat, v: nat, s: string)
    requires v < 64 && Kept(mode, left)
    ensures
      var (b, m, l) := Eat(mode, left, v);
      var (rest, ok) := Decode(m, l, s);
      Decode(mode, left, [Letter(v)] + s) == (b + rest, ok)
  {
    TableOfLetter(v);
    assert ([Letter(v)] + s)[1..] == s;
  }

  lemma DecodePadding(mode: nat, d: nat, left: nat)
    requires mode < 3 && Held(mode, left) && Kept(mode, d)
    ensures Decode(mode, d, Padding(mode, left)) == (if mode == 0 then [] else [Pending(mode, d, left)], true)
  {
    if mode > 0 {
      var p := if mode == 1 then "==" else "=";
      DecodeLetter(mode, d, left, p);
      var (b, m, l) := Eat(mode, d, left);
      assert Decode(m, l, p) == ([], true);
      assert b + [] == b;
    }
  }

  lemma {:induction false} RoundTripFrom(mode: nat, d: nat, left: nat, bytes: seq<byte>)
    requires mode < 3 && Held(mode, left) && Kept(mode, d)
    ensures Decode(mode, d, Encode(mode, left, bytes)) == ((if mode == 0 then [] else [Pending(mode, d, left)]) + bytes, true)
    decreases |bytes|
  {
    hide Decode, Kept, Held, Pending, Letter, Feed;
    if bytes == [] {
      DecodePadding(mode, d, left);
      assert forall a: seq<byte> :: a + bytes == a;
    } else {
      var x, rest := bytes[0], bytes[1..];
      assert bytes == [x] + rest;
      EncodeStep(mode, left, x, rest);
      var (t, m, l) := Feed(mode, left, x);
      FedState(mode, left, x);
      RoundTripFrom(m, NextHeld(mode, x), l, rest);
      FeedDecoded(mode, d, left, x, Encode(m, l, rest));
      var a: seq<byte> := if mode == 0 then [] else [Pending(mode, d, left)];
      if m == 0 {
        assert [] + rest == rest && a + ([x] + rest) == a + bytes;
      } else {
        assert [] + ([x] + rest) == bytes;
      }
    }
  }

  /** What the decoder holds after the characters of one byte. */
  function NextHeld(mode: nat, x: byte): nat {
    if mode == 0 then x / 4 else if mode == 1 then x / 16 else x / 64
  }

  lemma FedState(mode: nat, left: nat, x: byte)
    requires mode < 3 && Held(mode, left)
    ensures
      var m := Feed(mode, left, x).1;
      m == (if mode == 2 then 0 else mode + 1) && Kept(m, NextHeld(mode, x)) &&
      (m != 0 ==> Pending(m, NextHeld(mode, x), Feed(mode, left, x).2) == x)
  {
  }

  /** The characters of one byte complete the pending byte and leave the new one pending, or complete both. */
  lemma FeedDecoded(mode: nat, d: nat, left: nat, x: byte, tail: string)
    requires mode < 3 && Held(mode, left) && Kept(mode, d)
    ensures
      var (t, m, l) := Feed(mode, left, x);
      Kept(m, NextHeld(mode, x)) &&
      var (rest, ok) := Decode(m, NextHeld(mode, x), tail);
      Decode(mode, d, t + tail) ==
        ((if mode == 0 then [] else [Pending(mode, d, left)]) + ((if m == 0 then [x] else []) + rest), ok)
  {
    hide Decode, Letter;
    FedState(mode, left, x);
    var (rest, ok) := Decode(Feed(mode, left, x).1, NextHeld(mode, x), tail);
    assert [] + rest == rest;
    if mode == 0 {
      DecodeLetter(0, d, x / 4, tail);
    } else if mode == 1 {
      DecodeLetter(1, d, left + x / 16, tail);
      Halves16(left, x / 16);
    } else {
      TwoLetters(d, left, x, tail);
      assert [Pending(2, d, left)] + ([x] + rest) == [Pending(2, d, left), x] + rest;
    }
  }

  lemma Halves16(left: nat, v: nat)
    requires left % 16 == 0 && v < 16
    ensures (left + v) / 16 == left / 16 && (left + v) % 16 == v
  {
  }

  lemma Halves4(left: nat, v: nat)
    requires left % 4 == 0 && v < 4
    ensures (left + v) / 4 == left / 4 && (left + v) % 4 == v
  {
  }

  lemma TwoLetters(d: nat, left: nat, x: byte, tail: string)
    requires Held(2, left) && Kept(2, d)
    ensures
      var (rest, ok) := Decode(0, x / 64, tail);
      Decode(2, d, [Letter(left + x / 64), Letter(x % 64)] + tail) == ([Pending(2, d, left), x] + rest, ok)
  {
    hide Decode, Letter;
    assert [Letter(left + x / 64), Letter(x % 64)] + tail == [Letter(left + x / 64)] + ([Letter(x % 64)] + tail);
    DecodeLetter(2, d, left + x / 64, [Letter(x % 64)] + tail);
    DecodeLetter(3, x / 64, x % 64, tail);
    Halves4(left, x / 64);
    assert x / 64 * 64 + x % 64 == x;
    var (rest, ok) := Decode(0, x / 64, tail);
    assert [Pending(2, d, left)] + ([x] + rest) == [Pending(2, d, left), x] + rest;
  }

  /** Decoding an encoded text gives the bytes back, and finds it valid. */
  lemma RoundTrip(bytes: seq<byte>)
    ensures Decode(0, 0, Encode(0, 0, bytes)) == (bytes, true)
  {
    RoundTripFrom(0, 0, 0, bytes);
    assert [] + bytes == bytes;
  }

  lemma EncodeEnd(mode: nat, left: nat)
    requires mode < 3 && Held(mode, left)
    ensures Encode(mode, left, []) == Padding(mode, left)
  {
  }

  // ----- Which texts decode to which bytes -----

  lemma LetterOfTable(c: char)
    requires Table(c) != -1
    ensures Letter(Table(c)) == c
  {
  }

  /** What the decoder holds in a given state are the upper bits of the first byte to come, or padding is due. */
  predicate Owing(mode: nat, left: nat, bytes: seq<byte>) {
    if mode == 0 then true
    else if mode == 1 then bytes != [] && bytes[0] / 4 == left
    else if bytes == [] then left == 0
    else if mode == 2 then bytes[0] / 16 == left
    else bytes[0] / 64 == left
  }

  /** The text still to come for these bytes. */
  function Owed(mode: nat, left: nat, bytes: seq<byte>): string
    requires mode < 4 && Owing(mode, left, bytes)
  {
    if mode == 0 then Encode(0, 0, bytes)
    else if mode == 1 then Encode(1, bytes[0] % 4 * 16, bytes[1..])
    else if mode == 2 then if bytes == [] then "==" else Encode(2, bytes[0] % 16 * 4, bytes[1..])
    else if bytes == [] then "=" else [Letter(bytes[0] % 64)] + Encode(0, 0, bytes[1..])
  }

  /** Between groups nothing is held. */
  lemma EncodeFresh(left: nat, bytes: seq<byte>)
    requires left < 64
    ensures Encode(0, left, bytes) == Encode(0, 0, bytes)
  {
  }

  /** A character read is the first one of what was owed. */
  lemma OwedStep(mode: nat, left: nat, d: nat, rest: seq<byte>)
    requires Kept(mode, left) && d < 64 && Owing(Eat(mode, left, d).1, Eat(mode, left, d).2, rest)
    ensures
      var (b, m, l) := Eat(mode, left, d);
      Owing(mode, left, b + rest) && Owed(mode, left, b + rest) == [Letter(d)] + Owed(m, l, rest)
  {
    hide Encode, Letter;
    var (b, m, l) := Eat(mode, left, d);
    if mode == 0 {
      assert [] + rest == rest == [rest[0]] + rest[1..];
      EncodeStep(0, 0, rest[0], rest[1..]);
    } else {
      assert ([b[0]] + rest)[1..] == rest;
      CompletedBits(mode, left, d);
      if mode == 1 {
        OwedSecond(d, rest);
      } else if mode == 2 {
        OwedThird(d, rest);
      }
    }
  }

  lemma CompletedBits(mode: nat, left: nat, d: nat)
    requires Kept(mode, left) && d < 64
    ensures mode == 1 ==> (left * 4 + d / 16) / 4 == left && (left * 4 + d / 16) % 4 == d / 16
    ensures mode == 2 ==> (left * 16 + d / 4) / 16 == left && (left * 16 + d / 4) % 16 == d / 4
    ensures mode == 3 ==> (left * 64 + d) / 64 == left && (left * 64 + d) % 64 == d
  {
  }

  lemma OwedSecond(d: nat, rest: seq<byte>)
    requires d < 64 && Owing(2, d % 16, rest)
    ensures Encode(1, d / 16 * 16, rest) == [Letter(d)] + Owed(2, d % 16, rest)
  {
    hide Encode, Letter;
    if rest == [] {
      EncodeEnd(1, d / 16 * 16);
    } else {
      assert rest == [rest[0]] + rest[1..];
      EncodeStep(1, d / 16 * 16, rest[0], rest[1..]);
    }
  }

  lemma OwedThird(d: nat, rest: seq<byte>)
    requires d < 64 && Owing(3, d % 4, rest)
    ensures Encode(2, d / 4 * 4, rest) == [Letter(d)] + Owed(3, d % 4, rest)
  {
    hide Encode, Letter;
    if rest == [] {
      EncodeEnd(2, d / 4 * 4);
    } else {
      assert rest == [rest[0]] + rest[1..];
      EncodeStep(2, d / 4 * 4, rest[0], rest[1..]);
      EncodeFresh(d / 4 * 4, rest[1..]);
      assert [Letter(d), Letter(rest[0] % 64)] == [Letter(d)] + [Letter(rest[0] % 64)];
    }
  }

  /** The next digit of bytes that are still owed. */
  function NextDigit(mode: nat, bytes: seq<byte>): (d: nat)
    requires mode < 4 && bytes != []
    ensures d < 64
  {
    var next := if |bytes| > 1 then bytes[1] else 0;
    if mode == 0 then bytes[0] / 4
    else if mode == 1 then bytes[0] % 4 * 16 + next / 16
    else if mode == 2 then bytes[0] % 16 * 4 + next / 64
    else bytes[0] % 64
  }

  lemma NextDigitRight(mode: nat, left: nat, bytes: seq<byte>)
    requires Kept(mode, left) && bytes != [] && Owing(mode, left, bytes)
    ensures
      var (b, m, l) := Eat(mode, left, NextDigit(mode, bytes));
      && b <= bytes && Owing(m, l, bytes[|b|..]) && bytes == b + bytes[|b|..]
      && Owed(mode, left, bytes) == [Letter(NextDigit(mode, bytes))] + Owed(m, l, bytes[|b|..])
  {
    hide Encode, Letter;
    var d := NextDigit(mode, bytes);
    var (b, m, l) := Eat(mode, left, d);
    DigitBits(mode, left, bytes);
    assert bytes == b + bytes[|b|..];
    OwedStep(mode, left, d, bytes[|b|..]);
  }

  lemma DigitBits(mode: nat, left: nat, bytes: seq<byte>)
    requires Kept(mode, left) && bytes != [] && Owing(mode, left, bytes)
    ensures
      var (b, m, l) := Eat(mode, left, NextDigit(mode, bytes));
      b == bytes[..|b|] && Owing(m, l, bytes[|b|..])
  {
    var next: byte := if |bytes| > 1 then bytes[1] else 0;
    Regrouped(bytes[0], next);
  }

  /** Six bits taken across two bytes. */
  lemma Regrouped(x: byte, y: byte)
    ensures (x % 4 * 16 + y / 16) / 16 == x % 4 && (x % 4 * 16 + y / 16) % 16 == y / 16
    ensures (x % 16 * 4 + y / 64) / 4 == x % 16 && (x % 16 * 4 + y / 64) % 4 == y / 64
    ensures x / 4 * 4 + x % 4 == x && x / 16 * 16 + x % 16 == x && x / 64 * 64 + x % 64 == x
  {
    Halves16(x % 4 * 16, y / 16);
    Halves4(x % 16 * 4, y / 64);
  }

  /** The text begins with `t` and has no character of the alphabet after it. */
  predicate Begins(s: string, t: string) {
    t <= s && Table(At(s, |t|)) == -1
  }

  lemma BeginsStep(s: string, c: char, t: string)
    requires |s| > 0 && s[0] == c
    ensures Begins(s, [c] + t) <==> Begins(s[1..], t)
  {
    assert s == [s[0]] + s[1..];
    assert At(s, |t| + 1) == At(s[1..], |t|);
    if t <= s[1..] {
      assert [c] + t <= s;
    }
    if [c] + t <= s {
      assert t == ([c] + t)[1..] <= s[1..];
    }
  }

  lemma BeginsPads(s: string)
    ensures Begins(s, "") <==> Table(At(s, 0)) == -1
    ensures Begins(s, "=") <==> At(s, 0) == '=' && Table(At(s, 1)) == -1
    ensures Begins(s, "==") <==> At(s, 0) == '=' && At(s, 1) == '=' && Table(At(s, 2)) == -1
  {
  }

  /** From every state: a text is valid and gives these bytes exactly when it begins with what they owe. */
  lemma {:induction false} DecodesIff(mode: nat, left: nat, s: string, bytes: seq<byte>)
    requires Kept(mode, left)
    ensures Decode(mode, left, s) == (bytes, true) <==> Owing(mode, left, bytes) && Begins(s, Owed(mode, left, bytes))
    decreases |s|
  {
    hide Decode, Encode, Letter, Begins, Owed, Owing, Eat, NextDigit, Table;
    if Table(At(s, 0)) == -1 {
      DecodeEnd(mode, left, s);
      NothingOwed(mode, left, s, bytes);
    } else {
      var d := Table(At(s, 0));
      DecodeStep(mode, left, s);
      LetterOfTable(s[0]);
      var (b, m, l) := Eat(mode, left, d);
      if Decode(mode, left, s) == (bytes, true) {
        var rest := Decode(m, l, s[1..]).0;
        DecodesIff(m, l, s[1..], rest);
        OwedStep(mode, left, d, rest);
        BeginsStep(s, s[0], Owed(m, l, rest));
      }
      if Owing(mode, left, bytes) && Begins(s, Owed(mode, left, bytes)) {
        FirstOwed(mode, left, s, bytes);
        NextDigitRight(mode, left, bytes);
        TableOfLetter(d);
        var rest := bytes[|b|..];
        BeginsStep(s, s[0], Owed(m, l, rest));
        DecodesIff(m, l, s[1..], rest);
      }
    }
  }

  lemma NothingOwed(mode: nat, left: nat, s: string, bytes: seq<byte>)
    requires Kept(mode, left) && Table(At(s, 0)) == -1
    ensures ([], Ends(mode, left, s)) == (bytes, true) <==> Owing(mode, left, bytes) && Begins(s, Owed(mode, left, bytes))
  {
    hide Encode, Letter, Begins, Table, NextDigit, Eat;
    BeginsPads(s);
    if bytes == [] {
      EncodeEnd(0, 0);
    } else if Owing(mode, left, bytes) {
      NextDigitRight(mode, left, bytes);
      NoLetterFirst(s, NextDigit(mode, bytes), Owed(mode, left, bytes));
    }
  }

  lemma NoLetterFirst(s: string, d: nat, t: string)
    requires d < 64 && t != "" && t[0] == Letter(d) && Table(At(s, 0)) == -1
    ensures !Begins(s, t)
  {
    hide Letter;
    TableOfLetter(d);
  }

  /** A character of the alphabet can only be the next digit. */
  lemma FirstOwed(mode: nat, left: nat, s: string, bytes: seq<byte>)
    requires Kept(mode, left) && Table(At(s, 0)) != -1 && Owing(mode, left, bytes) && Begins(s, Owed(mode, left, bytes))
    ensures bytes != [] && Table(At(s, 0)) == NextDigit(mode, bytes)
  {
    hide Encode, Letter, Begins, Table, NextDigit, Eat;
    BeginsPads(s);
    if bytes == [] {
      EncodeEnd(0, 0);
      NoPad();
      assert false;
    } else {
      NextDigitRight(mode, left, bytes);
      LetterFirst(s, NextDigit(mode, bytes), Owed(mode, left, bytes));
    }
  }

  lemma NoPad()
    ensures Table('=') == -1
  {
  }

  lemma LetterFirst(s: string, d: nat, t: string)
    requires d < 64 && t != "" && t[0] == Letter(d) && Begins(s, t)
    ensures Table(At(s, 0)) == d
  {
    hide Letter;
    TableOfLetter(d);
  }

  /** A text is valid with these bytes exactly when it begins with their encoding, followed by no character of the alphabet; whatever
      else follows is not looked at. */
  lemma ValidTexts(s: string, bytes: seq<byte>)
    ensures Decode(0, 0, s) == (bytes, true) <==> Begins(s, Encode(0, 0, bytes))
  {
    DecodesIff(0, 0, s, bytes);
  }

  /** Something after the encoding of three zero bytes. */
  lemma RestIgnored()
    ensures Decode(0, 0, "AAAA!x") == ([0, 0, 0], true)
  {
    hide Decode;
    assert Encode(0, 0, [0, 0, 0]) == "AAAA" by {
      assert [0, 0, 0][1..] == [0, 0] && [0, 0][1..] == [0] && [0][1..] == [];
      assert Letter(0) == 'A';
    }
    ValidTexts("AAAA!x", [0, 0, 0]);
  }

  // ----- The loops -----

  /** `EncodeBase64` */
  method EncodeBytes(bytes: seq<byte>) returns (s: string)
    ensures s == Encode(0, 0, bytes)
  {
    hide Encode, Letter;
    s := "";
    var mode, left, i := 0, 0, 0;
    assert bytes[0..] == bytes;
    while i < |bytes|
      invariant 0 <= i <= |bytes| && 0 <= mode < 3 && 0 <= left && Held(mode, left)
      invariant s + Encode(mode, left, bytes[i..]) == Encode(0, 0, bytes)
    {
      var x := bytes[i];
      assert bytes[i..] == [x] + bytes[i + 1..];
      EncodeStep(mode, left, x, bytes[i + 1..]);
      ghost var (t, m, l) := Feed(mode, left, x);
      assert (s + t) + Encode(m, l, bytes[i + 1..]) == s + (t + Encode(m, l, bytes[i + 1..]));
      if mode == 0 {
        s := s + [Letter(x / 4)];
        left := x % 4 * 16;
        mode := 1;
      } else if mode == 1 {
        s := s + [Letter(left + x / 16)];
        left := x % 16 * 4;
        mode := 2;
      } else {
        assert s + [Letter(left + x / 64)] + [Letter(x % 64)] == s + t;
        s := s + [Letter(left + x / 64)];
        s := s + [Letter(x % 64)];
        mode := 0;
      }
      i := i + 1;
    }
    assert Encode(mode, left, []) == Padding(mode, left) by {
      EncodeEnd(mode, left);
    }
    if mode != 0 {
      assert s + [Letter(left)] + "=" + "=" == s + ([Letter(left)] + "==");
      assert s + [Letter(left)] + "=" == s + ([Letter(left)] + "=");
      s := s + [Letter(left)];
      s := s + "=";
      if mode == 1 {
        s := s + "=";
      }
    } else {
      assert s + "" == s;
    }
  }

  /** `DecodeBase64` with its validity flag. */
  method DecodeText(text: string) returns (bytes: seq<byte>, valid: bool)
    ensures (bytes, valid) == Decode(0, 0, text)
  {
    hide Decode, Table;
    bytes := [];
    var mode, left, i := 0, 0, 0;
    ghost var all := Decode(0, 0, text);
    assert text[0..] == text && [] + all.0 == all.0;
    while Table(At(text, i)) != -1
      invariant 0 <= i <= |text| && 0 <= mode && 0 <= left && Kept(mode, left)
      invariant
        var (rest, ok) := Decode(mode, left, text[i..]);
        all == (bytes + rest, ok)
      decreases |text| - i
    {
      var dec := Table(At(text, i));
      assert At(text[i..], 0) == At(text, i);
      DecodeStep(mode, left, text[i..]);
      assert text[i..][1..] == text[i + 1..];
      i := i + 1;
      ghost var (b, m, l) := Eat(mode, left, dec);
      ghost var (rest, ok) := Decode(m, l, text[i..]);
      assert bytes + (b + rest) == (bytes + b) + rest;
      assert bytes + [] == bytes;
      if mode == 0 {
        left := dec;
        mode := 1;
      } else if mode == 1 {
        bytes := bytes + [left * 4 + dec / 16];
        left := dec % 16;
        mode := 2;
      } else if mode == 2 {
        bytes := bytes + [left * 16 + dec / 4];
        left := dec % 4;
        mode := 3;
      } else {
        bytes := bytes + [left * 64 + dec];
        mode := 0;
      }
    }
    assert At(text[i..], 0) == At(text, i) && At(text[i..], 1) == At(text, i + 1) && At(text[i..], 2) == At(text, i + 2);
    assert bytes + [] == bytes;
    DecodeEnd(mode, left, text[i..]);
    valid := true;
    if mode == 1 {
      valid := false;
    } else if mode == 2 {
      valid := left == 0 && At(text, i) == '=' && At(text, i + 1) == '=' && Table(At(text, i + 2)) == -1;
    } else if mode == 3 {
      valid := left == 0 && At(text, i) == '=' && Table(At(text, i + 1)) == -1;
    }
  }

  /** A text made by the encoder is taken back by the decoder. */
  method EncodeThenDecode(bytes: seq<byte>) returns (back: seq<byte>, valid: bool)
    ensures back == bytes && valid
  {
    var s := EncodeBytes(bytes);
    back, valid := DecodeText(s);
    RoundTrip(bytes);
  }
}
