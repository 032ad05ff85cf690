/** UTF-8 (section 3 of RFC 3629): what `as_bytes` gives and `String::from_utf8_lossy` reads back. */
module Utf8 {
  type Byte = n: int | 0 <= n < 256

  function Encode(c: char): (b: seq<Byte>)
    ensures 1 <= |b| <= 4
    ensures c < '\U{80}' ==> b == [c as int]
    ensures c >= '\U{80}' ==> forall x <- b :: x >= 0x80
  {
    var u := c as int;
    if u < 0x80 then [u]
    else if u < 0x800 then [0xC0 + u / 64, 0x80 + u % 64]
    else if u < 0x1_0000 then [0xE0 + u / 4096, 0x80 + u / 64 % 64, 0x80 + u % 64]
    else [0xF0 + u / 262_144, 0x80 + u / 4096 % 64, 0x80 + u / 64 % 64, 0x80 + u % 64]
  }

  function Bytes(s: string): seq<Byte> {
    if s == "" then [] else Encode(s[0]) + Bytes(s[1..])
  }

  lemma {:induction false} BytesConcat(s: string, t: string)
    ensures Bytes(s + t) == Bytes(s) + Bytes(t)
  {
    if s == "" {
      assert s + t == t;
    } else {
      assert (s + t)[1..] == s[1..] + t;
      BytesConcat(s[1..], t);
    }
  }

  predicate IsTail(b: Byte) {
    0x80 <= b < 0xC0
  }

  /** How many bytes of well-formed encoding the text starts with: the length the first byte
      calls for, or the shorter run after which the sequence breaks off. */
  function WellFormedRun(b: seq<Byte>): (n: nat)
    requires b != []
    ensures 1 <= n <= |b|
  {
    var need := Needed(b[0]);
    if need == 1 then 1
    else if |b| < 2 || !SecondOk(b[0], b[1]) then 1
    else if need == 2 then 2
    else if |b| < 3 || !IsTail(b[2]) then 2
    else if need == 3 then 3
    else if |b| < 4 || !IsTail(b[3]) then 3
    else 4
  }

  /** Sequence length announced by a leading byte; 1 for ASCII and for bytes that lead nothing. */
  function Needed(b: Byte): nat {
    if 0xC2 <= b <= 0xDF then 2 else if 0xE0 <= b <= 0xEF then 3 else if 0xF0 <= b <= 0xF4 then 4 else 1
  }

  /** Second bytes exclude overlong forms, surrogates and code points past U+10FFFF. */
  predicate SecondOk(lead: Byte, b: Byte) {
    if lead == 0xE0 then 0xA0 <= b < 0xC0
    else if lead == 0xED then 0x80 <= b < 0xA0
    else if lead == 0xF0 then 0x90 <= b < 0xC0
    else if lead == 0xF4 then 0x80 <= b < 0x90
    else IsTail(b)
  }

  const REPLACEMENT := '\U{FFFD}'

  /** The character at the front, or the replacement character for a broken run. */
  function FirstChar(b: seq<Byte>): char
    requires b != []
  {
    var n := WellFormedRun(b);
    if b[0] < 0x80 then b[0] as char
    else if n < Needed(b[0]) || Needed(b[0]) == 1 then REPLACEMENT
    else if n == 2 then ((b[0] as int - 0xC0) * 64 + Low(b[1])) as char
    else if n == 3 then ((b[0] as int - 0xE0) * 4096 + Low(b[1]) * 64 + Low(b[2])) as char
    else ((b[0] as int - 0xF0) * 262_144 + Low(b[1]) * 4096 + Low(b[2]) * 64 + Low(b[3])) as char
  }

  function Low(tail: Byte): int {
    tail - 0x80
  }

  /** `String::from_utf8_lossy`: each broken run becomes one replacement character. */
  function Lossy(b: seq<Byte>): string
    decreases |b|
  {
    if b == [] then "" else [FirstChar(b)] + Lossy(b[WellFormedRun(b)..])
  }

  lemma EncodedRun(c: char, rest: seq<Byte>)
    ensures WellFormedRun(Encode(c) + rest) == |Encode(c)|
    ensures FirstChar(Encode(c) + rest) == c
  {
    var u := c as int;
    if 0x80 <= u < 0x800 {
      assert u == u / 64 * 64 + u % 64;
    } else if 0x800 <= u < 0x1_0000 {
      ThreeByteRun(c, rest);
    } else if u >= 0x1_0000 {
      FourByteRun(c, rest);
    }
  }

  lemma ThreeByteRun(c: char, rest: seq<Byte>)
    requires 0x800 <= c as int < 0x1_0000
    ensures WellFormedRun(Encode(c) + rest) == 3 && FirstChar(Encode(c) + rest) == c
  {
    var u := c as int;
    assert u == u / 4096 * 4096 + u / 64 % 64 * 64 + u % 64;
    var b := Encode(c) + rest;
    assert b[0] == 0xE0 + u / 4096 && b[1] == 0x80 + u / 64 % 64 && b[2] == 0x80 + u % 64;
    assert SecondOk(b[0], b[1]);
  }

  lemma FourByteRun(c: char, rest: seq<Byte>)
    requires c as int >= 0x1_0000
    ensures WellFormedRun(Encode(c) + rest) == 4 && FirstChar(Encode(c) + rest) == c
  {
    var u := c as int;
    assert u == u / 262_144 * 262_144 + u / 4096 % 64 * 4096 + u / 64 % 64 * 64 + u % 64;
    var b := Encode(c) + rest;
    assert b[0] == 0xF0 + u / 262_144 && b[1] == 0x80 + u / 4096 % 64;
    assert b[2] == 0x80 + u / 64 % 64 && b[3] == 0x80 + u % 64;
    assert SecondOk(b[0], b[1]);
  }

  lemma LossyCons(c: char, rest: seq<Byte>)
    ensures Lossy(Encode(c) + rest) == [c] + Lossy(rest)
  {
    EncodedRun(c, rest);
    assert (Encode(c) + rest)[|Encode(c)|..] == rest;
  }

  /** Decoding an encoded text loses nothing. */
  lemma {:induction false} LossyBytes(s: string)
    ensures Lossy(Bytes(s)) == s
  {
    if s != "" {
      LossyBytes(s[1..]);
      LossyCons(s[0], Bytes(s[1..]));
    }
  }

  // ----- which bytes are which characters -----

  /** The front of the bytes is a character, complete. */
  predicate IsComplete(b: seq<Byte>)
    requires b != []
  {
    b[0] < 0x80 || (Needed(b[0]) > 1 && WellFormedRun(b) == Needed(b[0]))
  }

  /** Bytes are read as a character only when they are that character's one encoding: no overlong form, no surrogate
      and nothing past the last code point is accepted. */
  lemma CompleteIsEncoded(b: seq<Byte>)
    requires b != [] && IsComplete(b)
    ensures Encode(FirstChar(b)) == b[..WellFormedRun(b)]
  {
    var n := WellFormedRun(b);
    if n == 2 {
      TwoBytes(b[0] - 0xC0, Low(b[1]));
    } else if n == 3 {
      ThreeBytes(b[0] - 0xE0, Low(b[1]), Low(b[2]));
    } else if n == 4 {
      FourBytes(b[0] - 0xF0, Low(b[1]), Low(b[2]), Low(b[3]));
    }
  }

  lemma TwoBytes(x: int, y: int)
    requires 2 <= x < 32 && 0 <= y < 64
    ensures var u := x * 64 + y; 0x80 <= u < 0x800 && u / 64 == x && u % 64 == y
  {
  }

  lemma ThreeBytes(x: int, y: int, z: int)
    requires 0 <= x < 16 && 0 <= y < 64 && 0 <= z < 64 && (x == 0 ==> y >= 32)
    ensures var u := x * 4096 + y * 64 + z;
      0x800 <= u < 0x1_0000 && u / 4096 == x && u / 64 % 64 == y && u % 64 == z
  {
    var u := x * 4096 + y * 64 + z;
    assert u / 64 == x * 64 + y;
  }

  lemma FourBytes(w: int, x: int, y: int, z: int)
    requires 0 <= w < 5 && 0 <= x < 64 && 0 <= y < 64 && 0 <= z < 64 && (w == 0 ==> x >= 16)
    ensures var u := w * 262_144 + x * 4096 + y * 64 + z;
      0x1_0000 <= u && u / 262_144 == w && u / 4096 % 64 == x && u / 64 % 64 == y && u % 64 == z
  {
    var u := w * 262_144 + x * 4096 + y * 64 + z;
    assert u / 64 == w * 4096 + x * 64 + y;
    assert u / 4096 == w * 64 + x;
  }

  /** A complete character at the front is every encoding that stands there. */
  lemma FrontIs(b: seq<Byte>, c: char)
    requires b != [] && Encode(c) <= b
    ensures IsComplete(b) && FirstChar(b) == c && WellFormedRun(b) == |Encode(c)|
  {
    var rest := b[|Encode(c)|..];
    assert b == Encode(c) + rest;
    EncodedRun(c, rest);
    EncodedIsComplete(c, rest);
  }

  lemma EncodedIsComplete(c: char, rest: seq<Byte>)
    ensures IsComplete(Encode(c) + rest)
  {
    EncodedRun(c, rest);
    LeadingByte(c);
  }

  lemma LeadingByte(c: char)
    ensures Needed(Encode(c)[0]) == |Encode(c)|
  {
  }

  /** Of anything else the bytes replaced by one replacement character are the longest that could still have become
      a character, and one byte when there are none such: with the byte behind them they begin no encoding. */
  lemma BrokenIsLongest(b: seq<Byte>)
    requires b != [] && !IsComplete(b)
    ensures FirstChar(b) == REPLACEMENT && forall c :: !(Encode(c) <= b)
    ensures WellFormedRun(b) > 1 ==> exists c :: b[..WellFormedRun(b)] < Encode(c)
    ensures WellFormedRun(b) < |b| ==> forall c :: !(b[..WellFormedRun(b) + 1] <= Encode(c))
  {
    var n := WellFormedRun(b);
    forall c ensures !(Encode(c) <= b) {
      if Encode(c) <= b {
        FrontIs(b, c);
      }
    }
    if n > 1 {
      var _ := Completed(b);
    }
    if n < |b| {
      forall c ensures !(b[..n + 1] <= Encode(c)) {
        NoLonger(b, c);
      }
    }
  }

  lemma Completed(b: seq<Byte>) returns (c: char)
    requires b != [] && !IsComplete(b) && WellFormedRun(b) > 1
    ensures b[..WellFormedRun(b)] < Encode(c)
  {
    var n := WellFormedRun(b);
    var whole := b[..n] + if Needed(b[0]) == n + 1 then [0x80] else [0x80, 0x80];
    assert whole[0] == b[0] && whole[1] == b[1] && (n == 3 ==> whole[2] == b[2]);
    CompleteIsEncoded(whole);
    c := FirstChar(whole);
    assert whole[..WellFormedRun(whole)] == whole;
  }

  lemma NoLonger(b: seq<Byte>, c: char)
    requires b != [] && !IsComplete(b) && WellFormedRun(b) < |b|
    ensures !(b[..WellFormedRun(b) + 1] <= Encode(c))
  {
    var n, e := WellFormedRun(b), Encode(c);
    EncodedRun(c, []);
    LeadingByte(c);
    assert e + [] == e;
    SameFront(b[..n + 1], e);
    assert forall i :: 0 <= i <= n ==> b[..n + 1][i] == b[i];
  }

  lemma SameFront(p: seq<Byte>, e: seq<Byte>)
    ensures p <= e ==> forall i :: 0 <= i < |p| ==> e[i] == p[i]
  {
  }
}
