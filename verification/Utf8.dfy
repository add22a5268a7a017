/** UTF-8 by its encoder (section 3 of RFC 3629), against the byte-range checker that guards pointer files and
    cursor texts. */
module Utf8 {
  import opened LfsPointer

  /** A Unicode scalar value: a code point that is no surrogate. */
  predicate Scalar(c: int) { 0 <= c < 0xD800 || 0xE000 <= c <= 0x10FFFF }

  predicate Scalars(text: seq<int>) { forall i :: 0 <= i < |text| ==> Scalar(text[i]) }

  function Encoded(c: int): string
    requires Scalar(c)
  {
    if c < 0x80 then [c as char]
    else if c < 0x800 then [(0xC0 + c / 64) as char, (0x80 + c % 64) as char]
    else if c < 0x1_0000 then [(0xE0 + c / 4096) as char, (0x80 + c / 64 % 64) as char, (0x80 + c % 64) as char]
    else [(0xF0 + c / 262144) as char, (0x80 + c / 4096 % 64) as char, (0x80 + c / 64 % 64) as char,
          (0x80 + c % 64) as char]
  }

  function EncodedText(text: seq<int>): string
    requires Scalars(text)
  {
    if text == [] then "" else Encoded(text[0]) + EncodedText(text[1..])
  }

  lemma {:induction false} EncodedIsValid(c: int, rest: string)
    requires Scalar(c)
    ensures ValidUtf8(Encoded(c) + rest) <==> ValidUtf8(rest)
  {
    var s, n := Encoded(c) + rest, |Encoded(c)|;
    assert s[n..] == rest;
    if 0x1_0000 <= c {
      FourBytes(c);
    } else if 0x800 <= c {
      ThreeBytes(c);
    }
  }

  lemma {:induction false} ThreeBytes(c: int)
    requires 0x800 <= c < 0x1_0000 && Scalar(c)
    ensures var x, y := 0xE0 + c / 4096, 0x80 + c / 64 % 64;
            0xE0 <= x <= 0xEF && (x == 0xE0 ==> y >= 0xA0) && (x == 0xED ==> y <= 0x9F)
  {
    assert c / 64 == c / 4096 * 64 + c / 64 % 64;
  }

  lemma {:induction false} FourBytes(c: int)
    requires 0x1_0000 <= c <= 0x10FFFF
    ensures var x, y := 0xF0 + c / 262144, 0x80 + c / 4096 % 64;
            0xF0 <= x <= 0xF4 && (x == 0xF0 ==> y >= 0x90) && (x == 0xF4 ==> y <= 0x8F)
  {
    assert c / 4096 == c / 262144 * 64 + c / 4096 % 64;
  }

  lemma {:induction false} EncodingsAreValid(text: seq<int>)
    requires Scalars(text)
    ensures ValidUtf8(EncodedText(text))
    decreases |text|
  {
    hide Encoded;
    if text != [] {
      EncodingsAreValid(text[1..]);
      EncodedIsValid(text[0], EncodedText(text[1..]));
    }
  }

  lemma {:induction false} ScalarOfTwo(s: string) returns (c: int)
    requires |s| == 2 && Between(s[0], 0xC2, 0xDF) && Between(s[1], 0x80, 0xBF)
    ensures Scalar(c) && Encoded(c) == s
  {
    c := (s[0] as int - 0xC0) * 64 + (s[1] as int - 0x80);
    assert c / 64 == s[0] as int - 0xC0 && c % 64 == s[1] as int - 0x80;
  }

  lemma {:induction false} ScalarOfThree(s: string) returns (c: int)
    requires |s| == 3 && Between(s[0], 0xE0, 0xEF) && Between(s[1], 0x80, 0xBF) && Between(s[2], 0x80, 0xBF)
    requires (s[0] as int == 0xE0 ==> s[1] as int >= 0xA0) && (s[0] as int == 0xED ==> s[1] as int <= 0x9F)
    ensures Scalar(c) && Encoded(c) == s
  {
    var x, y, z := s[0] as int - 0xE0, s[1] as int - 0x80, s[2] as int - 0x80;
    c := x * 4096 + y * 64 + z;
    JoinThree(x, y, z);
  }

  lemma {:induction false} ScalarOfFour(s: string) returns (c: int)
    requires |s| == 4 && Between(s[0], 0xF0, 0xF4) && Between(s[1], 0x80, 0xBF)
    requires Between(s[2], 0x80, 0xBF) && Between(s[3], 0x80, 0xBF)
    requires (s[0] as int == 0xF0 ==> s[1] as int >= 0x90) && (s[0] as int == 0xF4 ==> s[1] as int <= 0x8F)
    ensures Scalar(c) && Encoded(c) == s
  {
    var w, x, y, z := s[0] as int - 0xF0, s[1] as int - 0x80, s[2] as int - 0x80, s[3] as int - 0x80;
    c := w * 262144 + x * 4096 + y * 64 + z;
    JoinFour(w, x, y, z);
  }

  /** The scalar value that valid text begins with. */
  lemma {:induction false} FirstScalar(s: string) returns (c: int, rest: string)
    requires ValidUtf8(s) && s != ""
    ensures Scalar(c) && s == Encoded(c) + rest && |rest| < |s| && ValidUtf8(rest)
  {
    var b := s[0] as int;
    var n := if b < 0x80 then 1 else if b < 0xE0 then 2 else if b < 0xF0 then 3 else 4;
    rest := s[n..];
    if n == 1 {
      c := b;
    } else if n == 2 {
      c := ScalarOfTwo(s[..2]);
    } else if n == 3 {
      c := ScalarOfThree(s[..3]);
    } else {
      c := ScalarOfFour(s[..4]);
    }
    assert Encoded(c) == s[..n];
    hide Encoded;
    assert s == s[..n] + rest;
  }

  lemma {:induction false} JoinThree(x: nat, y: nat, z: nat)
    requires x < 16 && y < 64 && z < 64
    ensures var c := x * 4096 + y * 64 + z; c / 4096 == x && c / 64 % 64 == y && c % 64 == z
  {
    var c := x * 4096 + y * 64 + z;
    assert c / 64 == x * 64 + y;
  }

  lemma {:induction false} JoinFour(w: nat, x: nat, y: nat, z: nat)
    requires w < 8 && x < 64 && y < 64 && z < 64
    ensures var c := w * 262144 + x * 4096 + y * 64 + z;
            c / 262144 == w && c / 4096 % 64 == x && c / 64 % 64 == y && c % 64 == z
  {
    var c := w * 262144 + x * 4096 + y * 64 + z;
    assert c / 64 == w * 4096 + x * 64 + y;
    assert c / 4096 == w * 64 + x;
  }

  lemma {:induction false} ValidIsEncoded(s: string) returns (text: seq<int>)
    requires ValidUtf8(s)
    ensures Scalars(text) && EncodedText(text) == s
    decreases |s|
  {
    text := [];
    if s != "" {
      var c, rest := FirstScalar(s);
      var more := ValidIsEncoded(rest);
      hide Encoded, ValidUtf8;
      text := [c] + more;
      assert text[1..] == more;
    }
  }

  /** A byte string passes the check exactly when it is the encoding of some sequence of scalar values. */
  lemma {:induction false} ValidExactlyWhenEncoded(s: string)
    ensures ValidUtf8(s) <==> exists text :: Scalars(text) && EncodedText(text) == s
  {
    hide ValidUtf8, EncodedText;
    if ValidUtf8(s) {
      var text := ValidIsEncoded(s);
    }
    if text :| Scalars(text) && EncodedText(text) == s {
      EncodingsAreValid(text);
    }
  }
}
