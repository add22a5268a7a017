/** Opaque page cursors: unpadded URL-safe base64 over the JSON text of a key.

    Strings are valid UTF-8, one character per byte. The decoder is modelled in full for the layout the
    encoder writes; what the JSON library makes of any other text is the parameter `other`. Printing and reading
    of event timestamps are parameters too. */
module CursorCodec {
  import opened Prelude
  import opened Decimal
  import opened LfsPointer

  datatype RepoKey = RepoKey(updatedAt: string, name: string)

  datatype ActivityKey = ActivityKey(createdAt: int, id: int)

  const MAX_CURSOR: nat := 2048
  const I64_MAX: nat := 0x7FFF_FFFF_FFFF_FFFF

  // ---------------------------------------------------------------- base64url without padding

  predicate IsBytes(s: string) { forall i :: 0 <= i < |s| ==> s[i] as int < 256 }

  function Sym(n: nat): (c: char)
    requires n < 64
  {
    if n < 26 then ('A' as int + n) as char
    else if n < 52 then ('a' as int + (n - 26)) as char
    else if n < 62 then ('0' as int + (n - 52)) as char
    else if n == 62 then '-' else '_'
  }

  function Code(c: char): (n: Option<nat>)
    ensures n.Some? ==> n.value < 64
  {
    if 'A' <= c <= 'Z' then Some(c as int - 'A' as int)
    else if 'a' <= c <= 'z' then Some(c as int - 'a' as int + 26)
    else if '0' <= c <= '9' then Some(c as int - '0' as int + 52)
    else if c == '-' then Some(62)
    else if c == '_' then Some(63)
    else None
  }

  function One(x: int): string
    requires 0 <= x < 256
  {
    [Sym(x / 4), Sym(x % 4 * 16)]
  }

  function Two(x: int, y: int): string
    requires 0 <= x < 256 && 0 <= y < 256
  {
    [Sym(x / 4), Sym(x % 4 * 16 + y / 16), Sym(y % 16 * 4)]
  }

  function Three(x: int, y: int, z: int): string
    requires 0 <= x < 256 && 0 <= y < 256 && 0 <= z < 256
  {
    [Sym(x / 4), Sym(x % 4 * 16 + y / 16), Sym(y % 16 * 4 + z / 64), Sym(z % 64)]
  }

  function Encode64(b: string): string
    requires IsBytes(b)
    decreases |b|
  {
    if |b| == 0 then ""
    else if |b| == 1 then One(b[0] as int)
    else if |b| == 2 then Two(b[0] as int, b[1] as int)
    else Three(b[0] as int, b[1] as int, b[2] as int) + Encode64(b[3..])
  }

  function UnOne(s: string): Option<string>
    requires |s| == 2
  {
    var a, b := Code(s[0]), Code(s[1]);
    if a.None? || b.None? || b.value % 16 != 0 then None
    else Some([(a.value * 4 + b.value / 16) as char])
  }

  function UnTwo(s: string): Option<string>
    requires |s| == 3
  {
    var a, b, c := Code(s[0]), Code(s[1]), Code(s[2]);
    if a.None? || b.None? || c.None? || c.value % 4 != 0 then None
    else Some([(a.value * 4 + b.value / 16) as char, (b.value % 16 * 16 + c.value / 4) as char])
  }

  function UnThree(s: string): Option<string>
    requires |s| == 4
  {
    var a, b, c, d := Code(s[0]), Code(s[1]), Code(s[2]), Code(s[3]);
    if a.None? || b.None? || c.None? || d.None? then None
    else Some([(a.value * 4 + b.value / 16) as char,
               (b.value % 16 * 16 + c.value / 4) as char,
               (c.value % 4 * 64 + d.value) as char])
  }

  /** Strict decoding: no padding, no foreign character, no stray trailing bits. */
  function Decode64(s: string): Option<string>
    decreases |s|
  {
    if |s| == 0 then Some("")
    else if |s| == 1 then None
    else if |s| == 2 then UnOne(s)
    else if |s| == 3 then UnTwo(s)
    else
      var head, rest := UnThree(s[..4]), Decode64(s[4..]);
      if head.None? || rest.None? then None else Some(head.value + rest.value)
  }

  lemma {:induction false} CodeOfSym(n: nat)
    requires n < 64
    ensures Code(Sym(n)) == Some(n)
  {
  }

  lemma {:induction false} SymOfCode(c: char)
    requires Code(c).Some?
    ensures Sym(Code(c).value) == c
  {
  }

  lemma {:induction false} OneRoundTrip(x: char)
    requires x as int < 256
    ensures UnOne(One(x as int)) == Some([x])
  {
    var n := x as int;
    hide Sym, Code;
    CodeOfSym(n / 4);
    CodeOfSym(n % 4 * 16);
  }

  lemma {:induction false} TwoRoundTrip(x: char, y: char)
    requires x as int < 256 && y as int < 256
    ensures UnTwo(Two(x as int, y as int)) == Some([x, y])
  {
    var n, m := x as int, y as int;
    hide Sym, Code;
    CodeOfSym(n / 4);
    CodeOfSym(n % 4 * 16 + m / 16);
    CodeOfSym(m % 16 * 4);
  }

  lemma {:induction false} JoinFirst(n: nat, m: nat)
    requires n < 256 && m < 256
    ensures var b := n % 4 * 16 + m / 16; b < 64 && n / 4 * 4 + b / 16 == n && b % 16 == m / 16
  {
  }

  lemma {:induction false} JoinSecond(m: nat, k: nat)
    requires m < 256 && k < 256
    ensures var c := m % 16 * 4 + k / 64; c < 64 && m / 16 * 16 + c / 4 == m && c % 4 == k / 64
  {
  }

  lemma {:induction false} ThreeRoundTrip(x: char, y: char, z: char)
    requires x as int < 256 && y as int < 256 && z as int < 256
    ensures UnThree(Three(x as int, y as int, z as int)) == Some([x, y, z])
  {
    var n, m, k := x as int, y as int, z as int;
    hide Sym, Code;
    var a, b, c, d := n / 4, n % 4 * 16 + m / 16, m % 16 * 4 + k / 64, k % 64;
    JoinFirst(n, m);
    JoinSecond(m, k);
    CodeOfSym(a);
    CodeOfSym(b);
    CodeOfSym(c);
    CodeOfSym(d);
    assert a * 4 + b / 16 == n && b % 16 * 16 + c / 4 == m && c % 4 * 64 + d == k;
  }

  lemma {:induction false} DecodeQuad(head: string, rest: string)
    requires |head| == 4
    ensures Decode64(head + rest)
         == if UnThree(head).None? || Decode64(rest).None? then None
            else Some(UnThree(head).value + Decode64(rest).value)
  {
    hide UnThree;
    var s := head + rest;
    assert s[..4] == head && s[4..] == rest;
  }

  lemma {:induction false} ShortRoundTrip(b: string)
    requires IsBytes(b) && 1 <= |b| <= 2
    ensures Decode64(Encode64(b)) == Some(b)
  {
    if |b| == 1 {
      OneRoundTrip(b[0]);
      OneLength(b[0] as int);
      hide Code, Sym, One, UnOne;
      assert b == [b[0]];
    } else {
      TwoRoundTrip(b[0], b[1]);
      TwoLength(b[0] as int, b[1] as int);
      hide Code, Sym, Two, UnTwo;
      assert b == [b[0], b[1]];
    }
  }

  lemma {:induction false} GroupRoundTrip(b: string)
    requires IsBytes(b) && |b| >= 3 && Decode64(Encode64(b[3..])) == Some(b[3..])
    ensures Decode64(Encode64(b)) == Some(b)
  {
    hide Code, Sym, One, Two, Three, UnOne, UnTwo, UnThree, Decode64;
    ThreeRoundTrip(b[0], b[1], b[2]);
    ThreeLength(b[0] as int, b[1] as int, b[2] as int);
    DecodeQuad(Three(b[0] as int, b[1] as int, b[2] as int), Encode64(b[3..]));
    assert b == [b[0], b[1], b[2]] + b[3..];
  }

  lemma {:induction false} Base64RoundTrip(b: string)
    requires IsBytes(b)
    ensures Decode64(Encode64(b)) == Some(b)
    decreases |b|
  {
    if |b| >= 3 {
      Base64RoundTrip(b[3..]);
      GroupRoundTrip(b);
    } else if b != "" {
      ShortRoundTrip(b);
    } else {
      assert Encode64(b) == "";
    }
    hide Encode64, Decode64;
  }

  lemma {:induction false} OneLength(x: int)
    requires 0 <= x < 256
    ensures |One(x)| == 2
  {
  }

  lemma {:induction false} TwoLength(x: int, y: int)
    requires 0 <= x < 256 && 0 <= y < 256
    ensures |Two(x, y)| == 3
  {
  }

  lemma {:induction false} ThreeLength(x: int, y: int, z: int)
    requires 0 <= x < 256 && 0 <= y < 256 && 0 <= z < 256
    ensures |Three(x, y, z)| == 4
  {
  }

  lemma {:induction false} SplitFirst(a: nat, b: nat)
    requires a < 64 && b < 64
    ensures var x := a * 4 + b / 16; 0 <= x < 256 && x / 4 == a && x % 4 == b / 16
  {
  }

  lemma {:induction false} SplitSecond(b: nat, c: nat)
    requires b < 64 && c < 64
    ensures var y := b % 16 * 16 + c / 4; 0 <= y < 256 && y / 16 == b % 16 && y % 16 == c / 4
  {
  }

  lemma {:induction false} SplitThird(c: nat, d: nat)
    requires c < 64 && d < 64
    ensures var z := c % 4 * 64 + d; 0 <= z < 256 && z / 64 == c % 4 && z % 64 == d
  {
  }

  lemma {:induction false} UnOneUnique(s: string)
    requires |s| == 2 && UnOne(s).Some?
    ensures var b := UnOne(s).value;
            |b| == 1 && IsBytes(b) && One(b[0] as int) == s
  {
    hide Code, Sym;
    SymOfCode(s[0]);
    SymOfCode(s[1]);
    SplitFirst(Code(s[0]).value, Code(s[1]).value);
    assert s == [s[0], s[1]];
  }

  lemma {:induction false} UnTwoUnique(s: string)
    requires |s| == 3 && UnTwo(s).Some?
    ensures var b := UnTwo(s).value;
            |b| == 2 && IsBytes(b) && Two(b[0] as int, b[1] as int) == s
  {
    hide Code, Sym;
    SymOfCode(s[0]);
    SymOfCode(s[1]);
    SymOfCode(s[2]);
    var a, b, c := Code(s[0]).value, Code(s[1]).value, Code(s[2]).value;
    SplitFirst(a, b);
    SplitSecond(b, c);
    assert s == [s[0], s[1], s[2]];
  }

  lemma {:induction false} UnThreeUnique(s: string)
    requires |s| == 4 && UnThree(s).Some?
    ensures var b := UnThree(s).value;
            |b| == 3 && IsBytes(b) && Three(b[0] as int, b[1] as int, b[2] as int) == s
  {
    hide Code, Sym;
    SymOfCode(s[0]);
    SymOfCode(s[1]);
    SymOfCode(s[2]);
    SymOfCode(s[3]);
    var a, b, c, d := Code(s[0]).value, Code(s[1]).value, Code(s[2]).value, Code(s[3]).value;
    SplitFirst(a, b);
    SplitSecond(b, c);
    SplitThird(c, d);
    assert s == [s[0], s[1], s[2], s[3]];
  }

  /** The decoder accepts nothing but encodings: each byte string has one cursor spelling. */
  lemma {:induction false} Base64Unique(s: string)
    requires Decode64(s).Some?
    ensures IsBytes(Decode64(s).value) && Encode64(Decode64(s).value) == s
    decreases |s|
  {
    hide Code, Sym, One, Two, Three, UnOne, UnTwo, UnThree;
    var b := Decode64(s).value;
    if |s| == 2 {
      UnOneUnique(s);
    } else if |s| == 3 {
      UnTwoUnique(s);
    } else if |s| >= 4 {
      UnThreeUnique(s[..4]);
      Base64Unique(s[4..]);
      var head := UnThree(s[..4]).value;
      assert b[3..] == Decode64(s[4..]).value;
      assert s == s[..4] + s[4..];
    }
  }

  lemma {:induction false} Base64Length(b: string)
    requires IsBytes(b)
    ensures |Encode64(b)| == (4 * |b| + 2) / 3
    decreases |b|
  {
    if |b| >= 3 {
      Base64Length(b[3..]);
    }
  }

  // ---------------------------------------------------------------- JSON strings

  function HexDigit(n: nat): char
    requires n < 16
  {
    if n < 10 then ('0' as int + n) as char else ('a' as int + (n - 10)) as char
  }

  function HexOf(c: char): Option<nat> {
    if '0' <= c <= '9' then Some(c as int - '0' as int)
    else if 'a' <= c <= 'f' then Some(c as int - 'a' as int + 10)
    else None
  }

  function EscapeChar(c: char): (s: string)
    ensures 1 <= |s| <= 6
  {
    if c == '"' then "\\\"" else if c == '\\' then "\\\\"
    else if c as int == 8 then "\\b" else if c as int == 9 then "\\t" else if c as int == 10 then "\\n"
    else if c as int == 12 then "\\f" else if c as int == 13 then "\\r"
    else if c as int < 0x20 then "\\u00" + [HexDigit(c as int / 16), HexDigit(c as int % 16)]
    else [c]
  }

  function Escape(s: string): string {
    if s == "" then "" else EscapeChar(s[0]) + Escape(s[1..])
  }

  /** One character of a string body and how many bytes it took; `None` at the closing quote, at a raw
      control character, and at spellings the encoder never writes. */
  function TakeChar(s: string): (r: Option<(char, nat)>)
    ensures r.Some? ==> 1 <= r.value.1 <= |s|
  {
    if s == "" || s[0] == '"' || s[0] as int < 0x20 then None
    else if s[0] != '\\' then Some((s[0], 1))
    else if |s| < 2 then None
    else if s[1] == '"' then Some(('"', 2)) else if s[1] == '\\' then Some(('\\', 2))
    else if s[1] == 'b' then Some((8 as char, 2)) else if s[1] == 't' then Some((9 as char, 2))
    else if s[1] == 'n' then Some((10 as char, 2)) else if s[1] == 'f' then Some((12 as char, 2))
    else if s[1] == 'r' then Some((13 as char, 2))
    else if |s| >= 6 && s[1] == 'u' && s[2] == '0' && s[3] == '0'
            && HexOf(s[4]).Some? && HexOf(s[5]).Some? && HexOf(s[4]).value < 2
    then Some(((HexOf(s[4]).value * 16 + HexOf(s[5]).value) as char, 6))
    else None
  }

  /** The string body up to its closing quote, and the text after the quote. */
  function TakeString(s: string): (r: Option<(string, string)>)
    decreases |s|
  {
    if s != "" && s[0] == '"' then Some(("", s[1..]))
    else match TakeChar(s)
      case None => None
      case Some(t) =>
        match TakeString(s[t.1..])
        case None => None
        case Some(rest) => Some(([t.0] + rest.0, rest.1))
  }

  lemma {:induction false} HexRoundTrip(n: nat)
    requires n < 16
    ensures HexOf(HexDigit(n)) == Some(n)
  {
  }

  lemma {:induction false} TakeEscaped(c: char, rest: string)
    ensures TakeChar(EscapeChar(c) + rest) == Some((c, |EscapeChar(c)|))
    ensures EscapeChar(c)[0] != '"'
  {
    if c as int < 0x20 {
      HexRoundTrip(c as int / 16);
      HexRoundTrip(c as int % 16);
    }
  }

  lemma {:induction false} StringRoundTrip(s: string, rest: string)
    ensures TakeString(Escape(s) + ("\"" + rest)) == Some((s, rest))
    decreases |s|
  {
    hide EscapeChar, TakeChar;
    var tail := "\"" + rest;
    var text := Escape(s) + tail;
    if s == "" {
      assert text == tail && tail[1..] == rest;
    } else {
      var head, more := EscapeChar(s[0]), Escape(s[1..]) + tail;
      assert text == head + more;
      TakeEscaped(s[0], more);
      StringRoundTrip(s[1..], rest);
      assert text[|head|..] == more;
      assert s == [s[0]] + s[1..];
    }
  }

  // ---------------------------------------------------------------- JSON numbers and punctuation

  function DigitsEnd(s: string): (k: nat)
    ensures k <= |s| && AllDigits(s[..k]) && (k < |s| ==> !IsDigit(s[k]))
  {
    if s == "" || !IsDigit(s[0]) then 0
    else
      var k := DigitsEnd(s[1..]);
      assert s[..k + 1] == [s[0]] + s[1..][..k];
      k + 1
  }

  /** A number without a sign, leading zero, fraction or exponent. */
  function TakeNumber(s: string): Option<(nat, string)> {
    var k := DigitsEnd(s);
    if k == 0 || (k > 1 && s[0] == '0') then None else Some((Value(s[..k]), s[k..]))
  }

  function Expect(s: string, prefix: string): Option<string> {
    if prefix <= s then Some(s[|prefix|..]) else None
  }

  lemma {:induction false} DigitsEndAt(digits: string, rest: string)
    requires AllDigits(digits) && (rest != "" ==> !IsDigit(rest[0]))
    ensures DigitsEnd(digits + rest) == |digits|
    decreases |digits|
  {
    var s := digits + rest;
    if digits == "" {
      assert s == rest;
    } else {
      assert s[1..] == digits[1..] + rest;
      DigitsEndAt(digits[1..], rest);
    }
  }

  lemma {:induction false} NoLeadingZero(n: nat)
    ensures n >= 10 ==> Numeral(n)[0] != '0'
    ensures n > 0 ==> Numeral(n)[0] != '0'
  {
    if n >= 10 {
      NoLeadingZero(n / 10);
    }
  }

  lemma {:induction false} NumeralOfValue(digits: string)
    requires digits != "" && AllDigits(digits) && (|digits| > 1 ==> digits[0] != '0')
    ensures Numeral(Value(digits)) == digits
    decreases |digits|
  {
    var n := |digits| - 1;
    var init, last := digits[..n], digits[n];
    assert digits == init + [last];
    if n > 0 {
      NumeralOfValue(init);
      LeadingDigit(init);
      DecimalNotation(Value(init), DigitValue(last));
    } else {
      assert Value("") == 0 && init == "";
      DecimalNotation(0, DigitValue(last));
    }
  }

  lemma {:induction false} LeadingDigit(digits: string)
    requires digits != "" && AllDigits(digits) && digits[0] != '0'
    ensures Value(digits) > 0
    decreases |digits|
  {
    if |digits| > 1 {
      LeadingDigit(digits[..|digits| - 1]);
    }
  }

  /** A number is read in one spelling only: the numeral, with no leading zero, up to the first other character. */
  lemma {:induction false} NumberUnique(s: string, n: nat, rest: string)
    ensures TakeNumber(s) == Some((n, rest))
            <==> s == Numeral(n) + rest && (rest != "" ==> !IsDigit(rest[0]))
  {
    if TakeNumber(s) == Some((n, rest)) {
      NumeralOfValue(s[..DigitsEnd(s)]);
    }
    if s == Numeral(n) + rest && (rest != "" ==> !IsDigit(rest[0])) {
      TakeOwnNumeral(n, rest);
    }
  }

  lemma {:induction false} TakeOwnNumeral(n: nat, rest: string)
    requires rest != "" ==> !IsDigit(rest[0])
    ensures TakeNumber(Numeral(n) + rest) == Some((n, rest))
  {
    var s, digits := Numeral(n) + rest, Numeral(n);
    DigitsEndAt(digits, rest);
    ValueOfNumeral(n);
    NoLeadingZero(n);
    assert s[..|digits|] == digits && s[|digits|..] == rest && s[0] == digits[0];
    assert n == 0 ==> |digits| == 1;
  }

  lemma {:induction false} ExpectOwn(prefix: string, rest: string)
    ensures Expect(prefix + rest, prefix) == Some(rest)
  {
    assert (prefix + rest)[|prefix|..] == rest;
  }

  // ---------------------------------------------------------------- the two cursors

  const VERSION_OPEN := "{\"version\":"
  const UPDATED_OPEN := ",\"updated_at\":\""
  const NAME_OPEN := ",\"name\":\""
  const CREATED_OPEN := ",\"created_at\":\""
  const ID_OPEN := ",\"id\":"
  const CLOSE := "}"

  /** What the JSON library makes of a text outside the encoder's layout: a version and a key, or an error. */
  type Other<!K> = string -> Option<(nat, K)>

  function RepoJson(k: RepoKey): string {
    VERSION_OPEN
    + (Numeral(1)
       + (UPDATED_OPEN + (Escape(k.updatedAt) + ("\"" + (NAME_OPEN + (Escape(k.name) + ("\"" + CLOSE)))))))
  }

  function ReadVersion(s: string, next: string): Option<(nat, string)> {
    match Expect(s, VERSION_OPEN)
    case None => None
    case Some(a) =>
      match TakeNumber(a)
      case None => None
      case Some(version) =>
        match Expect(version.1, next)
        case None => None
        case Some(rest) => if version.0 < 256 then Some((version.0, rest)) else None
  }

  function ReadRepoFields(s: string): Option<RepoKey> {
    match TakeString(s)
    case None => None
    case Some(updated) =>
      match Expect(updated.1, NAME_OPEN)
      case None => None
      case Some(b) =>
        match TakeString(b)
        case None => None
        case Some(name) =>
          if name.1 == CLOSE && ValidUtf8(updated.0) && ValidUtf8(name.0) then Some(RepoKey(updated.0, name.0))
          else None
  }

  function ReadRepoJson(other: Other<RepoKey>, s: string): Option<(nat, RepoKey)> {
    match ReadVersion(s, UPDATED_OPEN)
    case None => other(s)
    case Some(v) =>
      match ReadRepoFields(v.1)
      case None => other(s)
      case Some(k) => Some((v.0, k))
  }

  function EncodeRepoCursor(k: RepoKey): string
    requires ValidUtf8(k.updatedAt) && ValidUtf8(k.name)
  {
    RepoJsonIsBytes(k);
    Encode64(RepoJson(k))
  }

  function DecodeRepoCursor(other: Other<RepoKey>, text: string): Option<RepoKey> {
    if text == "" || |text| > MAX_CURSOR then None
    else match Decode64(text)
      case None => None
      case Some(bytes) =>
        match ReadRepoJson(other, bytes)
        case None => None
        case Some(r) => if r.0 != 1 || r.1.name == "" then None else Some(r.1)
  }

  /** How timestamps are printed and read. */
  datatype Clock = Clock(show: int -> string, read: string -> Option<int>)

  /** Timestamps are signed 64-bit counts of microseconds. */
  const MIN_TIME: int := -0x8000_0000_0000_0000
  const MAX_TIME: int := 0x7FFF_FFFF_FFFF_FFFF

  predicate Representable(t: int) { MIN_TIME <= t <= MAX_TIME }

  /** Every representable timestamp is printed as short plain text and read back. */
  ghost predicate Faithful(clock: Clock) {
    forall t :: Representable(t) ==>
      Printable(clock.show(t)) && |clock.show(t)| <= 64 && clock.read(clock.show(t)) == Some(t)
  }

  /** One clock that prints and reads faithfully: the distance from the earliest timestamp, in decimal. */
  function DecimalClock(): Clock {
    Clock((t: int) => if Representable(t) then Numeral(t - MIN_TIME) else "",
          (s: string) => if AllDigits(s) then Some(Value(s) + MIN_TIME) else None)
  }

  lemma {:induction false} SomeClockIsFaithful()
    ensures Faithful(DecimalClock())
  {
    hide Numeral, Value;
    forall t | Representable(t)
      ensures var s := DecimalClock().show(t);
              Printable(s) && |s| <= 64 && DecimalClock().read(s) == Some(t)
    {
      ValueOfNumeral(t - MIN_TIME);
      U64NumeralLength(t - MIN_TIME);
    }
  }

  predicate Printable(s: string) {
    forall i :: 0 <= i < |s| ==> 0x20 <= s[i] as int < 0x7F && s[i] != '"' && s[i] != '\\'
  }

  function ActivityJson(clock: Clock, k: ActivityKey): string
    requires k.id > 0
  {
    VERSION_OPEN
    + (Numeral(1)
       + (CREATED_OPEN + (Escape(clock.show(k.createdAt)) + ("\"" + (ID_OPEN + (Numeral(k.id) + CLOSE))))))
  }

  function ReadActivityFields(clock: Clock, s: string): Option<ActivityKey> {
    match TakeString(s)
    case None => None
    case Some(created) =>
      match Expect(created.1, ID_OPEN)
      case None => None
      case Some(b) =>
        match TakeNumber(b)
        case None => None
        case Some(id) =>
          match clock.read(created.0)
          case None => None
          case Some(t) => if id.1 == CLOSE && id.0 <= I64_MAX then Some(ActivityKey(t, id.0)) else None
  }

  function ReadActivityJson(clock: Clock, other: Other<ActivityKey>, s: string): Option<(nat, ActivityKey)> {
    match ReadVersion(s, CREATED_OPEN)
    case None => other(s)
    case Some(v) =>
      match ReadActivityFields(clock, v.1)
      case None => other(s)
      case Some(k) => Some((v.0, k))
  }

  function DecodeActivityCursor(clock: Clock, other: Other<ActivityKey>, text: string): Option<ActivityKey> {
    if text == "" || |text| > MAX_CURSOR then None
    else match Decode64(text)
      case None => None
      case Some(bytes) =>
        match ReadActivityJson(clock, other, bytes)
        case None => None
        case Some(r) => if r.0 != 1 || r.1.id <= 0 then None else Some(r.1)
  }

  // ---------------------------------------------------------------- bytes and lengths

  lemma {:induction false} Utf8IsBytes(s: string)
    requires ValidUtf8(s)
    ensures IsBytes(s)
    decreases |s|
  {
    if s != "" {
      var n := if s[0] as int < 0x80 then 1 else if s[0] as int < 0xE0 then 2 else if s[0] as int < 0xF0 then 3 else 4;
      Utf8IsBytes(s[n..]);
      forall i | 0 <= i < |s| ensures s[i] as int < 256 {
        assert i >= n ==> s[i] == s[n..][i - n];
      }
    }
  }

  lemma {:induction false} BytesConcat(a: string, b: string)
    requires IsBytes(a) && IsBytes(b)
    ensures IsBytes(a + b)
  {
  }

  lemma {:induction false} EscapeCharIsBytes(c: char)
    requires c as int < 256
    ensures IsBytes(EscapeChar(c))
  {
  }

  lemma {:induction false} EscapeIsBytes(s: string)
    requires IsBytes(s)
    ensures IsBytes(Escape(s)) && |Escape(s)| <= 6 * |s|
    decreases |s|
  {
    if s != "" {
      EscapeCharIsBytes(s[0]);
      EscapeIsBytes(s[1..]);
    }
  }

  lemma {:induction false} PrintableIsVerbatim(s: string)
    requires Printable(s)
    ensures Escape(s) == s
    decreases |s|
  {
    if s != "" {
      PrintableIsVerbatim(s[1..]);
    }
  }

  lemma {:induction false} PunctuationIsBytes()
    ensures IsBytes(VERSION_OPEN) && IsBytes(UPDATED_OPEN) && IsBytes(NAME_OPEN) && IsBytes(CREATED_OPEN)
    ensures IsBytes(ID_OPEN) && IsBytes(CLOSE) && IsBytes("\"")
  {
  }

  lemma {:induction false} NumeralIsBytes(n: nat)
    ensures IsBytes(Numeral(n))
  {
  }

  lemma {:induction false} RepoJsonIsBytes(k: RepoKey)
    requires ValidUtf8(k.updatedAt) && ValidUtf8(k.name)
    ensures IsBytes(RepoJson(k))
  {
    hide Numeral, IsBytes, Escape;
    Utf8IsBytes(k.updatedAt);
    Utf8IsBytes(k.name);
    EscapeIsBytes(k.updatedAt);
    EscapeIsBytes(k.name);
    PunctuationIsBytes();
    NumeralIsBytes(1);
    var t1 := "\"" + CLOSE;
    var t2 := Escape(k.name) + t1;
    var t3 := NAME_OPEN + t2;
    var t4 := "\"" + t3;
    var t5 := Escape(k.updatedAt) + t4;
    var t6 := UPDATED_OPEN + t5;
    BytesConcat("\"", CLOSE);
    BytesConcat(Escape(k.name), t1);
    BytesConcat(NAME_OPEN, t2);
    BytesConcat("\"", t3);
    BytesConcat(Escape(k.updatedAt), t4);
    BytesConcat(UPDATED_OPEN, t5);
    BytesConcat(Numeral(1), t6);
    BytesConcat(VERSION_OPEN, Numeral(1) + t6);
  }

  lemma {:induction false} ActivityJsonIsBytes(clock: Clock, k: ActivityKey)
    requires Faithful(clock) && Representable(k.createdAt) && 0 < k.id <= I64_MAX
    ensures IsBytes(ActivityJson(clock, k)) && |ActivityJson(clock, k)| <= 128
  {
    var shown := clock.show(k.createdAt);
    PrintableIsVerbatim(shown);
    U64NumeralLength(k.id);
    assert |Numeral(1)| == 1;
    assert IsBytes(shown);
    hide Numeral, IsBytes, Escape;
    PunctuationIsBytes();
    NumeralIsBytes(1);
    NumeralIsBytes(k.id);
    var t1 := Numeral(k.id) + CLOSE;
    var t2 := ID_OPEN + t1;
    var t3 := "\"" + t2;
    var t4 := shown + t3;
    var t5 := CREATED_OPEN + t4;
    BytesConcat(Numeral(k.id), CLOSE);
    BytesConcat(ID_OPEN, t1);
    BytesConcat("\"", t2);
    BytesConcat(shown, t3);
    BytesConcat(CREATED_OPEN, t4);
    BytesConcat(Numeral(1), t5);
    BytesConcat(VERSION_OPEN, Numeral(1) + t5);
  }

  // ---------------------------------------------------------------- round trips

  lemma {:induction false} ReadOwnVersion(next: string, rest: string)
    requires next != "" && !IsDigit(next[0])
    ensures ReadVersion(VERSION_OPEN + (Numeral(1) + (next + rest)), next) == Some((1, rest))
  {
    hide Numeral, TakeNumber, Expect;
    ExpectOwn(VERSION_OPEN, Numeral(1) + (next + rest));
    TakeOwnNumeral(1, next + rest);
    ExpectOwn(next, rest);
  }

  lemma {:induction false} ReadOwnRepoJson(other: Other<RepoKey>, k: RepoKey)
    requires ValidUtf8(k.updatedAt) && ValidUtf8(k.name)
    ensures ReadRepoJson(other, RepoJson(k)) == Some((1, k))
  {
    hide Numeral, TakeString, Expect, Escape, ReadVersion, ValidUtf8;
    var t3 := NAME_OPEN + (Escape(k.name) + ("\"" + CLOSE));
    ReadOwnVersion(UPDATED_OPEN, Escape(k.updatedAt) + ("\"" + t3));
    StringRoundTrip(k.updatedAt, t3);
    ExpectOwn(NAME_OPEN, Escape(k.name) + ("\"" + CLOSE));
    StringRoundTrip(k.name, CLOSE);
  }

  /** A repository cursor decodes to exactly the key it was made from, precisely when the name is not empty
      and the JSON text is at most 1536 bytes. */
  lemma {:induction false} RepoCursorRoundTrip(other: Other<RepoKey>, k: RepoKey)
    requires ValidUtf8(k.updatedAt) && ValidUtf8(k.name)
    ensures DecodeRepoCursor(other, EncodeRepoCursor(k)) == Some(k)
            <==> k.name != "" && |RepoJson(k)| <= 1536
  {
    hide ReadRepoJson, RepoJson, Encode64, Decode64, ValidUtf8;
    RepoJsonIsBytes(k);
    Base64Length(RepoJson(k));
    Base64RoundTrip(RepoJson(k));
    ReadOwnRepoJson(other, k);
    RepoJsonLength(k);
  }

  lemma {:induction false} RepoJsonLength(k: RepoKey)
    ensures |RepoJson(k)| == 39 + |Escape(k.updatedAt)| + |Escape(k.name)|
  {
    assert |Numeral(1)| == 1;
    hide Numeral, Escape;
  }

  predicate NameChar(c: char) { 'a' <= c <= 'z' || '0' <= c <= '9' || c == '-' || c == '_' }

  predicate LegalName(name: string) { 0 < |name| <= 128 && forall i :: 0 <= i < |name| ==> NameChar(name[i]) }

  /** Every cursor for a legal repository name with a printable timestamp is accepted on the next request. */
  lemma {:induction false} LegalRepoCursorIsAccepted(other: Other<RepoKey>, k: RepoKey)
    requires LegalName(k.name) && Printable(k.updatedAt) && |k.updatedAt| <= 1024
    ensures ValidUtf8(k.updatedAt) && ValidUtf8(k.name)
    ensures |EncodeRepoCursor(k)| <= MAX_CURSOR && DecodeRepoCursor(other, EncodeRepoCursor(k)) == Some(k)
  {
    AsciiIsUtf8(k.updatedAt);
    AsciiIsUtf8(k.name);
    PrintableIsVerbatim(k.updatedAt);
    PrintableIsVerbatim(k.name);
    hide Escape, RepoJson, Encode64, DecodeRepoCursor, ValidUtf8, Printable;
    RepoJsonLength(k);
    RepoJsonIsBytes(k);
    Base64Length(RepoJson(k));
    RepoCursorRoundTrip(other, k);
  }

  function EncodeActivityCursor(clock: Clock, k: ActivityKey): string
    requires k.id > 0 && IsBytes(ActivityJson(clock, k))
  {
    Encode64(ActivityJson(clock, k))
  }

  lemma {:induction false} ReadOwnActivityJson(clock: Clock, other: Other<ActivityKey>, k: ActivityKey)
    requires Faithful(clock) && Representable(k.createdAt) && 0 < k.id <= I64_MAX
    ensures ReadActivityJson(clock, other, ActivityJson(clock, k)) == Some((1, k))
  {
    hide Numeral, TakeString, TakeNumber, Expect, Escape, ReadVersion;
    var shown := clock.show(k.createdAt);
    var t2 := ID_OPEN + (Numeral(k.id) + CLOSE);
    ReadOwnVersion(CREATED_OPEN, Escape(shown) + ("\"" + t2));
    StringRoundTrip(shown, t2);
    ExpectOwn(ID_OPEN, Numeral(k.id) + CLOSE);
    TakeOwnNumeral(k.id, CLOSE);
  }

  /** Every activity cursor for a positive event id and a representable timestamp fits and decodes to exactly the
      key it was made from. */
  lemma {:induction false} ActivityCursorRoundTrip(clock: Clock, other: Other<ActivityKey>, k: ActivityKey)
    requires Faithful(clock) && Representable(k.createdAt) && 0 < k.id <= I64_MAX
    ensures IsBytes(ActivityJson(clock, k))
    ensures |EncodeActivityCursor(clock, k)| <= MAX_CURSOR
    ensures DecodeActivityCursor(clock, other, EncodeActivityCursor(clock, k)) == Some(k)
  {
    hide ReadActivityJson, ActivityJson, Encode64, Decode64;
    ActivityJsonIsBytes(clock, k);
    Base64Length(ActivityJson(clock, k));
    Base64RoundTrip(ActivityJson(clock, k));
    ReadOwnActivityJson(clock, other, k);
    ActivityJsonNotEmpty(clock, k);
  }

  lemma {:induction false} ActivityJsonNotEmpty(clock: Clock, k: ActivityKey)
    requires k.id > 0
    ensures |ActivityJson(clock, k)| > 0
  {
  }

  // ---------------------------------------------------------------- the formats themselves

  /** The URL-safe alphabet of section 5 of RFC 4648. */
  lemma {:induction false} UrlSafeAlphabet(n: nat)
    requires n < 64
    ensures n < 26 ==> Sym(n) == 'A' + n as char
    ensures 26 <= n < 52 ==> Sym(n) == 'a' + (n - 26) as char
    ensures 52 <= n < 62 ==> Sym(n) == '0' + (n - 52) as char
    ensures n == 62 ==> Sym(n) == '-'
    ensures n == 63 ==> Sym(n) == '_'
  {
  }

  /** Three bytes are four sextets of the same big-endian number; one and two bytes are padded with zero bits. */
  lemma {:induction false} SextetsOfBytes(x: char, y: char, z: char) returns (a: nat, b: nat, c: nat, d: nat)
    requires x as int < 256 && y as int < 256 && z as int < 256
    ensures a < 64 && b < 64 && c < 64 && d < 64
    ensures Encode64([x, y, z]) == [Sym(a), Sym(b), Sym(c), Sym(d)]
    ensures ((a * 64 + b) * 64 + c) * 64 + d == (x as int * 256 + y as int) * 256 + z as int
  {
    var n, m, k := x as int, y as int, z as int;
    a, b, c, d := n / 4, n % 4 * 16 + m / 16, m % 16 * 4 + k / 64, k % 64;
    JoinFirst(n, m);
    JoinSecond(m, k);
    assert [x, y, z][3..] == [];
    assert Encode64([]) == "";
    hide Sym;
  }

  lemma {:induction false} SextetsOfShortEnds(x: char, y: char) returns (a: nat, b: nat, c: nat, e: nat, f: nat)
    requires x as int < 256 && y as int < 256
    ensures a < 64 && b < 64 && c < 64 && e < 64 && f < 64
    ensures Encode64([x, y]) == [Sym(a), Sym(b), Sym(c)]
    ensures (a * 64 + b) * 64 + c == (x as int * 256 + y as int) * 4
    ensures Encode64([x]) == [Sym(e), Sym(f)] && e * 64 + f == x as int * 16
  {
    var n, m := x as int, y as int;
    a, b, c := n / 4, n % 4 * 16 + m / 16, m % 16 * 4;
    e, f := n / 4, n % 4 * 16;
    JoinFirst(n, m);
    hide Sym;
  }

  /** The longer texts are encoded three bytes at a time. */
  lemma {:induction false} EncodeInGroups(x: char, y: char, z: char, rest: string)
    requires x as int < 256 && y as int < 256 && z as int < 256 && IsBytes(rest)
    ensures IsBytes([x, y, z] + rest) && Encode64([x, y, z] + rest) == Encode64([x, y, z]) + Encode64(rest)
  {
    assert ([x, y, z] + rest)[3..] == rest && [x, y, z][3..] == [];
    assert Encode64([]) == "";
    hide Three;
  }

  /** The escapes of section 7 of RFC 8259 that are written, and nothing else is escaped. */
  lemma {:induction false} EscapeTable(c: char)
    ensures EscapeChar('"') == "\\\"" && EscapeChar('\\') == "\\\\"
    ensures EscapeChar(8 as char) == "\\b" && EscapeChar(9 as char) == "\\t" && EscapeChar(10 as char) == "\\n"
    ensures EscapeChar(12 as char) == "\\f" && EscapeChar(13 as char) == "\\r"
    ensures EscapeChar(0 as char) == "\\u0000" && EscapeChar(31 as char) == "\\u001f"
    ensures c as int >= 0x20 && c != '"' && c != '\\' ==> EscapeChar(c) == [c]
  {
    assert EscapeChar(31 as char) == "\\u00" + ['1', 'f'];
    assert EscapeChar(0 as char) == "\\u00" + ['0', '0'];
  }

  /** The JSON text of a repository key. */
  lemma {:induction false} RepoJsonLayout(k: RepoKey)
    ensures RepoJson(k)
         == "{\"version\":1,\"updated_at\":\"" + Escape(k.updatedAt) + "\",\"name\":\"" + Escape(k.name) + "\"}"
  {
    assert Numeral(1) == "1";
    assert VERSION_OPEN + ("1" + UPDATED_OPEN) == "{\"version\":1,\"updated_at\":\"";
    assert "\"" + NAME_OPEN == "\",\"name\":\"";
    assert "\"" + CLOSE == "\"}";
    Regroup(VERSION_OPEN, "1", UPDATED_OPEN, Escape(k.updatedAt), "\"", NAME_OPEN, Escape(k.name), "\"" + CLOSE);
    hide Escape, Numeral;
  }

  lemma {:induction false} Regroup(
      a: string, b: string, c: string, d: string, e: string, f: string, g: string, h: string)
    ensures a + (b + (c + (d + (e + (f + (g + h)))))) == (a + (b + c)) + d + (e + f) + g + h
  {
  }

  /** The JSON text of an event key. */
  lemma {:induction false} ActivityJsonLayout(clock: Clock, k: ActivityKey)
    requires k.id > 0
    ensures ActivityJson(clock, k)
         == "{\"version\":1,\"created_at\":\"" + Escape(clock.show(k.createdAt)) + "\",\"id\":" + Numeral(k.id) + "}"
  {
    assert Numeral(1) == "1";
    assert VERSION_OPEN + ("1" + CREATED_OPEN) == "{\"version\":1,\"created_at\":\"";
    assert "\"" + ID_OPEN == "\",\"id\":";
    Regroup(VERSION_OPEN, "1", CREATED_OPEN, Escape(clock.show(k.createdAt)), "\"", ID_OPEN, Numeral(k.id), CLOSE);
    hide Escape, Numeral;
  }

  /** Exactly which cursor texts of the repository listing are accepted: at most 2048 characters, the encoding of
      a JSON text read as version 1 with a name. */
  lemma {:induction false} AcceptedRepoCursorExactly(other: Other<RepoKey>, text: string, k: RepoKey)
    ensures DecodeRepoCursor(other, text) == Some(k)
            <==> && 0 < |text| <= 2048 && k.name != ""
                 && exists bytes :: IsBytes(bytes) && Encode64(bytes) == text
                                    && ReadRepoJson(other, bytes) == Some((1, k))
  {
    hide Encode64, Decode64, ReadRepoJson;
    if DecodeRepoCursor(other, text) == Some(k) {
      Base64Unique(text);
      var bytes := Decode64(text).value;
      assert IsBytes(bytes) && Encode64(bytes) == text && ReadRepoJson(other, bytes) == Some((1, k));
    }
    if bytes :| IsBytes(bytes) && Encode64(bytes) == text && ReadRepoJson(other, bytes) == Some((1, k)) {
      Base64RoundTrip(bytes);
    }
  }

  /** The same for the activity feed, with a positive id. */
  lemma {:induction false} AcceptedActivityCursorExactly(
      clock: Clock, other: Other<ActivityKey>, text: string, k: ActivityKey)
    ensures DecodeActivityCursor(clock, other, text) == Some(k)
            <==> && 0 < |text| <= 2048 && k.id > 0
                 && exists bytes :: IsBytes(bytes) && Encode64(bytes) == text
                                    && ReadActivityJson(clock, other, bytes) == Some((1, k))
  {
    hide Encode64, Decode64, ReadActivityJson;
    if DecodeActivityCursor(clock, other, text) == Some(k) {
      Base64Unique(text);
      var bytes := Decode64(text).value;
      assert IsBytes(bytes) && Encode64(bytes) == text && ReadActivityJson(clock, other, bytes) == Some((1, k));
    }
    if bytes :| IsBytes(bytes) && Encode64(bytes) == text && ReadActivityJson(clock, other, bytes) == Some((1, k)) {
      Base64RoundTrip(bytes);
    }
  }
}
