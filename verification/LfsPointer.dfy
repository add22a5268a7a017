/** Git LFS pointer files with Clotho's `x-clotho-arachne-hash` line.

    A byte string is a `string` with one character per byte. SHA-256 is a parameter. */
module LfsPointer {
  import opened Prelude
  import opened Decimal

  datatype Pointer = Pointer(oid: string, size: nat, arachneHash: string)

  datatype PointerError = NotPointer | Invalid(message: string)

  const VERSION_LINE := "version https://git-lfs.github.com/spec/v1"
  const OID_PREFIX := "oid sha256:"
  const SIZE_PREFIX := "size "
  const HASH_PREFIX := "x-clotho-arachne-hash "

  function ForPayload(sha: string -> string, payload: string, hash: string): Pointer {
    Pointer(sha(payload), |payload|, hash)
  }

  function Encode(p: Pointer): string {
    VERSION_LINE + "\n"
    + (OID_PREFIX + p.oid + "\n"
       + (SIZE_PREFIX + Numeral(p.size) + "\n"
          + (HASH_PREFIX + p.arachneHash + "\n" + "")))
  }

  // ---------------------------------------------------------------- text

  predicate Between(c: char, low: int, high: int) { low <= c as int <= high }

  predicate ValidUtf8(s: string)
    decreases |s|
  {
    if s == "" then true
    else if Between(s[0], 0, 0x7F) then ValidUtf8(s[1..])
    else if Between(s[0], 0xC2, 0xDF) then |s| >= 2 && Between(s[1], 0x80, 0xBF) && ValidUtf8(s[2..])
    else if Between(s[0], 0xE0, 0xEF) then
      && |s| >= 3
      && Between(s[1], if s[0] as int == 0xE0 then 0xA0 else 0x80, if s[0] as int == 0xED then 0x9F else 0xBF)
      && Between(s[2], 0x80, 0xBF)
      && ValidUtf8(s[3..])
    else
      && Between(s[0], 0xF0, 0xF4)
      && |s| >= 4
      && Between(s[1], if s[0] as int == 0xF0 then 0x90 else 0x80, if s[0] as int == 0xF4 then 0x8F else 0xBF)
      && Between(s[2], 0x80, 0xBF)
      && Between(s[3], 0x80, 0xBF)
      && ValidUtf8(s[4..])
  }

  function LineEnd(s: string): (k: nat)
    ensures k <= |s| && '\n' !in s[..k] && (k < |s| ==> s[k] == '\n')
  {
    if s == "" || s[0] == '\n' then 0 else 1 + LineEnd(s[1..])
  }

  function DropReturn(line: string): string {
    if line != "" && line[|line| - 1] == '\r' then line[..|line| - 1] else line
  }

  /** `str::lines`: only a terminated line loses its trailing carriage return. */
  function Lines(s: string): seq<string>
    decreases |s|
  {
    var k := LineEnd(s);
    if s == "" then []
    else if k == |s| then [s]
    else [DropReturn(s[..k])] + Lines(s[k + 1..])
  }

  predicate HasPrefix(s: string, prefix: string) { prefix <= s }

  function After(s: string, prefix: string): string
    requires HasPrefix(s, prefix)
  {
    s[|prefix|..]
  }

  // ---------------------------------------------------------------- hexadecimal fields

  predicate IsLowerHex(c: char) { '0' <= c <= '9' || 'a' <= c <= 'f' }

  predicate IsHex(c: char) { IsLowerHex(c) || 'A' <= c <= 'F' }

  function Lower(c: char): char { if 'A' <= c <= 'Z' then (c as int + 32) as char else c }

  function LowerAll(s: string): string { seq(|s|, i requires 0 <= i < |s| => Lower(s[i])) }

  predicate IsHex64(s: string) { |s| == 64 && forall i :: 0 <= i < 64 ==> IsHex(s[i]) }

  predicate IsDigest(s: string) { |s| == 64 && forall i :: 0 <= i < 64 ==> IsLowerHex(s[i]) }

  function ValidHex(value: string, field: string): Result<string, PointerError> {
    if IsHex64(value) then Ok(LowerAll(value)) else Err(Invalid(field + " must be 64 hexadecimal characters"))
  }

  // ---------------------------------------------------------------- parsing

  datatype Fields = Fields(oid: Option<string>, size: Option<nat>, hash: Option<string>)

  const NO_FIELDS := Fields(None, None, None)

  function ReadLine(f: Fields, line: string): Result<Fields, PointerError> {
    if HasPrefix(line, OID_PREFIX) then
      match ValidHex(After(line, OID_PREFIX), "oid") {
        case Ok(v) => Ok(f.(oid := Some(v)))
        case Err(e) => Err(e)
      }
    else if HasPrefix(line, SIZE_PREFIX) then
      match ParseU64(After(line, SIZE_PREFIX)) {
        case Some(n) => Ok(f.(size := Some(n)))
        case None => Err(Invalid("size must be an integer"))
      }
    else if HasPrefix(line, HASH_PREFIX) then
      match ValidHex(After(line, HASH_PREFIX), "Arachne hash") {
        case Ok(v) => Ok(f.(hash := Some(v)))
        case Err(e) => Err(e)
      }
    else Ok(f)
  }

  function ReadLines(f: Fields, lines: seq<string>): Result<Fields, PointerError>
    decreases |lines|
  {
    if lines == [] then Ok(f)
    else match ReadLine(f, lines[0])
      case Err(e) => Err(e)
      case Ok(g) => ReadLines(g, lines[1..])
  }

  function Complete(f: Fields): Result<Pointer, PointerError> {
    if f.oid.None? then Err(Invalid("missing oid"))
    else if f.size.None? then Err(Invalid("missing size"))
    else if f.hash.None? then Err(Invalid("missing Arachne hash"))
    else Ok(Pointer(f.oid.value, f.size.value, f.hash.value))
  }

  predicate PointerShaped(bytes: string) {
    ValidUtf8(bytes) && |Lines(bytes)| > 0 && Lines(bytes)[0] == VERSION_LINE
  }

  function Parsed(bytes: string): Result<Pointer, PointerError> {
    if !PointerShaped(bytes) then Err(NotPointer)
    else match ReadLines(NO_FIELDS, Lines(bytes)[1..])
      case Err(e) => Err(e)
      case Ok(f) => Complete(f)
  }

  method Parse(bytes: string) returns (r: Result<Pointer, PointerError>)
    ensures r == Parsed(bytes)
  {
    if !ValidUtf8(bytes) {
      return Err(NotPointer);
    }
    var lines := Lines(bytes);
    if |lines| == 0 || lines[0] != VERSION_LINE {
      return Err(NotPointer);
    }
    var oid: Option<string> := None;
    var size: Option<nat> := None;
    var hash: Option<string> := None;
    for i := 1 to |lines|
      invariant ReadLines(NO_FIELDS, lines[1..]) == ReadLines(Fields(oid, size, hash), lines[i..])
    {
      var line := lines[i];
      assert lines[i..][0] == line && lines[i..][1..] == lines[i + 1..];
      if HasPrefix(line, OID_PREFIX) {
        match ValidHex(After(line, OID_PREFIX), "oid") {
          case Ok(v) => oid := Some(v);
          case Err(e) => return Err(e);
        }
      } else if HasPrefix(line, SIZE_PREFIX) {
        match ParseU64(After(line, SIZE_PREFIX)) {
          case Some(n) => size := Some(n);
          case None => return Err(Invalid("size must be an integer"));
        }
      } else if HasPrefix(line, HASH_PREFIX) {
        match ValidHex(After(line, HASH_PREFIX), "Arachne hash") {
          case Ok(v) => hash := Some(v);
          case Err(e) => return Err(e);
        }
      }
    }
    if oid.None? {
      return Err(Invalid("missing oid"));
    } else if size.None? {
      return Err(Invalid("missing size"));
    } else if hash.None? {
      return Err(Invalid("missing Arachne hash"));
    }
    return Ok(Pointer(oid.value, size.value, hash.value));
  }

  function VerifyPayload(sha: string -> string, p: Pointer, payload: string): Result<(), PointerError> {
    if |payload| != p.size then Err(Invalid("materialized size mismatch"))
    else if sha(payload) != p.oid then Err(Invalid("materialized SHA-256 mismatch"))
    else Ok(())
  }

  // ---------------------------------------------------------------- what is accepted, independently of the loop

  /** The text after `prefix` on the last line that carries it. */
  function LastValue(lines: seq<string>, prefix: string): Option<string> {
    if lines == [] then None
    else if HasPrefix(lines[|lines| - 1], prefix) then Some(After(lines[|lines| - 1], prefix))
    else LastValue(lines[..|lines| - 1], prefix)
  }

  predicate GoodLine(line: string) {
    && (HasPrefix(line, OID_PREFIX) ==> IsHex64(After(line, OID_PREFIX)))
    && (HasPrefix(line, SIZE_PREFIX) ==> ParseU64(After(line, SIZE_PREFIX)).Some?)
    && (HasPrefix(line, HASH_PREFIX) ==> IsHex64(After(line, HASH_PREFIX)))
  }

  predicate GoodLines(lines: seq<string>) { forall i :: 0 <= i < |lines| ==> GoodLine(lines[i]) }

  function LastFields(lines: seq<string>): Fields
  {
    var oid := LastValue(lines, OID_PREFIX);
    var size := LastValue(lines, SIZE_PREFIX);
    var hash := LastValue(lines, HASH_PREFIX);
    Fields(
      if oid.Some? then Some(LowerAll(oid.value)) else None,
      if size.Some? then ParseU64(size.value) else None,
      if hash.Some? then Some(LowerAll(hash.value)) else None)
  }

  lemma {:induction false} PrefixesExclusive(line: string)
    ensures !(HasPrefix(line, OID_PREFIX) && HasPrefix(line, SIZE_PREFIX))
    ensures !(HasPrefix(line, OID_PREFIX) && HasPrefix(line, HASH_PREFIX))
    ensures !(HasPrefix(line, SIZE_PREFIX) && HasPrefix(line, HASH_PREFIX))
  {
    if line != "" {
      assert OID_PREFIX[0] == 'o' && SIZE_PREFIX[0] == 's' && HASH_PREFIX[0] == 'x';
    }
  }

  lemma {:induction false} ReadLineGood(f: Fields, line: string)
    ensures ReadLine(f, line).Ok? <==> GoodLine(line)
  {
    PrefixesExclusive(line);
  }

  lemma {:induction false} ReadLinesSnoc(f: Fields, lines: seq<string>, line: string)
    ensures ReadLines(f, lines + [line])
         == match ReadLines(f, lines) { case Err(e) => Err(e) case Ok(g) => ReadLine(g, line) }
    decreases |lines|
  {
    if lines == [] {
      assert lines + [line] == [line];
      match ReadLine(f, line) {
        case Err(e) =>
        case Ok(g) => assert ReadLines(g, []) == Ok(g);
      }
    } else {
      assert (lines + [line])[1..] == lines[1..] + [line];
      match ReadLine(f, lines[0]) {
        case Err(e) =>
        case Ok(g) => ReadLinesSnoc(g, lines[1..], line);
      }
    }
  }

  lemma {:induction false} LastFieldsSnoc(lines: seq<string>, line: string)
    requires GoodLine(line)
    ensures ReadLine(LastFields(lines), line) == Ok(LastFields(lines + [line]))
  {
    PrefixesExclusive(line);
    var all := lines + [line];
    assert all[..|all| - 1] == lines;
  }

  /** The reading loop succeeds exactly when every recognised line is well formed, and then holds the last
      value of each field. */
  lemma {:induction false} ReadsTheLastValues(lines: seq<string>)
    ensures ReadLines(NO_FIELDS, lines).Ok? <==> GoodLines(lines)
    ensures GoodLines(lines) ==> ReadLines(NO_FIELDS, lines) == Ok(LastFields(lines))
    decreases |lines|
  {
    if lines != [] {
      var init, last := lines[..|lines| - 1], lines[|lines| - 1];
      assert lines == init + [last];
      ReadsTheLastValues(init);
      ReadLinesSnoc(NO_FIELDS, init, last);
      if GoodLines(init) {
        ReadLineGood(LastFields(init), last);
        if GoodLine(last) {
          LastFieldsSnoc(init, last);
        }
      }
      assert GoodLines(lines) <==> GoodLines(init) && GoodLine(last);
    }
  }

  /** Exactly which bytes are accepted, and as what. */
  lemma {:induction false} AcceptedExactly(bytes: string, p: Pointer)
    ensures Parsed(bytes) == Ok(p)
            <==> && PointerShaped(bytes)
                 && GoodLines(Lines(bytes)[1..])
                 && LastFields(Lines(bytes)[1..]) == Fields(Some(p.oid), Some(p.size), Some(p.arachneHash))
  {
    hide Lines, ValidUtf8, ReadLines, GoodLines, LastFields;
    if PointerShaped(bytes) {
      ReadsTheLastValues(Lines(bytes)[1..]);
    }
  }

  ghost predicate Canonical(p: Pointer) { IsDigest(p.oid) && p.size <= U64_MAX && IsDigest(p.arachneHash) }

  lemma {:induction false} LowerAllIsDigest(s: string)
    requires IsHex64(s)
    ensures IsDigest(LowerAll(s))
  {
  }

  lemma {:induction false} DigestIsItsOwnLower(s: string)
    requires IsDigest(s)
    ensures IsHex64(s) && LowerAll(s) == s
  {
  }

  lemma {:induction false} ReadLinesKeepsDigests(f: Fields, lines: seq<string>)
    requires f.oid.Some? ==> IsDigest(f.oid.value)
    requires f.hash.Some? ==> IsDigest(f.hash.value)
    requires f.size.Some? ==> f.size.value <= U64_MAX
    ensures var r := ReadLines(f, lines);
            r.Ok? ==> && (r.value.oid.Some? ==> IsDigest(r.value.oid.value))
                      && (r.value.hash.Some? ==> IsDigest(r.value.hash.value))
                      && (r.value.size.Some? ==> r.value.size.value <= U64_MAX)
    decreases |lines|
  {
    if lines != [] && ReadLine(f, lines[0]).Ok? {
      if HasPrefix(lines[0], OID_PREFIX) {
        LowerAllIsDigest(After(lines[0], OID_PREFIX));
      } else if !HasPrefix(lines[0], SIZE_PREFIX) && HasPrefix(lines[0], HASH_PREFIX) {
        LowerAllIsDigest(After(lines[0], HASH_PREFIX));
      }
      ReadLinesKeepsDigests(ReadLine(f, lines[0]).value, lines[1..]);
    }
  }

  /** Whatever is accepted has lowercase 64-digit hashes and a size that fits `u64`. */
  lemma {:induction false} AcceptedIsCanonical(bytes: string)
    requires Parsed(bytes).Ok?
    ensures Canonical(Parsed(bytes).value)
  {
    ReadLinesKeepsDigests(NO_FIELDS, Lines(bytes)[1..]);
  }

  // ---------------------------------------------------------------- round trip

  predicate PlainText(s: string) { forall i :: 0 <= i < |s| ==> s[i] != '\n' && s[i] != '\r' && s[i] as int < 0x80 }

  predicate Ascii(s: string) { forall i :: 0 <= i < |s| ==> s[i] as int < 0x80 }

  lemma {:induction false} AsciiIsUtf8(s: string)
    requires Ascii(s)
    ensures ValidUtf8(s)
    decreases |s|
  {
    if s != "" {
      AsciiIsUtf8(s[1..]);
    }
  }

  lemma {:induction false} LineEndAt(line: string, rest: string)
    requires '\n' !in line
    ensures LineEnd(line + "\n" + rest) == |line|
    decreases |line|
  {
    var s := line + "\n" + rest;
    if line != "" {
      assert s[1..] == line[1..] + "\n" + rest;
      LineEndAt(line[1..], rest);
    }
  }

  lemma {:induction false} FirstLine(line: string, rest: string)
    requires PlainText(line)
    ensures Lines(line + "\n" + rest) == [line] + Lines(rest)
    ensures Ascii(rest) ==> Ascii(line + "\n" + rest)
  {
    var s := line + "\n" + rest;
    LineEndAt(line, rest);
    assert s[..|line|] == line && s[|line| + 1..] == rest;
    assert DropReturn(line) == line;
  }

  lemma {:induction false} PlainConcat(a: string, b: string)
    requires PlainText(a) && PlainText(b)
    ensures PlainText(a + b)
  {
  }

  lemma {:induction false} EmptyText()
    ensures Ascii("") && Lines("") == []
  {
  }

  lemma {:induction false} FourLines(a: string, b: string, c: string, d: string, rest: string)
    requires PlainText(a) && PlainText(b) && PlainText(c) && PlainText(d) && Ascii(rest)
    ensures var text := a + "\n" + (b + "\n" + (c + "\n" + (d + "\n" + rest)));
            ValidUtf8(text) && Lines(text) == [a, b, c, d] + Lines(rest)
  {
    hide PlainText, Ascii, ValidUtf8, Lines;
    var t3 := d + "\n" + rest;
    var t2 := c + "\n" + t3;
    var t1 := b + "\n" + t2;
    FirstLine(d, rest);
    FirstLine(c, t3);
    FirstLine(b, t2);
    FirstLine(a, t1);
    AsciiIsUtf8(a + "\n" + t1);
  }

  lemma {:induction false} EncodedFieldsArePlain(p: Pointer)
    requires Canonical(p)
    ensures PlainText(p.oid) && PlainText(Numeral(p.size)) && PlainText(p.arachneHash)
  {
  }

  lemma {:induction false} PrefixesArePlain()
    ensures PlainText(OID_PREFIX) && PlainText(SIZE_PREFIX) && PlainText(HASH_PREFIX)
  {
  }

  lemma {:induction false} VersionIsPlain()
    ensures PlainText(VERSION_LINE)
  {
  }

  lemma {:induction false} EncodedText(p: Pointer, rest: string)
    requires Canonical(p) && Ascii(rest)
    ensures ValidUtf8(Encode(p) + rest)
    ensures Lines(Encode(p) + rest)
         == [VERSION_LINE, OID_PREFIX + p.oid, SIZE_PREFIX + Numeral(p.size), HASH_PREFIX + p.arachneHash] + Lines(rest)
  {
    hide ValidUtf8, Lines, Numeral, PlainText;
    EncodedFieldsArePlain(p);
    PrefixesArePlain();
    VersionIsPlain();
    PlainConcat(OID_PREFIX, p.oid);
    PlainConcat(SIZE_PREFIX, Numeral(p.size));
    PlainConcat(HASH_PREFIX, p.arachneHash);
    FourLines(VERSION_LINE, OID_PREFIX + p.oid, SIZE_PREFIX + Numeral(p.size), HASH_PREFIX + p.arachneHash, rest);
    EncodeThen(VERSION_LINE, OID_PREFIX + p.oid, SIZE_PREFIX + Numeral(p.size), HASH_PREFIX + p.arachneHash, rest);
  }

  lemma {:induction false} EncodeThen(a: string, b: string, c: string, d: string, rest: string)
    ensures a + "\n" + (b + "\n" + (c + "\n" + (d + "\n" + ""))) + rest
         == a + "\n" + (b + "\n" + (c + "\n" + (d + "\n" + rest)))
  {
  }

  lemma {:induction false} ReadField(f: Fields, prefix: string, value: string)
    requires prefix == OID_PREFIX || prefix == SIZE_PREFIX || prefix == HASH_PREFIX
    requires GoodLine(prefix + value)
    ensures ReadLine(f, prefix + value)
         == Ok(if prefix == OID_PREFIX then f.(oid := Some(LowerAll(value)))
               else if prefix == SIZE_PREFIX then f.(size := ParseU64(value))
               else f.(hash := Some(LowerAll(value))))
  {
    var line := prefix + value;
    PrefixesExclusive(line);
    assert HasPrefix(line, prefix) && After(line, prefix) == value;
  }

  lemma {:induction false} FieldIsGood(prefix: string, value: string)
    requires prefix == OID_PREFIX || prefix == SIZE_PREFIX || prefix == HASH_PREFIX
    requires if prefix == SIZE_PREFIX then ParseU64(value).Some? else IsHex64(value)
    ensures GoodLine(prefix + value)
  {
    var line := prefix + value;
    PrefixesExclusive(line);
    assert HasPrefix(line, prefix) && After(line, prefix) == value;
  }

  lemma {:induction false} ReadEncodedLines(p: Pointer)
    requires Canonical(p)
    ensures ReadLines(NO_FIELDS, [OID_PREFIX + p.oid, SIZE_PREFIX + Numeral(p.size), HASH_PREFIX + p.arachneHash])
         == Ok(Fields(Some(p.oid), Some(p.size), Some(p.arachneHash)))
  {
    hide GoodLine, ReadLine;
    var l1, l2, l3 := OID_PREFIX + p.oid, SIZE_PREFIX + Numeral(p.size), HASH_PREFIX + p.arachneHash;
    DigestIsItsOwnLower(p.oid);
    DigestIsItsOwnLower(p.arachneHash);
    ParseNumeral(p.size);
    FieldIsGood(OID_PREFIX, p.oid);
    FieldIsGood(SIZE_PREFIX, Numeral(p.size));
    FieldIsGood(HASH_PREFIX, p.arachneHash);
    var f1 := NO_FIELDS.(oid := Some(p.oid));
    var f2 := f1.(size := Some(p.size));
    ReadField(NO_FIELDS, OID_PREFIX, p.oid);
    ReadField(f1, SIZE_PREFIX, Numeral(p.size));
    ReadField(f2, HASH_PREFIX, p.arachneHash);
    assert [l1, l2, l3][1..] == [l2, l3] && [l2, l3][1..] == [l3] && [l3][1..] == [];
    assert ReadLines(f2, [l3]) == ReadLines(f2.(hash := Some(p.arachneHash)), []);
    assert ReadLines(f1, [l2, l3]) == ReadLines(f2, [l3]);
  }

  lemma {:induction false} EncodedParses(p: Pointer)
    requires Canonical(p)
    ensures Parsed(Encode(p)) == Ok(p)
  {
    EmptyText();
    EncodedText(p, "");
    ReadEncodedLines(p);
    assert Encode(p) + "" == Encode(p);
    hide Lines, ValidUtf8, Numeral, ReadLines, ReadLine, Canonical, Encode;
    var fields := [OID_PREFIX + p.oid, SIZE_PREFIX + Numeral(p.size), HASH_PREFIX + p.arachneHash];
    var lines := [VERSION_LINE] + fields;
    assert Lines(Encode(p)) == lines && lines[0] == VERSION_LINE && lines[1..] == fields;
  }

  /** Parsing an encoded pointer returns it exactly when both hashes are lowercase 64-digit hexadecimal and the
      size fits `u64`. */
  lemma {:induction false} ParseAfterEncode(p: Pointer)
    ensures Parsed(Encode(p)) == Ok(p) <==> Canonical(p)
  {
    if Canonical(p) {
      EncodedParses(p);
    } else if Parsed(Encode(p)) == Ok(p) {
      AcceptedIsCanonical(Encode(p));
    }
  }

  /** Re-encoding what was accepted, however it was written, loses nothing. */
  lemma {:induction false} ParseEncodeParse(bytes: string)
    requires Parsed(bytes).Ok?
    ensures Parsed(Encode(Parsed(bytes).value)) == Parsed(bytes)
  {
    AcceptedIsCanonical(bytes);
    ParseAfterEncode(Parsed(bytes).value);
  }

  /** Pointers the service writes pass every `size <= 1024` gate. */
  lemma {:induction false} EncodedIsSmall(p: Pointer)
    requires Canonical(p)
    ensures |Encode(p)| <= 232
  {
    U64NumeralLength(p.size);
  }

  // ---------------------------------------------------------------- pointer-shaped files that are not plain pointers

  lemma {:induction false} NoLineEnd(line: string)
    requires '\n' !in line
    ensures LineEnd(line) == |line|
    decreases |line|
  {
    if line != "" {
      NoLineEnd(line[1..]);
    }
  }

  lemma {:induction false} OneLine(line: string)
    requires PlainText(line) && line != ""
    ensures Lines(line) == [line] && ValidUtf8(line)
  {
    NoLineEnd(line);
    AsciiIsUtf8(line);
  }

  /** The version line alone is pointer-shaped and not a pointer. */
  lemma {:induction false} VersionAlone()
    ensures PointerShaped(VERSION_LINE) && Parsed(VERSION_LINE) == Err(Invalid("missing oid"))
  {
    VersionIsPlain();
    OneLine(VERSION_LINE);
    hide Lines, ValidUtf8;
    assert [VERSION_LINE][1..] == [];
  }

  /** Text after the fields is ignored, however long it is. */
  lemma {:induction false} PaddedPointer(p: Pointer, pad: string)
    requires Canonical(p) && PlainText(pad) && pad != "" && pad[0] == '#'
    ensures Parsed(Encode(p) + pad) == Ok(p)
  {
    OneLine(pad);
    EncodedText(p, pad);
    ReadEncodedLines(p);
    hide Lines, ValidUtf8, Numeral, PlainText;
    var fields := [OID_PREFIX + p.oid, SIZE_PREFIX + Numeral(p.size), HASH_PREFIX + p.arachneHash];
    var f := Fields(Some(p.oid), Some(p.size), Some(p.arachneHash));
    ReadLinesSnoc(NO_FIELDS, fields, pad);
    IgnoredLine(f, pad);
    hide ReadLines, ReadLine, Canonical;
    var lines := [VERSION_LINE] + (fields + [pad]);
    assert Lines(Encode(p) + pad) == lines && lines[0] == VERSION_LINE && lines[1..] == fields + [pad];
  }

  lemma {:induction false} IgnoredLine(f: Fields, line: string)
    requires line != "" && line[0] == '#'
    ensures ReadLine(f, line) == Ok(f)
  {
    assert OID_PREFIX[0] == 'o' && SIZE_PREFIX[0] == 's' && HASH_PREFIX[0] == 'x';
  }

  // ---------------------------------------------------------------- the format itself

  /** The four lines of an encoded pointer, for every pointer. */
  lemma {:induction false} EncodedLayout(p: Pointer)
    ensures Encode(p)
         == "version https://git-lfs.github.com/spec/v1\noid sha256:" + p.oid + "\nsize " + Numeral(p.size)
            + "\nx-clotho-arachne-hash " + p.arachneHash + "\n"
  {
    var a, b, c, n := "version https://git-lfs.github.com/spec/v1", "oid sha256:", "size ", "\n";
    var d := "x-clotho-arachne-hash ";
    assert a + n + b == "version https://git-lfs.github.com/spec/v1\noid sha256:";
    assert n + c == "\nsize " && n + d == "\nx-clotho-arachne-hash ";
    GroupLines(a + n, b, p.oid, n, c, Numeral(p.size), d, p.arachneHash);
    hide Numeral;
  }

  lemma {:induction false} GroupLines(
      a: string, b: string, oid: string, n: string, c: string, size: string, d: string, hash: string)
    ensures a + (b + oid + n + (c + size + n + (d + hash + n + "")))
         == (a + b) + oid + (n + c) + size + (n + d) + hash + n
  {
  }

  /** Text is cut at line feeds; a carriage return before one goes with it, one at the very end stays. */
  lemma {:induction false} LinesExactly(line: string, rest: string)
    requires '\n' !in line
    ensures Lines(line + "\n" + rest)
         == [if line != "" && line[|line| - 1] == '\r' then line[..|line| - 1] else line] + Lines(rest)
    ensures Lines(line) == if line == "" then [] else [line]
  {
    var s := line + "\n" + rest;
    LineEndAt(line, rest);
    NoLineEnd(line);
    assert s[..|line|] == line && s[|line| + 1..] == rest;
  }

  /** A hash field is accepted exactly when it is 64 hexadecimal digits of either case, and is kept in lower case. */
  lemma {:induction false} HexFieldExactly(value: string, field: string)
    ensures ValidHex(value, field).Ok?
            <==> |value| == 64 && forall i :: 0 <= i < 64 ==>
                   '0' <= value[i] <= '9' || 'a' <= value[i] <= 'f' || 'A' <= value[i] <= 'F'
    ensures ValidHex(value, field).Ok? ==>
              var kept := ValidHex(value, field).value;
              && |kept| == 64
              && forall i :: 0 <= i < 64 ==>
                   if 'A' <= value[i] <= 'F' then kept[i] as int == value[i] as int + 32 else kept[i] == value[i]
    ensures ValidHex(value, field).Err?
            ==> ValidHex(value, field).error == Invalid(field + " must be 64 hexadecimal characters")
  {
  }

  /** What one line does, recognised by its literal prefix. */
  lemma {:induction false} ReadLineExactly(f: Fields, value: string)
    ensures ReadLine(f, "oid sha256:" + value)
         == match ValidHex(value, "oid") { case Ok(v) => Ok(f.(oid := Some(v))) case Err(e) => Err(e) }
    ensures ReadLine(f, "size " + value)
         == match ParseU64(value) {
              case Some(n) => Ok(f.(size := Some(n)))
              case None => Err(Invalid("size must be an integer")) }
    ensures ReadLine(f, "x-clotho-arachne-hash " + value)
         == match ValidHex(value, "Arachne hash") { case Ok(v) => Ok(f.(hash := Some(v))) case Err(e) => Err(e) }
  {
    hide ValidHex, ParseU64;
    OidLine(f, value);
    SizeLine(f, value);
    HashLine(f, value);
  }

  lemma {:induction false} OidLine(f: Fields, value: string)
    ensures ReadLine(f, "oid sha256:" + value)
         == match ValidHex(value, "oid") { case Ok(v) => Ok(f.(oid := Some(v))) case Err(e) => Err(e) }
  {
    hide ValidHex;
    var line := OID_PREFIX + value;
    assert HasPrefix(line, OID_PREFIX) && After(line, OID_PREFIX) == value;
  }

  lemma {:induction false} SizeLine(f: Fields, value: string)
    ensures ReadLine(f, "size " + value)
         == match ParseU64(value) {
              case Some(n) => Ok(f.(size := Some(n)))
              case None => Err(Invalid("size must be an integer")) }
  {
    hide ParseU64;
    var line := SIZE_PREFIX + value;
    PrefixesExclusive(line);
    assert HasPrefix(line, SIZE_PREFIX) && After(line, SIZE_PREFIX) == value;
  }

  lemma {:induction false} HashLine(f: Fields, value: string)
    ensures ReadLine(f, "x-clotho-arachne-hash " + value)
         == match ValidHex(value, "Arachne hash") { case Ok(v) => Ok(f.(hash := Some(v))) case Err(e) => Err(e) }
  {
    hide ValidHex;
    var line := HASH_PREFIX + value;
    PrefixesExclusive(line);
    assert HasPrefix(line, HASH_PREFIX) && After(line, HASH_PREFIX) == value;
  }

  /** The first malformed line decides, whatever follows it. */
  lemma {:induction false} FirstBadLineDecides(lines: seq<string>, bad: string, rest: seq<string>)
    requires GoodLines(lines) && ReadLine(LastFields(lines), bad).Err?
    ensures ReadLines(NO_FIELDS, lines + ([bad] + rest)) == Err(ReadLine(LastFields(lines), bad).error)
  {
    ReadsTheLastValues(lines);
    ReadLinesAppend(NO_FIELDS, lines, [bad] + rest);
    assert ([bad] + rest)[0] == bad;
    hide ReadLine, LastFields, GoodLines;
  }

  lemma {:induction false} ReadLinesAppend(f: Fields, lines: seq<string>, more: seq<string>)
    ensures ReadLines(f, lines + more)
         == match ReadLines(f, lines) { case Err(e) => Err(e) case Ok(g) => ReadLines(g, more) }
    decreases |lines|
  {
    hide ReadLine;
    if lines == [] {
      assert lines + more == more;
    } else {
      assert (lines + more)[0] == lines[0] && (lines + more)[1..] == lines[1..] + more;
      match ReadLine(f, lines[0]) {
        case Err(e) =>
        case Ok(g) => ReadLinesAppend(g, lines[1..], more);
      }
    }
  }

  /** A pointer needs all three fields; the first one missing, in this order, is named. */
  lemma {:induction false} MissingFields(f: Fields)
    ensures f.oid.None? ==> Complete(f) == Err(Invalid("missing oid"))
    ensures f.oid.Some? && f.size.None? ==> Complete(f) == Err(Invalid("missing size"))
    ensures f.oid.Some? && f.size.Some? && f.hash.None? ==> Complete(f) == Err(Invalid("missing Arachne hash"))
    ensures f.oid.Some? && f.size.Some? && f.hash.Some?
            ==> Complete(f) == Ok(Pointer(f.oid.value, f.size.value, f.hash.value))
  {
  }

  /** The size is compared before the SHA-256, and both have to agree. */
  lemma {:induction false} VerifyExactly(sha: string -> string, p: Pointer, payload: string)
    ensures |payload| != p.size ==> VerifyPayload(sha, p, payload) == Err(Invalid("materialized size mismatch"))
    ensures |payload| == p.size && sha(payload) != p.oid
            ==> VerifyPayload(sha, p, payload) == Err(Invalid("materialized SHA-256 mismatch"))
    ensures |payload| == p.size && sha(payload) == p.oid ==> VerifyPayload(sha, p, payload) == Ok(())
  {
  }
}
