/** The byte ranges of RFC 9110, sections 14.1.1 and 14.1.2, and how far the service follows them.

    Unit names are compared without regard to case (section 14.1), and a recipient ignores empty elements of the
    range list (section 5.6.1). */
module RangeStandard {
  import opened Prelude
  import opened Decimal
  import opened ByteRanges
  import LfsPointer

  datatype RangeSpec = IntSpec(first: string, last: string) | SuffixSpec(suffix: string)

  /** A header asking for one range: unit name, range, and the empty list elements around it. */
  datatype Header = Header(unit: string, before: string, spec: RangeSpec, after: string)

  predicate GrammaticalSpec(spec: RangeSpec) {
    match spec
    case IntSpec(first, last) =>
      first != "" && AllDigits(first) && AllDigits(last) && (last != "" ==> Value(last) >= Value(first))
    case SuffixSpec(suffix) => suffix != "" && AllDigits(suffix)
  }

  /** Nothing, or commas with optional whitespace around them. */
  predicate EmptyElements(s: string) {
    s == "" || (',' in s && forall i :: 0 <= i < |s| ==> s[i] == ',' || s[i] == ' ' || s[i] == '\t')
  }

  predicate BytesUnit(unit: string) { LfsPointer.LowerAll(unit) == "bytes" }

  predicate Grammatical(h: Header) {
    BytesUnit(h.unit) && EmptyElements(h.before) && GrammaticalSpec(h.spec) && EmptyElements(h.after)
  }

  function First(spec: RangeSpec): string {
    match spec case IntSpec(first, _) => first case SuffixSpec(_) => ""
  }

  function Last(spec: RangeSpec): string {
    match spec case IntSpec(_, last) => last case SuffixSpec(suffix) => suffix
  }

  function SpecText(spec: RangeSpec): string { First(spec) + "-" + Last(spec) }

  function Text(h: Header): string { h.unit + "=" + (h.before + SpecText(h.spec) + h.after) }

  /** The bytes section 14.1.2 selects, as a half-open interval, or `None` when the range is not satisfiable. */
  function Standard(spec: RangeSpec, size: nat): Option<(nat, nat)>
    requires GrammaticalSpec(spec)
  {
    match spec
    case IntSpec(first, last) =>
      if Value(first) >= size then None
      else Some((Value(first), if last == "" then size else Min(Value(last) + 1, size)))
    case SuffixSpec(suffix) =>
      if Value(suffix) == 0 then None
      else Some((if Value(suffix) >= size then 0 else size - Value(suffix), size))
  }

  predicate Agrees(parsed: Result<Option<ByteRange>, RangeError>, standard: Option<(nat, nat)>, size: nat) {
    if standard.None? then parsed == RangeFailure(size)
    else parsed.Ok? && parsed.value.Some? && (parsed.value.value.start, parsed.value.value.end + 1) == standard.value
  }

  /** Spelled as the service wants it: lower-case unit, no empty list elements. */
  predicate Plain(h: Header) { h.unit == "bytes" && h.before == "" && h.after == "" }

  /** The last position or the suffix length does not fit `u64`. */
  predicate Oversized(spec: RangeSpec)
    requires GrammaticalSpec(spec)
  {
    AllDigits(Last(spec)) && Value(Last(spec)) > U64_MAX
  }

  // ---------------------------------------------------------------- agreement

  lemma {:induction false} UnitLength(h: Header)
    requires BytesUnit(h.unit)
    ensures |h.unit| == 5
  {
    assert |LfsPointer.LowerAll(h.unit)| == |h.unit|;
  }

  lemma {:induction false} LowerLetter(unit: string, i: nat)
    requires BytesUnit(unit) && i < |unit|
    ensures 'a' <= unit[i] <= 'z' || 'A' <= unit[i] <= 'Z'
  {
    var low := LfsPointer.LowerAll(unit);
    assert LfsPointer.Lower(unit[i]) == low[i] == "bytes"[i];
  }

  predicate HeaderChar(c: char) {
    'a' <= c <= 'z' || 'A' <= c <= 'Z' || c == '=' || c == ',' || c == ' ' || c == '\t' || IsDigit(c) || c == '-'
  }

  predicate HeaderChars(s: string) { forall i :: 0 <= i < |s| ==> HeaderChar(s[i]) }

  lemma {:induction false} HeaderConcat(a: string, b: string)
    requires HeaderChars(a) && HeaderChars(b)
    ensures HeaderChars(a + b)
  {
  }

  lemma {:induction false} PartsAreHeaderChars(h: Header)
    requires Grammatical(h)
    ensures HeaderChars(h.unit) && HeaderChars("=") && HeaderChars("-") && HeaderChars(h.before) && HeaderChars(h.after)
    ensures HeaderChars(First(h.spec)) && HeaderChars(Last(h.spec))
  {
    forall i | 0 <= i < |h.unit| ensures HeaderChar(h.unit[i]) { LowerLetter(h.unit, i); }
  }

  lemma {:induction false} TextIsHeaderChars(h: Header)
    requires Grammatical(h)
    ensures HeaderChars(Text(h)) && HeaderChars(h.before + SpecText(h.spec) + h.after)
  {
    PartsAreHeaderChars(h);
    hide HeaderChars, Grammatical;
    HeaderConcat(First(h.spec), "-");
    HeaderConcat(First(h.spec) + "-", Last(h.spec));
    HeaderConcat(h.before, SpecText(h.spec));
    HeaderConcat(h.before + SpecText(h.spec), h.after);
    HeaderConcat(h.unit, "=");
    HeaderConcat(h.unit + "=", h.before + SpecText(h.spec) + h.after);
  }

  lemma {:induction false} HeaderCharsAreVisible(s: string)
    requires HeaderChars(s)
    ensures VisibleAscii(s) && '+' !in s
  {
  }

  lemma {:induction false} UnitOfPrefix(unit: string, rest: string)
    requires |unit| == 5 && UNIT <= unit + "=" + rest
    ensures unit == "bytes"
  {
    assert (unit + "=" + rest)[..5] == unit && UNIT[..5] == "bytes";
  }

  /** A unit in another case is not recognised. */
  lemma {:induction false} OtherUnitFails(h: Header, size: nat)
    requires Grammatical(h) && h.unit != "bytes"
    ensures ParseByteRange(Some(Text(h)), size) == RangeFailure(size)
  {
    TextIsHeaderChars(h);
    HeaderCharsAreVisible(Text(h));
    UnitLength(h);
    var rest := h.before + SpecText(h.spec) + h.after;
    assert Text(h) == h.unit + "=" + rest;
    if UNIT <= h.unit + "=" + rest { UnitOfPrefix(h.unit, rest); }
  }

  /** Empty list elements bring a comma, which is not accepted. */
  lemma {:induction false} CommaFails(h: Header, size: nat)
    requires Grammatical(h) && h.unit == "bytes" && !Plain(h)
    ensures ParseByteRange(Some(Text(h)), size) == RangeFailure(size)
  {
    var spec := h.before + SpecText(h.spec) + h.after;
    TextIsHeaderChars(h);
    CommaInside(h.before, SpecText(h.spec), h.after);
    hide Grammatical, SpecText, HeaderChars, VisibleAscii;
    HeaderCharsAreVisible(spec);
    RangeHeader(spec, size);
    assert Text(h) == UNIT + spec;
  }

  lemma {:induction false} CommaInside(before: string, spec: string, after: string)
    requires EmptyElements(before) && EmptyElements(after) && !(before == "" && after == "")
    ensures ',' in before + spec + after
  {
  }

  lemma {:induction false} PlainText(h: Header)
    requires Plain(h)
    ensures Text(h) == UNIT + SpecText(h.spec)
  {
    var spec := SpecText(h.spec);
    assert "" + spec + "" == spec;
    assert "bytes" + "=" == UNIT;
    hide SpecText;
  }

  lemma {:induction false} SpecIsVisible(spec: RangeSpec)
    requires GrammaticalSpec(spec)
    ensures VisibleAscii(SpecText(spec)) && DashFree(First(spec)) && DashFree(Last(spec))
  {
    DigitsParse(First(spec));
    DigitsParse(Last(spec));
    hide AllDigits, Value, DashFree;
  }

  lemma {:induction false} PlainSpec(h: Header, size: nat)
    requires Grammatical(h) && Plain(h)
    ensures ParseByteRange(Some(Text(h)), size) == ParseSpec(SpecText(h.spec), size)
    ensures SplitsAt(First(h.spec), Last(h.spec))
  {
    PlainText(h);
    SpecIsVisible(h.spec);
    hide Text, ParseByteRange, ParseSpec, VisibleAscii, GrammaticalSpec, DashFree, Dash, Plain;
    RangeHeader(SpecText(h.spec), size);
    SpecParts(First(h.spec), Last(h.spec));
  }

  lemma {:induction false} FailureIsErr(size: nat)
    ensures RangeFailure(size).Err?
  {
  }

  lemma {:induction false} RefusalAgrees(spec: RangeSpec, size: nat)
    requires GrammaticalSpec(spec)
    ensures Agrees(RangeFailure(size), Standard(spec, size), size) <==> Standard(spec, size).None?
  {
  }

  predicate SplitsAt(first: string, last: string) {
    var spec := first + "-" + last;
    Dash(spec) == |first| && spec[..|first|] == first && spec[|first| + 1..] == last && ',' !in spec
  }

  /** What `MatchesTheStandard` says of a plainly spelled range. */
  predicate PlainlyMatches(spec: RangeSpec, size: nat)
    requires GrammaticalSpec(spec)
  {
    var parsed, standard := ParseSpec(SpecText(spec), size), Standard(spec, size);
    && (Agrees(parsed, standard, size) <==> standard.None? || (size > 0 && !Oversized(spec)))
    && (Agrees(parsed, standard, size) || parsed == RangeFailure(size))
  }

  lemma {:induction false} IntParsed(first: string, last: string, size: nat)
    requires GrammaticalSpec(IntSpec(first, last)) && size <= U64_MAX && SplitsAt(first, last)
    ensures ParseSpec(first + "-" + last, size)
         == if Value(first) >= size || (last != "" && Value(last) > U64_MAX) then RangeFailure(size)
            else Ok(Some(ByteRange(Value(first), if last == "" then size - 1 else Min(Value(last), size - 1))))
  {
    DigitsParse(first);
    DigitsParse(last);
    hide Value, ParseU64, RangeFailure, AllDigits, Dash;
  }

  lemma {:induction false} IntMatches(first: string, last: string, size: nat)
    requires GrammaticalSpec(IntSpec(first, last)) && size <= U64_MAX && SplitsAt(first, last)
    ensures PlainlyMatches(IntSpec(first, last), size)
  {
    IntParsed(first, last, size);
    FailureIsErr(size);
    NoValue();
    hide Value, AllDigits, ParseSpec, RangeFailure, SplitsAt;
  }

  lemma {:induction false} NoValue()
    ensures AllDigits("") && Value("") == 0
  {
  }

  lemma {:induction false} SuffixMatches(suffix: string, size: nat)
    requires GrammaticalSpec(SuffixSpec(suffix)) && size <= U64_MAX && SplitsAt("", suffix)
    ensures PlainlyMatches(SuffixSpec(suffix), size)
  {
    DigitsParse(suffix);
    FailureIsErr(size);
    hide Value, ParseU64, RangeFailure, AllDigits, Dash;
  }

  /** For every grammatical header that asks for one range of a file of any size: the service selects exactly
      the standard's bytes, and refuses what the standard calls unsatisfiable, if and only if the range is not
      satisfiable or the header is plainly spelled, its positions fit `u64` and the file is not empty.
      Otherwise it refuses; it never selects other bytes. */
  lemma {:induction false} MatchesTheStandard(h: Header, size: nat)
    requires Grammatical(h) && size <= U64_MAX
    ensures var parsed, standard := ParseByteRange(Some(Text(h)), size), Standard(h.spec, size);
            && (Agrees(parsed, standard, size)
                <==> standard.None? || (size > 0 && Plain(h) && !Oversized(h.spec)))
            && (Agrees(parsed, standard, size) || parsed == RangeFailure(size))
  {
    hide Agrees, Standard, Oversized, GrammaticalSpec, ParseByteRange, ParseSpec, Text, EmptyElements, BytesUnit;
    if !Plain(h) {
      RefusalAgrees(h.spec, size);
      if h.unit != "bytes" { OtherUnitFails(h, size); } else { CommaFails(h, size); }
    } else {
      PlainSpec(h, size);
      match h.spec
      case IntSpec(first, last) => IntMatches(first, last, size);
      case SuffixSpec(suffix) => SuffixMatches(suffix, size);
    }
  }

  /** An accepted header is grammatical exactly when neither position carries a `+`. */
  lemma {:induction false} AcceptedIsGrammatical(raw: string, size: nat, r: ByteRange)
    requires ParseByteRange(Some(raw), size) == Ok(Some(r))
    ensures (exists h :: Grammatical(h) && Text(h) == raw) <==> '+' !in raw
  {
    if h :| Grammatical(h) && Text(h) == raw {
      TextIsHeaderChars(h);
      HeaderCharsAreVisible(raw);
    }
    if '+' !in raw {
      AcceptedRangeExactly(raw, size, r);
      var first, last :| raw == UNIT + (first + "-" + last) && Selects(first, last, size, r);
      var h := GrammaticalForm(raw, first, last, size, r);
    }
  }

  lemma {:induction false} PlusFreePosition(s: string, n: nat)
    requires Position(s, n) && '+' !in s
    ensures s != "" && AllDigits(s) && Value(s) == n
  {
    var digits :| digits != "" && AllDigits(digits) && Value(digits) == n && (s == digits || s == "+" + digits);
    assert '+' in "+" + digits;
  }

  lemma {:induction false} GrammaticalForm(
      raw: string, first: string, last: string, size: nat, r: ByteRange)
    returns (h: Header)
    requires raw == UNIT + (first + "-" + last) && Selects(first, last, size, r) && '+' !in raw
    ensures Grammatical(h) && Text(h) == raw
  {
    hide AllDigits, Value, Position, BytesUnit, LfsPointer.LowerAll;
    NoPlusInside(first, last);
    var spec;
    if first == "" {
      var n: nat :| n > 0 && Position(last, n) && r.start == if n < size then size - n else 0;
      PlusFreePosition(last, n);
      spec := SuffixSpec(last);
    } else {
      PlusFreePosition(first, r.start);
      if last != "" {
        var b: nat :| r.start <= b && Position(last, b) && r.end == Min(b, size - 1);
        PlusFreePosition(last, b);
      } else {
        NoDigits();
      }
      spec := IntSpec(first, last);
    }
    h := Header("bytes", "", spec, "");
    BytesIsLower();
    assert "bytes" + "=" == UNIT && "" + SpecText(spec) + "" == first + "-" + last;
  }

  lemma {:induction false} NoPlusInside(first: string, last: string)
    requires '+' !in UNIT + (first + "-" + last)
    ensures '+' !in first && '+' !in last
  {
    assert forall c :: c in first || c in last ==> c in first + "-" + last;
    assert forall c :: c in first + "-" + last ==> c in UNIT + (first + "-" + last);
  }

  lemma {:induction false} NoDigits()
    ensures AllDigits("")
  {
  }

  lemma {:induction false} BytesIsLower()
    ensures BytesUnit("bytes")
  {
  }

  // ---------------------------------------------------------------- witnesses

  lemma {:induction false} DigitValues()
    ensures AllDigits("0") && Value("0") == 0 && AllDigits("5") && Value("5") == 5
  {
    assert "0"[..0] == "" && "5"[..0] == "";
  }

  const ZERO_TO_FIVE := IntSpec("0", "5")

  /** The same request with a capital in the unit, or with an empty list element, is refused. */
  lemma {:induction false} SpellingIsRefused()
    ensures var capital, comma := Header("Bytes", "", ZERO_TO_FIVE, ""), Header("bytes", "", ZERO_TO_FIVE, ",");
            && Grammatical(capital) && Text(capital) == "Bytes=0-5"
            && Grammatical(comma) && Text(comma) == "bytes=0-5,"
            && Standard(ZERO_TO_FIVE, 10) == Some((0, 6))
            && ParseByteRange(Some("Bytes=0-5"), 10) == RangeFailure(10)
            && ParseByteRange(Some("bytes=0-5,"), 10) == RangeFailure(10)
  {
    DigitValues();
    hide Value, AllDigits, ParseByteRange;
    var capital, comma := Header("Bytes", "", ZERO_TO_FIVE, ""), Header("bytes", "", ZERO_TO_FIVE, ",");
    assert LfsPointer.LowerAll("Bytes") == "bytes" && LfsPointer.LowerAll("bytes") == "bytes";
    assert Text(capital) == "Bytes=0-5";
    assert Text(comma) == "bytes=0-5,";
    OtherUnitFails(capital, 10);
    CommaFails(comma, 10);
  }

  /** A `+` before a position is accepted, although no grammatical header spells it so. */
  lemma {:induction false} PlusIsAccepted()
    ensures ParseByteRange(Some("bytes=+0-+5"), 10) == Ok(Some(ByteRange(0, 5)))
    ensures !exists h :: Grammatical(h) && Text(h) == "bytes=+0-+5"
  {
    DigitValues();
    assert Position("+0", 0) by { assert "+0" == "+" + "0"; }
    assert Position("+5", 5) by { assert "+5" == "+" + "5"; }
    hide Position, ParseByteRange, Text, Grammatical;
    assert Selects("+0", "+5", 10, ByteRange(0, 5));
    hide Selects;
    assert "bytes=+0-+5" == UNIT + ("+0" + "-" + "+5");
    AcceptedRangeExactly("bytes=+0-+5", 10, ByteRange(0, 5));
    AcceptedIsGrammatical("bytes=+0-+5", 10, ByteRange(0, 5));
    assert "bytes=+0-+5"[6] == '+';
  }

  /** The standard clamps a last position beyond `u64`; the service refuses it. */
  lemma {:induction false} OversizedLastPositionIsRefused()
    ensures var h := Header("bytes", "", IntSpec("0", Numeral(U64_MAX + 1)), "");
            && Grammatical(h) && Standard(h.spec, 10) == Some((0, 10))
            && ParseByteRange(Some(Text(h)), 10) == RangeFailure(10)
  {
    var h := Header("bytes", "", IntSpec("0", Numeral(U64_MAX + 1)), "");
    ValueOfNumeral(U64_MAX + 1);
    DigitValues();
    BytesIsLower();
    hide Numeral, Value, ParseByteRange, BytesUnit;
    MatchesTheStandard(h, 10);
  }

  /** A suffix of an empty file is satisfiable by the standard, though no byte can be sent; the service
      refuses it. */
  lemma {:induction false} EmptyFileSuffixIsRefused()
    ensures var h := Header("bytes", "", SuffixSpec("5"), "");
            && Grammatical(h) && Standard(h.spec, 0) == Some((0, 0))
            && ParseByteRange(Some(Text(h)), 0) == RangeFailure(0)
  {
    var h := Header("bytes", "", SuffixSpec("5"), "");
    DigitValues();
    BytesIsLower();
    hide Value, ParseByteRange, BytesUnit;
    MatchesTheStandard(h, 0);
  }
}
