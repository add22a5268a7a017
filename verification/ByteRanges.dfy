/** Byte ranges of immutable release files, and the bodies served for them from Git and from Arachne. */
module ByteRanges {
  import opened Prelude
  import opened Decimal
  import LfsPointer
  import Arachne

  datatype ByteRange = ByteRange(start: nat, end: nat) {
    function Len(): int { end - start + 1 }
  }

  datatype RangeError = RangeNotSatisfiable(message: string, size: nat)

  const UNIT := "bytes="

  predicate VisibleAscii(s: string) {
    forall i :: 0 <= i < |s| ==> 0x20 <= s[i] as int < 0x7F || s[i] == '\t'
  }

  function Dash(s: string): (k: nat)
    ensures k <= |s| && '-' !in s[..k] && (k < |s| ==> s[k] == '-')
  {
    if s == "" || s[0] == '-' then 0 else 1 + Dash(s[1..])
  }

  function RangeFailure(size: nat): Result<Option<ByteRange>, RangeError> {
    Err(RangeNotSatisfiable("only one satisfiable byte range is supported", size))
  }

  /** What the `Range` header asks of a file of `size` bytes. */
  function ParseByteRange(header: Option<string>, size: nat): Result<Option<ByteRange>, RangeError> {
    if header.None? then Ok(None)
    else if !VisibleAscii(header.value) then Err(RangeNotSatisfiable("Range must contain visible ASCII", size))
    else if !(UNIT <= header.value) then RangeFailure(size)
    else ParseSpec(header.value[|UNIT|..], size)
  }

  function ParseSpec(spec: string, size: nat): Result<Option<ByteRange>, RangeError> {
    var k := Dash(spec);
    if ',' in spec || size == 0 || k == |spec| then RangeFailure(size)
    else
      var first, last := spec[..k], spec[k + 1..];
      if first == "" then
        match ParseU64(last)
        case None => RangeFailure(size)
        case Some(suffix) =>
          if suffix == 0 then RangeFailure(size)
          else Ok(Some(ByteRange(size - Min(suffix, size), size - 1)))
      else
        match ParseU64(first)
        case None => RangeFailure(size)
        case Some(start) =>
          if start >= size then RangeFailure(size)
          else if last == "" then Ok(Some(ByteRange(start, size - 1)))
          else match ParseU64(last)
            case None => RangeFailure(size)
            case Some(end) => if end < start then RangeFailure(size) else Ok(Some(ByteRange(start, Min(end, size - 1))))
  }

  // ---------------------------------------------------------------- the response

  /** A body that stops with an integrity failure is `Err`. */
  datatype Response = Response(
    partialRange: Option<ByteRange>, contentLength: nat, total: nat, body: Result<string, string>)

  datatype Failure = Range(error: RangeError) | Upstream(message: string)

  /** The bytes sent for a download, up to the first break in the stream. */
  function Sent(stream: seq<Arachne.Item>): string {
    if stream == [] || stream[0].Broken? then "" else stream[0].data + Sent(stream[1..])
  }

  method StreamArachneRelease(sha: string -> string, download: Arachne.Download, p: LfsPointer.Pointer, offset: nat,
                              length: nat)
    returns (r: Result<Result<string, string>, string>)
    ensures r == Streamed(sha, download, p, offset, length)
  {
    var answer := download(p.arachneHash, offset, length);
    if answer.Err? {
      return Err(answer.error);
    }
    var stream := answer.value;
    var body := "";
    var i := 0;
    assert stream[0..] == stream && "" + Sent(stream) == Sent(stream);
    while i < |stream| && stream[i].Block?
      invariant 0 <= i <= |stream|
      invariant Sent(stream) == body + Sent(stream[i..])
    {
      assert stream[i..][0] == stream[i] && stream[i..][1..] == stream[i + 1..];
      assert body + (stream[i].data + Sent(stream[i + 1..])) == (body + stream[i].data) + Sent(stream[i + 1..]);
      body := body + stream[i].data;
      i := i + 1;
    }
    assert Sent(stream[i..]) == "" && body + "" == body;
    var verifyFull := offset == 0 && length == p.size;
    if |body| != length || (verifyFull && sha(body) != p.oid) {
      return Ok(Err("Arachne release integrity failure"));
    }
    return Ok(Ok(body));
  }

  function Streamed(sha: string -> string, download: Arachne.Download, p: LfsPointer.Pointer, offset: nat, length: nat)
    : Result<Result<string, string>, string>
  {
    match download(p.arachneHash, offset, length)
    case Err(e) => Err(e)
    case Ok(stream) =>
      var body := Sent(stream);
      if |body| != length || (offset == 0 && length == p.size && sha(body) != p.oid)
      then Ok(Err("Arachne release integrity failure")) else Ok(Ok(body))
  }

  function Start(range: Option<ByteRange>): nat { if range.Some? then range.value.start else 0 }

  function Length(range: Option<ByteRange>, size: nat): int { if range.Some? then range.value.Len() else size }

  /** `GET` of a release file holding these plain bytes. */
  function ServePlain(content: string, header: Option<string>): (r: Result<Response, Failure>) {
    match ParseByteRange(header, |content|)
    case Err(e) => Err(Range(e))
    case Ok(range) =>
      RangeIsInside(header, |content|);
      var start, length := Start(range), Length(range, |content|);
      Ok(Response(range, length, |content|, Ok(content[start..start + length])))
  }

  function Serve(sha: string -> string, download: Arachne.Download, blob: string, header: Option<string>)
    : Result<Response, Failure>
  {
    match LfsPointer.Parsed(blob)
    case Err(e) => if e.NotPointer? then ServePlain(blob, header) else Err(Upstream(Arachne.Message(e)))
    case Ok(p) =>
      match ParseByteRange(header, p.size)
      case Err(e) => Err(Range(e))
      case Ok(range) =>
        RangeIsInside(header, p.size);
        match Streamed(sha, download, p, Start(range), Length(range, p.size))
        case Err(e) => Err(Upstream(e))
        case Ok(body) => Ok(Response(range, Length(range, p.size), p.size, body))
  }

  // ---------------------------------------------------------------- accepted ranges

  /** Every accepted range lies inside the file, and its length neither underflows nor overflows. */
  lemma {:induction false} RangeIsInside(header: Option<string>, size: nat)
    ensures var r := ParseByteRange(header, size);
            r.Ok? && r.value.Some?
            ==> r.value.value.start <= r.value.value.end < size && 1 <= r.value.value.Len() <= size
  {
  }

  lemma {:induction false} ReceivedIsSent(stream: seq<Arachne.Item>)
    requires Arachne.Received(stream).Ok?
    ensures Arachne.Received(stream) == Ok(Sent(stream))
    decreases |stream|
  {
    if stream != [] {
      ReceivedIsSent(stream[1..]);
    }
  }

  /** A release file kept in Arachne is served exactly as the plain file would be: same range errors, same
      status, lengths and totals, and the same bytes, for every header. */
  lemma {:induction false} ServedLikeThePlainFile(
      sha: string -> string, files: map<string, string>, download: Arachne.Download, blob: string,
      header: Option<string>)
    requires Arachne.Serves(download, files) && Arachne.ReadFile(sha, download, blob).Ok?
    requires |Arachne.ReadFile(sha, download, blob).value| <= U64_MAX
    ensures Serve(sha, download, blob, header) == ServePlain(Arachne.ReadFile(sha, download, blob).value, header)
  {
    hide LfsPointer.Parsed, Arachne.Message, Arachne.Received, Sent, ParseByteRange;
    if LfsPointer.Parsed(blob).Ok? {
      var p := LfsPointer.Parsed(blob).value;
      var plain := Arachne.ReadFile(sha, download, blob).value;
      assert download(p.arachneHash, 0, 0).Ok?;
      assert p.arachneHash in files && plain == files[p.arachneHash] && |plain| == p.size && sha(plain) == p.oid;
      var parsed := ParseByteRange(header, p.size);
      if parsed.Ok? {
        RangeIsInside(header, p.size);
        var start, length := Start(parsed.value), Length(parsed.value, p.size);
        StreamedIsASlice(sha, files, download, p, start, length);
      }
    }
  }

  lemma {:induction false} StreamedIsASlice(
      sha: string -> string, files: map<string, string>, download: Arachne.Download, p: LfsPointer.Pointer,
      start: nat, length: nat)
    requires Arachne.Serves(download, files) && p.arachneHash in files && p.size <= U64_MAX
    requires |files[p.arachneHash]| == p.size && sha(files[p.arachneHash]) == p.oid
    requires start + length <= p.size && (length == 0 ==> p.size == 0)
    ensures Streamed(sha, download, p, start, length) == Ok(Ok(files[p.arachneHash][start..start + length]))
  {
    hide Arachne.Received, Sent;
    var plain := files[p.arachneHash];
    var answer := download(p.arachneHash, start, length);
    assert answer.Ok? && Arachne.Received(answer.value) == Ok(Arachne.Part(plain, start, length));
    ReceivedIsSent(answer.value);
    assert Arachne.Part(plain, start, length) == plain[start..start + length];
    if start == 0 && length == p.size {
      assert plain[start..start + length] == plain;
    }
  }

  // ---------------------------------------------------------------- tiling a file

  function IntRange(first: nat, last: nat): string { UNIT + Numeral(first) + "-" + Numeral(last) }

  predicate DashFree(s: string) { forall i :: 0 <= i < |s| ==> s[i] != '-' && s[i] != ',' }

  lemma {:induction false} DashAt(first: string, last: string)
    requires DashFree(first)
    ensures Dash(first + "-" + last) == |first|
    decreases |first|
  {
    var s := first + "-" + last;
    if first != "" {
      assert s[1..] == first[1..] + "-" + last;
      DashAt(first[1..], last);
    }
  }

  lemma {:induction false} SpecParts(first: string, last: string)
    requires DashFree(first) && DashFree(last)
    ensures var spec := first + "-" + last;
            Dash(spec) == |first| && spec[..|first|] == first && spec[|first| + 1..] == last && ',' !in spec
  {
    DashAt(first, last);
  }

  lemma {:induction false} RangeHeader(spec: string, size: nat)
    requires VisibleAscii(spec)
    ensures ParseByteRange(Some(UNIT + spec), size) == ParseSpec(spec, size)
  {
    hide ParseSpec;
    var raw := UNIT + spec;
    assert raw[|UNIT|..] == spec && UNIT <= raw;
    assert VisibleAscii(raw);
  }

  lemma {:induction false} DigitsParse(s: string)
    requires AllDigits(s)
    ensures ParseU64(s) == if s != "" && Value(s) <= U64_MAX then Some(Value(s)) else None
    ensures DashFree(s) && VisibleAscii(s)
  {
    assert s != "" ==> IsDigit(s[0]);
  }

  lemma {:induction false} NumericRange(first: nat, last: nat, size: nat)
    requires first <= last < size <= U64_MAX
    ensures ParseByteRange(Some(IntRange(first, last)), size) == Ok(Some(ByteRange(first, last)))
  {
    hide Numeral, Value, ParseU64, RangeFailure, AllDigits, Dash, ParseByteRange;
    var a, b := Numeral(first), Numeral(last);
    DigitsParse(a);
    DigitsParse(b);
    ParseNumeral(first);
    ParseNumeral(last);
    SpecParts(a, b);
    RangeHeader(a + "-" + b, size);
    assert UNIT + a + "-" + b == UNIT + (a + "-" + b);
  }

  /** Cut points of a file: strictly increasing from zero to its size. */
  predicate Cuts(cuts: seq<nat>, size: nat) {
    && |cuts| > 0 && cuts[0] == 0 && cuts[|cuts| - 1] == size
    && forall i :: 0 <= i < |cuts| - 1 ==> cuts[i] < cuts[i + 1]
  }

  /** The bodies of the requests for `[cuts[0], cuts[1])`, `[cuts[1], cuts[2])`, … */
  function Bodies(sha: string -> string, download: Arachne.Download, blob: string, cuts: seq<nat>): string
    decreases |cuts|
  {
    if |cuts| <= 1 || cuts[|cuts| - 1] == 0 then ""
    else
      var n := |cuts|;
      var r := Serve(sha, download, blob, Some(IntRange(cuts[n - 2], cuts[n - 1] - 1)));
      Bodies(sha, download, blob, cuts[..n - 1]) + if r.Ok? && r.value.body.Ok? then r.value.body.value else ""
  }

  lemma {:induction false} BodiesUpTo(
      sha: string -> string, files: map<string, string>, download: Arachne.Download, blob: string, cuts: seq<nat>)
    requires Arachne.Serves(download, files) && Arachne.ReadFile(sha, download, blob).Ok?
    requires |Arachne.ReadFile(sha, download, blob).value| <= U64_MAX
    requires |cuts| > 0 && cuts[0] == 0 && forall i :: 0 <= i < |cuts| - 1 ==> cuts[i] < cuts[i + 1]
    requires cuts[|cuts| - 1] <= |Arachne.ReadFile(sha, download, blob).value|
    ensures Bodies(sha, download, blob, cuts) == Arachne.ReadFile(sha, download, blob).value[..cuts[|cuts| - 1]]
    decreases |cuts|
  {
    hide Serve, IntRange, ParseByteRange, Arachne.ReadFile, Arachne.Serves;
    if |cuts| > 1 {
      var n := |cuts|;
      var plain := Arachne.ReadFile(sha, download, blob).value;
      var a, b := cuts[n - 2], cuts[n - 1];
      assert cuts[n - 2] < cuts[n - 2 + 1];
      BodiesUpTo(sha, files, download, blob, cuts[..n - 1]);
      NumericRange(a, b - 1, |plain|);
      ServedLikeThePlainFile(sha, files, download, blob, Some(IntRange(a, b - 1)));
      assert plain[..a] + plain[a..b] == plain[..b];
    }
  }

  /** Requests that tile a file return bodies that concatenate to the whole file, wherever it is kept. */
  lemma {:induction false} TilesAreTheFile(
      sha: string -> string, files: map<string, string>, download: Arachne.Download, blob: string, cuts: seq<nat>)
    requires Arachne.Serves(download, files) && Arachne.ReadFile(sha, download, blob).Ok?
    requires |Arachne.ReadFile(sha, download, blob).value| <= U64_MAX
    requires Cuts(cuts, |Arachne.ReadFile(sha, download, blob).value|)
    ensures Bodies(sha, download, blob, cuts) == Arachne.ReadFile(sha, download, blob).value
  {
    hide Serve, Arachne.ReadFile, Arachne.Serves;
    var plain := Arachne.ReadFile(sha, download, blob).value;
    BodiesUpTo(sha, files, download, blob, cuts);
    assert plain[..|plain|] == plain;
  }

  // ---------------------------------------------------------------- which headers are accepted

  /** A position as the service reads it: digits that fit `u64`, after at most one `+`. */
  ghost predicate Position(s: string, n: nat) {
    n <= U64_MAX
    && exists digits :: digits != "" && AllDigits(digits) && Value(digits) == n && (s == digits || s == "+" + digits)
  }

  lemma {:induction false} ParsesPosition(s: string, n: nat)
    ensures ParseU64(s) == Some(n) <==> Position(s, n)
  {
    if ParseU64(s) == Some(n) {
      var digits := if s[0] == '+' then s[1..] else s;
      assert digits != "" && AllDigits(digits) && Value(digits) == n && (s == digits || s == "+" + digits);
    }
    if Position(s, n) {
      var digits :| digits != "" && AllDigits(digits) && Value(digits) == n && (s == digits || s == "+" + digits);
      assert IsDigit(digits[0]);
      assert s == "+" + digits ==> s[1..] == digits;
    }
  }

  /** The positions on either side of the dash select range `r` of a file of `size` bytes. */
  ghost predicate Selects(first: string, last: string, size: nat, r: ByteRange) {
    && size > 0
    && if first == "" then
         r.end == size - 1
         && exists n: nat :: n > 0 && Position(last, n) && r.start == if n < size then size - n else 0
       else
         && r.start < size && Position(first, r.start)
         && if last == "" then r.end == size - 1
            else exists b: nat :: r.start <= b && Position(last, b) && r.end == Min(b, size - 1)
  }

  lemma {:induction false} PositionIsPlain(s: string, n: nat)
    requires Position(s, n)
    ensures s != "" && DashFree(s) && VisibleAscii(s)
  {
    var digits :| digits != "" && AllDigits(digits) && Value(digits) == n && (s == digits || s == "+" + digits);
    forall i | 0 <= i < |s| ensures s[i] == '+' || IsDigit(s[i]) {
      assert s == "+" + digits && i > 0 ==> s[i] == digits[i - 1];
    }
  }

  lemma {:induction false} SelectingPositions(first: string, last: string, size: nat, r: ByteRange)
    requires Selects(first, last, size, r)
    ensures DashFree(first) && DashFree(last) && VisibleAscii(first) && VisibleAscii(last)
  {
    hide Position, DashFree, VisibleAscii;
    assert DashFree("") && VisibleAscii("") by { EmptyIsPlain(); }
    if first == "" {
      var n: nat :| n > 0 && Position(last, n) && r.start == if n < size then size - n else 0;
      PositionIsPlain(last, n);
    } else {
      PositionIsPlain(first, r.start);
      if last != "" {
        var b: nat :| r.start <= b && Position(last, b) && r.end == Min(b, size - 1);
        PositionIsPlain(last, b);
      }
    }
  }

  lemma {:induction false} EmptyIsPlain()
    ensures DashFree("") && VisibleAscii("")
  {
  }

  /** For a spec split at its first dash, the parser's answer. */
  lemma {:induction false} SpecSelects(first: string, last: string, size: nat, r: ByteRange)
    requires var spec := first + "-" + last;
             Dash(spec) == |first| && spec[..|first|] == first && spec[|first| + 1..] == last && ',' !in spec
    ensures ParseSpec(first + "-" + last, size) == Ok(Some(r)) <==> Selects(first, last, size, r)
  {
    hide ParseU64, Position;
    if first == "" {
      forall n: nat ensures ParseU64(last) == Some(n) <==> Position(last, n) { ParsesPosition(last, n); }
    } else {
      forall n: nat ensures ParseU64(first) == Some(n) <==> Position(first, n) { ParsesPosition(first, n); }
      forall n: nat ensures ParseU64(last) == Some(n) <==> Position(last, n) { ParsesPosition(last, n); }
    }
  }

  /** Exactly which headers are accepted, and as which range; every other header is an error. */
  lemma {:induction false} AcceptedRangeExactly(raw: string, size: nat, r: ByteRange)
    ensures ParseByteRange(Some(raw), size) == Ok(Some(r))
            <==> exists first, last :: raw == UNIT + (first + "-" + last) && Selects(first, last, size, r)
    ensures ParseByteRange(Some(raw), size).Ok? ==> ParseByteRange(Some(raw), size).value.Some?
  {
    if ParseByteRange(Some(raw), size) == Ok(Some(r)) {
      var first, last := SplitSpec(raw, size);
      SpecSelects(first, last, size, r);
    }
    if first, last :| raw == UNIT + (first + "-" + last) && Selects(first, last, size, r) {
      SelectingPositions(first, last, size, r);
      hide Selects, ParseByteRange, ParseSpec, Dash;
      SpecParts(first, last);
      SpecSelects(first, last, size, r);
      RangeHeader(first + "-" + last, size);
    }
  }

  lemma {:induction false} AcceptedUnit(raw: string, size: nat)
    requires ParseByteRange(Some(raw), size).Ok?
    ensures UNIT <= raw && ParseByteRange(Some(raw), size) == ParseSpec(raw[|UNIT|..], size)
  {
    hide ParseSpec;
  }

  lemma {:induction false} AcceptedSpec(spec: string, size: nat)
    requires ParseSpec(spec, size).Ok?
    ensures Dash(spec) < |spec| && ',' !in spec
  {
    hide ParseU64, Dash;
  }

  lemma {:induction false} SplitSpec(raw: string, size: nat) returns (first: string, last: string)
    requires ParseByteRange(Some(raw), size).Ok?
    ensures var spec := first + "-" + last;
            && raw == UNIT + spec && ParseByteRange(Some(raw), size) == ParseSpec(spec, size)
            && Dash(spec) == |first| && spec[..|first|] == first && spec[|first| + 1..] == last && ',' !in spec
  {
    AcceptedUnit(raw, size);
    var spec := raw[|UNIT|..];
    AcceptedSpec(spec, size);
    hide ParseByteRange, ParseSpec, Dash;
    var k := Dash(spec);
    first, last := spec[..k], spec[k + 1..];
    AroundDash(spec, k);
    AfterUnit(raw);
  }

  lemma {:induction false} AroundDash(s: string, k: nat)
    requires k < |s| && s[k] == '-'
    ensures s == s[..k] + "-" + s[k + 1..]
  {
  }

  lemma {:induction false} AfterUnit(raw: string)
    requires UNIT <= raw
    ensures raw == UNIT + raw[|UNIT|..]
  {
  }

  /** An empty file has no satisfiable range. */
  lemma {:induction false} EmptyFileRefusesEveryRange(raw: string)
    ensures ParseByteRange(Some(raw), 0).Err?
  {
  }

  // ---------------------------------------------------------------- what is sent

  /** Without a `Range` header the whole file is sent, and nothing is called partial. */
  lemma {:induction false} WholeFileWithoutHeader(content: string)
    ensures ServePlain(content, None) == Ok(Response(None, |content|, |content|, Ok(content)))
  {
    assert content[0..|content|] == content;
  }

  /** For an accepted range exactly its bytes are sent, with their number and the size of the whole file. */
  lemma {:induction false} RangeBodyExactly(content: string, header: Option<string>, r: ByteRange)
    requires ParseByteRange(header, |content|) == Ok(Some(r))
    ensures r.start <= r.end < |content|
    ensures ServePlain(content, header)
         == Ok(Response(Some(r), r.end - r.start + 1, |content|, Ok(content[r.start..r.end + 1])))
  {
    hide ParseByteRange;
    RangeIsInside(header, |content|);
  }

  /** A refused range is answered with the error and the size of the file, and nothing is sent. */
  lemma {:induction false} RefusedRangeExactly(content: string, header: Option<string>)
    requires ParseByteRange(header, |content|).Err?
    ensures ServePlain(content, header) == Err(Range(ParseByteRange(header, |content|).error))
    ensures ParseByteRange(header, |content|).error.size == |content|
  {
  }

  /** The three of them for a release file wherever it is kept, against what reading the file gives. */
  lemma {:induction false} ServedExactly(
      sha: string -> string, files: map<string, string>, download: Arachne.Download, blob: string,
      header: Option<string>)
    requires Arachne.Serves(download, files) && Arachne.ReadFile(sha, download, blob).Ok?
    requires |Arachne.ReadFile(sha, download, blob).value| <= U64_MAX
    ensures var plain := Arachne.ReadFile(sha, download, blob).value;
            var parsed, served := ParseByteRange(header, |plain|), Serve(sha, download, blob, header);
            && (header == None ==> served == Ok(Response(None, |plain|, |plain|, Ok(plain))))
            && (parsed.Ok? && parsed.value.Some? ==>
                  var r := parsed.value.value;
                  && r.start <= r.end < |plain|
                  && served == Ok(Response(Some(r), r.end - r.start + 1, |plain|, Ok(plain[r.start..r.end + 1]))))
            && (parsed.Err? ==> served == Err(Range(parsed.error)) && parsed.error.size == |plain|)
  {
    hide Serve, ServePlain, ParseByteRange, Arachne.ReadFile, Arachne.Serves;
    var plain := Arachne.ReadFile(sha, download, blob).value;
    ServedLikeThePlainFile(sha, files, download, blob, header);
    WholeFileWithoutHeader(plain);
    var parsed := ParseByteRange(header, |plain|);
    if parsed.Err? {
      RefusedRangeExactly(plain, header);
    } else if parsed.value.Some? {
      RangeBodyExactly(plain, header, parsed.value.value);
    }
  }

  /** Whatever Arachne answers, a body that is sent to its end has the announced length, and a whole file sent
      from its pointer has the size and the SHA-256 of the pointer. */
  lemma {:induction false} BrokenBodiesAreMarked(
      sha: string -> string, download: Arachne.Download, blob: string, header: Option<string>)
    requires var served := Serve(sha, download, blob, header); served.Ok? && served.value.body.Ok?
    ensures var response := Serve(sha, download, blob, header).value;
            && |response.body.value| == response.contentLength
            && (header == None && LfsPointer.Parsed(blob).Ok? ==>
                  var p := LfsPointer.Parsed(blob).value;
                  |response.body.value| == p.size && sha(response.body.value) == p.oid)
  {
    hide LfsPointer.Parsed, Arachne.Message, Sent;
    if LfsPointer.Parsed(blob).Ok? {
      RangeIsInside(header, LfsPointer.Parsed(blob).value.size);
    } else {
      RangeIsInside(header, |blob|);
    }
  }
}
