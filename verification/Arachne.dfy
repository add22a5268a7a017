/** Large files: routed into Arachne on commit, materialized or previewed on read.

    Arachne's download call is a parameter, so the readers are modelled under any answer it may give;
    `Serves` is the assumption that it returns the bytes stored under a hash. */
module Arachne {
  import opened Prelude
  import opened LfsPointer

  const UPLOAD_BLOCK_BYTES: nat := 2 * 1024 * 1024

  /** One item of a download stream. */
  datatype Item = Block(data: string) | Broken(message: string)

  /** (hash, offset, length) to a stream; length zero means through the end. */
  type Download = (string, nat, nat) -> Result<seq<Item>, string>

  // ---------------------------------------------------------------- commit

  function Chunks(payload: string, n: nat): seq<string>
    requires n > 0
    decreases |payload|
  {
    if payload == "" then []
    else if |payload| <= n then [payload]
    else [payload[..n]] + Chunks(payload[n..], n)
  }

  function Joined(blocks: seq<string>): string {
    if blocks == [] then "" else blocks[0] + Joined(blocks[1..])
  }

  /** Uploading in blocks loses nothing and never sends an empty or an oversized block. */
  lemma {:induction false} ChunksJoin(payload: string, n: nat)
    requires n > 0
    ensures Joined(Chunks(payload, n)) == payload
    ensures forall b :: b in Chunks(payload, n) ==> 0 < |b| <= n
    ensures forall i :: 0 <= i < |Chunks(payload, n)| - 1 ==> |Chunks(payload, n)[i]| == n
    decreases |payload|
  {
    if |payload| > n {
      ChunksJoin(payload[n..], n);
      assert payload == payload[..n] + payload[n..];
    } else if payload != "" {
      assert [payload][1..] == [];
    }
  }

  /** Blocks of two mebibytes. */
  lemma {:induction false} UploadBlocks(payload: string)
    ensures var blocks := Chunks(payload, UPLOAD_BLOCK_BYTES);
            && Joined(blocks) == payload && (forall b :: b in blocks ==> 0 < |b| <= 2_097_152)
            && forall i :: 0 <= i < |blocks| - 1 ==> |blocks[i]| == 2_097_152
  {
    ChunksJoin(payload, UPLOAD_BLOCK_BYTES);
  }

  predicate Routed(threshold: nat, payload: string) { payload != "" && |payload| >= threshold }

  /** The blob committed for a payload. */
  function Committed(sha: string -> string, address: string -> string, threshold: nat, payload: string): string {
    if Routed(threshold, payload) then Encode(ForPayload(sha, payload, address(payload))) else payload
  }

  datatype FileInput = FileInput(path: string, content: Result<string, string>, executable: bool)

  datatype FileChange = FileChange(path: string, content: string, executable: bool)

  function Uploaded(address: string -> string, files: map<string, string>, threshold: nat, payloads: seq<string>)
    : map<string, string>
    decreases |payloads|
  {
    if payloads == [] then files
    else
      var rest := payloads[..|payloads| - 1];
      var last := payloads[|payloads| - 1];
      var before := Uploaded(address, files, threshold, rest);
      if Routed(threshold, last) then before[address(last) := last] else before
  }

  function Content(file: FileInput): string { if file.content.Ok? then file.content.value else "" }

  function Payloads(req: seq<FileInput>): seq<string> {
    seq(|req|, i requires 0 <= i < |req| => Content(req[i]))
  }

  function Change(sha: string -> string, address: string -> string, threshold: nat, file: FileInput): FileChange {
    FileChange(file.path, Committed(sha, address, threshold, Content(file)), file.executable)
  }

  function Changes(sha: string -> string, address: string -> string, threshold: nat, req: seq<FileInput>)
    : seq<FileChange>
  {
    seq(|req|, i requires 0 <= i < |req| => Change(sha, address, threshold, req[i]))
  }

  lemma {:induction false} ChangesLength(
      sha: string -> string, address: string -> string, threshold: nat, req: seq<FileInput>)
    ensures |Changes(sha, address, threshold, req)| == |req|
  {
  }

  /** Every change keeps its file's path and executable flag; a non-empty payload that reaches the threshold is
      replaced by the pointer to it, every other one is committed as it is. */
  lemma {:induction false} ChangesExactly(
      sha: string -> string, address: string -> string, threshold: nat, req: seq<FileInput>, i: nat)
    requires i < |req| && req[i].content.Ok?
    ensures |Changes(sha, address, threshold, req)| == |req|
    ensures var file, change := req[i], Changes(sha, address, threshold, req)[i];
            var payload := file.content.value;
            && change.path == file.path && change.executable == file.executable
            && change.content == (if payload == "" || |payload| < threshold then payload
                                  else Encode(Pointer(sha(payload), |payload|, address(payload))))
  {
    hide Encode;
  }

  lemma {:induction false} NothingCommitted(
      sha: string -> string, address: string -> string, files: map<string, string>, threshold: nat,
      req: seq<FileInput>)
    ensures Changes(sha, address, threshold, req[..0]) == []
    ensures Uploaded(address, files, threshold, Payloads(req[..0])) == files
  {
    assert Payloads(req[..0]) == [];
  }

  lemma {:induction false} OneMoreFile(
      sha: string -> string, address: string -> string, files: map<string, string>, threshold: nat,
      req: seq<FileInput>, i: nat)
    requires i < |req|
    ensures Changes(sha, address, threshold, req[..i + 1])
         == Changes(sha, address, threshold, req[..i]) + [Change(sha, address, threshold, req[i])]
    ensures var before := Uploaded(address, files, threshold, Payloads(req[..i]));
            var payload := Content(req[i]);
            Uploaded(address, files, threshold, Payloads(req[..i + 1]))
            == if Routed(threshold, payload) then before[address(payload) := payload] else before
  {
    hide Change;
    var payloads := Payloads(req[..i + 1]);
    assert payloads == Payloads(req[..i]) + [Content(req[i])];
    assert payloads[..|payloads| - 1] == Payloads(req[..i]);
  }

  class Gateway {
    var files: map<string, string>   // what Arachne stores, by its Merkle hash
    const sha: string -> string
    const address: string -> string

    constructor (sha: string -> string, address: string -> string)
      ensures files == map[] && this.sha == sha && this.address == address
    {
      this.sha, this.address := sha, address;
      files := map[];
    }

    method StorePayload(payload: string, available: bool) returns (r: Result<string, string>)
      modifies this`files
      ensures available ==> files == old(files)[address(payload) := payload]
                            && r == Ok(Encode(ForPayload(sha, payload, address(payload))))
      ensures !available ==> r.Err? && files == old(files)
    {
      var blocks := Chunks(payload, UPLOAD_BLOCK_BYTES);
      if !available {
        return Err("upstream");
      }
      ChunksJoin(payload, UPLOAD_BLOCK_BYTES);
      var received := Joined(blocks);
      files := files[address(received) := received];
      return Ok(Encode(ForPayload(sha, payload, address(received))));
    }

    /** The changes handed to the commit, or the first decoding or upload failure. Payloads uploaded before
        a failure stay in Arachne. `available[i]` says whether Arachne accepts an upload for file `i`. */
    method CommitRepo(threshold: nat, req: seq<FileInput>, available: seq<bool>)
      returns (r: Result<seq<FileChange>, string>, ghost done: nat)
      requires |available| == |req|
      modifies this`files
      ensures done <= |req| && (forall i :: 0 <= i < done ==> req[i].content.Ok?)
      ensures files == Uploaded(address, old(files), threshold, Payloads(req[..done]))
      ensures r.Ok? <==> done == |req|
      ensures r.Err? ==> req[done].content.Err? || (Routed(threshold, req[done].content.value) && !available[done])
      ensures r.Ok? ==> r.value == Changes(sha, address, threshold, req)
      ensures r.Ok? ==> |r.value| == |req| && forall i :: 0 <= i < |req| ==>
                r.value[i].path == req[i].path && r.value[i].executable == req[i].executable
    {
      hide Encode, Changes, Uploaded, Payloads;
      var out: seq<FileChange> := [];
      done := 0;
      NothingCommitted(sha, address, files, threshold, req);
      for i := 0 to |req|
        invariant done == i
        invariant forall k :: 0 <= k < i ==> req[k].content.Ok?
        invariant files == Uploaded(address, old(files), threshold, Payloads(req[..i]))
        invariant out == Changes(sha, address, threshold, req[..i])
      {
        var file := req[i];
        if file.content.Err? {
          return Err(file.content.error), done;
        }
        var original := file.content.value;
        var content := original;
        if original != "" && |original| >= threshold {
          var stored := StorePayload(original, available[i]);
          if stored.Err? {
            return Err(stored.error), done;
          }
          content := stored.value;
        }
        OneMoreFile(sha, address, old(files), threshold, req, i);
        out := out + [FileChange(file.path, content, file.executable)];
        done := i + 1;
      }
      assert req[..|req|] == req;
      ChangesLength(sha, address, threshold, req);
      forall i | 0 <= i < |req| ensures out[i].path == req[i].path && out[i].executable == req[i].executable {
        ChangesExactly(sha, address, threshold, req, i);
      }
      return Ok(out), done;
    }
  }

  // ---------------------------------------------------------------- read

  function Message(e: PointerError): string {
    match e
    case NotPointer => "not a git-lfs pointer"
    case Invalid(m) => "invalid git-lfs pointer: " + m
  }

  function Prepend(data: string, r: Result<string, string>): Result<string, string> {
    match r case Ok(x) => Ok(data + x) case Err(e) => Err(e)
  }

  function Received(stream: seq<Item>): Result<string, string> {
    if stream == [] then Ok("")
    else match stream[0]
      case Broken(m) => Err(m)
      case Block(data) => Prepend(data, Received(stream[1..]))
  }

  /** The first `n` bytes of a stream, looking no further than needed. */
  function Bounded(stream: seq<Item>, n: nat): Result<string, string>
    decreases |stream|
  {
    if stream == [] || n == 0 then Ok("")
    else match stream[0]
      case Broken(m) => Err(m)
      case Block(data) =>
        var part := data[..Min(|data|, n)];
        Prepend(part, Bounded(stream[1..], n - |part|))
  }

  function Materialized(sha: string -> string, download: Download, blob: string): Result<Option<string>, string> {
    match Parsed(blob)
    case Err(e) => if e.NotPointer? then Ok(None) else Err(Message(e))
    case Ok(p) =>
      match download(p.arachneHash, 0, 0)
      case Err(e) => Err(e)
      case Ok(stream) =>
        match Received(stream)
        case Err(e) => Err(e)
        case Ok(payload) =>
          match VerifyPayload(sha, p, payload)
          case Err(e) => Err(Message(e))
          case Ok(_) => Ok(Some(payload))
  }

  /** `GET …/file`: the materialized payload, or the blob itself. */
  function ReadFile(sha: string -> string, download: Download, blob: string): Result<string, string> {
    match Materialized(sha, download, blob)
    case Err(e) => Err(e)
    case Ok(payload) => Ok(if payload.Some? then payload.value else blob)
  }

  function Prefix(sha: string -> string, download: Download, blob: string, max: nat): Result<(string, bool), string> {
    match Parsed(blob)
    case Err(e) => if e.NotPointer? then Ok((blob[..Min(|blob|, max)], |blob| > max)) else Err(Message(e))
    case Ok(p) =>
      match download(p.arachneHash, 0, max)
      case Err(e) => Err(e)
      case Ok(stream) =>
        match Bounded(stream, Min(p.size, max))
        case Err(e) => Err(e)
        case Ok(payload) =>
          if p.size > max then Ok((payload, true))
          else match VerifyPayload(sha, p, payload)
            case Err(e) => Err(Message(e))
            case Ok(_) => Ok((payload, false))
  }

  method MaterializePointer(sha: string -> string, download: Download, blob: string)
    returns (r: Result<Option<string>, string>)
    ensures r == Materialized(sha, download, blob)
  {
    hide Parsed, Message;
    var parsed := Parse(blob);
    if parsed.Err? {
      return if parsed.error.NotPointer? then Ok(None) else Err(Message(parsed.error));
    }
    var pointer := parsed.value;
    var answer := download(pointer.arachneHash, 0, 0);
    if answer.Err? {
      return Err(answer.error);
    }
    var stream := answer.value;
    var payload := "";
    PrependNothing(Received(stream));
    assert stream[0..] == stream;
    for i := 0 to |stream|
      invariant Received(stream) == Prepend(payload, Received(stream[i..]))
    {
      assert stream[i..][0] == stream[i] && stream[i..][1..] == stream[i + 1..];
      match stream[i] {
        case Broken(m) => return Err(m);
        case Block(data) =>
          PrependTwice(payload, data, Received(stream[i + 1..]));
          payload := payload + data;
      }
    }
    assert Received(stream[|stream|..]) == Ok("") && payload + "" == payload;
    var verified := VerifyPayload(sha, pointer, payload);
    return if verified.Err? then Err(Message(verified.error)) else Ok(Some(payload));
  }

  lemma {:induction false} PrependNothing(r: Result<string, string>)
    ensures Prepend("", r) == r
  {
    if r.Ok? {
      assert "" + r.value == r.value;
    }
  }

  lemma {:induction false} PrependTwice(a: string, b: string, r: Result<string, string>)
    ensures Prepend(a, Prepend(b, r)) == Prepend(a + b, r)
  {
    if r.Ok? {
      assert a + (b + r.value) == (a + b) + r.value;
    }
  }

  method ReadPrefix(sha: string -> string, download: Download, blob: string, max: nat)
    returns (r: Result<(string, bool), string>)
    ensures r == Prefix(sha, download, blob, max)
  {
    hide Parsed, Message;
    var parsed := Parse(blob);
    if parsed.Err? {
      return if parsed.error.NotPointer? then Ok((blob[..Min(|blob|, max)], |blob| > max))
             else Err(Message(parsed.error));
    }
    var pointer := parsed.value;
    var answer := download(pointer.arachneHash, 0, max);
    if answer.Err? {
      return Err(answer.error);
    }
    var stream := answer.value;
    var truncated := pointer.size > max;
    var expected: nat := Min(pointer.size, max);
    var payload := "";
    var i := 0;
    PrependNothing(Bounded(stream, expected));
    assert stream[0..] == stream;
    while |payload| < expected && i < |stream|
      invariant 0 <= i <= |stream| && |payload| <= expected
      invariant Bounded(stream, expected) == Prepend(payload, Bounded(stream[i..], expected - |payload|))
    {
      assert stream[i..][0] == stream[i] && stream[i..][1..] == stream[i + 1..];
      match stream[i] {
        case Broken(m) => return Err(m);
        case Block(data) =>
          var remaining: nat := expected - |payload|;
          var part := data[..Min(|data|, remaining)];
          PrependTwice(payload, part, Bounded(stream[i + 1..], remaining - |part|));
          payload := payload + part;
      }
      i := i + 1;
    }
    assert Bounded(stream[i..], expected - |payload|) == Ok("") && payload + "" == payload;
    if !truncated {
      var verified := VerifyPayload(sha, pointer, payload);
      if verified.Err? {
        return Err(Message(verified.error));
      }
    }
    return Ok((payload, truncated));
  }

  // ---------------------------------------------------------------- what commit and read promise together

  function Part(content: string, offset: nat, length: nat): string
    requires offset <= |content|
  {
    if length == 0 then content[offset..] else content[offset..Min(offset + length, |content|)]
  }

  /** Arachne returns the requested part of what is stored under a hash, in blocks of its choosing. */
  ghost predicate Serves(download: Download, files: map<string, string>) {
    forall hash: string, offset: nat, length: nat ::
      var answer := download(hash, offset, length);
      if hash !in files then answer.Err?
      else offset <= |files[hash]| && offset + length <= U64_MAX
           ==> answer.Ok? && Received(answer.value) == Ok(Part(files[hash], offset, length))
  }

  /** For any stored files there is a service that serves them, here in one block each. */
  lemma {:induction false} SomeServiceServes(files: map<string, string>) returns (download: Download)
    ensures Serves(download, files)
  {
    download := (hash: string, offset: nat, length: nat) =>
      if hash !in files then Err("not found")
      else if offset > |files[hash]| then Err("invalid range")
      else Ok([Block(Part(files[hash], offset, length))]);
    forall hash: string, offset: nat, length: nat
      ensures var answer := download(hash, offset, length);
              if hash !in files then answer.Err?
              else offset <= |files[hash]| && offset + length <= U64_MAX
                   ==> answer.Ok? && Received(answer.value) == Ok(Part(files[hash], offset, length))
    {
      if hash in files && offset <= |files[hash]| {
        OneBlock(Part(files[hash], offset, length));
      }
    }
  }

  lemma {:induction false} OneBlock(data: string)
    ensures Received([Block(data)]) == Ok(data)
  {
    assert [Block(data)][1..] == [] && data + "" == data;
    assert Received([]) == Ok("");
  }

  /** Both hash functions print 64 lowercase hexadecimal digits. */
  ghost predicate HashesAreDigests(sha: string -> string, address: string -> string) {
    forall x :: IsDigest(sha(x)) && IsDigest(address(x))
  }

  /** A payload that is itself a pointer file naming its own size and SHA-256, and is what Arachne holds
      under the hash it names. */
  predicate DescribesItself(sha: string -> string, files: map<string, string>, payload: string) {
    && Parsed(payload).Ok?
    && var p := Parsed(payload).value;
       p.size == |payload| && p.oid == sha(payload) && p.arachneHash in files && files[p.arachneHash] == payload
  }

  /** For every payload and threshold, commit then read gives the payload back exactly when it was routed to
      Arachne, is not pointer-shaped, or describes itself. */
  lemma {:induction false} CommitThenRead(
      sha: string -> string, address: string -> string, files: map<string, string>, download: Download,
      threshold: nat, payload: string)
    requires HashesAreDigests(sha, address) && Serves(download, files) && |payload| <= U64_MAX
    requires Routed(threshold, payload) ==> address(payload) in files && files[address(payload)] == payload
    ensures ReadFile(sha, download, Committed(sha, address, threshold, payload)) == Ok(payload)
            <==> Routed(threshold, payload) || !PointerShaped(payload) || DescribesItself(sha, files, payload)
  {
    hide Parsed, Message, Encode, Received, PointerShaped;
    if Routed(threshold, payload) {
      var p := ForPayload(sha, payload, address(payload));
      ParseAfterEncode(p);
      var answer := download(p.arachneHash, 0, 0);
      assert answer.Ok? && Received(answer.value) == Ok(payload);
    } else if Parsed(payload).Ok? {
      var answer := download(Parsed(payload).value.arachneHash, 0, 0);
      var hash := Parsed(payload).value.arachneHash;
      NotPointerMeansShape(payload);
      if hash in files {
        assert answer.Ok? && Received(answer.value) == Ok(Part(files[hash], 0, 0));
        assert Part(files[hash], 0, 0) == files[hash];
      } else {
        assert answer.Err?;
      }
    } else {
      NotPointerMeansShape(payload);
    }
  }

  lemma {:induction false} InvalidPayloadIsLost(
      sha: string -> string, address: string -> string, download: Download, threshold: nat, payload: string,
      problem: string)
    requires !Routed(threshold, payload) && Parsed(payload) == Err(Invalid(problem))
    ensures Committed(sha, address, threshold, payload) == payload
    ensures ReadFile(sha, download, payload) == Err(Message(Invalid(problem)))
  {
    hide Parsed, Encode, Message;
  }

  /** A payload below the threshold that is just a pointer's version line is committed as it is, and every
      later read of it fails. */
  lemma {:induction false} PointerShapedPayloadIsLost(
      sha: string -> string, address: string -> string, download: Download, threshold: nat)
    requires threshold > |VERSION_LINE|
    ensures Committed(sha, address, threshold, VERSION_LINE) == VERSION_LINE
    ensures ReadFile(sha, download, VERSION_LINE) == Err("invalid git-lfs pointer: " + "missing oid")
  {
    VersionAlone();
    hide Parsed, Encode, ReadFile, Committed;
    InvalidPayloadIsLost(sha, address, download, threshold, VERSION_LINE, "missing oid");
  }

  lemma {:induction false} NotPointerMeansShape(bytes: string)
    ensures Parsed(bytes) == Err(NotPointer) <==> !PointerShaped(bytes)
  {
    hide ReadLines, ValidUtf8, Lines;
    if PointerShaped(bytes) {
      ErrorsAreInvalid(NO_FIELDS, Lines(bytes)[1..]);
    }
  }

  lemma {:induction false} ErrorsAreInvalid(f: Fields, lines: seq<string>)
    ensures ReadLines(f, lines).Err? ==> ReadLines(f, lines).error.Invalid?
    decreases |lines|
  {
    if lines != [] && ReadLine(f, lines[0]).Ok? {
      ErrorsAreInvalid(ReadLine(f, lines[0]).value, lines[1..]);
    }
  }

  /** Whatever Arachne answers, a routed file never reads back as bytes of another size or SHA-256. */
  lemma {:induction false} CorruptionIsDetected(
      sha: string -> string, address: string -> string, download: Download, threshold: nat, payload: string)
    requires HashesAreDigests(sha, address) && |payload| <= U64_MAX && Routed(threshold, payload)
    ensures var r := ReadFile(sha, download, Committed(sha, address, threshold, payload));
            r.Ok? ==> |r.value| == |payload| && sha(r.value) == sha(payload)
  {
    hide Parsed, Message, Encode;
    ParseAfterEncode(ForPayload(sha, payload, address(payload)));
  }

  lemma {:induction false} BoundedIsAPrefix(stream: seq<Item>, n: nat)
    requires Received(stream).Ok?
    ensures var all := Received(stream).value;
            Bounded(stream, n) == Ok(all[..Min(|all|, n)])
    decreases |stream|
  {
    if stream != [] && n > 0 {
      var data := stream[0].data;
      var part := data[..Min(|data|, n)];
      BoundedIsAPrefix(stream[1..], n - |part|);
      var rest := Received(stream[1..]).value;
      assert part + rest[..Min(|rest|, n - |part|)] == (data + rest)[..Min(|data + rest|, n)];
    }
  }

  /** A bounded read through a pointer is the bounded read of the plain file, truncation flag included. */
  lemma {:induction false} BoundedReadAgrees(
      sha: string -> string, files: map<string, string>, download: Download, blob: string, max: nat)
    requires Serves(download, files) && max <= U64_MAX
    requires ReadFile(sha, download, blob).Ok?
    ensures var plain := ReadFile(sha, download, blob).value;
            Prefix(sha, download, blob, max) == Ok((plain[..Min(|plain|, max)], |plain| > max))
  {
    hide Parsed, Message, Received, Bounded;
    if Parsed(blob).Ok? {
      var p := Parsed(blob).value;
      var plain := ReadFile(sha, download, blob).value;
      var full := download(p.arachneHash, 0, 0);
      assert p.arachneHash in files && plain == files[p.arachneHash];
      var answer := download(p.arachneHash, 0, max);
      assert answer.Ok? && Received(answer.value) == Ok(Part(plain, 0, max));
      BoundedIsAPrefix(answer.value, Min(p.size, max));
      assert Part(plain, 0, max)[..Min(|Part(plain, 0, max)|, Min(p.size, max))] == plain[..Min(|plain|, max)];
      if |plain| <= max {
        assert plain[..Min(|plain|, max)] == plain;
      }
    }
  }

  /** No two of these contents share a Merkle hash. */
  ghost predicate NoCollision(address: string -> string, contents: set<string>) {
    forall x, y :: x in contents && y in contents && address(x) == address(y) ==> x == y
  }

  ghost predicate FiledByAddress(address: string -> string, files: map<string, string>) {
    forall h :: h in files ==> address(files[h]) == h
  }

  lemma {:induction false} UploadsKeepFiles(
      address: string -> string, files: map<string, string>, threshold: nat, payloads: seq<string>,
      contents: set<string>)
    requires FiledByAddress(address, files) && files.Values <= contents
    requires NoCollision(address, contents) && forall p :: p in payloads ==> p in contents
    ensures var after := Uploaded(address, files, threshold, payloads);
            && FiledByAddress(address, after) && after.Values <= contents
            && (forall h :: h in files ==> h in after && after[h] == files[h])
            && (forall p :: p in payloads && Routed(threshold, p) ==> address(p) in after && after[address(p)] == p)
    decreases |payloads|
  {
    if payloads != [] {
      var rest, last := payloads[..|payloads| - 1], payloads[|payloads| - 1];
      assert payloads == rest + [last];
      UploadsKeepFiles(address, files, threshold, rest, contents);
      var before := Uploaded(address, files, threshold, rest);
      if Routed(threshold, last) && address(last) in before {
        assert before[address(last)] in before.Values;
      }
    }
  }

  /** Every file of a multi-file commit reads back, and files committed earlier still do. */
  lemma {:induction false} CommitReadsBack(
      sha: string -> string, address: string -> string, files: map<string, string>, download: Download,
      threshold: nat, payloads: seq<string>, contents: set<string>, i: nat)
    requires HashesAreDigests(sha, address)
    requires FiledByAddress(address, files) && files.Values <= contents
    requires NoCollision(address, contents) && forall p :: p in payloads ==> p in contents
    requires i < |payloads| && |payloads[i]| <= U64_MAX
    requires Serves(download, Uploaded(address, files, threshold, payloads))
    requires Routed(threshold, payloads[i]) || !PointerShaped(payloads[i])
    ensures ReadFile(sha, download, Committed(sha, address, threshold, payloads[i])) == Ok(payloads[i])
  {
    UploadsKeepFiles(address, files, threshold, payloads, contents);
    CommitThenRead(sha, address, Uploaded(address, files, threshold, payloads), download, threshold, payloads[i]);
  }

  lemma {:induction false} EarlierFilesSurvive(
      sha: string -> string, address: string -> string, files: map<string, string>, before: Download,
      after: Download, threshold: nat, payloads: seq<string>, contents: set<string>, blob: string)
    requires FiledByAddress(address, files) && files.Values <= contents
    requires NoCollision(address, contents) && forall p :: p in payloads ==> p in contents
    requires Serves(before, files) && Serves(after, Uploaded(address, files, threshold, payloads))
    requires ReadFile(sha, before, blob).Ok?
    ensures ReadFile(sha, after, blob) == ReadFile(sha, before, blob)
  {
    UploadsKeepFiles(address, files, threshold, payloads, contents);
    if Parsed(blob).Ok? {
      var hash := Parsed(blob).value.arachneHash;
      assert before(hash, 0, 0).Ok?;
      assert Received(after(hash, 0, 0).value) == Received(before(hash, 0, 0).value);
    }
  }
}
