/**
 Reading the output of `git cat-file --batch`: each object is a header line with its size, then that many bytes, then
 a line feed. Contents may hold any bytes.
 */
module GitBatch {
  import opened Outcomes
  import opened Decimal

  type Bytes = seq<byte>

  const LF: byte := 10
  const SPACE: byte := 32
  const MINUS: byte := 45
  const MAX_SAFE_INTEGER := 0x1F_FFFF_FFFF_FFFF
  const MISSING: Bytes := [32, 109, 105, 115, 115, 105, 110, 103]

  datatype GitError = NoHeader | NoSuchFile | InvalidSize | Truncated

  datatype Blob = Blob(oid: Bytes, kind: Bytes, content: Bytes)

  // ---------- What git writes ----------

  predicate PlainField(s: Bytes) {
    SPACE !in s && LF !in s
  }

  predicate ValidBlob(b: Blob) {
    PlainField(b.oid) && PlainField(b.kind) && |b.content| <= MAX_SAFE_INTEGER
  }

  function Header(b: Blob): Bytes {
    b.oid + [SPACE] + b.kind + [SPACE] + Digits(|b.content|)
  }

  /** A header line, the content, and a line feed. */
  function Frame(header: Bytes, content: Bytes): Bytes {
    header + [LF] + content + [LF]
  }

  function Framed(b: Blob): Bytes {
    Frame(Header(b), b.content)
  }

  function Stream(blobs: seq<Blob>): Bytes {
    if blobs == [] then [] else Framed(blobs[0]) + Stream(blobs[1..])
  }

  // ---------- How it is read ----------

  function IndexOf(output: Bytes, b: byte, from: nat): (r: Option<nat>)
    ensures r.Some? ==> from <= r.value < |output| && output[r.value] == b
    decreases |output| - from
  {
    if from >= |output| then None
    else if output[from] == b then Some(from)
    else IndexOf(output, b, from + 1)
  }

  /** Field k of the header split at spaces; absent fields are empty. */
  function Field(header: Bytes, k: nat): Bytes
    decreases k
  {
    var space := IndexOf(header, SPACE, 0);
    if k == 0 then (if space.Some? then header[..space.value] else header)
    else if space.Some? then Field(header[space.value + 1..], k - 1) else []
  }

  /** `Number.parseInt(text, 10)`: an optional sign and leading digits; None stands for NaN. */
  function ParseInt(text: Bytes): Option<int> {
    var signed := text != [] && (text[0] == MINUS || text[0] == 43);
    var digits := LeadingDigits(if signed then text[1..] else text);
    if digits == [] then None
    else
      var value: int := Value(digits);
      Some(if text[0] == MINUS then -value else value)
  }

  predicate EndsWith(s: Bytes, suffix: Bytes) {
    suffix == [] ||
    (s != [] && s[|s| - 1] == suffix[|suffix| - 1] && EndsWith(s[..|s| - 1], suffix[..|suffix| - 1]))
  }

  /** The content length a header line announces. */
  function ParseSize(header: Bytes): Result<nat, GitError> {
    if EndsWith(header, MISSING) then Failure(NoSuchFile)
    else
      var size := ParseInt(Field(header, 2));
      if size.None? || size.value > MAX_SAFE_INTEGER || size.value < 0 then Failure(InvalidSize)
      else Success(size.value)
  }

  /** How a header line is read; the reader itself only needs the length it gives. */
  type HeaderReader = Bytes -> Result<nat, GitError>

  /** The content and the offset after its line feed. */
  function TakeContent(output: Bytes, start: nat, size: nat): (r: Result<(Bytes, nat), GitError>)
    ensures r.Success? ==> start < r.value.1 <= |output|
  {
    if start + size >= |output| || output[start + size] != LF then Failure(Truncated)
    else Success((output[start..start + size], start + size + 1))
  }

  /** One object from the offset: its content and the offset after it. */
  function ParseOne(parse: HeaderReader, output: Bytes, offset: nat): (r: Result<(Bytes, nat), GitError>)
    ensures r.Success? ==> offset < r.value.1 <= |output|
  {
    var headerEnd := IndexOf(output, LF, offset);
    if headerEnd.None? then Failure(NoHeader)
    else
      var size := parse(output[offset..headerEnd.value]);
      if size.Failure? then Failure(size.error)
      else TakeContent(output, headerEnd.value + 1, size.value)
  }

  /** All objects from the offset, added to the contents read so far. */
  function ParseFrom(parse: HeaderReader, output: Bytes, paths: seq<string>, offset: nat, contents: map<string, Bytes>): Result<map<string, Bytes>, GitError> {
    if paths == [] then Success(contents)
    else
      var one := ParseOne(parse, output, offset);
      if one.Failure? then Failure(one.error)
      else ParseFrom(parse, output, paths[1..], one.value.1, contents[paths[0] := one.value.0])
  }

  method ReadGitFiles(output: Bytes, paths: seq<string>) returns (r: Result<map<string, Bytes>, GitError>)
    ensures r == ParseFrom(ParseSize, output, paths, 0, map[])
  {
    var contents: map<string, Bytes> := map[];
    var offset := 0;
    for i := 0 to |paths|
      invariant ParseFrom(ParseSize, output, paths, 0, map[]) == ParseFrom(ParseSize, output, paths[i..], offset, contents)
    {
      assert paths[i..][1..] == paths[i + 1..];
      var one := ParseOne(ParseSize, output, offset);
      if one.Failure? {
        return Failure(one.error);
      }
      contents := contents[paths[i] := one.value.0];
      offset := one.value.1;
    }
    r := Success(contents);
  }

  // ---------- Reading inverts writing ----------

  function ContentsOf(paths: seq<string>, blobs: seq<Blob>, contents: map<string, Bytes>): map<string, Bytes>
    requires |paths| == |blobs|
  {
    if paths == [] then contents
    else ContentsOf(paths[1..], blobs[1..], contents[paths[0] := blobs[0].content])
  }

  lemma {:induction false} FirstIndex(s: Bytes, b: byte, from: nat, k: nat)
    requires from <= k < |s| && s[k] == b && forall i :: from <= i < k ==> s[i] != b
    ensures IndexOf(s, b, from) == Some(k)
    decreases k - from
  {
    if from < k {
      FirstIndex(s, b, from + 1, k);
    }
  }

  lemma {:induction false} NoIndex(s: Bytes, b: byte, from: nat)
    requires forall i :: from <= i < |s| ==> s[i] != b
    ensures IndexOf(s, b, from) == None
    decreases |s| - from
  {
    if from < |s| {
      NoIndex(s, b, from + 1);
    }
  }

  lemma SizeField(b: Blob)
    requires ValidBlob(b)
    ensures Field(Header(b), 2) == Digits(|b.content|)
  {
    var digits := Digits(|b.content|);
    var afterOid := b.kind + [SPACE] + digits;
    assert Header(b) == b.oid + [SPACE] + afterOid;
    SplitField(b.oid, afterOid);
    SplitField(b.kind, digits);
    NoIndex(digits, SPACE, 0);
    assert Field(Header(b), 2) == Field(afterOid, 1) == Field(digits, 0);
  }

  /** A number's digits read back as the number. */
  lemma ParsesDigits(n: nat)
    ensures ParseInt(Digits(n)) == Some(n)
  {
    var digits := Digits(n);
    assert IsDigit(digits[0]);
    LeadingDigitsEnd(digits, []);
    assert digits + [] == digits;
    ValueOfDigits(n);
  }

  /** A written header is one line that ends in a digit, so it is not taken for a missing object. */
  lemma HeaderIsOneLine(b: Blob)
    requires ValidBlob(b)
    ensures LF !in Header(b) && !EndsWith(Header(b), MISSING)
  {
    var header, digits := Header(b), Digits(|b.content|);
    assert IsDigit(digits[|digits| - 1]);
    assert header[|header| - 1] == digits[|digits| - 1];
    assert LF !in digits;
    assert MISSING[|MISSING| - 1] == 103;
  }

  /** The header line announces a content of this size. */
  predicate Announces(parse: HeaderReader, header: Bytes, size: nat) {
    LF !in header && parse(header) == Success(size)
  }

  /** The size field of a written header reads back as the content length. */
  lemma HeaderSize(b: Blob)
    requires ValidBlob(b)
    ensures Announces(ParseSize, Header(b), |b.content|)
  {
    HeaderIsOneLine(b);
    SizeField(b);
    ParsesDigits(|b.content|);
  }

  /** A header line of three fields, with what its last field starts with. */
  lemma HeaderField(first: Bytes, second: Bytes, last: Bytes)
    requires SPACE !in first && SPACE !in second && SPACE !in last
    ensures Field(first + [SPACE] + (second + [SPACE] + last), 2) == last
  {
    SplitField(first, second + [SPACE] + last);
    SplitField(second, last);
    NoIndex(last, SPACE, 0);
    assert Field(first + [SPACE] + (second + [SPACE] + last), 2) == Field(second + [SPACE] + last, 1) == Field(last, 0);
  }

  lemma {:induction false} EndsWithIff(s: Bytes, suffix: Bytes)
    ensures EndsWith(s, suffix) <==> exists front :: s == front + suffix
  {
    if suffix == [] {
      assert s == s + suffix;
    } else if s != [] {
      var n, k := |s| - 1, |suffix| - 1;
      EndsWithIff(s[..n], suffix[..k]);
      assert suffix == suffix[..k] + [suffix[k]];
      if EndsWith(s, suffix) {
        var front :| s[..n] == front + suffix[..k];
        assert s == s[..n] + [s[n]] == front + suffix;
      }
      if front :| s == front + suffix {
        assert s[..n] == front + suffix[..k];
      }
    }
  }

  /** A line that ends in ` missing` reports a missing file. */
  lemma MissingIsNoSuchFile(front: Bytes)
    ensures ParseSize(front + [32, 109, 105, 115, 115, 105, 110, 103]) == Failure(NoSuchFile)
  {
    EndsWithIff(front + MISSING, MISSING);
  }

  /** No number, a negative one, or one too large to be exact. */
  ghost predicate BadSize(text: Bytes) {
    || (forall i :: 0 <= i < |text| ==> !IsDigit(text[i]))
    || (exists n: nat :: n > 0 && text == [MINUS] + Digits(n))
    || (exists n: nat :: n > 9007199254740991 && text == Digits(n))
  }

  lemma ParsesNegative(n: nat)
    ensures var value := ParseInt([MINUS] + Digits(n)); value.Some? && value.value + n == 0
  {
    assert ([MINUS] + Digits(n))[1..] == Digits(n);
    LeadingDigitsEnd(Digits(n), []);
    assert Digits(n) + [] == Digits(n);
    ValueOfDigits(n);
  }

  lemma BadSizeParses(text: Bytes)
    requires BadSize(text)
    ensures ParseInt(text).None? || ParseInt(text).value < 0 || ParseInt(text).value > 9007199254740991
  {
    if n: nat :| n > 0 && text == [MINUS] + Digits(n) {
      ParsesNegative(n);
    } else if n: nat :| n > 9007199254740991 && text == Digits(n) {
      ParsesDigits(n);
    } else {
      NoLeadingDigits(text);
      NoLeadingDigits(if text == [] then text else text[1..]);
    }
  }

  /** A header with a bad size is refused, whatever its other fields are. */
  lemma BadSizeIsRefused(first: Bytes, second: Bytes, size: Bytes)
    requires SPACE !in first && SPACE !in second && SPACE !in size && BadSize(size)
    ensures ParseSize(first + [SPACE] + (second + [SPACE] + size)).Failure?
  {
    HeaderField(first, second, size);
    BadSizeParses(size);
  }

  lemma NoLeadingDigits(s: Bytes)
    requires forall i :: 0 <= i < |s| ==> !IsDigit(s[i])
    ensures LeadingDigits(s) == []
  {
  }

  /** Every header of the stream is read as the length of its content. */
  ghost predicate Readable(parse: HeaderReader, blobs: seq<Blob>) {
    forall b :: b in blobs ==> Announces(parse, Header(b), |b.content|)
  }

  lemma SplitField(field: Bytes, rest: Bytes)
    requires SPACE !in field
    ensures forall k: nat :: Field(field + [SPACE] + rest, k + 1) == Field(rest, k)
  {
    var s := field + [SPACE] + rest;
    FirstIndex(s, SPACE, 0, |field|);
    assert s[|field| + 1..] == rest;
  }

  /** Where the pieces of one framed object lie in the output. */
  lemma Pieces(output: Bytes, before: Bytes, header: Bytes, content: Bytes, after: Bytes)
    requires output == before + Frame(header, content) + after
    ensures var headerEnd := |before| + |header|;
      var contentEnd := headerEnd + 1 + |content|;
      && |output| == contentEnd + 1 + |after|
      && output[|before|..headerEnd] == header && output[headerEnd] == LF
      && output[headerEnd + 1..contentEnd] == content && output[contentEnd] == LF
  {
  }

  /** The first line feed from the offset ends the header. */
  lemma HeaderEnds(output: Bytes, offset: nat, header: Bytes)
    requires offset + |header| < |output| && output[offset..offset + |header|] == header
    requires LF !in header && output[offset + |header|] == LF
    ensures IndexOf(output, LF, offset) == Some(offset + |header|)
  {
    forall i | offset <= i < offset + |header| ensures output[i] != LF {
      assert output[i] == output[offset..offset + |header|][i - offset];
    }
    FirstIndex(output, LF, offset, offset + |header|);
  }

  /** What the reader does once the header line and its size are known. */
  lemma ParsesLine(parse: HeaderReader, output: Bytes, offset: nat, headerEnd: nat, size: nat)
    requires IndexOf(output, LF, offset) == Some(headerEnd)
    requires parse(output[offset..headerEnd]) == Success(size)
    ensures ParseOne(parse, output, offset) == TakeContent(output, headerEnd + 1, size)
  {
  }

  /** One framed object parses back from anywhere in the output, whatever follows it. */
  lemma ParsesFramed(parse: HeaderReader, output: Bytes, before: Bytes, header: Bytes, content: Bytes, after: Bytes)
    requires Announces(parse, header, |content|) && output == before + Frame(header, content) + after
    ensures ParseOne(parse, output, |before|) == Success((content, |before| + |Frame(header, content)|))
  {
    Pieces(output, before, header, content, after);
    HeaderEnds(output, |before|, header);
    ParsesLine(parse, output, |before|, |before| + |header|, |content|);
  }

  lemma FramedThen(before: Bytes, framed: Bytes, rest: Bytes, after: Bytes)
    ensures before + (framed + rest) + after == before + framed + (rest + after) == (before + framed) + rest + after
  {
  }

  /** Reading one whole object moves the reader behind it. */
  lemma ReadsFirst(parse: HeaderReader, output: Bytes, before: Bytes, header: Bytes, content: Bytes, tail: Bytes, paths: seq<string>, contents: map<string, Bytes>)
    requires paths != [] && Announces(parse, header, |content|) && output == before + Frame(header, content) + tail
    ensures ParseFrom(parse, output, paths, |before|, contents)
         == ParseFrom(parse, output, paths[1..], |before + Frame(header, content)|, contents[paths[0] := content])
  {
    ParsesFramed(parse, output, before, header, content, tail);
    assert |before + Frame(header, content)| == |before| + |Frame(header, content)|;
  }

  /** Round trip: reading what git wrote gives each path its own content, whatever bytes the contents hold. */
  lemma {:induction false} ReadsBackStream(parse: HeaderReader, output: Bytes, before: Bytes, blobs: seq<Blob>, after: Bytes, paths: seq<string>, contents: map<string, Bytes>)
    requires |paths| == |blobs| && Readable(parse, blobs)
    requires output == before + Stream(blobs) + after
    ensures ParseFrom(parse, output, paths, |before|, contents) == Success(ContentsOf(paths, blobs, contents))
    decreases |blobs|
  {
    if blobs != [] {
      var b := blobs[0];
      var framed, rest := Framed(b), Stream(blobs[1..]);
      FramedThen(before, framed, rest, after);
      ReadsFirst(parse, output, before, Header(b), b.content, rest + after, paths, contents);
      ReadsBackStream(parse, output, before + framed, blobs[1..], after, paths[1..], contents[paths[0] := b.content]);
    }
  }

  /** A cut before the first line feed shows no header. */
  lemma NoHeaderInCut(parse: HeaderReader, output: Bytes, before: Bytes, cut: Bytes)
    requires output == before + cut && LF !in cut
    ensures ParseOne(parse, output, |before|) == Failure(NoHeader)
  {
    forall i | |before| <= i < |output| ensures output[i] != LF {
      assert output[i] == cut[i - |before|];
    }
    NoIndex(output, LF, |before|);
  }

  /** A cut behind the header's line feed, but before the last one, is too short for the size. */
  lemma TruncatedAfterHeader(parse: HeaderReader, output: Bytes, before: Bytes, header: Bytes, size: nat, cut: Bytes)
    requires Announces(parse, header, size) && output == before + (header + [LF] + cut) && |cut| <= size
    ensures ParseOne(parse, output, |before|) == Failure(Truncated)
  {
    assert output[|before|..|before| + |header|] == header && output[|before| + |header|] == LF;
    HeaderEnds(output, |before|, header);
    ParsesLine(parse, output, |before|, |before| + |header|, size);
  }

  lemma CutFrame(header: Bytes, content: Bytes, k: nat)
    requires k < |Frame(header, content)|
    ensures var cut := Frame(header, content)[..k];
      if k <= |header| then cut == header[..k] else cut == header + [LF] + content[..k - |header| - 1]
  {
  }

  /** A framed object cut short is refused. */
  lemma RefusesCutObject(parse: HeaderReader, output: Bytes, before: Bytes, header: Bytes, content: Bytes, k: nat)
    requires Announces(parse, header, |content|) && k < |Frame(header, content)|
    requires output == before + Frame(header, content)[..k]
    ensures ParseOne(parse, output, |before|).Failure?
  {
    CutFrame(header, content, k);
    if k <= |header| {
      NoHeaderInCut(parse, output, before, header[..k]);
    } else {
      TruncatedAfterHeader(parse, output, before, header, |content|, content[..k - |header| - 1]);
    }
  }

  /** Where a cut of a stream falls: inside its first object, or in the rest. */
  lemma CutStream(framed: Bytes, rest: Bytes, k: nat)
    requires k <= |framed| + |rest|
    ensures k < |framed| ==> (framed + rest)[..k] == framed[..k]
    ensures k >= |framed| ==> (framed + rest)[..k] == framed + rest[..k - |framed|]
  {
  }

  /** Every proper prefix of a valid stream is refused. */
  lemma {:induction false} RefusesProperPrefix(parse: HeaderReader, output: Bytes, before: Bytes, blobs: seq<Blob>, k: nat, paths: seq<string>, contents: map<string, Bytes>)
    requires |paths| == |blobs| && Readable(parse, blobs)
    requires k < |Stream(blobs)| && output == before + Stream(blobs)[..k]
    ensures ParseFrom(parse, output, paths, |before|, contents).Failure?
    decreases |blobs|
  {
    var b := blobs[0];
    var framed, rest := Framed(b), Stream(blobs[1..]);
    CutStream(framed, rest, k);
    if k < |framed| {
      RefusesCutObject(parse, output, before, Header(b), b.content, k);
    } else {
      var cut := rest[..k - |framed|];
      assert output == before + framed + cut == (before + framed) + cut;
      ReadsFirst(parse, output, before, Header(b), b.content, cut, paths, contents);
      RefusesProperPrefix(parse, output, before + framed, blobs[1..], k - |framed|, paths[1..],
                          contents[paths[0] := b.content]);
    }
  }

  ghost predicate RefusesPrefixes(parse: HeaderReader, output: Bytes, paths: seq<string>) {
    forall k :: 0 <= k < |output| ==> ParseFrom(parse, output[..k], paths, 0, map[]).Failure?
  }

  ghost predicate AllValid(blobs: seq<Blob>) {
    forall b :: b in blobs ==> ValidBlob(b)
  }

  lemma InvertsFraming(parse: HeaderReader, blobs: seq<Blob>, paths: seq<string>)
    requires |paths| == |blobs| && Readable(parse, blobs)
    ensures ParseFrom(parse, Stream(blobs), paths, 0, map[]) == Success(ContentsOf(paths, blobs, map[]))
    ensures RefusesPrefixes(parse, Stream(blobs), paths)
  {
    assert Stream(blobs) == [] + Stream(blobs) + [];
    ReadsBackStream(parse, Stream(blobs), [], blobs, [], paths, map[]);
    forall k | 0 <= k < |Stream(blobs)| ensures ParseFrom(parse, Stream(blobs)[..k], paths, 0, map[]).Failure? {
      assert Stream(blobs)[..k] == [] + Stream(blobs)[..k];
      RefusesProperPrefix(parse, Stream(blobs)[..k], [], blobs, k, paths, map[]);
    }
  }

  lemma HeadersReadable(blobs: seq<Blob>)
    requires AllValid(blobs)
    ensures Readable(ParseSize, blobs)
  {
    forall b | b in blobs ensures Announces(ParseSize, Header(b), |b.content|) {
      HeaderSize(b);
    }
  }

  /** The reader as called: it inverts the framing of any blobs, and refuses every proper prefix of the stream. */
  lemma ReaderInvertsFraming(blobs: seq<Blob>, paths: seq<string>)
    requires |paths| == |blobs| && AllValid(blobs)
    ensures ParseFrom(ParseSize, Stream(blobs), paths, 0, map[]) == Success(ContentsOf(paths, blobs, map[]))
    ensures RefusesPrefixes(ParseSize, Stream(blobs), paths)
  {
    HeadersReadable(blobs);
    InvertsFraming(ParseSize, blobs, paths);
  }

  /** With distinct paths, path i gets the content of blob i. */
  lemma {:induction false} ContentsByPath(paths: seq<string>, blobs: seq<Blob>, contents: map<string, Bytes>, p: string)
    requires |paths| == |blobs|
    requires forall i, k :: 0 <= i < k < |paths| ==> paths[i] != paths[k]
    ensures p !in paths ==> (p in ContentsOf(paths, blobs, contents) <==> p in contents)
    ensures p !in paths && p in contents ==> ContentsOf(paths, blobs, contents)[p] == contents[p]
    ensures forall i :: 0 <= i < |paths| && paths[i] == p ==>
      p in ContentsOf(paths, blobs, contents) && ContentsOf(paths, blobs, contents)[p] == blobs[i].content
    decreases |paths|
  {
    if paths != [] {
      ContentsByPath(paths[1..], blobs[1..], contents[paths[0] := blobs[0].content], p);
    }
  }
}
