/** The generated alias region of a config: what rewriting it changes, keeps, and settles on. */
module AliasRegion {
  import opened Outcomes

  // ---------- Finding text ----------

  predicate OccursAt(text: string, pattern: string, p: nat) {
    p + |pattern| <= |text| && forall i :: 0 <= i < |pattern| ==> text[p + i] == pattern[i]
  }

  ghost predicate Contains(text: string, pattern: string) {
    exists p: nat :: OccursAt(text, pattern, p)
  }

  /** The first occurrence at or after `from`, or -1. */
  function IndexOf(text: string, pattern: string, from: nat := 0): (r: int)
    ensures r == -1 || (from <= r && r + |pattern| <= |text|)
    decreases |text| - from
  {
    if from + |pattern| > |text| then -1
    else if OccursAt(text, pattern, from) then from
    else IndexOf(text, pattern, from + 1)
  }

  lemma {:induction false} IndexOfIsFirst(text: string, pattern: string, from: nat)
    ensures var r := IndexOf(text, pattern, from);
      && (r >= 0 ==> OccursAt(text, pattern, r))
      && forall p: nat :: from <= p && OccursAt(text, pattern, p) ==> 0 <= r <= p
    decreases |text| - from
  {
    if from + |pattern| <= |text| && !OccursAt(text, pattern, from) {
      IndexOfIsFirst(text, pattern, from + 1);
    }
  }

  /** Occurrences in a piece of a text are those of the text that fit in the piece. */
  lemma OccursInPiece(text: string, piece: string, at: nat, pattern: string, q: nat)
    requires OccursAt(text, piece, at) && at <= q && q + |pattern| <= at + |piece|
    ensures OccursAt(text, pattern, q) <==> OccursAt(piece, pattern, q - at)
  {
    forall j | q <= j < q + |pattern| ensures text[j] == piece[j - at] {
      assert text[at + (j - at)] == piece[j - at];
    }
  }

  /** A pattern first found in a shared prefix is found there in both texts. */
  lemma FoundInPrefix(text: string, other: string, pattern: string)
    requires IndexOf(text, pattern) >= 0 && OccursAt(other, text[..IndexOf(text, pattern) + |pattern|], 0)
    ensures IndexOf(other, pattern) == IndexOf(text, pattern)
  {
    var r := IndexOf(text, pattern);
    var prefix := text[..r + |pattern|];
    IndexOfIsFirst(text, pattern, 0);
    IndexOfIsFirst(other, pattern, 0);
    OccursInPiece(text, prefix, 0, pattern, r);
    OccursInPiece(other, prefix, 0, pattern, r);
    var r' := IndexOf(other, pattern);
    OccursInPiece(other, prefix, 0, pattern, r');
    OccursInPiece(text, prefix, 0, pattern, r');
  }

  // ---------- The region ----------

  datatype Markers = Markers(begin: string, end: string)

  /** The end marker is on one line and is not part of the begin marker. */
  ghost predicate Proper(m: Markers) {
    '\n' !in m.end && !Contains(m.begin, m.end)
  }

  datatype MissingMarkers = MissingMarkers

  /** The text with the region from the first begin marker to the first end marker replaced. */
  function WriteRegion(m: Markers, text: string, body: string): Result<string, MissingMarkers> {
    var begin := IndexOf(text, m.begin);
    var end := IndexOf(text, m.end);
    if begin < 0 || end < begin then Failure(MissingMarkers)
    else Success(text[..begin] + m.begin + "\n" + body + "\n" + m.end + text[end + |m.end|..])
  }

  ghost predicate FirstAt(text: string, pattern: string, p: nat) {
    OccursAt(text, pattern, p) && forall q: nat :: q < p ==> !OccursAt(text, pattern, q)
  }

  lemma FoundIff(text: string, pattern: string, p: nat)
    ensures IndexOf(text, pattern) == p <==> FirstAt(text, pattern, p)
  {
    IndexOfIsFirst(text, pattern, 0);
  }

  /** A text is rewritten exactly when the first begin marker does not come after the first end marker. */
  lemma RewrittenIffOrdered(m: Markers, text: string, body: string)
    ensures WriteRegion(m, text, body).Success? <==>
      exists begin: nat, end: nat :: begin <= end && FirstAt(text, m.begin, begin) && FirstAt(text, m.end, end)
  {
    if WriteRegion(m, text, body).Success? {
      FoundIff(text, m.begin, IndexOf(text, m.begin));
      FoundIff(text, m.end, IndexOf(text, m.end));
    }
    if begin: nat, end: nat :| begin <= end && FirstAt(text, m.begin, begin) && FirstAt(text, m.end, end) {
      FoundIff(text, m.begin, begin);
      FoundIff(text, m.end, end);
    }
  }

  /** The text without its region, as the scan for hand-written specifiers sees it. */
  function Outside(m: Markers, text: string): string {
    var begin := IndexOf(text, m.begin);
    var end := IndexOf(text, m.end);
    if begin < 0 || end < begin then text else text[..begin] + text[end..]
  }

  /** A text up to and with its begin marker, then a body, then the end marker and the rest. */
  function Assembled(head: string, body: string, end: string, tail: string): string {
    head + "\n" + body + "\n" + end + tail
  }

  ghost predicate Laid(n: string, head: string, body: string, end: string) {
    && |n| >= |head| + 1 + |body| + 1
    && OccursAt(n, head, 0) && n[|head|] == '\n'
    && OccursAt(n, body, |head| + 1) && n[|head| + 1 + |body|] == '\n'
    && OccursAt(n, end, |head| + 1 + |body| + 1)
  }

  lemma AssembledIsLaid(head: string, body: string, end: string, tail: string)
    ensures Laid(Assembled(head, body, end, tail), head, body, end)
  {
  }

  /** Before the end marker written after a body, the end marker occurs only inside the body. */
  lemma EarlierEndIsInBody(n: string, head: string, body: string, end: string, q: nat)
    requires Laid(n, head, body, end) && '\n' !in end && !Contains(head, end)
    requires OccursAt(n, end, q) && q < |head| + 1 + |body| + 1
    ensures q > |head| && OccursAt(body, end, q - |head| - 1)
  {
    var s := |head| + 1;
    if q + |end| <= |head| {
      OccursInPiece(n, head, 0, end, q);
      assert false;
    }
    NoNewlineAt(n, end, q, |head|);
    NoNewlineAt(n, end, q, s + |body|);
    OccursInPiece(n, body, s, end, q);
  }

  lemma NoNewlineAt(n: string, end: string, q: nat, k: nat)
    requires OccursAt(n, end, q) && '\n' !in end && k < |n| && n[k] == '\n'
    ensures k < q || k >= q + |end|
  {
    forall j | q <= j < q + |end| ensures n[j] != '\n' {
      assert n[q + (j - q)] == end[j - q];
    }
  }

  /** The end marker is found again where it was written exactly when the body holds none. */
  lemma EndFoundAgainIff(n: string, head: string, body: string, end: string)
    requires Laid(n, head, body, end) && '\n' !in end && !Contains(head, end)
    ensures var found, e := IndexOf(n, end), |head| + 1 + |body| + 1;
      if Contains(body, end) then |head| < found < e else found == e
  {
    IndexOfIsFirst(n, end, 0);
    var found := IndexOf(n, end);
    if found < |head| + 1 + |body| + 1 {
      EarlierEndIsInBody(n, head, body, end, found);
    }
    if p: nat :| OccursAt(body, end, p) {
      OccursInPiece(n, body, |head| + 1, end, |head| + 1 + p);
    }
  }

  /** The head of a text: everything up to and with its first begin marker. */
  function Head(m: Markers, text: string): string
    requires IndexOf(text, m.begin) >= 0
  {
    text[..IndexOf(text, m.begin) + |m.begin|]
  }

  /** A text with ordered markers has no end marker in its head. */
  lemma HeadHasNoEnd(m: Markers, text: string)
    requires Proper(m) && 0 <= IndexOf(text, m.begin) <= IndexOf(text, m.end)
    ensures !Contains(Head(m, text), m.end)
  {
    var b, head := IndexOf(text, m.begin), Head(m, text);
    IndexOfIsFirst(text, m.begin, 0);
    IndexOfIsFirst(text, m.end, 0);
    if q: nat :| OccursAt(head, m.end, q) {
      OccursInPiece(text, head, 0, m.end, q);
      OccursInPiece(text, m.begin, b, m.end, q);
      assert false;
    }
  }

  lemma SplitAtFirst(text: string, pattern: string)
    requires IndexOf(text, pattern) >= 0
    ensures var r := IndexOf(text, pattern);
      text[..r + |pattern|] == text[..r] + pattern && text[r..] == pattern + text[r + |pattern|..]
  {
    IndexOfIsFirst(text, pattern, 0);
  }

  /** A rewrite keeps the head, the end marker and what follows it. */
  lemma RewriteIsAssembled(m: Markers, text: string, body: string)
    requires WriteRegion(m, text, body).Success?
    ensures WriteRegion(m, text, body).value == Assembled(Head(m, text), body, m.end, text[IndexOf(text, m.end) + |m.end|..])
  {
    SplitAtFirst(text, m.begin);
  }

  lemma RewriteIsLaid(m: Markers, text: string, body: string)
    requires WriteRegion(m, text, body).Success?
    ensures Laid(WriteRegion(m, text, body).value, Head(m, text), body, m.end)
  {
    RewriteIsAssembled(m, text, body);
    AssembledIsLaid(Head(m, text), body, m.end, text[IndexOf(text, m.end) + |m.end|..]);
  }

  lemma BeginFoundAgain(m: Markers, text: string, n: string, body: string)
    requires IndexOf(text, m.begin) >= 0 && Laid(n, Head(m, text), body, m.end)
    ensures IndexOf(n, m.begin) == IndexOf(text, m.begin)
  {
    FoundInPrefix(text, n, m.begin);
  }

  /** Where the markers of a rewritten text are found. */
  lemma MarkersFoundAgain(m: Markers, text: string, body: string)
    requires Proper(m) && WriteRegion(m, text, body).Success?
    ensures var n, h := WriteRegion(m, text, body).value, |Head(m, text)|;
      && IndexOf(n, m.begin) == IndexOf(text, m.begin)
      && if Contains(body, m.end) then h < IndexOf(n, m.end) < h + 1 + |body| + 1 else IndexOf(n, m.end) == h + 1 + |body| + 1
  {
    RewriteIsLaid(m, text, body);
    HeadHasNoEnd(m, text);
    BeginFoundAgain(m, text, WriteRegion(m, text, body).value, body);
    EndFoundAgainIff(WriteRegion(m, text, body).value, Head(m, text), body, m.end);
  }

  /** The end marker found at `i` in an assembled text leaves its tail behind exactly when it is the written one. */
  lemma TailIff(head: string, body: string, end: string, tail: string, i: nat)
    requires i + |end| <= |Assembled(head, body, end, tail)|
    ensures Assembled(head, body, end, Assembled(head, body, end, tail)[i + |end|..]) == Assembled(head, body, end, tail)
      <==> i == |head| + 1 + |body| + 1
  {
    var n, e := Assembled(head, body, end, tail), |head| + 1 + |body| + 1;
    assert |Assembled(head, body, end, n[i + |end|..])| == e + |end| + |n| - i - |end|;
    assert n[e + |end|..] == tail;
  }

  /** Writing the same body again changes nothing exactly when the body holds no end marker. */
  lemma FixedPointIff(m: Markers, text: string, body: string)
    requires Proper(m) && WriteRegion(m, text, body).Success?
    ensures WriteRegion(m, WriteRegion(m, text, body).value, body) == WriteRegion(m, text, body) <==> !Contains(body, m.end)
  {
    var n := WriteRegion(m, text, body).value;
    RewriteIsAssembled(m, text, body);
    MarkersFoundAgain(m, text, body);
    RewriteIsAssembled(m, n, body);
    HeadFoundAgain(m, text, body);
    TailIff(Head(m, text), body, m.end, text[IndexOf(text, m.end) + |m.end|..], IndexOf(n, m.end));
  }

  lemma HeadFoundAgain(m: Markers, text: string, body: string)
    requires Proper(m) && WriteRegion(m, text, body).Success?
    ensures var n := WriteRegion(m, text, body).value;
      IndexOf(n, m.begin) == IndexOf(text, m.begin) && Head(m, n) == Head(m, text) == n[..|Head(m, text)|]
  {
    var n, head := WriteRegion(m, text, body).value, Head(m, text);
    MarkersFoundAgain(m, text, body);
    RewriteIsLaid(m, text, body);
    PrefixIs(n, head);
  }

  lemma PrefixIs(text: string, prefix: string)
    requires OccursAt(text, prefix, 0)
    ensures |prefix| <= |text| && text[..|prefix|] == prefix
  {
    assert forall i :: 0 <= i < |prefix| ==> text[0 + i] == prefix[i];
  }

  /** A rewritten text still has everything from the end marker on. */
  lemma RestIsKept(m: Markers, text: string, body: string)
    requires WriteRegion(m, text, body).Success?
    ensures var n, e := WriteRegion(m, text, body).value, |Head(m, text)| + 1 + |body| + 1;
      e <= |n| && n[e..] == text[IndexOf(text, m.end)..]
  {
    RewriteIsAssembled(m, text, body);
    SplitAtFirst(text, m.end);
    var tail := text[IndexOf(text, m.end) + |m.end|..];
    assert Assembled(Head(m, text), body, m.end, tail)[|Head(m, text)| + 1 + |body| + 1..] == m.end + tail;
  }

  /** What lies outside the region is untouched exactly when the body holds no end marker. */
  lemma OutsideKeptIff(m: Markers, text: string, body: string)
    requires Proper(m) && WriteRegion(m, text, body).Success?
    ensures Outside(m, WriteRegion(m, text, body).value) == Outside(m, text) <==> !Contains(body, m.end)
  {
    var n, head := WriteRegion(m, text, body).value, Head(m, text);
    MarkersFoundAgain(m, text, body);
    HeadFoundAgain(m, text, body);
    RestIsKept(m, text, body);
    OutsideOf(n, m, head, |head| + 1 + |body| + 1, text[IndexOf(text, m.end)..]);
    assert head[..IndexOf(text, m.begin)] == text[..IndexOf(text, m.begin)];
  }

  lemma OutsideOf(n: string, m: Markers, head: string, e: nat, rest: string)
    requires 0 <= IndexOf(n, m.begin) <= |head| && IndexOf(n, m.begin) <= IndexOf(n, m.end) <= e
    requires |head| <= e <= |n| && n[..|head|] == head && n[e..] == rest
    ensures Outside(m, n) == head[..IndexOf(n, m.begin)] + rest <==> IndexOf(n, m.end) == e
  {
    var b := IndexOf(n, m.begin);
    assert n[..b] == head[..b];
    assert |Outside(m, n)| == b + |n| - IndexOf(n, m.end);
    assert |head[..b] + rest| == b + |n| - e;
  }

  // ---------- Aliases ----------

  const PREFIX := "@deepseek-ai/dsh-"

  datatype WorkspacePackage = WorkspacePackage(group: string, directory: string, name: string)
  datatype PackageAlias = PackageAlias(specifier: string, source: string)
  datatype ClaimedTwice = ClaimedTwice(name: string)

  /** A directory name: not empty, and no separator in it. */
  predicate Component(s: string) {
    s != "" && '/' !in s
  }

  predicate Eligible(p: WorkspacePackage) {
    p.name == PREFIX + p.directory
  }

  function AliasOf(p: WorkspacePackage): PackageAlias {
    PackageAlias(p.name, "./packages/" + p.group + "/" + p.directory + "/src")
  }

  /** The alias maps the package named after its directory to the package's sources. */
  ghost predicate IsAliasOf(a: PackageAlias, p: WorkspacePackage) {
    && p.name == a.specifier == "@deepseek-ai/dsh-" + p.directory
    && a.source == "./packages/" + p.group + "/" + p.directory + "/src"
  }

  lemma AliasIsOf(p: WorkspacePackage, a: PackageAlias)
    ensures Eligible(p) && AliasOf(p) == a <==> IsAliasOf(a, p)
  {
  }

  /** No two aliases map one specifier. */
  predicate DistinctSpecifiers(aliases: seq<PackageAlias>) {
    forall i, k :: 0 <= i < k < |aliases| ==> aliases[i].specifier != aliases[k].specifier
  }

  ghost predicate Clash(packages: seq<WorkspacePackage>, i: int, k: int) {
    0 <= i < k < |packages| && Eligible(packages[i]) && Eligible(packages[k]) && packages[i].directory == packages[k].directory
  }

  lemma SameNameSameDirectory(p: WorkspacePackage, q: WorkspacePackage)
    requires Eligible(p) && Eligible(q) && p.name == q.name
    ensures p.directory == q.directory
  {
    assert p.directory == p.name[|PREFIX|..] && q.directory == q.name[|PREFIX|..];
  }

  /** One alias for each package named after its directory; refused exactly when two share a name. */
  method CollectPackageAliases(packages: seq<WorkspacePackage>) returns (r: Result<seq<PackageAlias>, ClaimedTwice>)
    ensures r.Failure? <==> exists i, k :: Clash(packages, i, k)
    ensures r.Success? ==> DistinctSpecifiers(r.value)
    ensures r.Success? ==> forall a :: a in r.value <==> exists p :: p in packages && Eligible(p) && AliasOf(p) == a
    ensures r.Success? ==> forall a :: a in r.value ==> exists p :: p in packages && IsAliasOf(a, p)
  {
    var bySpecifier: map<string, PackageAlias> := map[];
    var aliases: seq<PackageAlias> := [];
    for i := 0 to |packages|
      invariant forall j, k :: 0 <= j < k < i ==> !Clash(packages, j, k)
      invariant forall s :: s in bySpecifier <==> exists j :: 0 <= j < i && Eligible(packages[j]) && packages[j].name == s
      invariant forall s :: s in bySpecifier <==> exists a :: a in aliases && a.specifier == s
      invariant DistinctSpecifiers(aliases)
      invariant forall a :: a in aliases <==> exists j :: 0 <= j < i && Eligible(packages[j]) && AliasOf(packages[j]) == a
    {
      var p := packages[i];
      if !Eligible(p) {
        continue;
      }
      if p.name in bySpecifier {
        var j :| 0 <= j < i && Eligible(packages[j]) && packages[j].name == p.name;
        SameNameSameDirectory(packages[j], p);
        assert Clash(packages, j, i);
        return Failure(ClaimedTwice(p.name));
      }
      forall j | 0 <= j < i && Eligible(packages[j]) ensures !Clash(packages, j, i) && packages[j].name != p.name {
      }
      bySpecifier := bySpecifier[p.name := AliasOf(p)];
      aliases := aliases + [AliasOf(p)];
    }
    r := Success(aliases);
    forall p, a ensures Eligible(p) && AliasOf(p) == a <==> IsAliasOf(a, p) {
      AliasIsOf(p, a);
    }
  }

  // ---------- Rendering ----------

  function HexDigit(n: nat): char
    requires n < 16
  {
    "0123456789abcdef"[n]
  }

  /** A character inside a JSON string. */
  function Escape(c: char): string {
    if c == '"' then "\\\""
    else if c == '\\' then "\\\\"
    else if c == '\U{8}' then "\\b"
    else if c == '\t' then "\\t"
    else if c == '\n' then "\\n"
    else if c == '\U{C}' then "\\f"
    else if c == '\r' then "\\r"
    else if c < ' ' then ['\\', 'u', '0', '0', HexDigit(c as int / 16), HexDigit(c as int % 16)]
    else [c]
  }

  function Escaped(s: string): string {
    if s == "" then "" else Escape(s[0]) + Escaped(s[1..])
  }

  function Quote(s: string): string {
    "\"" + Escaped(s) + "\""
  }

  function Line(a: PackageAlias): string {
    "      " + Quote(a.specifier) + ": [" + Quote(a.source) + "]"
  }

  function Join(lines: seq<string>): string {
    if lines == [] then ""
    else if |lines| == 1 then lines[0]
    else Join(lines[..|lines| - 1]) + ",\n" + lines[|lines| - 1]
  }

  /** The aliases the region maps: those not mapped by hand. */
  function Generated(aliases: seq<PackageAlias>, handWritten: set<string>): seq<PackageAlias> {
    if aliases == [] then []
    else
      var before := Generated(aliases[..|aliases| - 1], handWritten);
      var last := aliases[|aliases| - 1];
      if last.specifier in handWritten then before else before + [last]
  }

  function Lines(aliases: seq<PackageAlias>): seq<string> {
    seq(|aliases|, i requires 0 <= i < |aliases| => Line(aliases[i]))
  }

  method RenderAliases(aliases: seq<PackageAlias>, handWritten: set<string>) returns (body: string)
    ensures body == Join(Lines(Generated(aliases, handWritten)))
  {
    var lines: seq<string> := [];
    for i := 0 to |aliases|
      invariant lines == Lines(Generated(aliases[..i], handWritten))
    {
      assert aliases[..i + 1][..i] == aliases[..i];
      if aliases[i].specifier !in handWritten {
        assert Lines(Generated(aliases[..i], handWritten) + [aliases[i]]) == lines + [Line(aliases[i])];
        lines := lines + [Line(aliases[i])];
      }
    }
    assert aliases[..|aliases|] == aliases;
    body := Join(lines);
  }

  /** Exactly the aliases not mapped by hand are generated, each specifier once. */
  lemma {:induction false} GeneratedAreTheOthers(aliases: seq<PackageAlias>, handWritten: set<string>)
    ensures forall a :: a in Generated(aliases, handWritten) <==> a in aliases && a.specifier !in handWritten
    ensures DistinctSpecifiers(aliases) ==> DistinctSpecifiers(Generated(aliases, handWritten))
  {
    if aliases != [] {
      var n := |aliases| - 1;
      GeneratedAreTheOthers(aliases[..n], handWritten);
      assert aliases == aliases[..n] + [aliases[n]];
      if DistinctSpecifiers(aliases) {
        forall a | a in aliases[..n] ensures a.specifier != aliases[n].specifier {
          var j :| 0 <= j < n && aliases[j] == a;
        }
      }
    }
  }

  // ---------- No end marker in a rendered body ----------

  ghost predicate DoubleSlash(s: string) {
    exists i: nat :: i + 1 < |s| && s[i] == '/' == s[i + 1]
  }

  lemma JoinsWithoutDoubleSlash(a: string, b: string)
    requires !DoubleSlash(a) && !DoubleSlash(b)
    requires a == "" || b == "" || a[|a| - 1] != '/' || b[0] != '/'
    ensures !DoubleSlash(a + b)
  {
    forall i: nat | i + 1 < |a + b| ensures !((a + b)[i] == '/' == (a + b)[i + 1]) {
      if i >= |a| {
        assert (a + b)[i] == b[i - |a|] && (a + b)[i + 1] == b[i - |a| + 1];
      } else if i + 1 < |a| {
        assert (a + b)[i] == a[i] && (a + b)[i + 1] == a[i + 1];
      }
    }
  }

  lemma EscapeKeepsSlashes(c: char)
    ensures Escape(c) != "" && !DoubleSlash(Escape(c))
    ensures c == '/' ==> Escape(c) == "/"
    ensures c != '/' ==> '/' !in Escape(c)
  {
  }

  lemma {:induction false} EscapedHasNoDoubleSlash(s: string)
    requires !DoubleSlash(s)
    ensures !DoubleSlash(Escaped(s)) && (s != "" && s[0] != '/' ==> Escaped(s) != "" && Escaped(s)[0] != '/')
  {
    if s != "" {
      forall i: nat | i + 1 < |s[1..]| ensures !(s[1..][i] == '/' == s[1..][i + 1]) {
        assert s[1..][i] == s[i + 1] && s[1..][i + 1] == s[i + 1 + 1];
      }
      EscapedHasNoDoubleSlash(s[1..]);
      EscapeKeepsSlashes(s[0]);
      if |s| > 1 && s[0] == '/' {
        assert s[0 + 1] != '/';
        assert s[1..][0] == s[1];
      }
      JoinsWithoutDoubleSlash(Escape(s[0]), Escaped(s[1..]));
    }
  }

  lemma QuoteHasNoDoubleSlash(s: string)
    requires !DoubleSlash(s)
    ensures !DoubleSlash(Quote(s))
  {
    EscapedHasNoDoubleSlash(s);
    JoinsWithoutDoubleSlash("\"", Escaped(s));
    JoinsWithoutDoubleSlash("\"" + Escaped(s), "\"");
  }

  /** What the collector makes of packages in directories. */
  ghost predicate Collected(a: PackageAlias) {
    exists p :: Eligible(p) && Component(p.group) && Component(p.directory) && a == AliasOf(p)
  }

  lemma LineHasNoDoubleSlash(a: PackageAlias)
    requires Collected(a)
    ensures !DoubleSlash(Line(a)) && Line(a)[0] == ' '
  {
    var p :| Eligible(p) && Component(p.group) && Component(p.directory) && a == AliasOf(p);
    JoinsWithoutDoubleSlash(PREFIX, p.directory);
    JoinsWithoutDoubleSlash("./packages/", p.group);
    JoinsWithoutDoubleSlash("./packages/" + p.group, "/");
    JoinsWithoutDoubleSlash("./packages/" + p.group + "/", p.directory);
    JoinsWithoutDoubleSlash("./packages/" + p.group + "/" + p.directory, "/src");
    QuoteHasNoDoubleSlash(a.specifier);
    QuoteHasNoDoubleSlash(a.source);
    JoinsWithoutDoubleSlash("      ", Quote(a.specifier));
    JoinsWithoutDoubleSlash("      " + Quote(a.specifier), ": [");
    JoinsWithoutDoubleSlash("      " + Quote(a.specifier) + ": [", Quote(a.source));
    JoinsWithoutDoubleSlash("      " + Quote(a.specifier) + ": [" + Quote(a.source), "]");
  }

  lemma {:induction false} BodyHasNoDoubleSlash(aliases: seq<PackageAlias>)
    requires forall a :: a in aliases ==> Collected(a)
    ensures !DoubleSlash(Join(Lines(aliases)))
  {
    if aliases != [] {
      var n := |aliases| - 1;
      LineHasNoDoubleSlash(aliases[n]);
      if n > 0 {
        BodyHasNoDoubleSlash(aliases[..n]);
        assert Lines(aliases)[..n] == Lines(aliases[..n]);
        JoinsWithoutDoubleSlash(Join(Lines(aliases[..n])), ",\n");
        JoinsWithoutDoubleSlash(Join(Lines(aliases[..n])) + ",\n", Line(aliases[n]));
      }
    }
  }

  // ---------- Regenerating ----------

  const HEADING := " generated package aliases"
  const COMMAND := " \U{2014} pnpm run gen-tsconfig-paths"
  const BEGIN := "      // BEGIN" + (HEADING + COMMAND)
  const END := "      // END" + HEADING

  /** `BEGIN` holds its capital E where no `END` comment has one. */
  lemma NoEndInBegin(rest: string, heading: string, p: nat)
    requires 'E' !in rest
    ensures !OccursAt("      // BEGIN" + rest, "      // END" + heading, p)
  {
    var first, end := "      // BEGIN", "      // END" + heading;
    var begin := first + rest;
    assert end[7] == '/' && end[9] == 'E';
    forall k | |first| <= k < |begin| ensures begin[k] != 'E' {
      assert begin[k] == rest[k - |first|];
    }
    if p + |end| <= |begin| && begin[p + 9] == end[9] {
      assert begin[p + 7] == first[p + 7] != end[7];
    }
  }

  lemma CommentsAreProper(heading: string, command: string)
    requires 'E' !in heading && 'E' !in command && '\n' !in heading
    ensures Proper(Markers("      // BEGIN" + (heading + command), "      // END" + heading)) && DoubleSlash("      // END" + heading)
  {
    forall p: nat ensures !OccursAt("      // BEGIN" + (heading + command), "      // END" + heading, p) {
      NoEndInBegin(heading + command, heading, p);
    }
    var end := "      // END" + heading;
    assert end[6] == '/' == end[6 + 1];
  }

  lemma MarkersAreProper()
    ensures Proper(Markers(BEGIN, END)) && DoubleSlash(END)
  {
    CommentsAreProper(HEADING, COMMAND);
  }

  /** One run of the generator, with `scan` reading the specifiers mapped in a text. */
  function Regenerated(m: Markers, text: string, aliases: seq<PackageAlias>, scan: string -> set<string>): Result<string, MissingMarkers> {
    WriteRegion(m, text, Join(Lines(Generated(aliases, scan(Outside(m, text))))))
  }

  lemma NoEndWithoutDoubleSlash(body: string, end: string)
    requires !DoubleSlash(body) && DoubleSlash(end)
    ensures !Contains(body, end)
  {
    var i: nat :| i + 1 < |end| && end[i] == '/' == end[i + 1];
    forall p: nat ensures !OccursAt(body, end, p) {
      if p + |end| <= |body| {
        assert !(body[p + i] == '/' == body[p + i + 1]);
        assert body[p + (i + 1)] == body[p + i + 1];
      }
    }
  }

  /** Regenerating with any proper markers whose end marker holds a comment opener. */
  lemma RegeneratingSettles(m: Markers, text: string, aliases: seq<PackageAlias>, scan: string -> set<string>)
    requires Proper(m) && DoubleSlash(m.end)
    requires forall a :: a in aliases ==> Collected(a)
    requires Regenerated(m, text, aliases, scan).Success?
    ensures var next := Regenerated(m, text, aliases, scan).value;
      && Outside(m, next) == Outside(m, text)
      && Regenerated(m, next, aliases, scan) == Success(next)
      && forall a :: a in Generated(aliases, scan(Outside(m, text))) ==> a.specifier !in scan(Outside(m, next))
  {
    var generated := Generated(aliases, scan(Outside(m, text)));
    GeneratedAreTheOthers(aliases, scan(Outside(m, text)));
    BodyHasNoDoubleSlash(generated);
    NoEndWithoutDoubleSlash(Join(Lines(generated)), m.end);
    FixedPointIff(m, text, Join(Lines(generated)));
    OutsideKeptIff(m, text, Join(Lines(generated)));
  }

  /**
   For every text with ordered markers: regenerating leaves what is outside untouched, so the hand-written specifiers
   are the same after it, no generated key is one of them, and a second run changes nothing.
   */
  lemma RegeneratingIsAFixedPoint(text: string, aliases: seq<PackageAlias>, scan: string -> set<string>)
    requires forall a :: a in aliases ==> Collected(a)
    requires Regenerated(Markers(BEGIN, END), text, aliases, scan).Success?
    ensures var m := Markers(BEGIN, END);
      var next := Regenerated(m, text, aliases, scan).value;
      && Outside(m, next) == Outside(m, text)
      && Regenerated(m, next, aliases, scan) == Success(next)
      && forall a :: a in Generated(aliases, scan(Outside(m, text))) ==> a.specifier !in scan(Outside(m, next))
  {
    MarkersAreProper();
    RegeneratingSettles(Markers(BEGIN, END), text, aliases, scan);
  }
}
