/**
 Reading the generated region back as JSON members (string syntax of section 7 of RFC 8259): what was rendered is what
 is read, every alias under its own specifier and with its own source.
 */
module AliasReading {
  import opened Outcomes
  import opened AliasRegion

  datatype Read<T> = Read(value: T, rest: string)

  // ---------- Reading ----------

  function HexValue(c: char): Option<nat> {
    if '0' <= c <= '9' then Some(c as int - '0' as int)
    else if 'a' <= c <= 'f' then Some(10 + c as int - 'a' as int)
    else if 'A' <= c <= 'F' then Some(10 + c as int - 'A' as int)
    else None
  }

  /** The code point that four hexadecimal digits stand for; surrogates stand for none. */
  function ReadHex(s: string): Option<Read<char>> {
    if |s| < 4 || exists i :: 0 <= i < 4 && HexValue(s[i]).None? then None
    else
      var code := 4096 * HexValue(s[0]).value + 256 * HexValue(s[1]).value + 16 * HexValue(s[2]).value + HexValue(s[3]).value;
      if 0xD800 <= code then None else Some(Read(code as char, s[4..]))
  }

  /** The character after a reverse solidus. */
  function ReadEscape(s: string): Option<Read<char>> {
    if s == "" then None
    else match s[0]
      case '"' => Some(Read('"', s[1..]))
      case '\\' => Some(Read('\\', s[1..]))
      case '/' => Some(Read('/', s[1..]))
      case 'b' => Some(Read('\U{8}', s[1..]))
      case 'f' => Some(Read('\U{C}', s[1..]))
      case 'n' => Some(Read('\n', s[1..]))
      case 'r' => Some(Read('\r', s[1..]))
      case 't' => Some(Read('\t', s[1..]))
      case 'u' => ReadHex(s[1..])
      case _ => None
  }

  /** One character inside a string. */
  function ReadChar(s: string): (r: Option<Read<char>>)
    ensures r.Some? ==> |r.value.rest| < |s|
  {
    if s == "" || s[0] == '"' || s[0] < ' ' then None
    else if s[0] == '\\' then ReadEscape(s[1..])
    else Some(Read(s[0], s[1..]))
  }

  /** The rest of a string, with its closing quotation mark. */
  function ReadChars(s: string): Option<Read<string>>
    decreases |s|
  {
    if s != "" && s[0] == '"' then Some(Read("", s[1..]))
    else
      var first := ReadChar(s);
      if first.None? then None
      else
        var others := ReadChars(first.value.rest);
        if others.None? then None else Some(Read([first.value.value] + others.value.value, others.value.rest))
  }

  function ReadString(s: string): Option<Read<string>> {
    if s == "" || s[0] != '"' then None else ReadChars(s[1..])
  }

  function Skip(s: string, token: string): Option<string> {
    if token <= s then Some(s[|token|..]) else None
  }

  /** A member whose value is a list of one string. */
  function ReadMember(s: string): (r: Option<Read<PackageAlias>>)
  {
    var start := Skip(s, "      ");
    var key := if start.Some? then ReadString(start.value) else None;
    var list := if key.Some? then Skip(key.value.rest, ": [") else None;
    var value := if list.Some? then ReadString(list.value) else None;
    var end := if value.Some? then Skip(value.value.rest, "]") else None;
    if end.None? then None else Some(Read(PackageAlias(key.value.value, value.value.value), end.value))
  }

  /** Members on lines of their own, all but the last with a comma. */
  function ReadMembers(s: string, count: nat): Option<Read<seq<PackageAlias>>> {
    if count == 0 then Some(Read([], s))
    else
      var before := ReadMembers(s, count - 1);
      var start := if before.None? then None else if count == 1 then Some(before.value.rest) else Skip(before.value.rest, ",\n");
      var last := if start.Some? then ReadMember(start.value) else None;
      if last.None? then None else Some(Read(before.value.value + [last.value.value], last.value.rest))
  }

  // ---------- What is rendered is read ----------

  lemma HexDigitReads(n: nat)
    requires n < 16
    ensures HexValue(HexDigit(n)) == Some(n)
  {
  }

  lemma HexReads(n: nat, rest: string)
    requires n < 32
    ensures ReadHex(['0', '0', HexDigit(n / 16), HexDigit(n % 16)] + rest) == Some(Read(n as char, rest))
  {
    var s := ['0', '0', HexDigit(n / 16), HexDigit(n % 16)] + rest;
    HexDigitReads(n / 16);
    HexDigitReads(n % 16);
    assert s[0] == '0' && s[1] == '0' && s[2] == HexDigit(n / 16) && s[3] == HexDigit(n % 16) && s[4..] == rest;
  }

  lemma EscapeReads(c: char, rest: string)
    ensures ReadChar(Escape(c) + rest) == Some(Read(c, rest))
    ensures (Escape(c) + rest)[0] != '"'
  {
    var s := Escape(c) + rest;
    if |Escape(c)| == 1 {
      assert s[0] == c && s[1..] == rest;
    } else if |Escape(c)| == 2 {
      assert s[0] == '\\' && s[1..][0] == Escape(c)[1] && s[1..][1..] == rest;
    } else {
      HexReads(c as int, rest);
      assert s[0] == '\\' && s[1..][0] == 'u';
      assert s[1..][1..] == ['0', '0', HexDigit(c as int / 16), HexDigit(c as int % 16)] + rest;
    }
  }

  lemma {:induction false} EscapedReads(s: string, rest: string)
    ensures ReadChars(Escaped(s) + ("\"" + rest)) == Some(Read(s, rest))
  {
    if s == "" {
      assert Escaped(s) + ("\"" + rest) == "\"" + rest;
      assert ("\"" + rest)[1..] == rest;
    } else {
      EscapedReads(s[1..], rest);
      var tail := Escaped(s[1..]) + ("\"" + rest);
      EscapeReads(s[0], tail);
      ReadsOn(Escape(s[0]) + tail, s[0], tail, s[1..], rest);
      Grouped(Escape(s[0]), Escaped(s[1..]), "\"" + rest);
      assert s == [s[0]] + s[1..];
    }
  }

  lemma Grouped(a: string, b: string, c: string)
    ensures (a + b) + c == a + (b + c)
  {
  }

  lemma ReadsOn(s: string, first: char, tail: string, others: string, rest: string)
    requires s != "" && s[0] != '"' && ReadChar(s) == Some(Read(first, tail)) && ReadChars(tail) == Some(Read(others, rest))
    ensures ReadChars(s) == Some(Read([first] + others, rest))
  {
  }

  lemma QuoteReads(s: string, rest: string)
    ensures ReadString(Quote(s) + rest) == Some(Read(s, rest))
  {
    EscapedReads(s, rest);
    Quoted(Escaped(s), rest);
  }

  lemma Quoted(inner: string, rest: string)
    ensures var s := "\"" + inner + "\"" + rest; s != "" && s[0] == '"' && s[1..] == inner + ("\"" + rest)
  {
  }

  lemma Skips(token: string, rest: string)
    ensures Skip(token + rest, token) == Some(rest)
  {
    assert (token + rest)[|token|..] == rest;
  }

  /** A rendered line reads back to its specifier and its source. */
  lemma LineReads(a: PackageAlias, rest: string)
    ensures ReadMember(Line(a) + rest) == Some(Read(a, rest))
  {
    var end := "]" + rest;
    var list := Quote(a.source) + end;
    var middle := ": [" + list;
    var key := Quote(a.specifier) + middle;
    Pieces("      ", Quote(a.specifier), ": [", Quote(a.source), "]", rest);
    Skips("      ", key);
    QuoteReads(a.specifier, middle);
    Skips(": [", list);
    QuoteReads(a.source, end);
    Skips("]", rest);
    ReadInTurn("      " + key, a, key, middle, list, end, rest);
  }

  lemma Pieces(a: string, b: string, c: string, d: string, e: string, rest: string)
    ensures a + b + c + d + e + rest == a + (b + (c + (d + (e + rest))))
  {
  }

  lemma ReadInTurn(s: string, a: PackageAlias, key: string, middle: string, list: string, end: string, rest: string)
    requires Skip(s, "      ") == Some(key) && ReadString(key) == Some(Read(a.specifier, middle))
    requires Skip(middle, ": [") == Some(list) && ReadString(list) == Some(Read(a.source, end))
    requires Skip(end, "]") == Some(rest)
    ensures ReadMember(s) == Some(Read(a, rest))
  {
  }

  /** A rendered body reads back to its aliases, in order, with nothing left over. */
  lemma {:induction false} BodyReads(aliases: seq<PackageAlias>, rest: string)
    ensures ReadMembers(Join(Lines(aliases)) + rest, |aliases|) == Some(Read(aliases, rest))
  {
    if aliases == [] {
      assert Join(Lines(aliases)) + rest == rest;
    } else {
      var n := |aliases| - 1;
      var front, last := aliases[..n], aliases[n];
      var tail := Line(last) + rest;
      assert aliases == front + [last];
      LineReads(last, rest);
      LastLine(aliases, rest);
      BodyReads(front, if n == 0 then tail else ",\n" + tail);
      Skips(",\n", tail);
    }
  }

  lemma LastLine(aliases: seq<PackageAlias>, rest: string)
    requires aliases != []
    ensures var front, tail := aliases[..|aliases| - 1], Line(aliases[|aliases| - 1]) + rest;
      Join(Lines(aliases)) + rest == Join(Lines(front)) + if |aliases| == 1 then tail else ",\n" + tail
  {
    var n := |aliases| - 1;
    assert Lines(aliases)[..n] == Lines(aliases[..n]);
    if n > 0 {
      Reassociate(Join(Lines(aliases[..n])), ",\n", Line(aliases[n]), rest);
    } else {
      assert "" + (Line(aliases[0]) + rest) == Line(aliases[0]) + rest;
    }
  }

  lemma Reassociate(a: string, b: string, c: string, d: string)
    ensures a + b + c + d == a + (b + (c + d))
  {
  }

  // ---------- The region of a regenerated text ----------

  /** What stands between the first begin marker and the first end marker. */
  function Region(m: Markers, text: string): Option<string> {
    var begin, end := IndexOf(text, m.begin), IndexOf(text, m.end);
    if 0 <= begin && begin + |m.begin| <= end then Some(text[begin + |m.begin|..end]) else None
  }

  lemma RegionOf(m: Markers, text: string, body: string)
    requires Proper(m) && WriteRegion(m, text, body).Success? && !Contains(body, m.end)
    ensures Region(m, WriteRegion(m, text, body).value) == Some("\n" + body + "\n")
  {
    MarkersFoundAgain(m, text, body);
    RewriteIsAssembled(m, text, body);
    RegionFrom(m, WriteRegion(m, text, body).value, Head(m, text), body, text[IndexOf(text, m.end) + |m.end|..]);
  }

  lemma RegionFrom(m: Markers, n: string, head: string, body: string, tail: string)
    requires n == Assembled(head, body, m.end, tail)
    requires IndexOf(n, m.begin) >= 0 && IndexOf(n, m.begin) + |m.begin| == |head|
    requires IndexOf(n, m.end) == |head| + 1 + |body| + 1
    ensures Region(m, n) == Some("\n" + body + "\n")
  {
    Between(head, body, m.end, tail);
    RegionAt(m, n, |head|, |head| + 1 + |body| + 1);
  }

  lemma RegionAt(m: Markers, n: string, start: nat, end: nat)
    requires IndexOf(n, m.begin) >= 0 && start == IndexOf(n, m.begin) + |m.begin| <= IndexOf(n, m.end) == end
    ensures Region(m, n) == Some(n[start..end])
  {
  }

  lemma Between(head: string, body: string, end: string, tail: string)
    ensures |head| + 1 + |body| + 1 <= |Assembled(head, body, end, tail)|
    ensures Assembled(head, body, end, tail)[|head|..|head| + 1 + |body| + 1] == "\n" + body + "\n"
  {
  }

  /**
   Round trip: after a run the region of the text reads back, member by member, to exactly the aliases that are not
   mapped by hand outside it.
   */
  lemma RegionReadsBack(text: string, aliases: seq<PackageAlias>, scan: string -> set<string>)
    requires forall a :: a in aliases ==> Collected(a)
    requires Regenerated(Markers(BEGIN, END), text, aliases, scan).Success?
    ensures var m := Markers(BEGIN, END);
      ReadsBack(Region(m, Regenerated(m, text, aliases, scan).value), Generated(aliases, scan(Outside(m, text))))
  {
    MarkersAreProper();
    RegionReads(Markers(BEGIN, END), text, aliases, scan);
  }

  /** The region holds a line break, and then the members and nothing else up to a last line break. */
  ghost predicate ReadsBack(region: Option<string>, aliases: seq<PackageAlias>) {
    && region.Some? && region.value != "" && region.value[0] == '\n'
    && ReadMembers(region.value[1..], |aliases|) == Some(Read(aliases, "\n"))
  }

  lemma RegionReads(m: Markers, text: string, aliases: seq<PackageAlias>, scan: string -> set<string>)
    requires Proper(m) && DoubleSlash(m.end)
    requires forall a :: a in aliases ==> Collected(a)
    requires Regenerated(m, text, aliases, scan).Success?
    ensures ReadsBack(Region(m, Regenerated(m, text, aliases, scan).value), Generated(aliases, scan(Outside(m, text))))
  {
    var generated := Generated(aliases, scan(Outside(m, text)));
    var body := Join(Lines(generated));
    GeneratedAreTheOthers(aliases, scan(Outside(m, text)));
    BodyHasNoDoubleSlash(generated);
    NoEndWithoutDoubleSlash(body, m.end);
    RegionOf(m, text, body);
    BodyReads(generated, "\n");
    AfterBreak(body);
  }

  lemma AfterBreak(body: string)
    ensures ("\n" + body + "\n")[0] == '\n' && ("\n" + body + "\n")[1..] == body + "\n"
  {
  }
}
