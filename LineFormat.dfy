/**
 * The two text formats of daili2/proxy_manager.py:
 *  - the `ip:port` lines of the plain-text proxy lists that several source
 *    adapters download (`if ':' in proxy: ip, port = proxy.split(':');
 *    port = int(port)`, failures skipped);
 *  - the `ip:port [kind]` lines written by the list export and read back by
 *    the list import.
 */
module LineFormat {
  import opened Wrappers
  import opened Text
  import opened Proxy

  // ---------------------------------------------------------------------
  // Plain-text proxy lists
  // ---------------------------------------------------------------------

  /** The `ip:port` text of a pair, as the text-list sources serve it. */
  function FormatPair(p: Pair): string {
    p.ip + ":" + IntToString(p.port)
  }

  /**
   * One line of a text list: it needs a ':', must split on ':' into exactly
   * two pieces (otherwise the tuple unpacking raises), and the second piece
   * must be read by int(). `None` is a skipped line.
   */
  function ParsePair(line: string): (r: Option<Pair>)
    ensures r.Some? ==>
      && ':' !in r.value.ip
      && |r.value.ip| < |line| && line[..|r.value.ip|] == r.value.ip && line[|r.value.ip|] == ':'
      && ':' !in line[|r.value.ip| + 1..]
      && ParseInt(line[|r.value.ip| + 1..]) == Some(r.value.port)
  {
    if ':' !in line then None
    else
      var parts := Split(line, ":");
      if |parts| != 2 then None
      else
        match ParseInt(parts[1])
        case None => None
        case Some(port) =>
          SplitTwo(line, ':');
          Some(Pair(parts[0], port))
  }

  /** A line that splits into two pieces on `c` is the first piece, `c`, the second. */
  lemma SplitTwo(s: string, c: char)
    requires |Split(s, [c])| == 2
    ensures var parts := Split(s, [c]);
      s == parts[0] + [c] + parts[1] && c !in parts[0] && c !in parts[1]
  {
    var parts := Split(s, [c]);
    JoinSplit(s, [c]);
    SplitChar(s, c);
    assert parts[0] in parts && parts[1] in parts;
    assert parts[1..] == [parts[1]];
  }

  /** Conversely, `ip:rest` with a single ':' and a number after it is accepted. */
  lemma ParsePairAccepts(ip: string, rest: string, port: int)
    requires ':' !in ip && ':' !in rest && ParseInt(rest) == Some(port)
    ensures ParsePair(ip + ":" + rest) == Some(Pair(ip, port))
  {
    var line := ip + ":" + rest;
    assert line[|ip|] == ':';
    SplitAfter(ip, ':', rest);
    SplitAbsent(rest, ':');
    assert line == ip + [':'] + rest;
  }

  /** What FormatPair writes, ParsePair reads back. */
  lemma ParseFormatPair(p: Pair)
    requires ':' !in p.ip
    ensures ParsePair(FormatPair(p)) == Some(p)
  {
    var digits := IntToString(p.port);
    assert forall k :: 0 <= k < |digits| ==> digits[k] != ':';
    ParseIntToString(p.port);
    ParsePairAccepts(p.ip, digits, p.port);
  }

  /** The pairs of the lines that parse, in order; every other line is skipped. */
  function ParsePairs(lines: seq<string>): (r: seq<Pair>)
    ensures |r| <= |lines|
    decreases |lines|
  {
    if lines == [] then []
    else
      var init := ParsePairs(lines[..|lines| - 1]);
      match ParsePair(lines[|lines| - 1])
      case None => init
      case Some(p) => init + [p]
  }

  /** A malformed line never aborts the lines around it: parsing distributes over concatenation. */
  lemma {:induction false} ParsePairsAppend(a: seq<string>, b: seq<string>)
    ensures ParsePairs(a + b) == ParsePairs(a) + ParsePairs(b)
    decreases |b|
  {
    if b == [] {
      assert a + b == a;
    } else {
      assert (a + b)[..|a + b| - 1] == a + b[..|b| - 1];
      assert (a + b)[|a + b| - 1] == b[|b| - 1];
      ParsePairsAppend(a, b[..|b| - 1]);
    }
  }

  /**
   * A whole downloaded list (`response.text.strip().split(sep)`), `sep`
   * being "\r\n" or "\n" depending on the source.
   */
  function TextList(text: string, sep: string): seq<Pair>
    requires sep != []
  {
    ParsePairs(Split(Strip(text), sep))
  }

  /** The lines of a served text list, one per pair. */
  function FormatPairs(ps: seq<Pair>): (r: seq<string>)
    ensures |r| == |ps| && forall i :: 0 <= i < |ps| ==> r[i] == FormatPair(ps[i])
  {
    seq(|ps|, i requires 0 <= i < |ps| => FormatPair(ps[i]))
  }

  /** The line breaks the text-list adapters split on: "\r\n" (proxyscrape) and "\n" (the others). */
  predicate LineBreak(sep: string) {
    sep == "\n" || sep == "\r\n"
  }

  /** Pairs whose text lines survive a list separated by `sep` intact. */
  predicate ListSafe(ps: seq<Pair>, sep: string) {
    && sep != []
    && (forall i :: 0 <= i < |ps| ==> ':' !in ps[i].ip && sep[0] !in ps[i].ip)
    && (|ps| > 0 && ps[0].ip != [] ==> !IsSpace(ps[0].ip[0]))
  }

  lemma {:induction false} ParseFormatPairs(ps: seq<Pair>)
    requires forall i :: 0 <= i < |ps| ==> ':' !in ps[i].ip
    ensures ParsePairs(FormatPairs(ps)) == ps
    decreases |ps|
  {
    if ps != [] {
      var init, last := ps[..|ps| - 1], ps[|ps| - 1];
      assert ps == init + [last];
      var lines := FormatPairs(ps);
      ParseFormatPairs(init);
      assert lines[..|lines| - 1] == FormatPairs(init);
      ParseFormatPair(last);
    }
  }

  lemma JoinFirst(lines: seq<string>, sep: string)
    requires |lines| >= 1 && lines[0] != []
    ensures |Join(lines, sep)| > 0 && Join(lines, sep)[0] == lines[0][0]
  {
  }

  lemma {:induction false} JoinLast(lines: seq<string>, sep: string)
    requires |lines| >= 1 && lines[|lines| - 1] != []
    ensures var j := Join(lines, sep); |j| > 0 && j[|j| - 1] == lines[|lines| - 1][|lines[|lines| - 1]| - 1]
    decreases |lines|
  {
    if |lines| > 1 {
      JoinLast(lines[1..], sep);
    }
  }

  /** The text of a pair whose ip holds no line-break character has none either. */
  lemma FormatPairLine(p: Pair, c: char)
    requires (c == '\n' || c == '\r') && c !in p.ip
    ensures FormatPair(p) != [] && c !in FormatPair(p)
  {
    var d := IntToString(p.port);
    assert forall k :: 0 <= k < |d| ==> d[k] != c;
  }

  /** The text of a pair starts with its ip, or with the ':' when the ip is empty. */
  lemma FormatPairStart(p: Pair)
    requires p.ip != [] ==> !IsSpace(p.ip[0])
    ensures var line := FormatPair(p); line != [] && !IsSpace(line[0])
  {
    var line := FormatPair(p);
    assert line[0] == if p.ip == [] then ':' else p.ip[0];
  }

  /** The text of a pair ends in the last digit of its port. */
  lemma FormatPairEnd(p: Pair)
    ensures var line := FormatPair(p); line != [] && !IsSpace(line[|line| - 1])
  {
    var d := IntToString(p.port);
    var line := FormatPair(p);
    assert line[|line| - 1] == d[|d| - 1];
  }

  /** The lines of pairs without a line-break character are non-empty and free of it. */
  lemma FormatPairsLines(ps: seq<Pair>, c: char)
    requires (c == '\n' || c == '\r') && forall i :: 0 <= i < |ps| ==> c !in ps[i].ip
    ensures forall p :: p in FormatPairs(ps) ==> c !in p && p != []
  {
    var lines := FormatPairs(ps);
    forall i | 0 <= i < |lines| ensures c !in lines[i] && lines[i] != [] {
      FormatPairLine(ps[i], c);
    }
  }

  /** Lines that start and end with non-whitespace join to a trimmed text. */
  lemma JoinTrimmed(lines: seq<string>, sep: string)
    requires |lines| >= 1 && lines[0] != [] && lines[|lines| - 1] != []
    requires !IsSpace(lines[0][0]) && !IsSpace(lines[|lines| - 1][|lines[|lines| - 1]| - 1])
    ensures Trimmed(Join(lines, sep))
  {
    JoinFirst(lines, sep);
    JoinLast(lines, sep);
  }

  /** Joined, the lines of safe pairs have no whitespace at either end. */
  lemma FormatPairsTrimmed(ps: seq<Pair>, sep: string)
    requires ListSafe(ps, sep) && ps != []
    ensures Trimmed(Join(FormatPairs(ps), sep))
  {
    FormatPairStart(ps[0]);
    FormatPairEnd(ps[|ps| - 1]);
    JoinTrimmed(FormatPairs(ps), sep);
  }

  /**
   * A list of `ip:port` lines separated by "\r\n" or by "\n" reads back,
   * split on the same line break, as the pairs it was made from.
   */
  lemma TextListRoundTrip(ps: seq<Pair>, sep: string)
    requires LineBreak(sep) && ListSafe(ps, sep)
    ensures TextList(Join(FormatPairs(ps), sep), sep) == ps
  {
    var lines := FormatPairs(ps);
    if ps == [] {
      assert Join(lines, sep) == "";
      StripTrimmed("");
      SplitAbsentLead("", sep);
      assert ParsePairs([""]) == ParsePairs([]) by {
        assert [""][..0] == [];
      }
    } else {
      FormatPairsLines(ps, sep[0]);
      FormatPairsTrimmed(ps, sep);
      StripTrimmed(Join(lines, sep));
      SplitJoin(lines, sep);
      ParseFormatPairs(ps);
    }
  }

  // ---------------------------------------------------------------------
  // The `ip:port [kind]` export / import format
  // ---------------------------------------------------------------------

  /** `f"{ip}:{port} [{proxy_type}]"`, one line of an exported file. */
  function ExportLine(c: Candidate): string {
    c.ip + ":" + IntToString(c.port) + " [" + c.kind + "]"
  }

  /** The lines of an exported file, one per entry. */
  function ExportLines(list: seq<Candidate>): (r: seq<string>)
    ensures |r| == |list| && forall i :: 0 <= i < |list| ==> r[i] == ExportLine(list[i])
  {
    seq(|list|, i requires 0 <= i < |list| => ExportLine(list[i]))
  }

  /** What one imported line amounts to. */
  datatype ImportLine =
    | Blank                  // empty once stripped: skipped without a message
    | Malformed              // raised inside the per-line try: logged and skipped
    | Entry(c: Candidate)

  /**
   * The address part and the kind of a stripped, non-empty import line:
   * with a '[' they are the stripped text before the first '[' and the
   * stripped text between that '[' and the next ']' (or the end); without
   * one the whole line is the address and the kind is the selected default.
   */
  function LineParts(line: string, defaultKind: string): (string, string) {
    if '[' in line then
      SplitHasTwo(line, '[');
      var pieces := Split(line, "[");
      (Strip(pieces[0]), Strip(Split(pieces[1], "]")[0]))
    else
      (line, defaultKind)
  }

  lemma SplitHasTwo(s: string, c: char)
    requires c in s
    ensures |Split(s, [c])| >= 2
  {
    SplitChar(s, c);
    CountCharZero(s, c);
  }

  /** One line of an imported file (daili2/proxy_manager.py, the body of the import loop). */
  function ParseImportLine(raw: string, defaultKind: string): (r: ImportLine)
    ensures r.Blank? <==> Strip(raw) == []
    ensures Strip(raw) != [] ==>
      var pieces := Split(LineParts(Strip(raw), defaultKind).0, ":");
      r.Malformed? <==> |pieces| != 2 || ParseInt(pieces[1]).None?
    ensures r.Entry? ==> ':' !in r.c.ip && r.c.kind == LineParts(Strip(raw), defaultKind).1
    ensures r.Entry? ==> '[' !in raw ==> r.c.kind == defaultKind
  {
    var line := Strip(raw);
    if line == [] then Blank
    else
      var (part, kind) := LineParts(line, defaultKind);
      var pieces := Split(part, ":");
      if |pieces| != 2 then Malformed
      else
        match ParseInt(pieces[1])
        case None => Malformed
        case Some(port) =>
          SplitChar(part, ':');
          assert pieces[0] in pieces;
          assert '[' !in raw ==> '[' !in line by {
            if '[' !in raw { StripChars(raw, '['); }
          }
          Entry(Candidate(pieces[0], port, kind))
  }

  lemma StripChars(s: string, c: char)
    requires c !in s
    ensures c !in Strip(s)
  {
    StripLeftKeeps(s, c);
    StripRightKeeps(StripLeft(s), c);
  }

  lemma {:induction false} StripLeftKeeps(s: string, c: char)
    requires c !in s
    ensures c !in StripLeft(s)
    decreases |s|
  {
    if s != [] && IsSpace(s[0]) {
      assert forall x :: x in s[1..] ==> x in s;
      StripLeftKeeps(s[1..], c);
    }
  }

  lemma {:induction false} StripRightKeeps(s: string, c: char)
    requires c !in s
    ensures c !in StripRight(s)
    decreases |s|
  {
    if s != [] && IsSpace(s[|s| - 1]) {
      assert forall x :: x in s[..|s| - 1] ==> x in s;
      StripRightKeeps(s[..|s| - 1], c);
    }
  }

  /**
   * Candidates whose export line is unambiguous and stays one line of the
   * file: no line break in the ip or the kind, since the file is read back
   * line by line.
   */
  predicate Exportable(c: Candidate) {
    && '\n' !in c.ip && '\r' !in c.ip && '\n' !in c.kind && '\r' !in c.kind
    && ':' !in c.ip && '[' !in c.ip
    && (c.ip != [] ==> !IsSpace(c.ip[0]))
    && '[' !in c.kind && ']' !in c.kind && Trimmed(c.kind)
  }

  /** A line whose parts are known parses to the entry they make up. */
  lemma ParseImportLineOf(raw: string, defaultKind: string, addr: string, kind: string, ip: string, digits: string, port: int)
    requires raw != [] && Strip(raw) == raw
    requires LineParts(raw, defaultKind) == (addr, kind)
    requires Split(addr, ":") == [ip, digits]
    requires ParseInt(digits) == Some(port)
    ensures ParseImportLine(raw, defaultKind) == Entry(Candidate(ip, port, kind))
  {
  }

  /** The digits of a port hold none of the separators of the export format. */
  lemma DigitsFree(n: int)
    ensures var d := IntToString(n); ':' !in d && '[' !in d && ']' !in d && '\n' !in d
  {
    var d := IntToString(n);
    assert forall k :: 0 <= k < |d| ==> d[k] != ':' && d[k] != '[' && d[k] != ']' && d[k] != '\n';
  }

  lemma ExportLineTrimmed(c: Candidate)
    requires c.ip != [] ==> !IsSpace(c.ip[0])
    ensures ExportLine(c) != [] && Strip(ExportLine(c)) == ExportLine(c)
  {
    var line := ExportLine(c);
    assert line[0] == if c.ip == [] then ':' else c.ip[0];
    assert line[|line| - 1] == ']';
    StripTrimmed(line);
  }

  /** A text with non-space ends loses only a trailing blank to strip(). */
  lemma StripBlankSuffix(a: string)
    requires a != [] && !IsSpace(a[0]) && !IsSpace(a[|a| - 1])
    ensures Strip(a + " ") == a
  {
    assert AllSpace(" ");
    StripPadded([], a, " ");
    assert [] + a + " " == a + " ";
  }

  /** The address text `ip:port` before the " [" of an export line, already stripped. */
  lemma AddressTrimmed(c: Candidate)
    requires c.ip != [] ==> !IsSpace(c.ip[0])
    ensures Strip(c.ip + ":" + IntToString(c.port) + " ") == c.ip + ":" + IntToString(c.port)
  {
    var d := IntToString(c.port);
    var addr := c.ip + ":" + d;
    assert addr[|addr| - 1] == d[|d| - 1];
    assert addr[0] == if c.ip == [] then ':' else c.ip[0];
    StripBlankSuffix(addr);
  }

  lemma NoBracketBefore(c: Candidate)
    requires '[' !in c.ip
    ensures '[' !in c.ip + ":" + IntToString(c.port) + " "
  {
    var d := IntToString(c.port);
    var t := c.ip + ":" + d + " ";
    DigitsFree(c.port);
    forall k | 0 <= k < |t| ensures t[k] != '[' {
      if k < |c.ip| {
        assert t[k] == c.ip[k];
      } else if |c.ip| < k < |c.ip| + 1 + |d| {
        assert t[k] == d[k - |c.ip| - 1];
      }
    }
  }

  lemma ExportLineParts(c: Candidate, defaultKind: string)
    requires Exportable(c)
    ensures LineParts(ExportLine(c), defaultKind) == (c.ip + ":" + IntToString(c.port), c.kind)
  {
    var before := c.ip + ":" + IntToString(c.port) + " ";
    var line := ExportLine(c);
    NoBracketBefore(c);
    assert line == before + ['['] + (c.kind + "]");
    SplitAfter(before, '[', c.kind + "]");
    SplitAbsent(c.kind + "]", '[');
    assert Split(line, "[") == [before, c.kind + "]"];
    assert line[|before|] == '[';
    AddressTrimmed(c);
    assert c.kind + "]" == c.kind + [']'] + [];
    SplitAfter(c.kind, ']', []);
    StripTrimmed(c.kind);
  }

  lemma AddressSplit(c: Candidate)
    requires ':' !in c.ip
    ensures Split(c.ip + ":" + IntToString(c.port), ":") == [c.ip, IntToString(c.port)]
  {
    var d := IntToString(c.port);
    DigitsFree(c.port);
    assert c.ip + ":" + d == c.ip + [':'] + d;
    SplitAfter(c.ip, ':', d);
    SplitAbsent(d, ':');
  }

  /** The export line of a candidate reads back as that candidate. */
  lemma ImportExportLine(c: Candidate, defaultKind: string)
    requires Exportable(c)
    ensures ParseImportLine(ExportLine(c), defaultKind) == Entry(c)
  {
    ExportLineTrimmed(c);
    ExportLineParts(c, defaultKind);
    AddressSplit(c);
    ParseIntToString(c.port);
    ParseImportLineOf(ExportLine(c), defaultKind, c.ip + ":" + IntToString(c.port), c.kind,
      c.ip, IntToString(c.port), c.port);
  }

  /** The entries of a single line. */
  lemma ImportedEntriesSingle(line: string, defaultKind: string)
    ensures ImportedEntries([line], defaultKind) ==
      match ParseImportLine(line, defaultKind)
      case Entry(c) => [c]
      case _ => []
  {
    assert [line][..0] == [];
  }

  /** The candidates of the lines that parse, in order. */
  function ImportedEntries(lines: seq<string>, defaultKind: string): (r: seq<Candidate>)
    ensures |r| <= |lines|
    decreases |lines|
  {
    if lines == [] then []
    else
      var init := ImportedEntries(lines[..|lines| - 1], defaultKind);
      match ParseImportLine(lines[|lines| - 1], defaultKind)
      case Entry(c) => init + [c]
      case _ => init
  }

  /** One more line: the definition's step, for loops that go forward. */
  lemma ImportedEntriesStep(a: seq<string>, line: string, defaultKind: string)
    ensures var e := ParseImportLine(line, defaultKind);
      ImportedEntries(a + [line], defaultKind) == ImportedEntries(a, defaultKind) + (if e.Entry? then [e.c] else [])
  {
    assert (a + [line])[..|a|] == a;
  }

  /** One bad line does not abort the import: entries distribute over concatenation. */
  lemma {:induction false} ImportedEntriesAppend(a: seq<string>, b: seq<string>, defaultKind: string)
    ensures ImportedEntries(a + b, defaultKind) == ImportedEntries(a, defaultKind) + ImportedEntries(b, defaultKind)
    decreases |b|
  {
    if b == [] {
      assert a + b == a;
    } else {
      assert (a + b)[..|a + b| - 1] == a + b[..|b| - 1];
      assert (a + b)[|a + b| - 1] == b[|b| - 1];
      ImportedEntriesAppend(a, b[..|b| - 1], defaultKind);
    }
  }

  /** An exported file imports back as the list it was written from. */
  lemma {:induction false} ImportExportLines(list: seq<Candidate>, defaultKind: string)
    requires forall i :: 0 <= i < |list| ==> Exportable(list[i])
    ensures ImportedEntries(ExportLines(list), defaultKind) == list
    decreases |list|
  {
    if list != [] {
      var init, last := list[..|list| - 1], list[|list| - 1];
      assert list == init + [last];
      assert ExportLines(list) == ExportLines(init) + [ExportLine(last)];
      ImportExportLines(init, defaultKind);
      ImportedEntriesAppend(ExportLines(init), [ExportLine(last)], defaultKind);
      ImportedEntriesSingle(ExportLine(last), defaultKind);
      ImportExportLine(last, defaultKind);
    }
  }
}
