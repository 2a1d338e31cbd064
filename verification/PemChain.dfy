/** Scanning a PEM certificate chain line by line (RFC 7468, section 5). */
module PemChain {
  import opened Prelude

  const BEGIN := "-----BEGIN CERTIFICATE-----"
  const END := "-----END CERTIFICATE-----"

  // ---------------------------------------------------------------- lines and trimming

  /** Unicode `White_Space`. */
  predicate IsSpace(c: char) {
    var n := c as int;
    9 <= n <= 13 || n == 32 || n == 0x85 || n == 0xA0 || n == 0x1680 || 0x2000 <= n <= 0x200A ||
    n == 0x2028 || n == 0x2029 || n == 0x202F || n == 0x205F || n == 0x3000
  }

  function TrimStart(s: string): string {
    if s != [] && IsSpace(s[0]) then TrimStart(s[1..]) else s
  }

  function TrimEnd(s: string): string {
    if s != [] && IsSpace(s[|s| - 1]) then TrimEnd(s[..|s| - 1]) else s
  }

  function Trim(s: string): string { TrimEnd(TrimStart(s)) }

  predicate AllSpace(s: string) { forall i :: 0 <= i < |s| ==> IsSpace(s[i]) }

  /** Trimming removes whitespace, all of it at either end, and nothing else. */
  lemma {:induction false} TrimRemovesSpace(s: string) returns (left: string, right: string)
    ensures s == left + Trim(s) + right && AllSpace(left) && AllSpace(right)
    ensures Trim(s) != [] ==> !IsSpace(Trim(s)[0]) && !IsSpace(Trim(s)[|Trim(s)| - 1])
  {
    left := TrimStartRemoves(s);
    right := TrimEndRemoves(TrimStart(s));
    assert left + (Trim(s) + right) == left + Trim(s) + right;
  }

  lemma {:induction false} TrimStartRemoves(s: string) returns (left: string)
    ensures s == left + TrimStart(s) && AllSpace(left)
    ensures TrimStart(s) != [] ==> !IsSpace(TrimStart(s)[0])
  {
    if s != [] && IsSpace(s[0]) {
      var rest := TrimStartRemoves(s[1..]);
      left := [s[0]] + rest;
      assert s == [s[0]] + (rest + TrimStart(s[1..]));
    } else {
      left := [];
    }
  }

  lemma {:induction false} TrimEndRemoves(s: string) returns (right: string)
    ensures s == TrimEnd(s) + right && AllSpace(right)
    ensures TrimEnd(s) != [] ==> !IsSpace(TrimEnd(s)[|TrimEnd(s)| - 1]) && TrimEnd(s)[0] == s[0]
  {
    if s != [] && IsSpace(s[|s| - 1]) {
      var n := |s| - 1;
      var rest := TrimEndRemoves(s[..n]);
      right := rest + [s[n]];
      assert s == (TrimEnd(s[..n]) + rest) + [s[n]];
    } else {
      right := [];
    }
  }

  predicate StartsWith(s: string, prefix: string) { prefix <= s }

  function WithoutCr(line: string): string {
    if line != [] && line[|line| - 1] == '\r' then line[..|line| - 1] else line
  }

  /** `str::lines`: pieces ended by a newline, each without a final carriage return; no empty last line. */
  function Lines(text: string): seq<string> {
    LinesFrom("", text)
  }

  function LinesFrom(line: string, text: string): seq<string>
    decreases |text|
  {
    if text == [] then (if line == [] then [] else [line])
    else if text[0] == '\n' then [WithoutCr(line)] + LinesFrom("", text[1..])
    else LinesFrom(line + [text[0]], text[1..])
  }

  // ---------------------------------------------------------------- the scanner

  datatype Scan = Scan(inCert: bool, current: string, certs: seq<string>)

  function Step(s: Scan, line: string): Scan {
    var trimmed := Trim(line);
    if StartsWith(trimmed, BEGIN) then Scan(true, "", s.certs)
    else if StartsWith(trimmed, END) then
      Scan(false, s.current, if s.current != "" then s.certs + [s.current] else s.certs)
    else if s.inCert then s.(current := s.current + trimmed)
    else s
  }

  function ScanAll(s: Scan, lines: seq<string>): Scan
    decreases |lines|
  {
    if lines == [] then s else ScanAll(Step(s, lines[0]), lines[1..])
  }

  const INITIAL := Scan(false, "", [])

  /** The certificates of a text. */
  function ParsedChain(text: string): seq<string> {
    ScanAll(INITIAL, Lines(text)).certs
  }

  /** `parse_pem_cert_chain`. */
  method ParsePemCertChain(text: string) returns (certs: seq<string>)
    ensures certs == ParsedChain(text)
  {
    certs := [];
    var inCert, current := false, "";
    var lines := Lines(text);
    for i := 0 to |lines|
      invariant ScanAll(Scan(inCert, current, certs), lines[i..]) == ScanAll(INITIAL, lines)
    {
      var trimmed := Trim(lines[i]);
      assert lines[i..][1..] == lines[i + 1..];
      if StartsWith(trimmed, BEGIN) {
        inCert := true;
        current := "";
      } else if StartsWith(trimmed, END) {
        inCert := false;
        if current != "" { certs := certs + [current]; }
      } else if inCert {
        current := current + trimmed;
      }
    }
  }

  // ---------------------------------------------------------------- printing

  /** A printed certificate: marker lines, body lines between them, and other text after it. */
  datatype Block = Block(begin: string, body: seq<string>, end: string, after: seq<string>)

  predicate IsBegin(line: string) { StartsWith(Trim(line), BEGIN) }

  predicate IsEnd(line: string) { StartsWith(Trim(line), END) }

  predicate IsOther(line: string) { !IsBegin(line) && !IsEnd(line) }

  /** The body text: the lines without surrounding whitespace, however it was wrapped. */
  function BodyOf(body: seq<string>): string {
    if body == [] then "" else Trim(body[0]) + BodyOf(body[1..])
  }

  /** Markers where they belong, a non-empty body, and no BEGIN marker in the text after the block. */
  predicate WellPrinted(b: Block) {
    && IsBegin(b.begin) && IsEnd(b.end) && BodyOf(b.body) != ""
    && (forall i :: 0 <= i < |b.body| ==> IsOther(b.body[i]))
    && forall i :: 0 <= i < |b.after| ==> !IsBegin(b.after[i])
  }

  function BlockLines(b: Block): seq<string> {
    [b.begin] + (b.body + ([b.end] + b.after))
  }

  function ChainLines(blocks: seq<Block>): seq<string> {
    if blocks == [] then [] else BlockLines(blocks[0]) + ChainLines(blocks[1..])
  }

  function Bodies(blocks: seq<Block>): seq<string> {
    if blocks == [] then [] else [BodyOf(blocks[0].body)] + Bodies(blocks[1..])
  }

  function StrayEnds(lines: seq<string>): nat {
    if lines == [] then 0 else (if IsEnd(lines[0]) then 1 else 0) + StrayEnds(lines[1..])
  }

  function Repeat(s: string, n: nat): (r: seq<string>)
    ensures |r| == n
  {
    if n == 0 then [] else [s] + Repeat(s, n - 1)
  }

  /** What the scanner really collects: each body once per END line that follows it. */
  function Collected(blocks: seq<Block>): seq<string> {
    if blocks == [] then []
    else Repeat(BodyOf(blocks[0].body), 1 + StrayEnds(blocks[0].after)) + Collected(blocks[1..])
  }

  function TotalStrayEnds(blocks: seq<Block>): nat {
    if blocks == [] then 0 else StrayEnds(blocks[0].after) + TotalStrayEnds(blocks[1..])
  }

  lemma {:induction false} ScanConcat(s: Scan, x: seq<string>, y: seq<string>)
    ensures ScanAll(s, x + y) == ScanAll(ScanAll(s, x), y)
    decreases |x|
  {
    if x == [] {
      assert x + y == y;
    } else {
      assert (x + y)[1..] == x[1..] + y;
      ScanConcat(Step(s, x[0]), x[1..], y);
    }
  }

  lemma {:induction false} ScanBody(s: Scan, body: seq<string>)
    requires s.inCert && forall i :: 0 <= i < |body| ==> IsOther(body[i])
    ensures ScanAll(s, body) == s.(current := s.current + BodyOf(body))
    decreases |body|
  {
    if body == [] {
      assert s.current + "" == s.current;
    } else {
      ScanBody(Step(s, body[0]), body[1..]);
      assert s.current + Trim(body[0]) + BodyOf(body[1..]) == s.current + BodyOf(body);
    }
  }

  lemma {:induction false} ScanAfter(s: Scan, after: seq<string>)
    requires !s.inCert && s.current != "" && forall i :: 0 <= i < |after| ==> !IsBegin(after[i])
    ensures ScanAll(s, after) == s.(certs := s.certs + Repeat(s.current, StrayEnds(after)))
    decreases |after|
  {
    if after == [] {
      assert s.certs + [] == s.certs;
    } else {
      ScanAfter(Step(s, after[0]), after[1..]);
      if IsEnd(after[0]) {
        assert s.certs + [s.current] + Repeat(s.current, StrayEnds(after[1..])) ==
               s.certs + Repeat(s.current, StrayEnds(after));
      }
    }
  }

  lemma {:induction false} ScanBlock(s: Scan, b: Block)
    requires WellPrinted(b)
    ensures ScanAll(s, BlockLines(b)) ==
            Scan(false, BodyOf(b.body), s.certs + Repeat(BodyOf(b.body), 1 + StrayEnds(b.after)))
  {
    var text := BodyOf(b.body);
    var inside := Scan(true, "", s.certs);
    ScanConcat(s, [b.begin], b.body + ([b.end] + b.after));
    assert [b.begin][1..] == [] && ScanAll(s, [b.begin]) == inside by { assert ScanAll(inside, []) == inside; }
    ScanConcat(inside, b.body, [b.end] + b.after);
    ScanBody(inside, b.body);
    assert "" + text == text;
    var closed := Scan(false, text, s.certs + [text]);
    ScanConcat(Scan(true, text, s.certs), [b.end], b.after);
    assert !IsBegin(b.end) by { MarkersDiffer(Trim(b.end)); }
    assert [b.end][1..] == [] &&
           ScanAll(Scan(true, text, s.certs), [b.end]) == closed by {
      assert ScanAll(closed, []) == closed;
    }
    ScanAfter(closed, b.after);
    assert s.certs + [text] + Repeat(text, StrayEnds(b.after)) == s.certs + Repeat(text, 1 + StrayEnds(b.after));
  }

  lemma MarkersDiffer(s: string)
    requires StartsWith(s, END)
    ensures !StartsWith(s, BEGIN)
  {
    assert s[5] == END[5] == 'E';
    assert BEGIN[5] == 'B';
  }

  lemma {:induction false} ScanChain(s: Scan, blocks: seq<Block>)
    requires forall i :: 0 <= i < |blocks| ==> WellPrinted(blocks[i])
    ensures ScanAll(s, ChainLines(blocks)).certs == s.certs + Collected(blocks)
    decreases |blocks|
  {
    if blocks == [] {
      assert s.certs + [] == s.certs;
    } else {
      var first, rest := blocks[0], blocks[1..];
      var own := Repeat(BodyOf(first.body), 1 + StrayEnds(first.after));
      var next := Scan(false, BodyOf(first.body), s.certs + own);
      ScanConcat(s, BlockLines(first), ChainLines(rest));
      ScanBlock(s, first);
      ScanChain(next, rest);
      AppendAssociates(s.certs, own, Collected(rest));
    }
  }

  lemma AppendAssociates(a: seq<string>, b: seq<string>, c: seq<string>)
    ensures a + b + c == a + (b + c)
  {
  }

  lemma {:induction false} CollectedCount(blocks: seq<Block>)
    ensures |Collected(blocks)| == |Bodies(blocks)| + TotalStrayEnds(blocks)
    ensures TotalStrayEnds(blocks) == 0 ==> Collected(blocks) == Bodies(blocks)
    decreases |blocks|
  {
    if blocks != [] {
      CollectedCount(blocks[1..]);
      var text := BodyOf(blocks[0].body);
      assert Repeat(text, 1) == [text] + Repeat(text, 0);
    }
  }

  lemma {:induction false} ScanPreamble(lines: seq<string>)
    requires forall i :: 0 <= i < |lines| ==> !IsBegin(lines[i])
    ensures ScanAll(INITIAL, lines) == INITIAL
    decreases |lines|
  {
    if lines != [] { ScanPreamble(lines[1..]); }
  }

  /** Parsing undoes printing: whatever the wrapping, the surrounding whitespace and the text around the
      blocks, the scanner returns the bodies in order — if and only if no END marker occurs outside
      the blocks after the first of them. */
  lemma {:induction false} ParseUndoesPrint(preamble: seq<string>, blocks: seq<Block>)
    requires forall i :: 0 <= i < |preamble| ==> !IsBegin(preamble[i])
    requires forall i :: 0 <= i < |blocks| ==> WellPrinted(blocks[i])
    ensures ScanAll(INITIAL, preamble + ChainLines(blocks)).certs == Bodies(blocks) <==> TotalStrayEnds(blocks) == 0
  {
    ScanConcat(INITIAL, preamble, ChainLines(blocks));
    ScanPreamble(preamble);
    ScanChain(INITIAL, blocks);
    assert [] + Collected(blocks) == Collected(blocks);
    CollectedCount(blocks);
  }

  // ---------------------------------------------------------------- line endings

  /** Lines joined with either line ending. */
  function Print(lines: seq<string>, crlf: seq<bool>): string
    requires |lines| == |crlf|
  {
    if lines == [] then "" else lines[0] + (Ending(crlf[0]) + Print(lines[1..], crlf[1..]))
  }

  function Ending(crlf: bool): string {
    if crlf then "\r\n" else "\n"
  }

  predicate EndsInCr(s: string) { s != [] && s[|s| - 1] == '\r' }

  lemma {:induction false} LinesOfEnding(line: string, crlf: bool, rest: string)
    requires !EndsInCr(line)
    ensures LinesFrom(line, Ending(crlf) + rest) == [line] + LinesFrom("", rest)
  {
    if crlf {
      assert (Ending(crlf) + rest)[1..] == "\n" + rest && ("\n" + rest)[1..] == rest;
      assert LinesFrom(line, Ending(crlf) + rest) == LinesFrom(line + ['\r'], "\n" + rest);
      assert WithoutCr(line + ['\r']) == line;
    } else {
      assert (Ending(crlf) + rest)[1..] == rest;
    }
  }

  lemma {:induction false} LinesOfLine(sofar: string, line: string, crlf: bool, rest: string)
    requires '\n' !in line && !EndsInCr(sofar + line)
    ensures LinesFrom(sofar, line + (Ending(crlf) + rest)) == [sofar + line] + LinesFrom("", rest)
    decreases |line|
  {
    var text := line + (Ending(crlf) + rest);
    if line == [] {
      assert text == Ending(crlf) + rest && sofar + line == sofar;
      LinesOfEnding(sofar, crlf, rest);
    } else {
      assert text[1..] == line[1..] + (Ending(crlf) + rest);
      assert sofar + [line[0]] + line[1..] == sofar + line;
      LinesOfLine(sofar + [line[0]], line[1..], crlf, rest);
    }
  }

  /** Splitting undoes joining, for lines without a newline or a final carriage return. */
  lemma {:induction false} LinesUndoPrint(lines: seq<string>, crlf: seq<bool>)
    requires |lines| == |crlf|
    requires forall i :: 0 <= i < |lines| ==> '\n' !in lines[i] && !EndsInCr(lines[i])
    ensures Lines(Print(lines, crlf)) == lines
    decreases |lines|
  {
    if lines != [] {
      assert "" + lines[0] == lines[0] && [lines[0]] + lines[1..] == lines;
      LinesOfLine("", lines[0], crlf[0], Print(lines[1..], crlf[1..]));
      LinesUndoPrint(lines[1..], crlf[1..]);
    }
  }

  /** A last line without a line ending is a line too, unless it is empty. */
  lemma {:induction false} LinesOfRest(sofar: string, last: string)
    requires '\n' !in last && sofar + last != ""
    ensures LinesFrom(sofar, last) == [sofar + last]
    decreases |last|
  {
    if last == [] {
      assert sofar + last == sofar;
    } else {
      assert sofar + [last[0]] + last[1..] == sofar + last;
      LinesOfRest(sofar + [last[0]], last[1..]);
    }
  }

  lemma {:induction false} LinesUndoPrintUnended(lines: seq<string>, crlf: seq<bool>, last: string)
    requires |lines| == |crlf| && '\n' !in last && last != ""
    requires forall i :: 0 <= i < |lines| ==> '\n' !in lines[i] && !EndsInCr(lines[i])
    ensures Lines(Print(lines, crlf) + last) == lines + [last]
    decreases |lines|
  {
    if lines == [] {
      assert "" + last == last;
      LinesOfRest("", last);
    } else {
      var rest := Print(lines[1..], crlf[1..]) + last;
      assert Print(lines, crlf) + last == lines[0] + (Ending(crlf[0]) + rest);
      assert "" + lines[0] == lines[0];
      LinesOfLine("", lines[0], crlf[0], rest);
      LinesUndoPrintUnended(lines[1..], crlf[1..], last);
      assert [lines[0]] + (lines[1..] + [last]) == lines + [last];
    }
  }

  // ---------------------------------------------------------------- the printed text

  function PemLines(preamble: seq<string>, blocks: seq<Block>): seq<string> {
    preamble + ChainLines(blocks)
  }

  /** A printed chain: any text before the blocks, either line ending after each line, and the last line
      with an ending or without. */
  ghost predicate PrintedAs(text: string, lines: seq<string>) {
    || (exists crlf :: |crlf| == |lines| && TextIs(text, lines, crlf))
    || (lines != [] && lines[|lines| - 1] != "" &&
        exists crlf :: |crlf| == |lines| - 1 && UnendedTextIs(text, lines, crlf))
  }

  predicate TextIs(text: string, lines: seq<string>, crlf: seq<bool>)
    requires |lines| == |crlf|
  {
    text == Print(lines, crlf) && forall i :: 0 <= i < |lines| ==> '\n' !in lines[i] && !EndsInCr(lines[i])
  }

  predicate UnendedTextIs(text: string, lines: seq<string>, crlf: seq<bool>)
    requires |lines| == |crlf| + 1
  {
    var n := |lines| - 1;
    && text == Print(lines[..n], crlf) + lines[n] && '\n' !in lines[n]
    && forall i :: 0 <= i < n ==> '\n' !in lines[i] && !EndsInCr(lines[i])
  }

  lemma {:induction false} UnendedLines(text: string, lines: seq<string>, crlf: seq<bool>)
    requires |lines| == |crlf| + 1 && lines[|crlf|] != "" && UnendedTextIs(text, lines, crlf)
    ensures Lines(text) == lines
  {
    var ended, last := lines[..|crlf|], lines[|crlf|];
    assert ended + [last] == lines;
    LinesUndoPrintUnended(ended, crlf, last);
  }

  lemma {:induction false} PrintedLines(text: string, lines: seq<string>)
    requires PrintedAs(text, lines)
    ensures Lines(text) == lines
  {
    if crlf :| |crlf| == |lines| && TextIs(text, lines, crlf) {
      LinesUndoPrint(lines, crlf);
    } else {
      var crlf :| |crlf| == |lines| - 1 && UnendedTextIs(text, lines, crlf);
      UnendedLines(text, lines, crlf);
    }
  }

  /** Parsing a printed text returns the bodies in order, whatever the wrapping, the whitespace, the line
      endings and the text around the blocks, if and only if no END marker occurs outside the blocks
      after the first of them. */
  lemma {:induction false} ParseUndoesPrintedText(text: string, preamble: seq<string>, blocks: seq<Block>)
    requires PrintedAs(text, PemLines(preamble, blocks))
    requires forall i :: 0 <= i < |preamble| ==> !IsBegin(preamble[i])
    requires forall i :: 0 <= i < |blocks| ==> WellPrinted(blocks[i])
    ensures ParsedChain(text) == Bodies(blocks) <==> TotalStrayEnds(blocks) == 0
  {
    PrintedLines(text, PemLines(preamble, blocks));
    ParseUndoesPrint(preamble, blocks);
  }

  lemma {:induction false} TrimKeeps(s: string)
    requires s != "" && !IsSpace(s[0]) && !IsSpace(s[|s| - 1])
    ensures Trim(s) == s
  {
  }

  /** Nothing shorter than a whole marker counts as one. */
  lemma WholeMarkers(line: string)
    ensures IsBegin(line) <==> |Trim(line)| >= 27 && Trim(line)[..27] == "-----BEGIN CERTIFICATE-----"
    ensures IsEnd(line) <==> |Trim(line)| >= 25 && Trim(line)[..25] == "-----END CERTIFICATE-----"
  {
  }

  lemma MarkerLine(line: string)
    requires line == "-----BEGIN CERTIFICATE-----" || line == "-----END CERTIFICATE-----"
    ensures Trim(line) == line && '\n' !in line && !EndsInCr(line)
    ensures if line[5] == 'B' then IsBegin(line) else IsEnd(line)
  {
    assert line[0] == '-' && line[|line| - 1] == '-';
    TrimKeeps(line);
  }

  lemma {:induction false} ThreeLines(a: string, b: string, c: string)
    ensures Print([a, b, c], [false, false, false]) == a + "\n" + b + "\n" + c + "\n"
  {
    var two, one, crlf := [b, c], [c], [false, false, false];
    assert [a, b, c][1..] == two && two[1..] == one && one[1..] == [];
    assert crlf[1..] == [false, false] && crlf[1..][1..] == [false] && crlf[1..][1..][1..] == [];
    assert Print(one, [false]) == c + ("\n" + "");
    assert Print(two, [false, false]) == b + ("\n" + Print(one, [false]));
    assert Print([a, b, c], crlf) == a + ("\n" + Print(two, [false, false]));
  }

  /** A line that is neither marker: it is not empty and starts with something other than a dash or a space. */
  lemma {:induction false} BodyLine(body: string)
    requires body != "" && forall i :: 0 <= i < |body| ==> !IsSpace(body[i]) && body[i] != '-'
    ensures Trim(body) == body && IsOther(body) && '\n' !in body && !EndsInCr(body) && BodyOf([body]) == body
  {
    TrimKeeps(body);
    assert BEGIN[0] == END[0] == '-';
    assert [body][1..] == [] && BodyOf([]) == "" && body + "" == body;
  }

  lemma {:induction false} OneCertificate(begin: string, body: string, end: string, text: string)
    requires IsBegin(begin) && IsEnd(end) && IsOther(body) && BodyOf([body]) == body && body != ""
    requires forall s :: s in [begin, body, end] ==> '\n' !in s && !EndsInCr(s)
    requires text == Print([begin, body, end], [false, false, false])
    ensures ParsedChain(text) == [body]
  {
    var b := Block(begin, [body], end, []);
    OneBlock(b);
    assert PemLines([], [b]) == [begin, body, end];
    assert TextIs(text, [begin, body, end], [false, false, false]);
    ParseUndoesPrintedText(text, [], [b]);
  }

  lemma OneBlock(b: Block)
    requires |b.body| == 1 && b.after == []
    ensures ChainLines([b]) == [b.begin, b.body[0], b.end] && Bodies([b]) == [BodyOf(b.body)]
    ensures TotalStrayEnds([b]) == 0
  {
    assert [b][1..] == [] && ChainLines([]) == [] && Bodies([]) == [];
    assert ChainLines([b]) == BlockLines(b) + [];
  }

  /** One certificate as it is usually written: its marker lines as RFC 7468 spells them, and its body between them. */
  lemma {:induction false} CertificateText(body: string)
    requires body != "" && forall i :: 0 <= i < |body| ==> !IsSpace(body[i]) && body[i] != '-'
    ensures ParsedChain("-----BEGIN CERTIFICATE-----" + "\n" + body + "\n" + "-----END CERTIFICATE-----" + "\n") ==
            [body]
  {
    var begin, end := "-----BEGIN CERTIFICATE-----", "-----END CERTIFICATE-----";
    MarkerLine(begin);
    MarkerLine(end);
    BodyLine(body);
    ThreeLines(begin, body, end);
    OneCertificate(begin, body, end, Print([begin, body, end], [false, false, false]));
  }
}
