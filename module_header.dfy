/** `Module.read_identifier` (craftr/runtime.py): the scan of a module
    file's header comment block for the `# craftr_module(<identifier>)`
    declaration. The file is given as the lines Python iterates over, each
    with its line ending. */
module ModuleHeader {
  import opened Base
  import opened Text

  /** The lines iterating over a text file yields: each up to and including
      its `\n`, the last one without it when the text does not end in one. */
  function Lines(text: string): seq<string>
    decreases |text|
  {
    if text == [] then []
    else if '\n' !in text then [text]
    else
      var i := FirstIndex(text, '\n');
      [text[..i + 1]] + Lines(text[i + 1..])
  }

  function Concat(lines: seq<string>): string {
    if lines == [] then "" else lines[0] + Concat(lines[1..])
  }

  /** The lines make up the text, every one is non-empty, and a `\n` only
      ever ends a line. */
  lemma {:induction false} LinesOfText(text: string)
    ensures Concat(Lines(text)) == text
    ensures forall k :: 0 <= k < |Lines(text)| ==>
      Lines(text)[k] != "" && '\n' !in Lines(text)[k][..|Lines(text)[k]| - 1]
    decreases |text|
  {
    if text != [] && '\n' in text {
      var i := FirstIndex(text, '\n');
      LinesOfText(text[i + 1..]);
      assert text == text[..i + 1] + text[i + 1..];
      assert text[..i + 1][..i] == text[..i];
      var ls := Lines(text);
      assert forall k :: 1 <= k < |ls| ==> ls[k] == Lines(text[i + 1..])[k - 1];
    }
  }

  const Marker: string := "craftr_module("

  /** `re.match(r'^#\s*craftr_module\(([^\s]+)\)\s*$', line)`, giving group
      1 when the line matches. `\s*` before the marker must take all the
      whitespace after `#` (the marker starts with a letter); the group and
      the `)` after it are then the text up to the trailing whitespace. */
  function HeaderMatch(line: string): Option<string> {
    if !StartsWith(line, "#") then None
    else
      var rest := TrimLeft(line[1..]);
      if !StartsWith(rest, Marker) then None
      else
        var tail := TrimRight(rest[|Marker|..]);
        if |tail| >= 2 && tail[|tail| - 1] == ')' && NoSpace(tail[..|tail| - 1]) then Some(tail[..|tail| - 1])
        else None
  }

  /** A declaration line as it may be written. */
  function HeaderLine(ws1: string, id: string, ws2: string): string {
    "#" + ws1 + Marker + id + ")" + ws2
  }

  /** Every declaration line declares its identifier. */
  lemma HeaderLineMatches(ws1: string, id: string, ws2: string)
    requires AllSpace(ws1) && AllSpace(ws2) && id != [] && NoSpace(id)
    ensures HeaderMatch(HeaderLine(ws1, id, ws2)) == Some(id)
  {
    var line := HeaderLine(ws1, id, ws2);
    assert line[1..] == ws1 + (Marker + id + ")" + ws2);
    TrimLeftSkipsSpace(ws1, Marker + id + ")" + ws2);
    assert TrimLeft(line[1..]) == Marker + id + ")" + ws2;
    var rest := Marker + id + ")" + ws2;
    assert rest[|Marker|..] == (id + ")") + ws2;
    TrimRightSkipsSpace(id + ")", ws2);
  }

  /** Every line that matches is a declaration line for the identifier it
      gives. */
  lemma HeaderMatchIsHeaderLine(line: string)
    requires HeaderMatch(line).Some?
    ensures var id := HeaderMatch(line).value;
      id != [] && NoSpace(id) &&
      exists ws1, ws2 :: AllSpace(ws1) && AllSpace(ws2) && line == HeaderLine(ws1, id, ws2)
  {
    var id := HeaderMatch(line).value;
    var after := line[1..];
    var rest := TrimLeft(after);
    var body := rest[|Marker|..];
    var tail := TrimRight(body);
    assert tail == id + ")";
    var ws1, ws2 := HeaderParts(line, after, rest, body, tail);
    assert line == HeaderLine(ws1, id, ws2);
  }

  lemma HeaderParts(line: string, after: string, rest: string, body: string, tail: string) returns (ws1: string, ws2: string)
    requires line != [] && after == line[1..] && rest == TrimLeft(after)
    requires |Marker| <= |rest| && body == rest[|Marker|..] && rest[..|Marker|] == Marker && tail == TrimRight(body)
    ensures AllSpace(ws1) && AllSpace(ws2)
    ensures line == [line[0]] + ws1 + Marker + tail + ws2
  {
    TrimLeftSplits(after);
    ws1 := after[..|after| - |rest|];
    TrimRightSplits(body);
    ws2 := body[|tail|..];
    assert line == [line[0]] + after;
    assert after == ws1 + rest;
    assert rest == Marker + body;
    assert body == tail + ws2;
    calc {
      line;
      [line[0]] + (ws1 + (Marker + (tail + ws2)));
      { SeqAssoc5([line[0]], ws1, Marker, tail, ws2); }
      [line[0]] + ws1 + Marker + tail + ws2;
    }
  }

  lemma SeqAssoc5(a: string, b: string, c: string, d: string, e: string)
    ensures a + (b + (c + (d + e))) == a + b + c + d + e
  {
  }

  lemma {:induction false} TrimLeftSplits(s: string)
    ensures |TrimLeft(s)| <= |s| && s == s[..|s| - |TrimLeft(s)|] + TrimLeft(s)
    ensures AllSpace(s[..|s| - |TrimLeft(s)|])
    decreases |s|
  {
    if |s| > 0 && IsSpace(s[0]) {
      TrimLeftSplits(s[1..]);
      var n := |s[1..]| - |TrimLeft(s[1..])|;
      assert s[..n + 1] == [s[0]] + s[1..][..n];
    }
  }

  lemma {:induction false} TrimRightSplits(s: string)
    ensures s == TrimRight(s) + s[|TrimRight(s)|..]
    ensures AllSpace(s[|TrimRight(s)|..])
    decreases |s|
  {
    if |s| > 0 && IsSpace(s[|s| - 1]) {
      var init := s[..|s| - 1];
      TrimRightSplits(init);
      assert s[|TrimRight(init)|..] == init[|TrimRight(init)|..] + [s[|s| - 1]];
    }
  }

  /** A line that ends the header before any `#` line was seen must be
      non-blank; after one it may be anything that is not a comment. */
  predicate Blank(line: string) {
    !StartsWith(line, "#") && Strip(line) == ""
  }

  /** The loop of `read_identifier` from line `i` on: `hadHash` records
      that a `#` line was seen, `found` the last declared identifier. */
  function ScanFrom(lines: seq<string>, i: nat, hadHash: bool, found: Option<string>): Option<string>
    requires i <= |lines|
    decreases |lines| - i
  {
    if i == |lines| then found
    else if !StartsWith(lines[i], "#") && (hadHash || Strip(lines[i]) != "") then found
    else if StartsWith(lines[i], "#") then
      ScanFrom(lines, i + 1, true, if HeaderMatch(lines[i]).Some? then HeaderMatch(lines[i]) else found)
    else ScanFrom(lines, i + 1, hadHash, found)
  }

  /** The number of blank lines before anything else. */
  function LeadingBlanks(lines: seq<string>): (n: nat)
    ensures n <= |lines|
  {
    if lines != [] && Blank(lines[0]) then 1 + LeadingBlanks(lines[1..]) else 0
  }

  /** The number of `#` lines at the start. */
  function CommentRun(lines: seq<string>): (n: nat)
    ensures n <= |lines|
  {
    if lines != [] && StartsWith(lines[0], "#") then 1 + CommentRun(lines[1..]) else 0
  }

  /** The identifier of the last declaration line of `block`. */
  function LastDeclaration(block: seq<string>): Option<string> {
    if block == [] then None
    else
      var later := LastDeclaration(block[1..]);
      if later.Some? then later else HeaderMatch(block[0])
  }

  /** The header comment block: the `#` lines after the leading blank
      lines. */
  function HeaderBlock(lines: seq<string>): seq<string> {
    var body := lines[LeadingBlanks(lines)..];
    body[..CommentRun(body)]
  }

  /** `read_identifier` before the validity check: the identifier of the
      last declaration line in the header comment block. */
  function DeclaredIdentifier(lines: seq<string>): Option<string> {
    ScanFrom(lines, 0, false, None)
  }

  /** Once a `#` line was seen, the scan runs to the end of the comment
      run and gives its last declaration, or what it had found before. */
  lemma {:induction false} ScanCommentRun(lines: seq<string>, i: nat, found: Option<string>)
    requires i <= |lines|
    ensures var run := lines[i..][..CommentRun(lines[i..])];
      ScanFrom(lines, i, true, found) == if LastDeclaration(run).Some? then LastDeclaration(run) else found
    decreases |lines| - i
  {
    var rest := lines[i..];
    if i < |lines| && StartsWith(lines[i], "#") {
      var found' := if HeaderMatch(lines[i]).Some? then HeaderMatch(lines[i]) else found;
      ScanCommentRun(lines, i + 1, found');
      assert lines[i + 1..] == rest[1..];
      var run := rest[..CommentRun(rest)];
      assert run[1..] == rest[1..][..CommentRun(rest[1..])];
      assert run[0] == lines[i];
    } else {
      assert rest[..CommentRun(rest)] == [];
    }
  }

  /** Before any `#` line the scan skips the blank lines; it then reads the
      comment run, or stops at the first other line. */
  lemma {:induction false} ScanBlanks(lines: seq<string>, i: nat)
    requires i <= |lines|
    ensures ScanFrom(lines, i, false, None) == LastDeclaration(HeaderBlock(lines[i..]))
    decreases |lines| - i
  {
    var rest := lines[i..];
    if i < |lines| && Blank(lines[i]) {
      ScanBlanks(lines, i + 1);
      assert lines[i + 1..] == rest[1..];
      assert rest[LeadingBlanks(rest)..] == rest[1..][LeadingBlanks(rest[1..])..];
    } else {
      assert LeadingBlanks(rest) == 0;
      ScanCommentRun(lines, i, None);
      if i < |lines| && !StartsWith(lines[i], "#") {
        assert HeaderBlock(rest) == [];
      }
    }
  }

  /** The scan finds exactly the last declaration of the header comment
      block: blank lines before the block are skipped, the first line that
      is neither blank-before-the-block nor a comment ends it, and a later
      declaration replaces an earlier one. */
  lemma DeclaredIdentifierIsLastInBlock(lines: seq<string>)
    ensures DeclaredIdentifier(lines) == LastDeclaration(HeaderBlock(lines))
  {
    ScanBlanks(lines, 0);
    assert lines[0..] == lines;
  }

  datatype InvalidModule = InvalidModule

  /** `read_identifier` on a fresh module: the declared identifier when
      there is one and `utils.ident.validate` (`validIdent`) accepts it,
      `InvalidModule` otherwise. */
  function ReadIdentifierSpec(lines: seq<string>, validIdent: string -> bool): (r: Result<string, InvalidModule>)
    ensures r.Ok? <==> DeclaredIdentifier(lines).Some? && validIdent(DeclaredIdentifier(lines).value)
    ensures r.Ok? ==> r.value == DeclaredIdentifier(lines).value && r.value != [] && NoSpace(r.value)
  {
    var found := DeclaredIdentifier(lines);
    DeclaredIdentifierIsLastInBlock(lines);
    LastDeclarationMatches(HeaderBlock(lines));
    if found.None? || !validIdent(found.value) then Err(InvalidModule) else Ok(found.value)
  }

  lemma {:induction false} LastDeclarationMatches(block: seq<string>)
    ensures LastDeclaration(block).Some? ==> exists k :: 0 <= k < |block| && HeaderMatch(block[k]) == LastDeclaration(block)
    ensures LastDeclaration(block).Some? ==> LastDeclaration(block).value != [] && NoSpace(LastDeclaration(block).value)
    decreases |block|
  {
    if block != [] {
      LastDeclarationMatches(block[1..]);
      if LastDeclaration(block[1..]).Some? {
        var k :| 0 <= k < |block[1..]| && HeaderMatch(block[1..][k]) == LastDeclaration(block[1..]);
        assert block[k + 1] == block[1..][k];
      } else if HeaderMatch(block[0]).Some? {
        HeaderMatchIsHeaderLine(block[0]);
      }
    }
  }

  /** The line loop of `read_identifier`, with its `break`. */
  method ReadIdentifier(lines: seq<string>, validIdent: string -> bool) returns (r: Result<string, InvalidModule>)
    ensures r == ReadIdentifierSpec(lines, validIdent)
  {
    var identifier: Option<string> := None;
    var hadHash := false;
    var i := 0;
    while i < |lines|
      invariant 0 <= i <= |lines|
      invariant ScanFrom(lines, i, hadHash, identifier) == DeclaredIdentifier(lines)
      decreases |lines| - i
    {
      var line := lines[i];
      if !StartsWith(line, "#") && (hadHash || Strip(line) != "") {
        break;
      } else if StartsWith(line, "#") {
        hadHash := true;
        var m := HeaderMatch(line);
        if m.Some? {
          identifier := m;
        }
      }
      i := i + 1;
    }
    if identifier.None? || !validIdent(identifier.value) {
      return Err(InvalidModule);
    }
    return Ok(identifier.value);
  }
}
