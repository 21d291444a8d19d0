/** The interactive form reader: parenthesis depth and string state carried from line to
    line, against one scan of the joined text. */
module FormReaders {
  import opened Sequences

  // ------------------------------------------------------------ one scan of a text

  /** Where a scan stands: in code, in a string, after a backslash in a string, in a
      comment, or past a closing parenthesis that nothing opened. */
  datatype Mode = Code | Quoted | Escaped | Comment | Over

  datatype Scan = Scan(mode: Mode, depth: nat)

  function Read(s: Scan, c: char): Scan {
    match s.mode
    case Code =>
      if c == '"' then s.(mode := Quoted)
      else if c == ';' then s.(mode := Comment)
      else if c == '(' then s.(depth := s.depth + 1)
      else if c == ')' then if s.depth == 0 then s.(mode := Over) else s.(depth := s.depth - 1)
      else s
    case Quoted => if c == '\\' then s.(mode := Escaped) else if c == '"' then s.(mode := Code) else s
    case Escaped => s.(mode := Quoted)
    case Comment => if c == '\n' then s.(mode := Code) else s
    case Over => s
  }

  function ReadText(s: Scan, text: string): Scan
    decreases |text|
  {
    if text == "" then s else ReadText(Read(s, text[0]), text[1..])
  }

  lemma {:induction false} ReadJoin(s: Scan, a: string, b: string)
    ensures ReadText(s, a + b) == ReadText(ReadText(s, a), b)
    decreases |a|
  {
    if a == "" {
      assert a + b == b;
    } else {
      assert (a + b)[1..] == a[1..] + b;
      ReadJoin(Read(s, a[0]), a[1..], b);
    }
  }

  // ------------------------------------------------------- the grammar of a text

  /** What a string holds: a character for itself, or a backslash and what follows it. */
  datatype Inside = Literal(c: char) | Pair(c: char)

  /** Text in which everything opened is closed: plain characters, strings, comments with
      the end of their line, and the same between parentheses. */
  datatype Closed =
    | Nothing
    | Plain(c: char, more: Closed)
    | Text(body: seq<Inside>, more: Closed)
    | Remark(text: string, more: Closed)
    | Group(inner: Closed, more: Closed)

  /** How a text ends: closed, in a string, after a backslash in it, in a comment, or
      with a parenthesis that closes nothing and whatever follows it. */
  datatype Tail =
    | Closing
    | InString(body: seq<Inside>)
    | InEscape(body: seq<Inside>)
    | InRemark(text: string)
    | Beyond(rest: string)

  predicate FineBody(body: seq<Inside>) {
    forall i | 0 <= i < |body| && body[i].Literal? :: body[i].c != '"' && body[i].c != '\\'
  }

  predicate Fine(code: Closed) {
    match code
    case Nothing => true
    case Plain(c, more) => c != '"' && c != ';' && c != '(' && c != ')' && Fine(more)
    case Text(body, more) => FineBody(body) && Fine(more)
    case Remark(text, more) => '\n' !in text && Fine(more)
    case Group(inner, more) => Fine(inner) && Fine(more)
  }

  function SpellBody(body: seq<Inside>): string {
    if body == [] then ""
    else
      var last := body[|body| - 1];
      SpellBody(body[..|body| - 1]) + if last.Literal? then [last.c] else ['\\', last.c]
  }

  function Spell(code: Closed): string {
    match code
    case Nothing => ""
    case Plain(c, more) => [c] + Spell(more)
    case Text(body, more) => "\"" + SpellBody(body) + "\"" + Spell(more)
    case Remark(text, more) => ";" + text + "\n" + Spell(more)
    case Group(inner, more) => "(" + Spell(inner) + ")" + Spell(more)
  }

  /** Closed texts with one unclosed parenthesis between each and the next. */
  function SpellLayers(layers: seq<Closed>): string {
    if layers == [] then ""
    else if |layers| == 1 then Spell(layers[0])
    else SpellLayers(layers[..|layers| - 1]) + "(" + Spell(layers[|layers| - 1])
  }

  function SpellTail(tail: Tail): string {
    match tail
    case Closing => ""
    case InString(body) => "\"" + SpellBody(body)
    case InEscape(body) => "\"" + SpellBody(body) + "\\"
    case InRemark(text) => ";" + text
    case Beyond(rest) => ")" + rest
  }

  predicate FineTail(tail: Tail, open: nat) {
    match tail
    case Closing => true
    case InString(body) => FineBody(body)
    case InEscape(body) => FineBody(body)
    case InRemark(text) => '\n' !in text
    case Beyond(_) => open == 0
  }

  /** The text is these layers and this tail; a parenthesis is over only where none is open. */
  predicate LaidOut(text: string, layers: seq<Closed>, tail: Tail) {
    && layers != [] && (forall i | 0 <= i < |layers| :: Fine(layers[i]))
    && FineTail(tail, |layers| - 1) && text == SpellLayers(layers) + SpellTail(tail)
  }

  /** The depth and the string state a layout comes to. */
  function Ends(layers: seq<Closed>, tail: Tail): (int, bool) {
    (if tail.Beyond? then -1 else |layers| - 1, tail.InString? || tail.InEscape?)
  }

  function ModeOf(tail: Tail): Mode {
    match tail
    case Closing => Code
    case InString(_) => Quoted
    case InEscape(_) => Escaped
    case InRemark(_) => Comment
    case Beyond(_) => Over
  }

  lemma ReadOne(s: Scan, c: char)
    ensures ReadText(s, [c]) == Read(s, c)
  {
    assert [c][1..] == "";
  }

  lemma ReadThree(s: Scan, a: string, b: string, c: string)
    ensures ReadText(s, a + b + c) == ReadText(ReadText(ReadText(s, a), b), c)
  {
    ReadJoin(s, a + b, c);
    ReadJoin(s, a, b);
  }

  lemma {:induction false} BodyReads(d: nat, body: seq<Inside>)
    requires FineBody(body)
    ensures ReadText(Scan(Quoted, d), SpellBody(body)) == Scan(Quoted, d)
    decreases |body|
  {
    if body != [] {
      var front, last := body[..|body| - 1], body[|body| - 1];
      BodyReads(d, front);
      ReadJoin(Scan(Quoted, d), SpellBody(front), if last.Literal? then [last.c] else ['\\', last.c]);
      if last.Literal? {
        ReadOne(Scan(Quoted, d), last.c);
      } else {
        assert ['\\', last.c] == ['\\'] + [last.c];
        ReadJoin(Scan(Quoted, d), ['\\'], [last.c]);
        ReadOne(Scan(Quoted, d), '\\');
        ReadOne(Scan(Escaped, d), last.c);
      }
    }
  }

  lemma {:induction false} CommentRuns(depth: nat, text: string)
    requires '\n' !in text
    ensures ReadText(Scan(Comment, depth), text) == Scan(Comment, depth)
    decreases |text|
  {
    if text != "" {
      assert text[0] in text && '\n' !in text[1..];
      CommentRuns(depth, text[1..]);
    }
  }

  lemma {:induction false} OverStays(depth: nat, text: string)
    ensures ReadText(Scan(Over, depth), text) == Scan(Over, depth)
    decreases |text|
  {
    if text != "" { OverStays(depth, text[1..]); }
  }

  /** Closed text read at any depth ends in code at that depth. */
  lemma {:induction false} ClosedReads(d: nat, code: Closed)
    requires Fine(code)
    ensures ReadText(Scan(Code, d), Spell(code)) == Scan(Code, d)
    decreases code
  {
    hide ReadText;
    var s := Scan(Code, d);
    match code
    case Nothing => ReadNothing(s);
    case Plain(c, more) =>
      ReadJoin(s, [c], Spell(more));
      ReadOne(s, c);
      ClosedReads(d, more);
    case Text(body, more) =>
      ReadJoin(s, "\"" + SpellBody(body) + "\"", Spell(more));
      ReadThree(s, "\"", SpellBody(body), "\"");
      ReadOne(s, '"');
      BodyReads(d, body);
      ReadOne(Scan(Quoted, d), '"');
      ClosedReads(d, more);
    case Remark(text, more) =>
      ReadJoin(s, ";" + text + "\n", Spell(more));
      ReadThree(s, ";", text, "\n");
      ReadOne(s, ';');
      CommentRuns(d, text);
      ReadOne(Scan(Comment, d), '\n');
      ClosedReads(d, more);
    case Group(inner, more) =>
      ReadJoin(s, "(" + Spell(inner) + ")", Spell(more));
      ReadThree(s, "(", Spell(inner), ")");
      ReadOne(s, '(');
      ClosedReads(d + 1, inner);
      ReadOne(Scan(Code, d + 1), ')');
      ClosedReads(d, more);
  }

  lemma ReadNothing(s: Scan)
    ensures ReadText(s, "") == s
  {
  }

  /** Each unclosed parenthesis adds one. */
  lemma {:induction false} LayersRead(layers: seq<Closed>)
    requires layers != [] && forall i | 0 <= i < |layers| :: Fine(layers[i])
    ensures ReadText(Scan(Code, 0), SpellLayers(layers)) == Scan(Code, |layers| - 1)
    decreases |layers|
  {
    hide ReadText, Fine;
    var last := layers[|layers| - 1];
    ClosedReads(|layers| - 1, last);
    if |layers| > 1 {
      var front := layers[..|layers| - 1];
      LayersRead(front);
      ReadThree(Scan(Code, 0), SpellLayers(front), "(", Spell(last));
      ReadOne(Scan(Code, |front| - 1), '(');
    }
  }

  lemma TailReads(d: nat, tail: Tail)
    requires FineTail(tail, d)
    ensures ReadText(Scan(Code, d), SpellTail(tail)) == Scan(ModeOf(tail), d)
  {
    hide ReadText;
    var s := Scan(Code, d);
    match tail
    case Closing => ReadNothing(s);
    case InString(body) =>
      ReadJoin(s, "\"", SpellBody(body));
      ReadOne(s, '"');
      BodyReads(d, body);
    case InEscape(body) =>
      ReadThree(s, "\"", SpellBody(body), "\\");
      ReadOne(s, '"');
      BodyReads(d, body);
      ReadOne(Scan(Quoted, d), '\\');
    case InRemark(text) =>
      ReadJoin(s, ";", text);
      ReadOne(s, ';');
      CommentRuns(d, text);
    case Beyond(rest) =>
      ReadJoin(s, ")", rest);
      ReadOne(s, ')');
      OverStays(0, rest);
  }

  /** Where the scan of a text ends, from how the text is written: at the depth of its
      unclosed parentheses, in what its tail leaves open, or over-closed for good. */
  lemma LayoutDecides(text: string, layers: seq<Closed>, tail: Tail)
    requires LaidOut(text, layers, tail)
    ensures ReadText(Scan(Code, 0), text) == Scan(ModeOf(tail), |layers| - 1)
    ensures Carried(ReadText(Scan(Code, 0), text)) == Ends(layers, tail)
  {
    hide ReadText;
    LayersRead(layers);
    ReadJoin(Scan(Code, 0), SpellLayers(layers), SpellTail(tail));
    TailReads(|layers| - 1, tail);
  }

  function Joined(a: Closed, b: Closed): (r: Closed)
    ensures Spell(r) == Spell(a) + Spell(b)
    ensures Fine(a) && Fine(b) ==> Fine(r)
  {
    match a
    case Nothing => b
    case Plain(c, more) => Plain(c, Joined(more, b))
    case Text(body, more) => Text(body, Joined(more, b))
    case Remark(text, more) => Remark(text, Joined(more, b))
    case Group(inner, more) => Group(inner, Joined(more, b))
  }

  /** Every text has a layout. */
  lemma {:induction false} EveryTextIsLaidOut(text: string) returns (layers: seq<Closed>, tail: Tail)
    ensures LaidOut(text, layers, tail)
    decreases |text|
  {
    if text == "" {
      layers, tail := [Nothing], Closing;
    } else {
      var front, c := text[..|text| - 1], text[|text| - 1];
      assert text == front + [c];
      layers, tail := EveryTextIsLaidOut(front);
      layers, tail := OneMore(front, layers, tail, c);
    }
  }

  lemma OneMore(text: string, layers: seq<Closed>, tail: Tail, c: char) returns (wider: seq<Closed>, end: Tail)
    requires LaidOut(text, layers, tail)
    ensures LaidOut(text + [c], wider, end)
  {
    hide Spell, SpellLayers, SpellBody, Fine, FineBody;
    wider, end := layers, tail;
    match tail
    case Closing =>
      wider, end := MoreCode(layers, c);
      assert text + [c] == SpellLayers(layers) + [c];
    case InString(body) =>
      BodyMore(body);
      if c == '\\' {
        end := InEscape(body);
      } else if c == '"' {
        end := Closing;
        wider := PutLast(layers, Text(body, Nothing));
      } else {
        end := InString(body + [Literal(c)]);
      }
    case InEscape(body) =>
      BodyMore(body);
      end := InString(body + [Pair(c)]);
      assert SpellTail(end) == SpellTail(tail) + [c];
    case InRemark(note) =>
      if c == '\n' {
        RemarkMore(note);
        end := Closing;
        wider := PutLast(layers, Remark(note, Nothing));
      } else {
        end := InRemark(note + [c]);
      }
    case Beyond(rest) =>
      end := Beyond(rest + [c]);
  }

  lemma MoreCode(layers: seq<Closed>, c: char) returns (wider: seq<Closed>, end: Tail)
    requires layers != [] && forall i | 0 <= i < |layers| :: Fine(layers[i])
    ensures LaidOut(SpellLayers(layers) + [c], wider, end)
  {
    NothingMore(c);
    hide Spell, SpellLayers, Fine;
    wider, end := layers, Closing;
    if c == '"' {
      end := InString([]);
    } else if c == ';' {
      end := InRemark("");
    } else if c == '(' {
      wider := layers + [Nothing];
      LayersLast(wider);
      assert wider[..|layers|] == layers;
    } else if c == ')' {
      if |layers| == 1 { end := Beyond(""); } else { wider := CloseLast(layers); }
    } else {
      wider := PutLast(layers, Plain(c, Nothing));
    }
  }

  lemma NothingMore(c: char)
    ensures Spell(Nothing) == "" && Fine(Nothing) && Spell(Plain(c, Nothing)) == [c]
    ensures c != '"' && c != ';' && c != '(' && c != ')' ==> Fine(Plain(c, Nothing))
  {
  }

  lemma BodyMore(body: seq<Inside>)
    ensures FineBody(body) ==> Fine(Text(body, Nothing))
    ensures Spell(Text(body, Nothing)) == "\"" + SpellBody(body) + "\""
    ensures forall c :: SpellBody(body + [Literal(c)]) == SpellBody(body) + [c]
    ensures forall c :: FineBody(body) && c != '"' && c != '\\' ==> FineBody(body + [Literal(c)])
    ensures forall c :: SpellBody(body + [Pair(c)]) == SpellBody(body) + "\\" + [c]
    ensures forall c :: FineBody(body) ==> FineBody(body + [Pair(c)])
  {
    forall x: Inside ensures (body + [x])[..|body|] == body && (body + [x])[|body|] == x {}
  }

  lemma RemarkMore(note: string)
    ensures Spell(Remark(note, Nothing)) == ";" + note + "\n" && ('\n' !in note ==> Fine(Remark(note, Nothing)))
  {
  }

  lemma PutLast(layers: seq<Closed>, piece: Closed) returns (wider: seq<Closed>)
    requires layers != [] && (forall i | 0 <= i < |layers| :: Fine(layers[i])) && Fine(piece)
    ensures |wider| == |layers| && (forall i | 0 <= i < |wider| :: Fine(wider[i]))
    ensures SpellLayers(wider) == SpellLayers(layers) + Spell(piece)
  {
    hide Spell, SpellLayers, Joined, Fine;
    var front, last := layers[..|layers| - 1], layers[|layers| - 1];
    wider := front + [Joined(last, piece)];
    assert wider[..|front|] == front;
    LayersLast(layers);
    LayersLast(wider);
    var before := Before(front);
    assert before + (Spell(last) + Spell(piece)) == before + Spell(last) + Spell(piece);
  }

  /** What stands before the last of some layers. */
  function Before(front: seq<Closed>): string {
    if front == [] then "" else SpellLayers(front) + "("
  }

  lemma LayersLast(layers: seq<Closed>)
    requires layers != []
    ensures SpellLayers(layers) == Before(layers[..|layers| - 1]) + Spell(layers[|layers| - 1])
  {
  }

  lemma CloseLast(layers: seq<Closed>) returns (wider: seq<Closed>)
    requires |layers| > 1 && forall i | 0 <= i < |layers| :: Fine(layers[i])
    ensures |wider| == |layers| - 1 && (forall i | 0 <= i < |wider| :: Fine(wider[i]))
    ensures SpellLayers(wider) == SpellLayers(layers) + ")"
  {
    var front, last := layers[..|layers| - 1], layers[|layers| - 1];
    GroupMore(last);
    hide Spell, SpellLayers, Fine;
    LayersLast(layers);
    wider := PutLast(front, Group(last, Nothing));
    assert SpellLayers(front) + ("(" + Spell(last) + ")") == SpellLayers(front) + "(" + Spell(last) + ")";
  }

  lemma GroupMore(inner: Closed)
    ensures Spell(Group(inner, Nothing)) == "(" + Spell(inner) + ")" && (Fine(inner) ==> Fine(Group(inner, Nothing)))
  {
  }

  /** What may have been open before a line: parentheses, and then perhaps a string. */
  function Opening(depth: nat, inString: bool): string {
    seq(depth, _ => '(') + if inString then "\"" else ""
  }

  lemma {:induction false} OpeningReads(depth: nat)
    ensures ReadText(Scan(Code, 0), seq(depth, _ => '(')) == Scan(Code, depth)
  {
    if depth > 0 {
      OpeningReads(depth - 1);
      assert seq(depth, _ => '(') == seq(depth - 1, _ => '(') + ['('];
      ReadJoin(Scan(Code, 0), seq(depth - 1, _ => '('), ['(']);
      ReadOne(Scan(Code, depth - 1), '(');
    }
  }

  lemma OpeningResumes(depth: nat, inString: bool)
    ensures ReadText(Scan(Code, 0), Opening(depth, inString)) == Resumed(depth, inString)
  {
    OpeningReads(depth);
    ReadJoin(Scan(Code, 0), seq(depth, _ => '('), if inString then "\"" else "");
    ReadOne(Scan(Code, depth), '"');
  }

  /** Going on from a depth and a string state is laying out what they stand for and the
      line after it; every layout of the two comes to the same. */
  lemma LineExactly(line: string, depth: nat, inString: bool)
    ensures var end := Carried(ReadText(Resumed(depth, inString), line));
            var text := Opening(depth, inString) + line;
            && (exists layers, tail :: LaidOut(text, layers, tail) && end == Ends(layers, tail))
            && (forall layers, tail :: LaidOut(text, layers, tail) ==> end == Ends(layers, tail))
  {
    hide ReadText, LaidOut, Opening, Carried, Resumed;
    var text := Opening(depth, inString) + line;
    OpeningResumes(depth, inString);
    ReadJoin(Scan(Code, 0), Opening(depth, inString), line);
    forall layers, tail | LaidOut(text, layers, tail)
      ensures Carried(ReadText(Resumed(depth, inString), line)) == Ends(layers, tail)
    {
      LayoutDecides(text, layers, tail);
    }
    var layers, tail := EveryTextIsLaidOut(text);
  }

  // ---------------------------------------------------------------------- one line

  predicate IsLine(text: string) {
    '\n' !in text
  }

  /** What is carried over a line's end: the depth, below zero once over-closed, and
      whether a string is open. */
  function Carried(s: Scan): (int, bool) {
    (if s.mode == Over then -1 else s.depth, s.mode == Quoted || s.mode == Escaped)
  }

  function Resumed(depth: nat, inString: bool): Scan {
    Scan(if inString then Quoted else Code, depth)
  }

  /** Advance the depth and the string state over one line: what they come to is how the
      text that was open before it, followed by the line, is laid out. */
  method ScanLine(line: string, depth: nat, inString: bool) returns (newDepth: int, nowInString: bool)
    requires IsLine(line)
    ensures (newDepth, nowInString) == Carried(ReadText(Resumed(depth, inString), line))
    ensures exists layers, tail ::
              LaidOut(Opening(depth, inString) + line, layers, tail) && (newDepth, nowInString) == Ends(layers, tail)
    ensures forall layers, tail ::
              LaidOut(Opening(depth, inString) + line, layers, tail) ==> (newDepth, nowInString) == Ends(layers, tail)
  {
    LineExactly(line, depth, inString);
    hide LaidOut, Opening, Ends;
    var d, quoted, index := depth, inString, 0;
    while index < |line|
      invariant index <= |line| + 1
      invariant index <= |line| ==>
                  ReadText(Resumed(depth, inString), line) == ReadText(Resumed(d, quoted), line[index..])
      invariant index > |line| ==> quoted && ReadText(Resumed(depth, inString), line) == Scan(Escaped, d)
      decreases |line| - index
    {
      var c, left := line[index], line[index..];
      assert left[0] == c && left[1..] == line[index + 1..];
      if quoted {
        if c == '\\' {
          if index + 1 < |line| { assert line[index + 1..][1..] == line[index + 2..]; }
          index := index + 2;
          continue;
        }
        if c == '"' { quoted := false; }
      } else if c == '"' {
        quoted := true;
      } else if c == ';' {
        CommentRuns(d, line[index + 1..]);
        break;
      } else if c == '(' {
        d := d + 1;
      } else if c == ')' {
        if d == 0 {
          OverStays(d, line[index + 1..]);
          return -1, quoted;
        }
        d := d - 1;
      }
      index := index + 1;
    }
    return d, quoted;
  }

  // -------------------------------------------------------------------- several lines

  function Join(lines: seq<string>): string {
    if lines == [] then ""
    else if |lines| == 1 then lines[0]
    else Join(lines[..|lines| - 1]) + "\n" + lines[|lines| - 1]
  }

  /** The lines with more text in the last. */
  function Longer(lines: seq<string>, text: string): (r: seq<string>)
    requires lines != []
    ensures |r| == |lines|
  {
    lines[..|lines| - 1] + [lines[|lines| - 1] + text]
  }

  lemma LongerTwice(lines: seq<string>, a: string, b: string)
    requires lines != []
    ensures Longer(Longer(lines, a), b) == Longer(lines, a + b) && Longer(lines, "") == lines
  {
    var last := lines[|lines| - 1];
    assert last + a + b == last + (a + b) && last + "" == last;
    assert Longer(lines, a)[..|lines| - 1] == lines[..|lines| - 1];
  }

  /** What stands between the ends of line. */
  function SplitLines(text: string): (r: seq<string>)
    ensures r != []
  {
    if text == "" then [""]
    else
      var before, last := SplitLines(text[..|text| - 1]), text[|text| - 1];
      if last == '\n' then before + [""] else Longer(before, [last])
  }

  lemma {:induction false} SplitLine(text: string, line: string)
    requires IsLine(line)
    ensures SplitLines(text + line) == Longer(SplitLines(text), line)
    decreases |line|
  {
    hide SplitLines, Longer;
    if line == "" {
      assert text + line == text;
      LongerTwice(SplitLines(text), "", "");
    } else {
      var front, c := line[..|line| - 1], line[|line| - 1];
      assert c in line && IsLine(front);
      assert line == front + [c] && text + line == text + front + [c];
      SplitLine(text, front);
      SplitNext(text + front, c);
      LongerTwice(SplitLines(text), front, [c]);
    }
  }

  lemma SplitNext(text: string, c: char)
    ensures SplitLines(text + [c]) == if c == '\n' then SplitLines(text) + [""] else Longer(SplitLines(text), [c])
  {
    hide Longer;
    assert (text + [c])[..|text|] == text;
  }

  /** Joining loses no line: the lines are what stands between the joined text's ends of
      line, in order. */
  lemma {:induction false} JoinExactly(lines: seq<string>)
    requires lines != [] && forall i | 0 <= i < |lines| :: IsLine(lines[i])
    ensures SplitLines(Join(lines)) == lines
    decreases |lines|
  {
    hide SplitLines;
    var front, line := lines[..|lines| - 1], lines[|lines| - 1];
    assert lines == front + [line];
    if front == [] {
      SplitNothing();
      SplitLine("", line);
      assert "" + line == line;
    } else {
      JoinExactly(front);
      SplitNext(Join(front), '\n');
      SplitLine(Join(front) + "\n", line);
      assert "" + line == line;
    }
  }

  lemma SplitNothing()
    ensures SplitLines("") == [""]
  {
  }

  /** The scan of the joined text, begun outside every form. */
  function Whole(lines: seq<string>): Scan {
    ReadText(Scan(Code, 0), Join(lines))
  }

  /** The joined text needs no further line: it is over-closed, or nothing is open. */
  predicate Finished(lines: seq<string>) {
    var (depth, inString) := Carried(Whole(lines));
    depth < 0 || (!inString && depth == 0)
  }

  /** Going on from what was carried over the line end is the scan of the joined text,
      an escape over the line end and a comment up to it included. */
  lemma NextLine(lines: seq<string>, line: string)
    requires lines != [] && Whole(lines).mode != Over
    ensures Whole(lines + [line]) == ReadText(Resumed(Carried(Whole(lines)).0, Carried(Whole(lines)).1), line)
  {
    var all := lines + [line];
    assert all[..|all| - 1] == lines;
    var before := Join(lines);
    assert Join(all) == before + "\n" + line;
    ReadJoin(Scan(Code, 0), before, "\n");
    ReadJoin(Scan(Code, 0), before + "\n", line);
    assert "\n"[1..] == "";
  }

  /** The lines are finished exactly when every parenthesis and string of theirs is closed,
      or one parenthesis closes nothing. */
  lemma FinishedExactly(lines: seq<string>)
    ensures Finished(lines) <==> exists layers, tail ::
              LaidOut(Join(lines), layers, tail)
              && (tail.Beyond? || (|layers| == 1 && (tail.Closing? || tail.InRemark?)))
  {
    hide ReadText, LaidOut, Join;
    forall layers, tail | LaidOut(Join(lines), layers, tail)
      ensures Carried(Whole(lines)) == Ends(layers, tail) && layers != []
    {
      LayoutDecides(Join(lines), layers, tail);
      HasLayers(Join(lines), layers, tail);
    }
    var layers, tail := EveryTextIsLaidOut(Join(lines));
  }

  lemma HasLayers(text: string, layers: seq<Closed>, tail: Tail)
    requires LaidOut(text, layers, tail)
    ensures layers != [] && (tail.Beyond? ==> |layers| == 1)
  {
  }

  lemma FirstLine(line: string)
    ensures Whole([line]) == ReadText(Resumed(0, false), line)
  {
  }

  // ------------------------------------------------------------------------ the reader

  /** What the terminal gives: a line, or an interrupt; the end of input is the end of
      the sequence. */
  datatype Input = Line(text: string) | Interrupt

  predicate Space(c: char) {
    var n := c as int;
    0x09 <= n <= 0x0d || 0x1c <= n <= 0x20 || n == 0x85 || n == 0xa0 || n == 0x1680 || 0x2000 <= n <= 0x200a
    || n == 0x2028 || n == 0x2029 || n == 0x202f || n == 0x205f || n == 0x3000
  }

  function StripLeft(text: string): string {
    if text != "" && Space(text[0]) then StripLeft(text[1..]) else text
  }

  function StripRight(text: string): string {
    if text != "" && Space(text[|text| - 1]) then StripRight(text[..|text| - 1]) else text
  }

  function Strip(text: string): string {
    StripRight(StripLeft(text))
  }

  predicate Blank(text: string) {
    Strip(text) == ""
  }

  predicate Leaves(text: string) {
    Strip(text) == "exit" || Strip(text) == "quit"
  }

  predicate AllSpace(text: string) {
    forall i | 0 <= i < |text| :: Space(text[i])
  }

  lemma {:induction false} LeftExactly(text: string) returns (before: string)
    ensures text == before + StripLeft(text) && AllSpace(before)
    ensures StripLeft(text) != "" ==> !Space(StripLeft(text)[0])
    decreases |text|
  {
    before := "";
    if text != "" && Space(text[0]) {
      var more := LeftExactly(text[1..]);
      before := [text[0]] + more;
    }
  }

  lemma {:induction false} RightExactly(text: string) returns (after: string)
    ensures text == StripRight(text) + after && AllSpace(after)
    ensures StripRight(text) != "" ==> !Space(StripRight(text)[|StripRight(text)| - 1])
    decreases |text|
  {
    after := "";
    if text != "" && Space(text[|text| - 1]) {
      var more := RightExactly(text[..|text| - 1]);
      after := more + [text[|text| - 1]];
    }
  }

  /** What is stripped is space on both sides, and what is left neither begins nor ends
      with any; a line is blank exactly when it is all space. */
  lemma StripExactly(text: string) returns (before: string, after: string)
    ensures text == before + Strip(text) + after && AllSpace(before) && AllSpace(after)
    ensures Strip(text) != "" ==> !Space(Strip(text)[0]) && !Space(Strip(text)[|Strip(text)| - 1])
    ensures Blank(text) <==> AllSpace(text)
  {
    hide StripLeft, StripRight, Space;
    before := LeftExactly(text);
    var left := StripLeft(text);
    after := RightExactly(left);
    if Strip(text) != "" {
      assert left[0] == Strip(text)[0];
      assert text[|before|] == left[0];
    }
  }

  predicate Bare(word: string) {
    word != "" && !Space(word[0]) && !Space(word[|word| - 1])
  }

  lemma {:induction false} LeftOf(before: string, word: string)
    requires AllSpace(before) && word != "" && !Space(word[0])
    ensures StripLeft(before + word) == word
    decreases |before|
  {
    if before == "" {
      assert before + word == word;
    } else {
      assert (before + word)[1..] == before[1..] + word;
      LeftOf(before[1..], word);
    }
  }

  lemma {:induction false} RightOf(word: string, after: string)
    requires AllSpace(after) && word != "" && !Space(word[|word| - 1])
    ensures StripRight(word + after) == word
    decreases |after|
  {
    if after == "" {
      assert word + after == word;
    } else {
      assert (word + after)[..|word + after| - 1] == word + after[..|after| - 1];
      RightOf(word, after[..|after| - 1]);
    }
  }

  /** Whatever space is put around a word is stripped. */
  lemma StripUndoes(before: string, word: string, after: string)
    requires AllSpace(before) && AllSpace(after) && Bare(word)
    ensures Strip(before + word + after) == word
  {
    hide StripLeft, StripRight, Space;
    assert (word + after)[0] == word[0];
    LeftOf(before, word + after);
    assert before + word + after == before + (word + after);
    RightOf(word, after);
  }

  /** `text` is `word` with nothing but space about it. */
  ghost predicate Around(text: string, word: string) {
    exists before, after :: AllSpace(before) && AllSpace(after) && text == before + word + after
  }

  /** A line ends the session exactly when it is one of the two words, space about it
      aside. */
  lemma LeavesExactly(text: string)
    ensures Leaves(text) <==> Around(text, "exit") || Around(text, "quit")
  {
    hide Strip, AllSpace;
    var a, b := StripExactly(text);
    forall before, after | AllSpace(before) && AllSpace(after) && text == before + "exit" + after ensures Leaves(text) {
      StripUndoes(before, "exit", after);
    }
    forall before, after | AllSpace(before) && AllSpace(after) && text == before + "quit" + after ensures Leaves(text) {
      StripUndoes(before, "quit", after);
    }
  }

  /** A stretch of input: a blank line between forms, a form, a buffer given up at an
      interrupt, the word that ends the session, or what was left at the end. */
  datatype Item =
    | Skipped(line: string)
    | Form(lines: seq<string>)
    | Dropped(lines: seq<string>)
    | Exit(line: string)
    | Rest(lines: seq<string>)

  function LinesOf(item: Item): seq<string> {
    match item
    case Skipped(line) => [line]
    case Exit(line) => [line]
    case Form(lines) => lines
    case Dropped(lines) => lines
    case Rest(lines) => lines
  }

  /** A buffer begins with a line that is neither blank nor an exit, and none of its
      beginnings is finished. */
  predicate Pending(lines: seq<string>, n: nat)
    requires n <= |lines|
  {
    && (lines != [] ==> !Blank(lines[0]) && !Leaves(lines[0]))
    && (forall k | 0 < k < n :: !Finished(lines[..k]))
  }

  predicate Open(lines: seq<string>) {
    Pending(lines, |lines|) && (lines != [] ==> !Finished(lines))
  }

  /** The item is right for its lines and for the input that follows them. */
  predicate Shaped(item: Item, tail: seq<Input>) {
    match item
    case Skipped(line) => Blank(line)
    case Exit(line) => !Blank(line) && Leaves(line)
    case Form(lines) => lines != [] && Pending(lines, |lines|) && Finished(lines)
    case Dropped(lines) => Open(lines) && tail != [] && tail[0] == Interrupt
    case Rest(lines) => Open(lines) && tail == []
  }

  function Lines(lines: seq<string>): (r: seq<Input>)
    ensures |r| == |lines|
    ensures forall i | 0 <= i < |lines| :: r[i] == Line(lines[i])
  {
    seq(|lines|, i requires 0 <= i < |lines| => Line(lines[i]))
  }

  predicate Starts(inputs: seq<Input>, item: Item) {
    var lines := LinesOf(item);
    |lines| <= |inputs| && inputs[..|lines|] == Lines(lines) && Shaped(item, inputs[|lines|..])
  }

  /** The input after an item and the interrupt that ended it, if one did. */
  function After(inputs: seq<Input>, item: Item): seq<Input>
    requires Starts(inputs, item)
  {
    var tail := inputs[|LinesOf(item)|..];
    if item.Dropped? then tail[1..] else tail
  }

  /** The items that account for the whole input, in order, up to an exit or the end. */
  predicate IsReading(inputs: seq<Input>, items: seq<Item>)
    decreases |items|
  {
    items != [] && Starts(inputs, items[0]) &&
    if items[0].Exit? || items[0].Rest? then |items| == 1
    else IsReading(After(inputs, items[0]), items[1..])
  }

  /** What the reader yields: each form, and what was left when there is any. */
  function Yields(items: seq<Item>): seq<string> {
    if items == [] then []
    else
      var last := items[|items| - 1];
      var before := Yields(items[..|items| - 1]);
      if last.Form? || (last.Rest? && last.lines != []) then before + [Join(last.lines)] else before
  }

  /** The items lead from one input to what is left of it. */
  predicate Leads(inputs: seq<Input>, items: seq<Item>, left: seq<Input>)
    decreases |items|
  {
    if items == [] then left == inputs
    else
      && !items[0].Exit? && !items[0].Rest? && Starts(inputs, items[0])
      && Leads(After(inputs, items[0]), items[1..], left)
  }

  lemma {:induction false} LeadsOn(inputs: seq<Input>, items: seq<Item>, left: seq<Input>, item: Item)
    requires Leads(inputs, items, left) && Starts(left, item) && !item.Exit? && !item.Rest?
    ensures Leads(inputs, items + [item], After(left, item))
    decreases |items|
  {
    hide Starts, After;
    if items != [] {
      assert (items + [item])[1..] == items[1..] + [item];
      LeadsOn(After(inputs, items[0]), items[1..], left, item);
    } else {
      assert (items + [item])[1..] == [];
    }
  }

  lemma {:induction false} LeadsEnds(inputs: seq<Input>, items: seq<Item>, left: seq<Input>, item: Item)
    requires Leads(inputs, items, left) && Starts(left, item) && (item.Exit? || item.Rest?)
    ensures IsReading(inputs, items + [item])
    decreases |items|
  {
    hide Starts, After;
    if items != [] {
      assert (items + [item])[1..] == items[1..] + [item];
      LeadsEnds(After(inputs, items[0]), items[1..], left, item);
    }
  }

  lemma YieldsOn(items: seq<Item>, item: Item)
    ensures Yields(items + [item]) ==
            if item.Form? || (item.Rest? && item.lines != []) then Yields(items) + [Join(item.lines)]
            else Yields(items)
  {
    assert (items + [item])[..|items|] == items;
  }

  predicate Yielded(item: Item) {
    item.Form? || (item.Rest? && item.lines != [])
  }

  /** The texts stand, in order, for the items at these positions, which are all that yield. */
  ghost predicate YieldsAt(items: seq<Item>, ks: seq<nat>, texts: seq<string>) {
    && |ks| == |texts| && Ascending(ks)
    && (forall i | 0 <= i < |ks| :: ks[i] < |items| && texts[i] == Join(LinesOf(items[ks[i]])))
    && (forall k: nat :: k in ks <==> k < |items| && Yielded(items[k]))
  }

  lemma YieldsLast(items: seq<Item>, ks: seq<nat>, texts: seq<string>, item: Item)
    requires YieldsAt(items, ks, texts)
    ensures Yielded(item) ==> YieldsAt(items + [item], ks + [|items|], texts + [Join(LinesOf(item))])
    ensures !Yielded(item) ==> YieldsAt(items + [item], ks, texts)
  {
    hide Join, LinesOf, Yielded;
    var all := items + [item];
    assert forall k | 0 <= k < |items| :: all[k] == items[k];
  }

  /** What is yielded is the joined lines of every form and of what was left, in order. */
  lemma {:induction false} YieldsExactly(items: seq<Item>) returns (ks: seq<nat>)
    ensures YieldsAt(items, ks, Yields(items))
    decreases |items|
  {
    hide YieldsAt, Join;
    ks := [];
    if items == [] {
      NothingYields();
    } else {
      var front, last := items[..|items| - 1], items[|items| - 1];
      assert items == front + [last];
      var before := YieldsExactly(front);
      YieldsLast(front, before, Yields(front), last);
      ks := if Yielded(last) then before + [|front|] else before;
    }
  }

  lemma NothingYields()
    ensures YieldsAt([], [], [])
  {
  }

  predicate AllLines(inputs: seq<Input>) {
    forall i | 0 <= i < |inputs| && inputs[i].Line? :: IsLine(inputs[i].text)
  }

  /** What the reader holds is what it carried over its buffer, which no finished form
      or interrupt has emptied yet. */
  ghost predicate Buffering(lines: seq<string>, depth: nat, inString: bool, hasContent: bool, left: seq<Input>,
                            rest: seq<Input>) {
    && left == Lines(lines) + rest && Open(lines) && (hasContent <==> lines != [])
    && (lines == [] ==> depth == 0 && !inString)
    && (lines != [] ==> Carried(Whole(lines)) == (depth, inString))
  }

  /** The reader without its prompts. */
  method Forms(inputs: seq<Input>) returns (forms: seq<string>)
    requires AllLines(inputs)
    ensures exists items :: IsReading(inputs, items) && forms == Yields(items)
  {
    hide Blank, Leaves, Finished, Open, Pending, Whole, Join, Carried, Starts, After, Yields, Leads, IsReading;
    forms := [];
    ghost var items: seq<Item>, left := [], inputs;
    var lines: seq<string>, depth: nat, inString, hasContent := [], 0, false, false;
    NothingYet(inputs);
    for i := 0 to |inputs|
      invariant Leads(inputs, items, left) && forms == Yields(items)
      invariant Buffering(lines, depth, inString, hasContent, left, inputs[i..])
    {
      var rest := inputs[i + 1..];
      assert inputs[i..] == [inputs[i]] + rest;
      match inputs[i] {
        case Interrupt =>
          Interrupted(left, lines, rest);
          LeadsOn(inputs, items, left, Dropped(lines));
          YieldsOn(items, Dropped(lines));
          items, left := items + [Dropped(lines)], rest;
          lines, depth, inString, hasContent := [], 0, false, false;
          Emptied(rest);
        case Line(line) =>
          if !hasContent && Blank(line) {
            OneLine(left, Skipped(line), rest);
            LeadsOn(inputs, items, left, Skipped(line));
            YieldsOn(items, Skipped(line));
            items, left := items + [Skipped(line)], rest;
            Emptied(rest);
            continue;
          }
          if lines == [] && Leaves(line) {
            OneLine(left, Exit(line), rest);
            LeadsEnds(inputs, items, left, Exit(line));
            YieldsOn(items, Exit(line));
            items := items + [Exit(line)];
            return;
          }
          var newDepth, nowInString := ScanLine(line, depth, inString);
          Scanned(lines, depth, inString, line);
          ghost var before := lines;
          lines, hasContent := lines + [line], true;
          if newDepth < 0 || (!nowInString && newDepth <= 0) {
            FormEnds(left, before, line, rest, newDepth, nowInString);
            LeadsOn(inputs, items, left, Form(lines));
            YieldsOn(items, Form(lines));
            items, left := items + [Form(lines)], rest;
            forms := forms + [Join(lines)];
            lines, depth, inString, hasContent := [], 0, false, false;
            Emptied(rest);
          } else {
            FormGrows(left, before, line, rest, newDepth, nowInString);
            depth, inString := newDepth, nowInString;
          }
      }
    }
    EndOfInput(left, lines, inputs[|inputs|..]);
    LeadsEnds(inputs, items, left, Rest(lines));
    YieldsOn(items, Rest(lines));
    items := items + [Rest(lines)];
    if hasContent { forms := forms + [Join(lines)]; }
  }

  lemma NothingYet(inputs: seq<Input>)
    ensures Leads(inputs, [], inputs) && Yields([]) == []
    ensures Buffering([], 0, false, false, inputs, inputs[0..])
  {
    assert Lines([]) + inputs[0..] == inputs;
  }

  lemma Emptied(rest: seq<Input>)
    ensures Buffering([], 0, false, false, rest, rest)
  {
    assert Lines([]) + rest == rest;
  }

  lemma Interrupted(left: seq<Input>, lines: seq<string>, rest: seq<Input>)
    requires left == Lines(lines) + ([Interrupt] + rest) && Open(lines)
    ensures Starts(left, Dropped(lines)) && After(left, Dropped(lines)) == rest
  {
    hide Open;
    assert left[..|lines|] == Lines(lines) && left[|lines|..] == [Interrupt] + rest;
  }

  lemma OneLine(left: seq<Input>, item: Item, rest: seq<Input>)
    requires item.Skipped? || item.Exit?
    requires left == Lines([]) + ([Line(item.line)] + rest) && Shaped(item, rest)
    ensures Starts(left, item) && After(left, item) == rest
  {
    hide Shaped;
    assert left[..1] == Lines([item.line]) && left[1..] == rest;
  }

  lemma Scanned(lines: seq<string>, depth: nat, inString: bool, line: string)
    requires lines == [] ==> depth == 0 && !inString
    requires lines != [] ==> Carried(Whole(lines)) == (depth, inString)
    ensures Carried(Whole(lines + [line])) == Carried(ReadText(Resumed(depth, inString), line))
  {
    hide Whole;
    if lines == [] {
      FirstLine(line);
      assert lines + [line] == [line];
    } else {
      NextLine(lines, line);
    }
  }

  lemma Grows(lines: seq<string>, line: string)
    requires Open(lines) && (lines == [] ==> !Blank(line) && !Leaves(line))
    ensures Pending(lines + [line], |lines| + 1)
  {
    hide Blank, Leaves, Finished;
    var all := lines + [line];
    forall k | 0 < k < |all| ensures !Finished(all[..k]) {
      assert all[..k] == lines[..k];
      if k == |lines| { assert lines[..k] == lines; }
    }
  }

  lemma FormEnds(left: seq<Input>, lines: seq<string>, line: string, rest: seq<Input>, depth: int, inString: bool)
    requires left == Lines(lines) + ([Line(line)] + rest)
    requires Open(lines) && (lines == [] ==> !Blank(line) && !Leaves(line))
    requires Carried(Whole(lines + [line])) == (depth, inString) && (depth < 0 || (!inString && depth <= 0))
    ensures Starts(left, Form(lines + [line])) && After(left, Form(lines + [line])) == rest
  {
    hide Open, Shaped, Blank, Leaves, Whole;
    var all := lines + [line];
    FormShaped(lines, line, rest, depth, inString);
    assert left[..|all|] == Lines(all) && left[|all|..] == rest;
  }

  lemma FormShaped(lines: seq<string>, line: string, rest: seq<Input>, depth: int, inString: bool)
    requires Open(lines) && (lines == [] ==> !Blank(line) && !Leaves(line))
    requires Carried(Whole(lines + [line])) == (depth, inString) && (depth < 0 || (!inString && depth <= 0))
    ensures Shaped(Form(lines + [line]), rest)
  {
    Grows(lines, line);
    hide Open, Pending, Blank, Leaves, Whole;
  }

  lemma FormGrows(left: seq<Input>, lines: seq<string>, line: string, rest: seq<Input>, depth: int, inString: bool)
    requires left == Lines(lines) + ([Line(line)] + rest)
    requires Open(lines) && (lines == [] ==> !Blank(line) && !Leaves(line))
    requires Carried(Whole(lines + [line])) == (depth, inString) && !(depth < 0 || (!inString && depth <= 0))
    ensures Buffering(lines + [line], depth, inString, true, left, rest)
  {
    Grows(lines, line);
    hide Pending, Blank, Leaves, Whole;
    assert left == Lines(lines + [line]) + rest;
  }

  lemma EndOfInput(left: seq<Input>, lines: seq<string>, rest: seq<Input>)
    requires left == Lines(lines) + rest && rest == [] && Open(lines)
    ensures Starts(left, Rest(lines))
  {
    hide Open;
    assert left[..|lines|] == Lines(lines) && left[|lines|..] == [];
  }

  // ------------------------------------------------------------------ what it comes to

  lemma LinesPrefix(inputs: seq<Input>, a: seq<string>, b: seq<string>)
    requires |a| <= |b| <= |inputs| && inputs[..|a|] == Lines(a) && inputs[..|b|] == Lines(b)
    ensures a == b[..|a|] && (a != [] ==> a[0] == b[0])
    ensures |a| < |b| ==> inputs[|a|..] != [] && inputs[|a|..][0] != Interrupt
  {
    forall i | 0 <= i < |a| ensures a[i] == b[i] {
      assert inputs[..|a|][i] == Line(a[i]) && inputs[..|b|][i] == Line(b[i]);
    }
    if |a| < |b| { assert inputs[..|b|][|a|] == Line(b[|a|]); }
  }

  /** The same input never starts with two different items. */
  lemma ItemUnique(inputs: seq<Input>, a: Item, b: Item)
    requires Starts(inputs, a) && Starts(inputs, b) && |LinesOf(a)| <= |LinesOf(b)|
    ensures a == b
  {
    hide Blank, Leaves, Finished;
    var p, q := LinesOf(a), LinesOf(b);
    LinesPrefix(inputs, p, q);
    if |p| == |q| { assert q[..|p|] == q; }
  }

  /** The input determines its reading, so the forms yielded are the only right ones. */
  lemma {:induction false} ReadingUnique(inputs: seq<Input>, a: seq<Item>, b: seq<Item>)
    requires IsReading(inputs, a) && IsReading(inputs, b)
    ensures a == b
    decreases |a|
  {
    hide Starts, After;
    if |LinesOf(a[0])| <= |LinesOf(b[0])| { ItemUnique(inputs, a[0], b[0]); }
    else { ItemUnique(inputs, b[0], a[0]); }
    if !a[0].Exit? && !a[0].Rest? { ReadingUnique(After(inputs, a[0]), a[1..], b[1..]); }
    assert a == [a[0]] + a[1..] && b == [b[0]] + b[1..];
  }

  function AllOf(items: seq<Item>): seq<string> {
    if items == [] then [] else LinesOf(items[0]) + AllOf(items[1..])
  }

  function Typed(inputs: seq<Input>): seq<string> {
    if inputs == [] then []
    else if inputs[0].Line? then [inputs[0].text] + Typed(inputs[1..])
    else Typed(inputs[1..])
  }

  lemma {:induction false} TypedLines(lines: seq<string>, tail: seq<Input>)
    ensures Typed(Lines(lines) + tail) == lines + Typed(tail)
    decreases |lines|
  {
    if lines == [] {
      assert Lines(lines) + tail == tail;
    } else {
      var inputs := Lines(lines) + tail;
      assert inputs[0] == Line(lines[0]) && inputs[1..] == Lines(lines[1..]) + tail;
      TypedLines(lines[1..], tail);
    }
  }

  /** No line is lost before an exit: a session that ends with the input keeps every
      line typed, in order, in exactly one item. Lines outside the forms yielded are
      blank ones between forms and those given up at an interrupt. */
  lemma {:induction false} NoLineLost(inputs: seq<Input>, items: seq<Item>)
    requires IsReading(inputs, items)
    ensures items[|items| - 1].Rest? ==> AllOf(items) == Typed(inputs)
    ensures items[|items| - 1].Exit? ==> |AllOf(items)| <= |Typed(inputs)| && Typed(inputs)[..|AllOf(items)|] == AllOf(items)
    ensures items[|items| - 1].Rest? || items[|items| - 1].Exit?
    decreases |items|
  {
    hide Shaped, LinesOf, Typed, Starts, After;
    StartsTyped(inputs, items[0]);
    AllOfMore(items);
    if !items[0].Exit? && !items[0].Rest? {
      NoLineLost(After(inputs, items[0]), items[1..]);
      var more, typed := AllOf(items[1..]), Typed(After(inputs, items[0]));
      if items[|items| - 1].Exit? { assert typed[..|more|] == more; }
    }
  }

  lemma AllOfMore(items: seq<Item>)
    requires items != []
    ensures AllOf(items) == LinesOf(items[0]) + AllOf(items[1..])
    ensures |items| == 1 ==> AllOf(items) == LinesOf(items[0])
  {
  }

  /** What was typed is an item's lines and what was typed after it. */
  lemma StartsTyped(inputs: seq<Input>, item: Item)
    requires Starts(inputs, item)
    ensures Typed(inputs) == LinesOf(item) + Typed(After(inputs, item))
    ensures item.Rest? ==> Typed(inputs) == LinesOf(item)
  {
    var lines := LinesOf(item);
    var tail := inputs[|lines|..];
    hide LinesOf, Shaped;
    assert inputs == Lines(lines) + tail;
    TypedLines(lines, tail);
    if item.Rest? { RestEnds(item, tail); }
    if item.Dropped? { DroppedEnds(item, tail); }
  }

  lemma RestEnds(item: Item, tail: seq<Input>)
    requires item.Rest? && Shaped(item, tail)
    ensures tail == []
  {
  }

  lemma DroppedEnds(item: Item, tail: seq<Input>)
    requires item.Dropped? && Shaped(item, tail)
    ensures tail != [] && tail[0] == Interrupt
  {
  }

  /** Without interrupts nothing is given up: every line stands in a form yielded or is
      a blank line between forms. */
  lemma {:induction false} NothingGivenUp(inputs: seq<Input>, items: seq<Item>)
    requires IsReading(inputs, items)
    requires forall i | 0 <= i < |inputs| :: inputs[i].Line?
    ensures forall i | 0 <= i < |items| :: !items[i].Dropped?
    decreases |items|
  {
    var item := items[0];
    var tail := inputs[|LinesOf(item)|..];
    hide Shaped, LinesOf;
    assert forall i | 0 <= i < |tail| :: tail[i] == inputs[|LinesOf(item)| + i];
    if item.Dropped? { DroppedEnds(item, tail); }
    if !item.Exit? && !item.Rest? {
      NothingGivenUp(tail, items[1..]);
      assert forall i | 0 < i < |items| :: items[i] == items[1..][i - 1];
    }
  }
}
