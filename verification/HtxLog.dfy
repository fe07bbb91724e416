/**
Parsing an HTX error log: `htx_error_log_to_list` and `build_error_dict` of os_utils_keywords.py, on the lines of the
log.
*/
module HtxLog {

  import opened Options

  predicate IsComment(line: string) {
    "#" <= line
  }

  predicate IsDash(line: string) {
    "-" <= line
  }

  // ----- The list of records -----

  /** The parser's state between two lines. */
  datatype Parser = Parser(inRecord: bool, current: seq<string>, records: seq<seq<string>>)

  const START := Parser(false, [], [])

  function Step(p: Parser, line: string): Parser {
    if IsComment(line) then p
    else if IsDash(line) && !p.inRecord then p.(inRecord := true)
    else if IsDash(line) then Parser(false, [], p.records + [p.current])
    else if p.inRecord then p.(current := p.current + [line])
    else p
  }

  function Feed(p: Parser, lines: seq<string>): Parser
    decreases |lines|
  {
    if lines == [] then p else Step(Feed(p, lines[..|lines| - 1]), lines[|lines| - 1])
  }

  function Records(lines: seq<string>): seq<seq<string>> {
    Feed(START, lines).records
  }

  /** `htx_error_log_to_list` */
  method HtxErrorLogToList(lines: seq<string>) returns (errorList: seq<seq<string>>)
    ensures errorList == Records(lines)
  {
    errorList := [];
    var tempErrorList: seq<string> := [];
    var parseWalk := false;
    var i := 0;
    while i < |lines|
      invariant 0 <= i <= |lines|
      invariant Feed(START, lines[..i]) == Parser(parseWalk, tempErrorList, errorList)
    {
      var line := lines[i];
      assert lines[..i + 1][..i] == lines[..i];
      i := i + 1;
      if IsComment(line) {
        continue;
      }
      if IsDash(line) && !parseWalk {
        parseWalk := true;
        continue;
      } else if IsDash(line) {
        errorList := errorList + [tempErrorList];
        parseWalk := false;
        tempErrorList := [];
      } else if parseWalk {
        tempErrorList := tempErrorList + [line];
      }
    }
    assert lines[..i] == lines;
  }

  // ----- What a log is made of -----

  predicate Begins(line: string, c: char) {
    line != "" && line[0] == c
  }

  /** A log is a list of blocks: a comment or a stray line outside any record, or a record between two dash lines, with
      comments among its lines. */
  datatype Block = Note(line: string) | Stray(line: string) | Record(first: string, body: seq<string>, last: string)

  predicate ValidBody(body: seq<string>) {
    forall i :: 0 <= i < |body| ==> !Begins(body[i], '-')
  }

  predicate ValidBlock(block: Block) {
    match block
    case Note(line) => Begins(line, '#')
    case Stray(line) => !Begins(line, '#') && !Begins(line, '-')
    case Record(first, body, last) => Begins(first, '-') && Begins(last, '-') && ValidBody(body)
  }

  predicate ValidBlocks(blocks: seq<Block>) {
    forall i :: 0 <= i < |blocks| ==> ValidBlock(blocks[i])
  }

  /** A last record that is never closed: its first dash line and its lines. */
  datatype Tail = Complete | Unterminated(first: string, body: seq<string>)

  predicate ValidTail(tail: Tail) {
    tail.Unterminated? ==> Begins(tail.first, '-') && ValidBody(tail.body)
  }

  function RenderBlock(block: Block): seq<string> {
    match block
    case Note(line) => [line]
    case Stray(line) => [line]
    case Record(first, body, last) => [first] + body + [last]
  }

  function RenderBlocks(blocks: seq<Block>): seq<string>
    decreases |blocks|
  {
    if blocks == [] then [] else RenderBlocks(blocks[..|blocks| - 1]) + RenderBlock(blocks[|blocks| - 1])
  }

  function RenderTail(tail: Tail): seq<string> {
    match tail
    case Complete => []
    case Unterminated(first, body) => [first] + body
  }

  function Render(blocks: seq<Block>, tail: Tail): seq<string> {
    RenderBlocks(blocks) + RenderTail(tail)
  }

  /** The lines of a record without its comments. */
  function Contents(body: seq<string>): seq<string>
    decreases |body|
  {
    if body == [] then []
    else Contents(body[..|body| - 1]) + if Begins(body[|body| - 1], '#') then [] else [body[|body| - 1]]
  }

  function RecordsOf(blocks: seq<Block>): seq<seq<string>>
    decreases |blocks|
  {
    if blocks == [] then []
    else
      var n := |blocks| - 1;
      RecordsOf(blocks[..n]) + if blocks[n].Record? then [Contents(blocks[n].body)] else []
  }

  lemma {:induction false} FeedAppends(p: Parser, a: seq<string>, b: seq<string>)
    ensures Feed(p, a + b) == Feed(Feed(p, a), b)
    decreases |b|
  {
    if b == [] {
      assert a + b == a;
    } else {
      assert (a + b)[..|a + b| - 1] == a + b[..|b| - 1];
      FeedAppends(p, a, b[..|b| - 1]);
    }
  }

  lemma FeedOne(p: Parser, line: string)
    ensures Feed(p, [line]) == Step(p, line)
  {
    assert [line][..0] == [];
  }

  lemma {:induction false} FeedBody(p: Parser, body: seq<string>)
    requires p.inRecord && ValidBody(body)
    ensures Feed(p, body) == p.(current := p.current + Contents(body))
    decreases |body|
  {
    if body == [] {
      assert p.current + [] == p.current;
    } else {
      var init := body[..|body| - 1];
      FeedBody(p, init);
      assert p.current + Contents(body) == (p.current + Contents(init)) + Contents(body)[|Contents(init)|..];
    }
  }

  lemma FeedBlock(records: seq<seq<string>>, block: Block)
    requires ValidBlock(block)
    ensures Feed(Parser(false, [], records), RenderBlock(block))
            == Parser(false, [], records + if block.Record? then [Contents(block.body)] else [])
  {
    var p := Parser(false, [], records);
    match block
    case Note(line) => FeedOne(p, line); assert records + [] == records;
    case Stray(line) => FeedOne(p, line); assert records + [] == records;
    case Record(first, body, last) =>
      assert first[0] == '-' && last[0] == '-';
      FeedAppends(p, [first] + body, [last]);
      FeedAppends(p, [first], body);
      FeedOne(p, first);
      FeedBody(Step(p, first), body);
      assert [] + Contents(body) == Contents(body);
      FeedOne(Parser(true, Contents(body), records), last);
  }

  lemma {:induction false} FeedBlocks(blocks: seq<Block>)
    requires ValidBlocks(blocks)
    ensures Feed(START, RenderBlocks(blocks)) == Parser(false, [], RecordsOf(blocks))
    decreases |blocks|
  {
    if blocks != [] {
      var n := |blocks| - 1;
      FeedBlocks(blocks[..n]);
      FeedAppends(START, RenderBlocks(blocks[..n]), RenderBlock(blocks[n]));
      FeedBlock(RecordsOf(blocks[..n]), blocks[n]);
    }
  }

  /** Round trip: parsing gives the records back in order, each without its comments; what lies outside the records
      and a record that is never closed are dropped. */
  lemma RenderedParses(blocks: seq<Block>, tail: Tail)
    requires ValidBlocks(blocks) && ValidTail(tail)
    ensures Records(Render(blocks, tail)) == RecordsOf(blocks)
  {
    FeedBlocks(blocks);
    FeedAppends(START, RenderBlocks(blocks), RenderTail(tail));
    if tail.Unterminated? {
      var p := Parser(false, [], RecordsOf(blocks));
      assert tail.first[0] == '-';
      FeedAppends(p, [tail.first], tail.body);
      FeedOne(p, tail.first);
      FeedBody(Step(p, tail.first), tail.body);
    }
  }

  /** Every log is such a rendering, so the round trip says what the parser does on every input. */
  lemma {:induction false} EveryLogIsRendered(lines: seq<string>) returns (blocks: seq<Block>, tail: Tail)
    ensures ValidBlocks(blocks) && ValidTail(tail) && Render(blocks, tail) == lines
    decreases |lines|
  {
    if lines == [] {
      blocks, tail := [], Complete;
    } else {
      var line := lines[|lines| - 1];
      blocks, tail := EveryLogIsRendered(lines[..|lines| - 1]);
      assert lines == Render(blocks, tail) + [line];
      match tail
      case Unterminated(first, body) =>
        if Begins(line, '-') {
          blocks := OneMoreBlock(blocks, Record(first, body, line));
          tail := Complete;
        } else {
          tail := Unterminated(first, body + [line]);
          assert [first] + (body + [line]) == ([first] + body) + [line];
        }
      case Complete =>
        if Begins(line, '-') {
          tail := Unterminated(line, []);
        } else {
          blocks := OneMoreBlock(blocks, if Begins(line, '#') then Note(line) else Stray(line));
        }
    }
  }

  lemma OneMoreBlock(blocks: seq<Block>, block: Block) returns (more: seq<Block>)
    requires ValidBlocks(blocks) && ValidBlock(block)
    ensures ValidBlocks(more) && RenderBlocks(more) == RenderBlocks(blocks) + RenderBlock(block)
  {
    more := blocks + [block];
    assert more[..|blocks|] == blocks;
  }

  // ----- Empty lines -----

  /** The number of dash lines. */
  function Dashes(lines: seq<string>): nat
    decreases |lines|
  {
    if lines == [] then 0 else Dashes(lines[..|lines| - 1]) + if Begins(lines[|lines| - 1], '-') then 1 else 0
  }

  /** The line stands after an odd number of dash lines: a record has been opened and not closed. */
  predicate Inside(lines: seq<string>, i: nat) {
    i < |lines| && Dashes(lines[..i]) % 2 == 1
  }

  predicate DashFollows(lines: seq<string>, i: nat) {
    exists j :: i < j < |lines| && Begins(lines[j], '-')
  }

  /** The line stands at position i, inside a record, and the record is closed, or not, by the end of the lines. */
  predicate StandsIn(lines: seq<string>, line: string, closed: bool, i: nat) {
    Inside(lines, i) && lines[i] == line && (DashFollows(lines, i) <==> closed)
  }

  ghost predicate Stands(lines: seq<string>, line: string, closed: bool) {
    exists i: nat :: StandsIn(lines, line, closed, i)
  }

  predicate InSome(records: seq<seq<string>>, line: string) {
    exists k :: 0 <= k < |records| && line in records[k]
  }

  /** Where a content line stands once there is one more line. */
  lemma StandsOneMore(lines: seq<string>, last: string, line: string)
    requires !Begins(line, '#') && !Begins(line, '-')
    ensures Stands(lines + [last], line, true) <==>
            Stands(lines, line, true) || (Begins(last, '-') && Stands(lines, line, false))
    ensures Stands(lines + [last], line, false) <==>
            !Begins(last, '-') && (Stands(lines, line, false) || (last == line && Dashes(lines) % 2 == 1))
  {
    var more := lines + [last];
    forall i: nat | i < |lines|
      ensures Inside(more, i) == Inside(lines, i) && more[i] == lines[i]
      ensures DashFollows(more, i) <==> DashFollows(lines, i) || Begins(last, '-')
    {
      assert more[..i] == lines[..i];
      if DashFollows(lines, i) {
        var j :| i < j < |lines| && Begins(lines[j], '-');
        assert more[j] == lines[j];
      }
      assert more[|lines|] == last;
    }
    assert more[..|lines|] == lines;
    assert !DashFollows(more, |lines|);
    if Stands(lines, line, true) {
      var i: nat :| StandsIn(lines, line, true, i);
      assert StandsIn(more, line, true, i);
    }
    if Stands(lines, line, false) {
      var i: nat :| StandsIn(lines, line, false, i);
      assert StandsIn(more, line, Begins(last, '-'), i);
    }
    if !Begins(last, '-') && last == line && Dashes(lines) % 2 == 1 {
      assert StandsIn(more, line, false, |lines|);
    }
    forall i: nat, closed: bool | StandsIn(more, line, closed, i) && i < |lines|
      ensures StandsIn(lines, line, true, i) || StandsIn(lines, line, false, i)
    {
    }
  }

  /** What the parser holds of a content line after the lines: it is in a finished record where the record is closed,
      and in the current one where it is not. */
  ghost predicate Holds(p: Parser, lines: seq<string>, line: string) {
    && (p.inRecord <==> Dashes(lines) % 2 == 1)
    && (!p.inRecord ==> p.current == [])
    && (line in p.current <==> Stands(lines, line, false))
    && (InSome(p.records, line) <==> Stands(lines, line, true))
  }

  lemma InOneMore(records: seq<seq<string>>, current: seq<string>, line: string)
    ensures InSome(records + [current], line) <==> InSome(records, line) || line in current
  {
    var more := records + [current];
    assert more[|records|] == current;
    forall k | 0 <= k < |records|
      ensures more[k] == records[k]
    {
    }
  }

  lemma HoldsOneMore(p: Parser, lines: seq<string>, last: string, line: string)
    requires Holds(p, lines, line) && !Begins(line, '#') && !Begins(line, '-')
    ensures Holds(Step(p, last), lines + [last], line)
  {
    StandsOneMore(lines, last, line);
    InOneMore(p.records, p.current, line);
    assert (lines + [last])[..|lines|] == lines;
    assert IsDash(last) <==> Begins(last, '-');
    assert IsComment(last) <==> Begins(last, '#');
  }

  lemma {:induction false} ParserHolds(lines: seq<string>, line: string)
    requires !Begins(line, '#') && !Begins(line, '-')
    ensures Holds(Feed(START, lines), lines, line)
    decreases |lines|
  {
    if lines != [] {
      var init, last := lines[..|lines| - 1], lines[|lines| - 1];
      ParserHolds(init, line);
      HoldsOneMore(Feed(START, init), init, last, line);
      assert init + [last] == lines;
    }
  }

  /** A content line is in a parsed record exactly when it stands between two dash lines of a closed record. */
  lemma ParsedExactly(lines: seq<string>, line: string)
    requires !Begins(line, '#') && !Begins(line, '-')
    ensures InSome(Records(lines), line)
            <==> exists i: nat :: Inside(lines, i) && lines[i] == line && DashFollows(lines, i)
  {
    ParserHolds(lines, line);
    if Stands(lines, line, true) {
      var i: nat :| StandsIn(lines, line, true, i);
    }
    forall i: nat | Inside(lines, i) && lines[i] == line && DashFollows(lines, i)
      ensures StandsIn(lines, line, true, i)
    {
    }
  }

  /** The documented promise, that empty lines are not added, is kept exactly when no empty line stands inside a closed
      record. */
  lemma EmptyLinesExactly(lines: seq<string>)
    ensures (forall k :: 0 <= k < |Records(lines)| ==> "" !in Records(lines)[k])
            <==> forall i: nat :: Inside(lines, i) && DashFollows(lines, i) ==> lines[i] != ""
  {
    ParsedExactly(lines, "");
  }

  /** An empty line between two dash lines is added. */
  lemma EmptyLineIsAdded()
    ensures Records(["-", "", "-"]) == [[""]]
  {
    var lines := ["-", "", "-"];
    assert lines[..2] == ["-", ""] && ["-", ""][..1] == ["-"] && ["-"][..0] == [];
    assert "-"[0] == '-';
    assert Feed(START, ["-"]) == Parser(true, [], []);
    assert [] + [""] == [""];
    assert Feed(START, ["-", ""]) == Parser(true, [""], []);
    assert Feed(START, lines) == Parser(false, [], [] + [[""]]);
  }

  // ----- The dictionary of records -----

  predicate IsSeparator(c: char) {
    c == ':' || c == '='
  }

  predicate HasSeparator(text: string) {
    exists i :: 0 <= i < |text| && IsSeparator(text[i])
  }

  /** The text up to the first separator. */
  function Field(text: string): string
    decreases |text|
  {
    if text == [] || IsSeparator(text[0]) then [] else [text[0]] + Field(text[1..])
  }

  /** The text after the first separator. */
  function Rest(text: string): string
    decreases |text|
  {
    if text == [] then [] else if IsSeparator(text[0]) then text[1..] else Rest(text[1..])
  }

  /** One record as a dictionary: the first field of each line maps to its second field, the last line winning.  None
      is the exception raised for a line without a separator. */
  function RecordDict(record: seq<string>): Option<map<string, string>>
    decreases |record|
  {
    if record == [] then Some(map[])
    else
      var init, line := RecordDict(record[..|record| - 1]), record[|record| - 1];
      if init.Some? && HasSeparator(line) then Some(init.value[Field(line) := Field(Rest(line))]) else None
  }

  function RecordDicts(records: seq<seq<string>>): Option<map<nat, map<string, string>>>
    decreases |records|
  {
    if records == [] then Some(map[])
    else
      var n := |records| - 1;
      var init, last := RecordDicts(records[..n]), RecordDict(records[n]);
      if init.Some? && last.Some? then Some(init.value[n := last.value]) else None
  }

  /** `build_error_dict` */
  method BuildErrorDict(lines: seq<string>) returns (errorDict: Option<map<nat, map<string, string>>>)
    ensures errorDict == RecordDicts(Records(lines))
  {
    var errorList := HtxErrorLogToList(lines);
    var dicts: map<nat, map<string, string>> := map[];
    var errorIndex := 0;
    while errorIndex < |errorList|
      invariant 0 <= errorIndex <= |errorList|
      invariant RecordDicts(errorList[..errorIndex]) == Some(dicts)
    {
      var entryList := errorList[errorIndex];
      assert errorList[..errorIndex + 1][..errorIndex] == errorList[..errorIndex];
      var tempErrorDict: map<string, string> := map[];
      var i := 0;
      while i < |entryList|
        invariant 0 <= i <= |entryList|
        invariant RecordDict(entryList[..i]) == Some(tempErrorDict)
      {
        assert entryList[..i + 1][..i] == entryList[..i];
        if !HasSeparator(entryList[i]) {
          BadLineSpoilsRecord(entryList, i);
          BadRecordSpoilsAll(errorList, errorIndex);
          return None;
        }
        tempErrorDict := tempErrorDict[Field(entryList[i]) := Field(Rest(entryList[i]))];
        i := i + 1;
      }
      assert entryList[..i] == entryList;
      dicts := dicts[errorIndex := tempErrorDict];
      errorIndex := errorIndex + 1;
    }
    assert errorList[..errorIndex] == errorList;
    errorDict := Some(dicts);
  }

  lemma {:induction false} BadLineSpoilsRecord(record: seq<string>, i: nat)
    requires i < |record| && !HasSeparator(record[i])
    ensures RecordDict(record).None?
    decreases |record|
  {
    if i < |record| - 1 {
      BadLineSpoilsRecord(record[..|record| - 1], i);
    }
  }

  lemma {:induction false} BadRecordSpoilsAll(records: seq<seq<string>>, i: nat)
    requires i < |records| && RecordDict(records[i]).None?
    ensures RecordDicts(records).None?
    decreases |records|
  {
    if i < |records| - 1 {
      BadRecordSpoilsAll(records[..|records| - 1], i);
    }
  }

  predicate AllSeparated(record: seq<string>) {
    forall i :: 0 <= i < |record| ==> HasSeparator(record[i])
  }

  predicate HasKey(record: seq<string>, key: string) {
    exists i :: 0 <= i < |record| && Field(record[i]) == key
  }

  /** The line of the record that gives the key its value: the last one whose first field it is. */
  predicate LastFor(record: seq<string>, key: string, i: nat) {
    i < |record| && Field(record[i]) == key && forall j :: i < j < |record| ==> Field(record[j]) != key
  }

  /** A record becomes a dictionary exactly when every line has a separator; its keys are the first fields and each
      maps to the second field of the last line that has it. */
  lemma {:induction false} RecordDictIsLastWins(record: seq<string>, key: string)
    ensures RecordDict(record).Some? <==> AllSeparated(record)
    ensures RecordDict(record).Some? ==>
              && (key in RecordDict(record).value <==> HasKey(record, key))
              && (forall i: nat :: LastFor(record, key, i) ==>
                    key in RecordDict(record).value && RecordDict(record).value[key] == Field(Rest(record[i])))
    decreases |record|
  {
    if record != [] {
      var n := |record| - 1;
      RecordDictIsLastWins(record[..n], key);
      assert forall i :: 0 <= i < n ==> record[..n][i] == record[i];
      assert AllSeparated(record) <==> AllSeparated(record[..n]) && HasSeparator(record[n]);
      assert HasKey(record, key) <==> HasKey(record[..n], key) || Field(record[n]) == key;
      forall i: nat | LastFor(record, key, i)
        ensures if Field(record[n]) == key then i == n else LastFor(record[..n], key, i)
      {
      }
    }
  }

  /** The dictionary of a log has exactly the keys 0 to n - 1, one for each record, in order. */
  lemma {:induction false} RecordDictsAreNumbered(records: seq<seq<string>>, k: nat)
    ensures RecordDicts(records).Some? <==> forall i :: 0 <= i < |records| ==> AllSeparated(records[i])
    ensures RecordDicts(records).Some? ==>
              && (k in RecordDicts(records).value <==> k < |records|)
              && (k < |records| ==> Some(RecordDicts(records).value[k]) == RecordDict(records[k]))
    decreases |records|
  {
    if records != [] {
      var n := |records| - 1;
      RecordDictsAreNumbered(records[..n], k);
      RecordDictIsLastWins(records[n], "");
      assert forall i :: 0 <= i < n ==> records[..n][i] == records[i];
    }
  }

  /** A line as it is printed: a name and a value, with a colon or an equals sign between them. */
  datatype Line = Line(name: string, separator: char, value: string)

  predicate ValidLine(line: Line) {
    && (line.separator == ':' || line.separator == '=')
    && ':' !in line.name && '=' !in line.name && ':' !in line.value && '=' !in line.value
  }

  predicate ValidLines(lines: seq<Line>) {
    forall i :: 0 <= i < |lines| ==> ValidLine(lines[i])
  }

  function RenderLine(line: Line): string {
    line.name + [line.separator] + line.value
  }

  function RenderLines(lines: seq<Line>): (record: seq<string>)
    ensures |record| == |lines| && forall i :: 0 <= i < |lines| ==> record[i] == RenderLine(lines[i])
    decreases |lines|
  {
    if lines == [] then [] else RenderLines(lines[..|lines| - 1]) + [RenderLine(lines[|lines| - 1])]
  }

  predicate Named(lines: seq<Line>, name: string) {
    exists i :: 0 <= i < |lines| && lines[i].name == name
  }

  predicate LastNamed(lines: seq<Line>, name: string, i: nat) {
    i < |lines| && lines[i].name == name && forall j :: i < j < |lines| ==> lines[j].name != name
  }

  lemma LineSplits(line: Line)
    requires ValidLine(line)
    ensures Field(RenderLine(line)) == line.name && Field(Rest(RenderLine(line))) == line.value
    ensures HasSeparator(RenderLine(line))
  {
    FieldOf(line.name, line.separator, line.value);
    FieldIsAll(line.value);
    assert RenderLine(line)[|line.name|] == line.separator;
  }

  /** A record of printed lines, with either separator in any mixture, becomes the dictionary of their names and
      values in which the last line of a name wins. */
  lemma RenderedRecord(lines: seq<Line>, name: string)
    requires ValidLines(lines)
    ensures RecordDict(RenderLines(lines)).Some?
    ensures var dict := RecordDict(RenderLines(lines)).value;
            && (name in dict <==> Named(lines, name))
            && forall i: nat :: LastNamed(lines, name, i) ==> name in dict && dict[name] == lines[i].value
  {
    var record := RenderLines(lines);
    forall i | 0 <= i < |lines|
      ensures Field(record[i]) == lines[i].name && Field(Rest(record[i])) == lines[i].value && HasSeparator(record[i])
    {
      LineSplits(lines[i]);
    }
    RecordDictIsLastWins(record, name);
    assert HasKey(record, name) <==> Named(lines, name);
    forall i: nat | LastNamed(lines, name, i)
      ensures LastFor(record, name, i)
    {
    }
  }

  lemma SeparatorIsEither(text: string)
    ensures HasSeparator(text) <==> ':' in text || '=' in text
  {
  }

  /** A record becomes a dictionary exactly when each of its lines has a colon or an equals sign. */
  lemma RecordFailsExactly(record: seq<string>)
    ensures RecordDict(record).Some? <==> forall i :: 0 <= i < |record| ==> ':' in record[i] || '=' in record[i]
  {
    RecordDictIsLastWins(record, "");
    forall i | 0 <= i < |record|
      ensures HasSeparator(record[i]) <==> ':' in record[i] || '=' in record[i]
    {
      SeparatorIsEither(record[i]);
    }
  }

  // ----- What is lost of a line -----

  lemma {:induction false} FieldIsAll(text: string)
    ensures Field(text) == text <==> !HasSeparator(text)
    ensures |Field(text)| <= |text|
    decreases |text|
  {
    if text != [] {
      FieldIsAll(text[1..]);
      if IsSeparator(text[0]) {
        assert HasSeparator(text);
      } else {
        assert Field(text)[1..] == Field(text[1..]);
        assert text == [text[0]] + text[1..];
        assert HasSeparator(text) <==> HasSeparator(text[1..]) by {
          if HasSeparator(text[1..]) {
            var i :| 0 <= i < |text[1..]| && IsSeparator(text[1..][i]);
            assert IsSeparator(text[i + 1]);
          }
          if HasSeparator(text) {
            var i :| 0 <= i < |text| && IsSeparator(text[i]);
            assert IsSeparator(text[1..][i - 1]);
          }
        }
      }
    }
  }

  /** The dictionary holds everything after a line's first separator exactly when the line has no second one. */
  lemma ValueIsWholeExactly(line: string)
    ensures Field(Rest(line)) == Rest(line) <==> ':' !in Rest(line) && '=' !in Rest(line)
  {
    FieldIsAll(Rest(line));
  }

  /** The time stamp of a sample log line loses its minutes, seconds and year. */
  lemma TimeStampIsCut()
    ensures Field("Timestamp" + [':'] + TimeStamp()) == "Timestamp"
    ensures Field(Rest("Timestamp" + [':'] + TimeStamp())) == "Mar 29 19"
  {
    FieldOf("Timestamp", ':', TimeStamp());
    FieldOf("Mar 29 19", ':', "41:54 2017");
  }

  /** Mar 29 19:41:54 2017 */
  function TimeStamp(): string {
    "Mar 29 19" + [':'] + "41:54 2017"
  }

  lemma {:induction false} FieldOf(field: string, separator: char, rest: string)
    requires IsSeparator(separator) && forall i :: 0 <= i < |field| ==> !IsSeparator(field[i])
    ensures Field(field + [separator] + rest) == field && Rest(field + [separator] + rest) == rest
    decreases |field|
  {
    var text := field + [separator] + rest;
    if field == [] {
      assert text[1..] == rest;
    } else {
      assert text[1..] == field[1..] + [separator] + rest;
      FieldOf(field[1..], separator, rest);
      assert [field[0]] + field[1..] == field;
    }
  }
}
