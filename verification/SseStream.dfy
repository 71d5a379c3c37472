/**
 * Server-Sent Events: the incremental parser, the two printers, and how they pair up.
 * Text arrives as already decoded chunks of any size; section 9.2 of the HTML Living Standard has the format.
 */
module SseStream {
  import opened Hashing
  import opened Strings

  datatype SseEvent = SseEvent(event: Option<string>, data: string, id: Option<string>, retry: Option<nat>)

  /** Fields seen since the last blank line. */
  datatype Pending = Pending(event: Option<string>, data: Option<string>, id: Option<string>, retry: Option<nat>)

  const NOTHING := Pending(None, None, None, None)

  /** `Number(value)` where that is an integer that is not negative. */
  type ToInteger = string -> Option<nat>

  // ----- Text and lines

  /** `indexOf` */
  function IndexOf(s: string, c: char): (i: int)
    ensures -1 <= i < |s|
    ensures i == -1 <==> !Has(s, c)
    ensures i >= 0 ==> s[i] == c && !Has(s[..i], c)
  {
    if s == [] then -1
    else if s[0] == c then 0
    else
      var i := IndexOf(s[1..], c);
      assert forall k :: 0 < k < |s| ==> s[k] == s[1..][k - 1];
      if i == -1 then -1 else (assert s[..i + 1] == [s[0]] + s[1..][..i]; i + 1)
  }

  /** `split('\n')`: the complete lines, then what follows the last newline. */
  function Split(s: string): (parts: seq<string>)
    ensures |parts| > 0 && forall k :: 0 <= k < |parts| ==> !Has(parts[k], '\n')
  {
    var i := IndexOf(s, '\n');
    if i == -1 then [s] else [s[..i]] + Split(s[i + 1..])
  }

  function Init<T>(xs: seq<T>): seq<T>
    requires xs != []
  {
    xs[..|xs| - 1]
  }

  function Last<T>(xs: seq<T>): T
    requires xs != []
  {
    xs[|xs| - 1]
  }

  /** `join('\n')` */
  function Join(parts: seq<string>): string {
    if parts == [] then "" else if |parts| == 1 then parts[0] else parts[0] + "\n" + Join(parts[1..])
  }

  function Concat(texts: seq<string>): string {
    if texts == [] then "" else texts[0] + Concat(texts[1..])
  }

  lemma {:induction false} IndexOfFirst(a: string, c: char, b: string)
    requires !Has(a, c)
    ensures IndexOf(a + [c] + b, c) == |a|
  {
    if a == [] {
      assert ([] + [c] + b)[0] == c;
    } else {
      assert forall k :: 0 <= k < |a| - 1 ==> a[1..][k] == a[k + 1];
      IndexOfFirst(a[1..], c, b);
      assert (a + [c] + b)[1..] == a[1..] + [c] + b;
    }
  }

  lemma SplitLine(line: string, rest: string)
    requires !Has(line, '\n')
    ensures Split(line + "\n" + rest) == [line] + Split(rest)
  {
    IndexOfFirst(line, '\n', rest);
    var s := line + "\n" + rest;
    assert s[..|line|] == line && s[|line| + 1..] == rest;
  }

  /** Cutting a text anywhere: the unfinished last line is carried over. */
  lemma {:induction false} SplitAppend(a: string, b: string)
    ensures Split(a + b) == Init(Split(a)) + Split(Last(Split(a)) + b)
    decreases |a|
  {
    var i := IndexOf(a, '\n');
    if i == -1 {
      assert Init(Split(a)) == [];
    } else {
      var line, rest := a[..i], a[i + 1..];
      assert a + b == line + "\n" + (rest + b);
      SplitAppend(rest, b);
      SplitLine(line, rest + b);
      hide Split;
      ConsParts(line, Split(rest), Split(Last(Split(rest)) + b));
    }
  }

  lemma ConsParts(line: string, parts: seq<string>, more: seq<string>)
    requires parts != []
    ensures Init([line] + parts) == [line] + Init(parts) && Last([line] + parts) == Last(parts)
    ensures [line] + (Init(parts) + more) == Init([line] + parts) + more
  {
  }

  /** One step of `Split`. */
  lemma SplitStep(s: string)
    ensures var i := IndexOf(s, '\n');
            if i == -1 then Split(s) == [s] else Split(s) == [s[..i]] + Split(s[i + 1..]) && s[i] == '\n'
  {
    hide IndexOf, Has;
  }

  lemma CutAt(s: string, i: nat)
    requires i < |s| && s[i] == '\n'
    ensures s == s[..i] + "\n" + s[i + 1..]
  {
  }

  lemma {:induction false} JoinSplit(s: string)
    ensures Join(Split(s)) == s
    decreases |s|
  {
    hide Split, Join, IndexOf;
    SplitStep(s);
    var i := IndexOf(s, '\n');
    if i == -1 {
      JoinOne(s);
    } else {
      JoinSplit(s[i + 1..]);
      JoinCons(s[..i], Split(s[i + 1..]));
      CutAt(s, i);
    }
  }

  lemma JoinOne(s: string)
    ensures Join([s]) == s
  {
  }

  lemma JoinCons(line: string, parts: seq<string>)
    requires parts != []
    ensures Join([line] + parts) == line + "\n" + Join(parts)
  {
    assert ([line] + parts)[1..] == parts;
  }

  // ----- The parser, on whole text

  /** A line without the carriage return of a CRLF. */
  function Chomp(line: string): string {
    if line != "" && Last(line) == '\r' then Init(line) else line
  }

  function FieldName(line: string): string {
    var colon := IndexOf(line, ':');
    if colon == -1 then line else line[..colon]
  }

  function FieldValue(line: string): string {
    var colon := IndexOf(line, ':');
    var value := if colon == -1 then "" else line[colon + 1..];
    if value != "" && value[0] == ' ' then value[1..] else value
  }

  function Appended(data: Option<string>, value: string): string {
    if data.None? then value else data.value + "\n" + value
  }

  /** `processLine` */
  function ProcessLine(num: ToInteger, p: Pending, line: string): Pending {
    if line != "" && line[0] == ':' then p else
    var field, value := FieldName(line), FieldValue(line);
    if field == "data" then p.(data := Some(Appended(p.data, value)))
    else if field == "event" then p.(event := Some(value))
    else if field == "id" then (if Has(value, '\0') then p else p.(id := Some(value)))
    else if field == "retry" then (if num(value).Some? then p.(retry := num(value)) else p)
    else p
  }

  /** `dispatchPending`: without data there is nothing to dispatch. */
  function Dispatched(p: Pending): seq<SseEvent> {
    if p.data.None? then [] else [SseEvent(p.event, p.data.value, p.id, p.retry)]
  }

  /** Parser state after some complete lines: pending fields, and the events yielded so far. */
  datatype Parsed = Parsed(pending: Pending, events: seq<SseEvent>)

  function FeedLine(num: ToInteger, s: Parsed, line: string): Parsed {
    if line == "" then Parsed(NOTHING, s.events + Dispatched(s.pending))
    else s.(pending := ProcessLine(num, s.pending, line))
  }

  function Feed(num: ToInteger, s: Parsed, lines: seq<string>): Parsed
    decreases |lines|
  {
    if lines == [] then s else Feed(num, FeedLine(num, s, Chomp(lines[0])), lines[1..])
  }

  /** End of stream: an unterminated line still counts, and what is pending is dispatched. */
  function Flush(num: ToInteger, s: Parsed, rest: string): seq<SseEvent> {
    var pending := if Chomp(rest) == "" then s.pending else ProcessLine(num, s.pending, Chomp(rest));
    s.events + Dispatched(pending)
  }

  const EMPTY := Parsed(NOTHING, [])

  function ParseText(num: ToInteger, text: string): seq<SseEvent> {
    var parts := Split(text);
    Flush(num, Feed(num, EMPTY, Init(parts)), Last(parts))
  }

  lemma {:induction false} FeedAppend(num: ToInteger, s: Parsed, a: seq<string>, b: seq<string>)
    ensures Feed(num, s, a + b) == Feed(num, Feed(num, s, a), b)
    decreases |a|
  {
    if a == [] {
      assert a + b == b;
    } else {
      assert (a + b)[0] == a[0] && (a + b)[1..] == a[1..] + b;
      FeedAppend(num, FeedLine(num, s, Chomp(a[0])), a[1..], b);
    }
  }

  // ----- The parser, chunk by chunk

  lemma {:induction false} ConcatSnoc(texts: seq<string>, text: string)
    ensures Concat(texts + [text]) == Concat(texts) + text
  {
    if texts == [] {
      assert texts + [text] == [text];
    } else {
      assert (texts + [text])[1..] == texts[1..] + [text];
      ConcatSnoc(texts[1..], text);
    }
  }

  method ProcessOneLine(num: ToInteger, pending: Pending, line: string) returns (p: Pending)
    requires line != ""
    ensures p == ProcessLine(num, pending, line)
  {
    hide IndexOf, Has;
    p := pending;
    if line[0] == ':' { return; }
    var colon := IndexOf(line, ':');
    var field := if colon == -1 then line else line[..colon];
    var value := if colon == -1 then "" else line[colon + 1..];
    if value != "" && value[0] == ' ' { value := value[1..]; }
    if field == "data" {
      p := p.(data := Some(if p.data.None? then value else p.data.value + "\n" + value));
    } else if field == "event" {
      p := p.(event := Some(value));
    } else if field == "id" {
      if IndexOf(value, '\0') == -1 { p := p.(id := Some(value)); }
    } else if field == "retry" {
      var n := num(value);
      if n.Some? { p := p.(retry := n); }
    }
  }

  lemma FeedSnoc(num: ToInteger, s: Parsed, lines: seq<string>, line: string)
    ensures Feed(num, s, lines + [line]) == FeedLine(num, Feed(num, s, lines), Chomp(line))
  {
    FeedAppend(num, s, lines, [line]);
    assert [line][1..] == [];
  }

  lemma TakeLine(done: seq<string>, buffer: string)
    requires IndexOf(buffer, '\n') != -1
    ensures var i := IndexOf(buffer, '\n');
            done + Split(buffer) == done + [buffer[..i]] + Split(buffer[i + 1..])
  {
    SplitStep(buffer);
    hide Split, IndexOf;
    var i := IndexOf(buffer, '\n');
    ConcatAssoc(done, [buffer[..i]], Split(buffer[i + 1..]));
  }

  lemma NoLineLeft(done: seq<string>, buffer: string)
    requires IndexOf(buffer, '\n') == -1
    ensures Init(done + Split(buffer)) == done && Last(done + Split(buffer)) == buffer
  {
  }

  /** Takes every complete line off the buffer. */
  method Drain(num: ToInteger, text: string, was: Parsed) returns (buffer: string, now: Parsed)
    ensures now == Feed(num, was, Init(Split(text))) && buffer == Last(Split(text))
  {
    hide Split, Feed, ProcessLine, Dispatched;
    buffer, now := text, was;
    var lineEnd := IndexOf(buffer, '\n');
    ghost var done: seq<string> := [];
    assert Feed(num, was, []) == was by { FeedNone(num, was); }
    assert [] + Split(text) == Split(text);
    while lineEnd != -1
      invariant lineEnd == IndexOf(buffer, '\n')
      invariant Split(text) == done + Split(buffer)
      invariant now == Feed(num, was, done)
      decreases |buffer|
    {
      var line := buffer[..lineEnd];
      FeedSnoc(num, was, done, line);
      TakeLine(done, buffer);
      done := done + [line];
      if line != "" && line[|line| - 1] == '\r' { line := line[..|line| - 1]; }
      buffer := buffer[lineEnd + 1..];
      if line == "" {
        now := Parsed(NOTHING, now.events + Dispatched(now.pending));
      } else {
        var p := ProcessOneLine(num, now.pending, line);
        now := now.(pending := p);
      }
      lineEnd := IndexOf(buffer, '\n');
    }
    NoLineLeft(done, buffer);
  }

  lemma FeedNone(num: ToInteger, s: Parsed)
    ensures Feed(num, s, []) == s
  {
  }

  /** Text so far as the parser holds it: what the complete lines led to, and the line begun. */
  ghost predicate Holds(num: ToInteger, text: string, state: Parsed, buffer: string) {
    buffer == Last(Split(text)) && state == Feed(num, EMPTY, Init(Split(text)))
  }

  lemma Carry(num: ToInteger, text: string, state: Parsed, buffer: string, chunk: string)
    requires Holds(num, text, state, buffer)
    ensures Holds(num, text + chunk, Feed(num, state, Init(Split(buffer + chunk))), Last(Split(buffer + chunk)))
  {
    hide Feed, Split;
    SplitAppend(text, chunk);
    var done, more := Init(Split(text)), Split(buffer + chunk);
    FeedAppend(num, EMPTY, done, Init(more));
    assert Init(done + more) == done + Init(more) && Last(done + more) == Last(more);
  }

  lemma HoldsNothing(num: ToInteger)
    ensures Holds(num, "", EMPTY, "") && Concat([]) == ""
  {
  }

  lemma ConcatNext(chunks: seq<string>, i: nat)
    requires i < |chunks|
    ensures Concat(chunks[..i + 1]) == Concat(chunks[..i]) + chunks[i]
  {
    assert chunks[..i + 1] == chunks[..i] + [chunks[i]];
    ConcatSnoc(chunks[..i], chunks[i]);
  }

  /** `parseSseStream`: what is yielded depends on the whole text only, however it was cut into chunks. */
  method ParseSseStream(num: ToInteger, chunks: seq<string>) returns (events: seq<SseEvent>)
    ensures events == ParseText(num, Concat(chunks))
  {
    hide Holds, Feed, Split, Concat, ProcessLine, Dispatched;
    var buffer, state := "", EMPTY;
    HoldsNothing(num);
    for i := 0 to |chunks|
      invariant Holds(num, Concat(chunks[..i]), state, buffer)
    {
      ConcatNext(chunks, i);
      Carry(num, Concat(chunks[..i]), state, buffer, chunks[i]);
      buffer, state := Drain(num, buffer + chunks[i], state);
    }
    assert chunks[..|chunks|] == chunks;
    var pending := state.pending;
    if buffer != "" {
      var line := if Last(buffer) == '\r' then Init(buffer) else buffer;
      if line != "" { pending := ProcessOneLine(num, pending, line); }
    }
    events := state.events + Dispatched(pending);
    HoldsMeans(num, Concat(chunks), state, buffer);
  }

  lemma HoldsMeans(num: ToInteger, text: string, state: Parsed, buffer: string)
    requires Holds(num, text, state, buffer)
    ensures ParseText(num, text) == Flush(num, state, buffer)
  {
  }

  // ----- The printers

  /** `data: ` lines, one for each part. */
  function DataLines(parts: seq<string>): (lines: seq<string>)
    ensures |lines| == |parts|
  {
    if parts == [] then [] else ["data: " + parts[0]] + DataLines(parts[1..])
  }

  function HeadLines(event: string, id: Option<string>): seq<string> {
    (if id.Some? then ["id: " + id.value] else []) + ["event: " + event]
  }

  /** The lines of a frame; the last one is blank and dispatches. */
  function FrameLines(event: string, data: string, id: Option<string>): seq<string> {
    HeadLines(event, id) + DataLines(Split(data)) + [""]
  }

  /** Lines, each ended by a newline. */
  function Ended(lines: seq<string>): string {
    if lines == [] then "" else lines[0] + "\n" + Ended(lines[1..])
  }

  lemma {:induction false} DataLinesSnoc(parts: seq<string>, part: string)
    ensures DataLines(parts + [part]) == DataLines(parts) + ["data: " + part]
  {
    if parts == [] {
      assert parts + [part] == [part];
    } else {
      assert (parts + [part])[1..] == parts[1..] + [part];
      DataLinesSnoc(parts[1..], part);
    }
  }

  lemma DataLinesNext(parts: seq<string>, i: nat)
    requires i < |parts|
    ensures DataLines(parts[..i + 1]) == DataLines(parts[..i]) + ["data: " + parts[i]]
  {
    assert parts[..i + 1] == parts[..i] + [parts[i]];
    DataLinesSnoc(parts[..i], parts[i]);
  }

  lemma {:induction false} JoinEnded(lines: seq<string>)
    ensures Join(lines + [""]) == Ended(lines)
  {
    if lines == [] {
      assert lines + [""] == [""];
    } else {
      assert (lines + [""])[1..] == lines[1..] + [""];
      JoinEnded(lines[1..]);
    }
  }

  /** `formatSseEvent` */
  method FormatSseEvent(event: string, data: string, id: Option<string>) returns (frame: string)
    ensures frame == Ended(FrameLines(event, data, id))
  {
    hide Split, Join, Ended;
    var lines: seq<string> := [];
    if id.Some? { lines := lines + ["id: " + id.value]; }
    lines := lines + ["event: " + event];
    var parts := Split(data);
    for i := 0 to |parts|
      invariant lines == HeadLines(event, id) + DataLines(parts[..i])
    {
      DataLinesNext(parts, i);
      lines := lines + ["data: " + parts[i]];
    }
    assert parts[..|parts|] == parts;
    lines := lines + [""];
    assert lines == FrameLines(event, data, id);
    JoinEnded(lines);
    lines := lines + [""];
    frame := Join(lines);
  }

  /** A frame starts with its identifier, if it has one, and its event name. */
  lemma FrameStarts(event: string, data: string, id: Option<string>)
    ensures var head := (if id.Some? then "id: " + id.value + "\n" else "") + ("event: " + event + "\n");
            head <= Ended(FrameLines(event, data, id))
  {
    hide Split, DataLines;
    var rest := DataLines(Split(data)) + [""];
    assert FrameLines(event, data, id) == HeadLines(event, id) + rest;
    assert (["event: " + event] + rest)[1..] == rest;
    assert id.Some? ==> HeadLines(event, id) + rest == ["id: " + id.value] + (["event: " + event] + rest);
    assert id.Some? ==> (["id: " + id.value] + (["event: " + event] + rest))[1..] == ["event: " + event] + rest;
    hide Ended;
    EndedCons("event: " + event, rest);
    if id.Some? {
      EndedCons("id: " + id.value, ["event: " + event] + rest);
    }
  }

  lemma EndedCons(line: string, lines: seq<string>)
    ensures Ended([line] + lines) == line + "\n" + Ended(lines)
  {
    assert ([line] + lines)[1..] == lines;
  }

  /** A comment on one line. */
  function Safe(comment: string): (s: string)
    ensures |s| == |comment| && !Has(s, '\n')
    ensures !Has(comment, '\n') ==> s == comment
  {
    seq(|comment|, k requires 0 <= k < |comment| => if comment[k] == '\n' then ' ' else comment[k])
  }

  /** `formatSseComment` */
  function FormatSseComment(comment: string): string {
    ": " + Safe(comment) + "\n\n"
  }

  lemma CommentIs(comment: string)
    requires !Has(comment, '\n')
    ensures FormatSseComment(comment) == ": " + comment + "\n\n"
  {
  }

  // ----- Round trip

  predicate NoReturn(s: string) { s == "" || Last(s) != '\r' }

  /** What can be printed and read back: checkable before the call. */
  predicate Printable(event: string, data: string, id: Option<string>) {
    && !Has(event, '\n') && NoReturn(event)
    && (id.Some? ==> !Has(id.value, '\n') && NoReturn(id.value) && !Has(id.value, '\0'))
    && forall k :: 0 <= k < |Split(data)| ==> NoReturn(Split(data)[k])
  }

  function Printed(event: string, data: string, id: Option<string>): SseEvent {
    SseEvent(Some(event), data, id, None)
  }

  lemma ChompAfter(prefix: string, value: string)
    requires prefix != "" && Last(prefix) != '\r'
    ensures Chomp(prefix + value) == prefix + Chomp(value)
  {
    if value == "" {
      assert prefix + value == prefix;
    } else {
      assert Last(prefix + value) == Last(value);
      assert Init(prefix + value) == prefix + Init(value);
    }
  }

  lemma FieldParts(name: string, value: string)
    requires name != "" && !Has(name, ':')
    ensures var line := name + ": " + value;
            line != "" && line[0] != ':' && FieldName(line) == name && FieldValue(line) == value
  {
    var line := name + [':'] + (" " + value);
    IndexOfFirst(name, ':', " " + value);
    assert name + ": " + value == line;
    assert line[..|name|] == name && line[|name| + 1..] == " " + value;
    assert (" " + value)[1..] == value;
  }

  /** What a field line says to the parser: name, colon, space, value, less a final carriage return. */
  lemma FieldLine(name: string, value: string)
    requires name != "" && !Has(name, ':')
    ensures var line := Chomp(name + ": " + value);
            line != "" && line[0] != ':' && FieldName(line) == name && FieldValue(line) == Chomp(value)
  {
    hide FieldName, FieldValue, Chomp;
    ChompAfter(name + ": ", value);
    FieldParts(name, Chomp(value));
  }

  lemma DataField(num: ToInteger, s: Parsed, value: string)
    ensures FeedLine(num, s, Chomp("data: " + value))
            == s.(pending := s.pending.(data := Some(Appended(s.pending.data, Chomp(value)))))
  {
    hide FieldName, FieldValue;
    assert "data: " + value == "data" + ": " + value;
    FieldLine("data", value);
  }

  lemma EventField(num: ToInteger, s: Parsed, value: string)
    ensures FeedLine(num, s, Chomp("event: " + value)) == s.(pending := s.pending.(event := Some(Chomp(value))))
  {
    hide FieldName, FieldValue;
    assert "event: " + value == "event" + ": " + value;
    FieldLine("event", value);
  }

  lemma IdField(num: ToInteger, s: Parsed, value: string)
    ensures FeedLine(num, s, Chomp("id: " + value))
            == if Has(Chomp(value), '\0') then s else s.(pending := s.pending.(id := Some(Chomp(value))))
  {
    hide FieldName, FieldValue;
    assert "id: " + value == "id" + ": " + value;
    FieldLine("id", value);
  }

  /** Each data part without a final carriage return. */
  function Chomped(parts: seq<string>): (r: seq<string>)
    ensures |r| == |parts| && forall k :: 0 <= k < |parts| ==> r[k] == Chomp(parts[k])
  {
    seq(|parts|, k requires 0 <= k < |parts| => Chomp(parts[k]))
  }

  lemma {:induction false} JoinSnoc(parts: seq<string>, part: string)
    ensures Join(parts + [part]) == if parts == [] then part else Join(parts) + "\n" + part
  {
    if |parts| <= 1 {
      assert parts + [part] == if parts == [] then [part] else [parts[0], part];
    } else {
      assert (parts + [part])[1..] == parts[1..] + [part];
      JoinSnoc(parts[1..], part);
    }
  }

  /** The data lines of a frame put the data together again, part by part. */
  lemma {:induction false} FeedData(num: ToInteger, s: Parsed, parts: seq<string>)
    requires s.pending.data.None?
    ensures Feed(num, s, DataLines(parts))
            == s.(pending := s.pending.(data := if parts == [] then None else Some(Join(Chomped(parts)))))
  {
    hide FeedLine, Chomp;
    if parts != [] {
      var init, part := Init(parts), Last(parts);
      assert parts == init + [part];
      FeedData(num, s, init);
      DataLinesSnoc(init, part);
      FeedSnoc(num, s, DataLines(init), "data: " + part);
      DataField(num, Feed(num, s, DataLines(init)), part);
      assert Chomped(parts) == Chomped(init) + [Chomp(part)];
      JoinSnoc(Chomped(init), Chomp(part));
    }
  }

  /** What the parser makes of one printed frame when event and id hold no newline. */
  function Reread(event: string, data: string, id: Option<string>): SseEvent {
    SseEvent(Some(Chomp(event)), Join(Chomped(Split(data))),
             if id.Some? && !Has(Chomp(id.value), '\0') then Some(Chomp(id.value)) else None, None)
  }

  lemma FeedHead(num: ToInteger, events: seq<SseEvent>, event: string, id: Option<string>)
    ensures Feed(num, Parsed(NOTHING, events), HeadLines(event, id))
            == Parsed(Pending(Some(Chomp(event)), None, Reread(event, "", id).id, None), events)
  {
    hide FeedLine, Chomp, Split, Join;
    var s := Parsed(NOTHING, events);
    FeedNone(num, s);
    if id.Some? {
      FeedSnoc(num, s, [], "id: " + id.value);
      assert [] + ["id: " + id.value] == ["id: " + id.value];
      IdField(num, s, id.value);
    }
    var head := if id.Some? then ["id: " + id.value] else [];
    FeedSnoc(num, s, head, "event: " + event);
    EventField(num, Feed(num, s, head), event);
  }

  lemma FeedFrame(num: ToInteger, events: seq<SseEvent>, event: string, data: string, id: Option<string>)
    ensures Feed(num, Parsed(NOTHING, events), FrameLines(event, data, id))
            == Parsed(NOTHING, events + [Reread(event, data, id)])
  {
    hide Feed, Chomp, Split, Join, ProcessLine, HeadLines;
    var s := Parsed(NOTHING, events);
    FeedHead(num, events, event, id);
    FeedAppend(num, s, HeadLines(event, id), DataLines(Split(data)));
    FeedData(num, Feed(num, s, HeadLines(event, id)), Split(data));
    FeedSnoc(num, s, HeadLines(event, id) + DataLines(Split(data)), "");
    BlankStays();
  }

  lemma BlankStays()
    ensures Chomp("") == ""
  {
  }

  lemma {:induction false} EndedAppend(a: seq<string>, b: seq<string>)
    ensures Ended(a + b) == Ended(a) + Ended(b)
  {
    if a == [] {
      assert a + b == b;
    } else {
      assert (a + b)[1..] == a[1..] + b;
      EndedAppend(a[1..], b);
    }
  }

  /** Printed lines come back as the same lines. */
  lemma {:induction false} SplitEnded(lines: seq<string>, rest: string)
    requires forall k :: 0 <= k < |lines| ==> !Has(lines[k], '\n')
    ensures Split(Ended(lines) + rest) == lines + Split(rest)
  {
    if lines == [] {
      assert Ended(lines) + rest == rest;
    } else {
      hide Split, Ended;
      var line, more := lines[0], Ended(lines[1..]);
      SplitEnded(lines[1..], rest);
      SplitLine(line, more + rest);
      EndedStep(lines, rest);
      ConsApart(lines, Split(rest));
    }
  }

  lemma EndedStep(lines: seq<string>, rest: string)
    requires lines != []
    ensures Ended(lines) + rest == lines[0] + "\n" + (Ended(lines[1..]) + rest)
  {
  }

  lemma ConsApart<T>(xs: seq<T>, ys: seq<T>)
    requires xs != []
    ensures [xs[0]] + (xs[1..] + ys) == xs + ys
  {
  }

  /** One frame or one comment, as the server writes them. */
  datatype Item = Frame(event: string, data: string, id: Option<string>) | Comment(text: string)

  function Lines(item: Item): seq<string> {
    match item
    case Frame(event, data, id) => FrameLines(event, data, id)
    case Comment(text) => [": " + Safe(text), ""]
  }

  function AllLines(items: seq<Item>): seq<string> {
    if items == [] then [] else Lines(items[0]) + AllLines(items[1..])
  }

  predicate PrintableItem(item: Item) {
    item.Frame? ==> Printable(item.event, item.data, item.id)
  }

  function Yields(item: Item): seq<SseEvent> {
    if item.Frame? then [Printed(item.event, item.data, item.id)] else []
  }

  /** The events among the items, in order. */
  function Events(items: seq<Item>): seq<SseEvent> {
    if items == [] then [] else Yields(items[0]) + Events(items[1..])
  }

  /** The text of an item, from the printers. */
  method Format(item: Item) returns (text: string)
    ensures text == Ended(Lines(item))
  {
    match item
    case Frame(event, data, id) => text := FormatSseEvent(event, data, id);
    case Comment(c) =>
      text := FormatSseComment(c);
      CommentText(c);
  }

  lemma CommentText(c: string)
    ensures FormatSseComment(c) == Ended(Lines(Comment(c)))
  {
    var line := ": " + Safe(c);
    assert [line, ""][1..] == [""] && [""][1..] == [];
    assert line + "\n" + ("" + "\n" + "") == line + "\n\n";
  }

  lemma {:induction false} DataLinesClean(parts: seq<string>)
    requires forall k :: 0 <= k < |parts| ==> !Has(parts[k], '\n')
    ensures forall k :: 0 <= k < |parts| ==> !Has(DataLines(parts)[k], '\n')
  {
    if parts != [] {
      CleanAfter("data: ", parts[0]);
      DataLinesClean(parts[1..]);
    }
  }

  lemma CleanAfter(prefix: string, s: string)
    requires !Has(prefix, '\n') && !Has(s, '\n')
    ensures !Has(prefix + s, '\n')
  {
  }

  lemma FrameLinesClean(event: string, data: string, id: Option<string>)
    requires !Has(event, '\n') && (id.Some? ==> !Has(id.value, '\n'))
    ensures var lines := FrameLines(event, data, id);
            forall k :: 0 <= k < |lines| ==> !Has(lines[k], '\n')
  {
    hide DataLines, Split;
    DataLinesClean(Split(data));
    CleanAfter("event: ", event);
    if id.Some? { CleanAfter("id: ", id.value); }
  }

  /** Text made of ended lines is parsed line by line. */
  lemma ParseEnded(num: ToInteger, lines: seq<string>)
    requires forall k :: 0 <= k < |lines| ==> !Has(lines[k], '\n')
    ensures var s := Feed(num, EMPTY, lines);
            ParseText(num, Ended(lines)) == s.events + Dispatched(s.pending)
  {
    SplitEnded(lines, "");
    assert Ended(lines) + "" == Ended(lines);
    assert Split("") == [""];
    assert Init(lines + [""]) == lines && Last(lines + [""]) == "";
    BlankStays();
  }

  lemma PrintableMeans(event: string, data: string, id: Option<string>)
    requires !Has(event, '\n') && (id.Some? ==> !Has(id.value, '\n'))
    ensures Reread(event, data, id) == Printed(event, data, id) <==> Printable(event, data, id)
  {
    var parts := Split(data);
    JoinSplit(data);
    if Join(Chomped(parts)) == data {
      ChompedShorter(parts);
    } else {
      assert Chomped(parts) != parts;
    }
  }

  /** Joining chomped parts gives the same text only if nothing was chomped. */
  lemma {:induction false} ChompedShorter(parts: seq<string>)
    requires parts != []
    ensures |Join(Chomped(parts))| <= |Join(parts)|
    ensures |Join(Chomped(parts))| == |Join(parts)| ==> forall k :: 0 <= k < |parts| ==> NoReturn(parts[k])
  {
    if |parts| > 1 {
      ChompedShorter(parts[1..]);
      assert Chomped(parts)[1..] == Chomped(parts[1..]);
    }
  }

  predicate Clean(e: Option<string>) { e.Some? ==> !Has(e.value, '\n') }

  predicate CleanParsed(s: Parsed) {
    && Clean(s.pending.event) && Clean(s.pending.id)
    && forall k :: 0 <= k < |s.events| ==> Clean(s.events[k].event) && Clean(s.events[k].id)
  }

  lemma {:induction false} FeedClean(num: ToInteger, s: Parsed, lines: seq<string>)
    requires CleanParsed(s) && forall k :: 0 <= k < |lines| ==> !Has(lines[k], '\n')
    ensures CleanParsed(Feed(num, s, lines))
    decreases |lines|
  {
    if lines != [] {
      LineClean(num, s, Chomp(lines[0]));
      FeedClean(num, FeedLine(num, s, Chomp(lines[0])), lines[1..]);
    }
  }

  lemma LineClean(num: ToInteger, s: Parsed, line: string)
    requires CleanParsed(s) && !Has(line, '\n')
    ensures CleanParsed(FeedLine(num, s, line))
  {
    hide FieldName, FieldValue, Has;
    FieldValueClean(line);
  }

  lemma FieldValueClean(line: string)
    requires !Has(line, '\n')
    ensures !Has(FieldValue(line), '\n')
  {
    hide IndexOf, Has;
    var colon := IndexOf(line, ':');
    if colon >= 0 {
      DropClean(line, colon + 1);
      if line[colon + 1..] != "" { DropClean(line[colon + 1..], 1); }
    } else {
      DropClean(line, |line|);
      assert line[|line|..] == "";
    }
  }

  lemma DropClean(s: string, i: nat)
    requires !Has(s, '\n') && i <= |s|
    ensures !Has(s[i..], '\n')
  {
  }

  lemma ParseClean(num: ToInteger, text: string)
    ensures forall e :: e in ParseText(num, text) ==> Clean(e.event) && Clean(e.id)
  {
    hide Feed, Split, ProcessLine;
    var parts := Split(text);
    FeedClean(num, EMPTY, Init(parts));
    LineClean(num, Feed(num, EMPTY, Init(parts)), Chomp(Last(parts)));
  }

  /** What the parser yields for an item that puts no newline into a field. */
  function RereadItem(item: Item): seq<SseEvent> {
    if item.Frame? then [Reread(item.event, item.data, item.id)] else []
  }

  function Rereads(items: seq<Item>): seq<SseEvent> {
    if items == [] then [] else RereadItem(items[0]) + Rereads(items[1..])
  }

  predicate CleanItem(item: Item) {
    item.Frame? ==> Clean(Some(item.event)) && Clean(item.id)
  }

  lemma RereadsStep(events: seq<SseEvent>, items: seq<Item>)
    requires items != []
    ensures events + RereadItem(items[0]) + Rereads(items[1..]) == events + Rereads(items)
  {
    assert Rereads(items) == RereadItem(items[0]) + Rereads(items[1..]);
  }

  lemma {:induction false} FeedItems(num: ToInteger, events: seq<SseEvent>, items: seq<Item>)
    requires forall k :: 0 <= k < |items| ==> CleanItem(items[k])
    ensures Feed(num, Parsed(NOTHING, events), AllLines(items)) == Parsed(NOTHING, events + Rereads(items))
    ensures forall k :: 0 <= k < |AllLines(items)| ==> !Has(AllLines(items)[k], '\n')
    decreases |items|
  {
    hide Feed, FrameLines, Reread;
    if items == [] {
      FeedNone(num, Parsed(NOTHING, events));
    } else {
      hide Lines, Rereads, RereadItem, CleanItem;
      FeedItem(num, events, items[0]);
      FeedAppend(num, Parsed(NOTHING, events), Lines(items[0]), AllLines(items[1..]));
      FeedItems(num, events + RereadItem(items[0]), items[1..]);
      RereadsStep(events, items);
    }
  }

  lemma FeedItem(num: ToInteger, events: seq<SseEvent>, item: Item)
    requires CleanItem(item)
    ensures Feed(num, Parsed(NOTHING, events), Lines(item)) == Parsed(NOTHING, events + RereadItem(item))
    ensures forall k :: 0 <= k < |Lines(item)| ==> !Has(Lines(item)[k], '\n')
  {
    hide FrameLines, Reread;
    match item
    case Frame(event, data, id) =>
      hide Feed;
      FeedFrame(num, events, event, data, id);
      FrameLinesClean(event, data, id);
    case Comment(c) =>
      CleanAfter(": ", Safe(c));
      ChompAfter(": ", Safe(c));
      BlankStays();
      var s := Parsed(NOTHING, events);
      var first := ": " + Chomp(Safe(c));
      assert first != "" && first[0] == ':' && FeedLine(num, s, first) == s;
      var lines := [": " + Safe(c), ""];
      assert lines[1..] == [""] && lines[1..][1..] == [];
      FeedNone(num, s);
      assert events + [] == events;
      assert Feed(num, s, [""]) == FeedLine(num, s, "");
  }

  /** What is reread is what was printed exactly when every item is printable. */
  lemma {:induction false} RereadsIff(items: seq<Item>)
    requires forall k :: 0 <= k < |items| ==> CleanItem(items[k])
    ensures Rereads(items) == Events(items) <==> forall k :: 0 <= k < |items| ==> PrintableItem(items[k])
  {
    hide Reread, Printed, Printable;
    if items != [] {
      var item, rest := items[0], items[1..];
      RereadsIff(rest);
      var a, b := RereadItem(item), Yields(item);
      assert Rereads(items) == a + Rereads(rest) && Events(items) == b + Events(rest);
      assert |a| == |b|;
      SameParts(a, Rereads(rest), b, Events(rest));
      if item.Frame? { PrintableMeans(item.event, item.data, item.id); }
      assert items == [item] + rest;
    }
  }

  lemma SameParts<T>(a: seq<T>, x: seq<T>, b: seq<T>, y: seq<T>)
    requires |a| == |b|
    ensures a + x == b + y <==> a == b && x == y
  {
    assert (a + x)[..|a|] == a && (a + x)[|a|..] == x && (b + y)[..|b|] == b && (b + y)[|b|..] == y;
  }

  lemma {:induction false} EventAmong(items: seq<Item>, k: nat)
    requires k < |items| && items[k].Frame?
    ensures Printed(items[k].event, items[k].data, items[k].id) in Events(items)
  {
    if k > 0 { EventAmong(items[1..], k - 1); }
  }

  /** Items printed in one go read back as their events exactly when each of them is printable. */
  lemma ItemsSurviveIff(num: ToInteger, items: seq<Item>)
    ensures ParseText(num, Ended(AllLines(items))) == Events(items)
            <==> forall k :: 0 <= k < |items| ==> PrintableItem(items[k])
  {
    hide ParseText, Ended, AllLines, Feed, Events, Rereads, Printable;
    if forall k :: 0 <= k < |items| ==> CleanItem(items[k]) {
      FeedItems(num, [], items);
      ParseEnded(num, AllLines(items));
      RereadsIff(items);
    } else {
      var k :| 0 <= k < |items| && !CleanItem(items[k]);
      ParseClean(num, Ended(AllLines(items)));
      EventAmong(items, k);
      UncleanIsUnprintable(items[k]);
    }
  }

  lemma UncleanIsUnprintable(item: Item)
    requires !CleanItem(item)
    ensures item.Frame? && !PrintableItem(item)
  {
  }

  lemma {:induction false} EndedAll(items: seq<Item>, texts: seq<string>)
    requires |texts| == |items| && forall k :: 0 <= k < |items| ==> texts[k] == Ended(Lines(items[k]))
    ensures Concat(texts) == Ended(AllLines(items))
  {
    hide Lines;
    if items != [] {
      EndedAll(items[1..], texts[1..]);
      EndedAppend(Lines(items[0]), AllLines(items[1..]));
    }
  }

  /**
   * Frames and comments printed one after the other and cut anywhere read back as exactly the frames' events, in
   * order, if and only if every one of them is printable.
   */
  lemma PrintParse(num: ToInteger, items: seq<Item>, texts: seq<string>, chunks: seq<string>)
    requires |texts| == |items| && forall k :: 0 <= k < |items| ==> texts[k] == Ended(Lines(items[k]))
    requires Concat(chunks) == Concat(texts)
    ensures ParseText(num, Concat(chunks)) == Events(items)
            <==> forall k :: 0 <= k < |items| ==> PrintableItem(items[k])
  {
    hide Ended, AllLines, Lines, ParseText;
    EndedAll(items, texts);
    ItemsSurviveIff(num, items);
  }

  /** A single printed frame reads back as its event exactly when it is printable. */
  lemma FrameSurvivesIff(num: ToInteger, event: string, data: string, id: Option<string>)
    ensures ParseText(num, Ended(FrameLines(event, data, id))) == [Printed(event, data, id)]
            <==> Printable(event, data, id)
  {
    hide ParseText, Ended, FrameLines, Printable, AllLines, Events;
    var item := Frame(event, data, id);
    OneItem(item);
    ItemsSurviveIff(num, [item]);
    assert PrintableItem([item][0]) <==> Printable(event, data, id);
  }

  lemma OneItem(item: Item)
    ensures AllLines([item]) == Lines(item) && Events([item]) == Yields(item)
  {
    hide Lines, Yields;
    assert [item][1..] == [] && AllLines([]) == [] && Events([]) == [];
  }

  // ----- What the parser makes of any text, block by block

  /**
   * How a field can be written: name, colon, one space that does not count, value; or without the space, or the value.
   */
  predicate IsField(line: string, name: string, value: string) {
    || line == name + ": " + value
    || (line == name + ":" + value && (value == "" || value[0] != ' '))
    || (line == name && value == "")
  }

  /** A line has exactly the name and value it is written with. */
  lemma FieldIs(line: string, name: string, value: string)
    requires !Has(name, ':')
    ensures FieldName(line) == name && FieldValue(line) == value <==> IsField(line, name, value)
  {
    if IsField(line, name, value) {
      hide *;
      WrittenMeans(line, name, value);
    } else {
      hide *;
      ReadAsWritten(line);
    }
  }

  /** Whatever a line reads as, it is written so. */
  lemma ReadAsWritten(line: string)
    ensures IsField(line, FieldName(line), FieldValue(line))
  {
    hide IndexOf;
    var colon := IndexOf(line, ':');
    if colon >= 0 {
      var rest := line[colon + 1..];
      assert line == line[..colon] + ":" + rest;
      if rest != "" && rest[0] == ' ' { SpaceCut(line[..colon], rest); }
    }
  }

  lemma SpaceCut(name: string, rest: string)
    requires rest != "" && rest[0] == ' '
    ensures name + ":" + rest == name + ": " + rest[1..]
  {
    assert rest == " " + rest[1..];
    assert ":" + (" " + rest[1..]) == ": " + rest[1..];
  }

  lemma WrittenMeans(line: string, name: string, value: string)
    requires !Has(name, ':') && IsField(line, name, value)
    ensures FieldName(line) == name && FieldValue(line) == value
  {
    if line == name && value == "" {
      assert IndexOf(line, ':') == -1;
    } else {
      var rest := if line == name + ": " + value then " " + value else value;
      assert name + ": " + value == name + ":" + (" " + value);
      assert line == name + [':'] + rest;
      IndexOfFirst(name, ':', rest);
      assert line[..|name|] == name && line[|name| + 1..] == rest;
    }
  }

  /** The values of the fields of one name, in order; a line that starts with a colon is a comment. */
  function ValuesOf(lines: seq<string>, name: string): seq<string> {
    if lines == [] then []
    else
      var line := Chomp(lines[|lines| - 1]);
      ValuesOf(lines[..|lines| - 1], name)
        + if line != "" && line[0] != ':' && FieldName(line) == name then [FieldValue(line)] else []
  }

  /** The last value that is acceptable. */
  function LastGood<T>(values: seq<string>, accept: string -> Option<T>): Option<T> {
    if values == [] then None
    else
      var last := accept(values[|values| - 1]);
      if last.Some? then last else LastGood(values[..|values| - 1], accept)
  }

  function AsIs(value: string): Option<string> { Some(value) }

  function WithoutNul(value: string): Option<string> { if Has(value, '\0') then None else Some(value) }

  /** Of a block the last event name counts, the last identifier without NUL, the last whole number, and all data. */
  function BlockPending(num: ToInteger, lines: seq<string>): Pending {
    var data := ValuesOf(lines, "data");
    Pending(LastGood(ValuesOf(lines, "event"), AsIs), if data == [] then None else Some(Join(data)),
            LastGood(ValuesOf(lines, "id"), WithoutNul), LastGood(ValuesOf(lines, "retry"), num))
  }

  /** The event of a block; none where there is no data. */
  function BlockEvents(num: ToInteger, lines: seq<string>): seq<SseEvent> {
    var data, p := ValuesOf(lines, "data"), BlockPending(num, lines);
    if data == [] then [] else [SseEvent(p.event, Join(data), p.id, p.retry)]
  }

  lemma BlockDispatched(num: ToInteger, lines: seq<string>)
    ensures Dispatched(BlockPending(num, lines)) == BlockEvents(num, lines)
  {
    hide ValuesOf, LastGood, Join;
  }

  predicate Nonblank(lines: seq<string>) {
    forall k :: 0 <= k < |lines| ==> Chomp(lines[k]) != ""
  }

  lemma LastGoodSnoc<T>(values: seq<string>, value: string, accept: string -> Option<T>)
    ensures LastGood(values + [value], accept)
            == if accept(value).Some? then accept(value) else LastGood(values, accept)
  {
    assert (values + [value])[..|values|] == values;
  }

  /** One more line of a block. */
  lemma BlockSnoc(num: ToInteger, lines: seq<string>, line: string)
    requires Chomp(line) != ""
    ensures BlockPending(num, lines + [line]) == ProcessLine(num, BlockPending(num, lines), Chomp(line))
  {
    hide FieldName, FieldValue, Chomp, Join, IndexOf, LastGood;
    var all := lines + [line];
    assert all[..|all| - 1] == lines && all[|all| - 1] == line;
    var l := Chomp(line);
    forall name: string
      ensures ValuesOf(all, name)
              == ValuesOf(lines, name) + if l[0] != ':' && FieldName(l) == name then [FieldValue(l)] else []
    {
    }
    JoinSnoc(ValuesOf(lines, "data"), FieldValue(l));
    LastGoodSnoc(ValuesOf(lines, "event"), FieldValue(l), AsIs);
    LastGoodSnoc(ValuesOf(lines, "id"), FieldValue(l), WithoutNul);
    LastGoodSnoc(ValuesOf(lines, "retry"), FieldValue(l), num);
    hide ValuesOf;
    assert forall name: string :: ValuesOf(lines, name) + [] == ValuesOf(lines, name);
  }

  lemma {:induction false} FeedBlock(num: ToInteger, events: seq<SseEvent>, lines: seq<string>)
    requires Nonblank(lines)
    ensures Feed(num, Parsed(NOTHING, events), lines) == Parsed(BlockPending(num, lines), events)
  {
    hide ProcessLine, Chomp;
    if lines == [] {
      FeedNone(num, Parsed(NOTHING, events));
    } else {
      var init, last := lines[..|lines| - 1], lines[|lines| - 1];
      assert lines == init + [last];
      FeedBlock(num, events, init);
      FeedSnoc(num, Parsed(NOTHING, events), init, last);
      BlockSnoc(num, init, last);
    }
  }

  lemma {:induction false} FeedShift(num: ToInteger, p: Pending, events: seq<SseEvent>, more: seq<SseEvent>,
                                     lines: seq<string>)
    ensures var a, b := Feed(num, Parsed(p, more), lines), Feed(num, Parsed(p, events + more), lines);
            b.pending == a.pending && b.events == events + a.events
    decreases |lines|
  {
    hide ProcessLine, Chomp, Dispatched;
    if lines != [] {
      var line := Chomp(lines[0]);
      var next := FeedLine(num, Parsed(p, more), line);
      ConcatAssoc(events, more, Dispatched(p));
      assert FeedLine(num, Parsed(p, events + more), line) == Parsed(next.pending, events + next.events);
      FeedShift(num, next.pending, events, next.events, lines[1..]);
    }
  }

  /** A block of lines and the blank line after it yield their event, if there is any data, before all that follows. */
  lemma BlockThenRest(num: ToInteger, lines: seq<string>, rest: string)
    requires Nonblank(lines) && forall k :: 0 <= k < |lines| ==> !Has(lines[k], '\n')
    ensures ParseText(num, Ended(lines + [""]) + rest) == BlockEvents(num, lines) + ParseText(num, rest)
  {
    hide Feed, Split, Ended, ProcessLine, BlockPending, BlockEvents, Nonblank, Dispatched;
    var block := lines + [""];
    SplitEnded(block, rest);
    var parts := Split(rest);
    assert Init(block + parts) == block + Init(parts) && Last(block + parts) == Last(parts);
    FeedAppend(num, EMPTY, block, Init(parts));
    FeedBlock(num, [], lines);
    FeedSnoc(num, EMPTY, lines, "");
    BlankStays();
    BlockDispatched(num, lines);
    var first := Dispatched(BlockPending(num, lines));
    assert [] + first == first && first + [] == first;
    FeedShift(num, NOTHING, first, [], Init(parts));
    var s := Feed(num, EMPTY, Init(parts));
    FlushShift(num, s.pending, first, s.events, Last(parts));
  }

  lemma FlushShift(num: ToInteger, p: Pending, events: seq<SseEvent>, more: seq<SseEvent>, rest: string)
    ensures Flush(num, Parsed(p, events + more), rest) == events + Flush(num, Parsed(p, more), rest)
  {
    hide ProcessLine, Dispatched, Chomp;
  }

  lemma SplitBlank(rest: string)
    requires !Has(rest, '\n')
    ensures Split(rest + "\n\n") == [rest, "", ""]
  {
    SplitStep("");
    hide Split, IndexOf;
    assert rest + "\n" + "\n" == rest + "\n\n" && "" + "\n" + "" == "\n";
    SplitLine(rest, "\n");
    SplitLine("", "");
    assert [rest] + ([""] + [""]) == [rest, "", ""];
  }

  lemma LastHasNoNewline(text: string)
    ensures !Has(Last(Split(text)), '\n')
  {
  }

  /** The end of the stream acts as a blank line. */
  lemma EndIsBlankLine(num: ToInteger, text: string)
    ensures ParseText(num, text) == ParseText(num, text + "\n\n")
  {
    hide Split, Feed, ProcessLine, Dispatched;
    var done, rest := Init(Split(text)), Last(Split(text));
    LastHasNoNewline(text);
    SplitAppend(text, "\n\n");
    SplitBlank(rest);
    assert Init(done + [rest, "", ""]) == done + [rest] + [""] && Last(done + [rest, "", ""]) == "";
    FeedSnoc(num, EMPTY, done, rest);
    FeedSnoc(num, EMPTY, done + [rest], "");
    BlankStays();
    NothingIsDispatched();
    var s := Feed(num, EMPTY, done);
    assert s.events + Dispatched(s.pending) + [] == s.events + Dispatched(s.pending);
  }

  lemma NothingIsDispatched()
    ensures Dispatched(NOTHING) == []
  {
  }
}
