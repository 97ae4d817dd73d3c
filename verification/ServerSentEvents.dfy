/**
 How the Node and the Go SDK read the flag-update stream (server-sent events, section 9.2 of the WHATWG
 HTML standard). A stream is the text it encodes, a byte order mark in front included, which only the Node
 client's decoder drops. A refresh is recorded by the number of the line, counted from the start of the
 stream, that caused it.
 */
module ServerSentEvents {

  // ---------------------------------------------------------------------------
  // Lines
  // ---------------------------------------------------------------------------

  /** The lines that a newline ends, and what follows the last newline. */
  datatype Pieces = Pieces(lines: seq<string>, rest: string)

  function Split(text: string): Pieces {
    if text == "" then Pieces([], "")
    else
      var before, c := Split(text[..|text| - 1]), text[|text| - 1];
      if c == '\n' then Pieces(before.lines + [before.rest], "")
      else Pieces(before.lines, before.rest + [c])
  }

  function Join(lines: seq<string>): string {
    if lines == [] then "" else Join(lines[..|lines| - 1]) + lines[|lines| - 1] + "\n"
  }

  /** Split is the inverse of joining newline-free lines with newlines. */
  lemma {:induction false} SplitIsInverse(text: string)
    ensures var p := Split(text);
            && Join(p.lines) + p.rest == text
            && '\n' !in p.rest && forall line | line in p.lines :: '\n' !in line
  {
    if text != "" {
      var before, c := Split(text[..|text| - 1]), text[|text| - 1];
      SplitIsInverse(text[..|text| - 1]);
      assert text == text[..|text| - 1] + [c];
      if c == '\n' {
        assert (before.lines + [before.rest])[..|before.lines|] == before.lines;
      }
    }
  }

  lemma {:induction false} SplitOfLine(line: string)
    requires '\n' !in line
    ensures Split(line) == Pieces([], line)
  {
    if line != "" {
      SplitOfLine(line[..|line| - 1]);
    }
  }

  /** Splitting can stop anywhere and go on from the unfinished line. */
  lemma {:induction false} SplitResumes(a: string, b: string)
    ensures var p, q := Split(a), Split(Split(a).rest + b);
            Split(a + b) == Pieces(p.lines + q.lines, q.rest)
  {
    var p := Split(a);
    if b == "" {
      SplitIsInverse(a);
      SplitOfLine(p.rest);
      assert a + b == a && p.rest + b == p.rest;
    } else {
      var b', c := b[..|b| - 1], b[|b| - 1];
      SplitResumes(a, b');
      assert (a + b)[..|a + b| - 1] == a + b';
      assert (p.rest + b)[..|p.rest + b| - 1] == p.rest + b';
    }
  }

  // ---------------------------------------------------------------------------
  // White space
  // ---------------------------------------------------------------------------

  predicate CommonSpace(c: char) {
    || '\t' <= c <= '\r' || c == ' ' || c == '\U{00A0}' || c == '\U{1680}'
    || '\U{2000}' <= c <= '\U{200A}' || c == '\U{2028}' || c == '\U{2029}'
    || c == '\U{202F}' || c == '\U{205F}' || c == '\U{3000}'
  }

  /** The 24 characters one by one: the ASCII blanks and the Unicode spaces. */
  lemma CommonSpacesAre(c: char)
    ensures CommonSpace(c) <==> c in {
      '\U{0009}', '\U{000A}', '\U{000B}', '\U{000C}', '\U{000D}', '\U{0020}', '\U{00A0}', '\U{1680}',
      '\U{2000}', '\U{2001}', '\U{2002}', '\U{2003}', '\U{2004}', '\U{2005}', '\U{2006}', '\U{2007}',
      '\U{2008}', '\U{2009}', '\U{200A}', '\U{2028}', '\U{2029}', '\U{202F}', '\U{205F}', '\U{3000}'}
  {}

  /** What String.prototype.trim removes. */
  predicate NodeSpace(c: char) { CommonSpace(c) || c == '\U{FEFF}' }

  /** What strings.TrimSpace removes. */
  predicate GoSpace(c: char) { CommonSpace(c) || c == '\U{0085}' }

  function TrimEnd(space: char -> bool, s: string): string {
    if s != "" && space(s[|s| - 1]) then TrimEnd(space, s[..|s| - 1]) else s
  }

  function TrimStart(space: char -> bool, s: string): string {
    if s != "" && space(s[0]) then TrimStart(space, s[1..]) else s
  }

  function Trim(space: char -> bool, s: string): string {
    TrimStart(space, TrimEnd(space, s))
  }

  // ---------------------------------------------------------------------------
  // The state machine
  // ---------------------------------------------------------------------------

  datatype State = State(eventType: string, refreshes: seq<nat>)

  const START := State("", [])

  function Feed(space: char -> bool, st: State, line: string, number: nat): State {
    if "event:" <= line then st.(eventType := Trim(space, line[6..]))
    else if "data:" <= line then
      State("", if st.eventType == "flag-update" then st.refreshes + [number] else st.refreshes)
    else st
  }

  function Run(space: char -> bool, lines: seq<string>): State {
    if lines == [] then START
    else Feed(space, Run(space, lines[..|lines| - 1]), lines[|lines| - 1], |lines| - 1)
  }

  lemma RunNext(space: char -> bool, lines: seq<string>, line: string)
    ensures Run(space, lines + [line]) == Feed(space, Run(space, lines), line, |lines|)
  {
    assert (lines + [line])[..|lines|] == lines;
  }

  /** What the Node client does with a stream: the unfinished last line is never looked at. */
  function NodeRefreshes(text: string): seq<nat> {
    Run(NodeSpace, Split(Unmarked(text)).lines).refreshes
  }

  /** What the Go client does with it. */
  function GoRefreshes(text: string): seq<nat> {
    Run(GoSpace, ScanLines(text)).refreshes
  }

  function Concat(chunks: seq<string>): string {
    if chunks == [] then "" else Concat(chunks[..|chunks| - 1]) + chunks[|chunks| - 1]
  }

  // ---------------------------------------------------------------------------
  // The Node client
  // ---------------------------------------------------------------------------

  const MARK := '\U{FEFF}'

  predicate HasMark(text: string) { text != "" && text[0] == MARK }

  /** The text without a byte order mark in front. */
  function Unmarked(text: string): string {
    if HasMark(text) then text[1..] else text
  }

  /** TextDecoder.decode with a stream: the mark is dropped from the first text that comes, in whatever chunk. */
  function Decode(started: bool, chunk: string): string {
    if started then chunk else Unmarked(chunk)
  }

  lemma DecodeResumes(a: string, b: string)
    ensures Unmarked(a + b) == Unmarked(a) + Decode(a != "", b)
  {}

  /** The refreshes of the Node client depend on the whole text alone, not on how it was cut into chunks. */
  method NodeConnectSSE(chunks: seq<string>) returns (refreshes: seq<nat>)
    ensures refreshes == NodeRefreshes(Concat(chunks))
  {
    refreshes := [];
    var buffer, eventType, number, started := "", "", 0, false;
    ghost var done: seq<string> := [];
    assert chunks[..0] == [];
    for i := 0 to |chunks|
      invariant Split(Unmarked(Concat(chunks[..i]))) == Pieces(done, buffer) && started == (Concat(chunks[..i]) != "")
      invariant Run(NodeSpace, done) == State(eventType, refreshes) && number == |done|
    {
      assert chunks[..i + 1][..i] == chunks[..i];
      var decoded := Decode(started, chunks[i]);
      DecodeResumes(Concat(chunks[..i]), chunks[i]);
      SplitResumes(Unmarked(Concat(chunks[..i])), decoded);
      started := started || chunks[i] != "";
      buffer := buffer + decoded;
      var pieces := Split(buffer);
      buffer := pieces.rest;
      eventType, refreshes, number := NodeLines(pieces.lines, eventType, refreshes, number, done);
      done := done + pieces.lines;
    }
    assert chunks[..|chunks|] == chunks;
  }

  /** The loop over the complete lines of one chunk. */
  method NodeLines(lines: seq<string>, eventType0: string, refreshes0: seq<nat>, number0: nat, ghost done: seq<string>)
    returns (eventType: string, refreshes: seq<nat>, number: nat)
    requires Run(NodeSpace, done) == State(eventType0, refreshes0) && number0 == |done|
    ensures Run(NodeSpace, done + lines) == State(eventType, refreshes) && number == |done + lines|
  {
    eventType, refreshes, number := eventType0, refreshes0, number0;
    assert done + lines[..0] == done;
    for i := 0 to |lines|
      invariant Run(NodeSpace, done + lines[..i]) == State(eventType, refreshes) && number == |done| + i
    {
      var line := lines[i];
      assert done + lines[..i + 1] == (done + lines[..i]) + [line];
      RunNext(NodeSpace, done + lines[..i], line);
      if "event:" <= line {
        eventType := Trim(NodeSpace, line[6..]);
      } else if "data:" <= line {
        if eventType == "flag-update" {
          refreshes := refreshes + [number];
        }
        eventType := "";
      }
      number := number + 1;
    }
    assert lines[..|lines|] == lines;
  }

  // ---------------------------------------------------------------------------
  // The Go client
  // ---------------------------------------------------------------------------

  function DropCR(line: string): string {
    if line != "" && line[|line| - 1] == '\r' then line[..|line| - 1] else line
  }

  function DropCRs(lines: seq<string>): seq<string> {
    seq(|lines|, i requires 0 <= i < |lines| => DropCR(lines[i]))
  }

  /** The tokens of bufio.ScanLines: a last line without newline counts, unless it is empty. */
  function ScanLines(text: string): seq<string> {
    var p := Split(text);
    DropCRs(p.lines) + if p.rest == "" then [] else [DropCR(p.rest)]
  }

  method GoConnectSSE(body: string) returns (refreshes: seq<nat>)
    ensures refreshes == GoRefreshes(body)
  {
    refreshes := [];
    var lines, eventType := ScanLines(body), "";
    for i := 0 to |lines|
      invariant Run(GoSpace, lines[..i]) == State(eventType, refreshes)
    {
      var line := lines[i];
      assert lines[..i + 1] == lines[..i] + [line];
      RunNext(GoSpace, lines[..i], line);
      if "event:" <= line {
        eventType := Trim(GoSpace, line[6..]);
        continue;
      }
      if "data:" <= line {
        if eventType == "flag-update" {
          refreshes := refreshes + [i];
        }
        eventType := "";
        continue;
      }
    }
    assert lines[..|lines|] == lines;
  }

  // ---------------------------------------------------------------------------
  // The two clients compared
  // ---------------------------------------------------------------------------

  /** Free of the two characters that only one of the trims removes. */
  predicate Plain(s: string) {
    forall i | 0 <= i < |s| :: s[i] != '\U{FEFF}' && s[i] != '\U{0085}'
  }

  lemma {:induction false} TrimsAgree(s: string)
    requires Plain(s)
    ensures Trim(GoSpace, s) == Trim(NodeSpace, s)
  {
    TrimEndsAgree(s);
    TrimStartsAgree(TrimEnd(GoSpace, s));
  }

  lemma {:induction false} TrimEndsAgree(s: string)
    requires Plain(s)
    ensures TrimEnd(GoSpace, s) == TrimEnd(NodeSpace, s) && Plain(TrimEnd(GoSpace, s))
  {
    if s != "" {
      TrimEndsAgree(s[..|s| - 1]);
    }
  }

  lemma {:induction false} TrimStartsAgree(s: string)
    requires Plain(s)
    ensures TrimStart(GoSpace, s) == TrimStart(NodeSpace, s)
  {
    if s != "" {
      TrimStartsAgree(s[1..]);
    }
  }

  /** For either trim, a line has the same effect with and without its carriage return. */
  lemma FeedDropsCR(space: char -> bool, st: State, line: string, number: nat)
    requires space('\r')
    ensures Feed(space, st, DropCR(line), number) == Feed(space, st, line, number)
  {
    var short := DropCR(line);
    if short != line {
      assert line == short + "\r";
      assert "event:" <= line <==> "event:" <= short;
      assert "data:" <= line <==> "data:" <= short;
      if "event:" <= line {
        assert line[6..] == short[6..] + "\r";
        assert line[6..][..|short[6..]|] == short[6..];
      }
    }
  }

  lemma {:induction false} RunDropsCRs(space: char -> bool, lines: seq<string>)
    requires space('\r')
    ensures Run(space, DropCRs(lines)) == Run(space, lines)
  {
    if lines != [] {
      var n := |lines| - 1;
      RunDropsCRs(space, lines[..n]);
      assert DropCRs(lines)[..n] == DropCRs(lines[..n]);
      FeedDropsCR(space, Run(space, lines[..n]), lines[n], n);
    }
  }

  // ---------------------------------------------------------------------------
  // Which event line a data line consumes
  // ---------------------------------------------------------------------------

  predicate IsEvent(line: string) { "event:" <= line }

  predicate IsData(line: string) { "data:" <= line }

  predicate AllIn(space: char -> bool, s: string) {
    forall c | c in s :: space(c)
  }

  /** A line is a flag update exactly if nothing but white space stands around the name. */
  lemma UpdateExactly(space: char -> bool, s: string)
    requires !space('f') && !space('e')
    ensures IsUpdate(space, "event:" + s) <==>
              exists a, b :: AllIn(space, a) && AllIn(space, b) && s == a + "flag-update" + b
  {
    var line, t := "event:" + s, "flag-update";
    assert line[6..] == s && "event:" <= line;
    if IsUpdate(space, line) {
      var b := EndTrimmed(space, s);
      var a := StartTrimmed(space, TrimEnd(space, s));
    }
    forall a, b | AllIn(space, a) && AllIn(space, b) && s == a + t + b
      ensures IsUpdate(space, line)
    {
      PaddingIsTrimmed(space, a, t, b);
    }
  }

  lemma {:induction false} EndTrimmed(space: char -> bool, s: string) returns (b: string)
    ensures AllIn(space, b) && s == TrimEnd(space, s) + b
  {
    b := "";
    if s != "" && space(s[|s| - 1]) {
      b := EndTrimmed(space, s[..|s| - 1]);
      b := b + [s[|s| - 1]];
    }
  }

  lemma {:induction false} StartTrimmed(space: char -> bool, s: string) returns (a: string)
    ensures AllIn(space, a) && s == a + TrimStart(space, s)
  {
    a := "";
    if s != "" && space(s[0]) {
      a := StartTrimmed(space, s[1..]);
      a := [s[0]] + a;
    }
  }

  lemma {:induction false} EndPadding(space: char -> bool, s: string, b: string)
    requires AllIn(space, b)
    ensures TrimEnd(space, s + b) == TrimEnd(space, s)
  {
    if b == "" {
      assert s + b == s;
    } else {
      assert (s + b)[..|s + b| - 1] == s + b[..|b| - 1];
      EndPadding(space, s, b[..|b| - 1]);
    }
  }

  lemma {:induction false} StartPadding(space: char -> bool, a: string, s: string)
    requires AllIn(space, a)
    ensures TrimStart(space, a + s) == TrimStart(space, s)
  {
    if a == "" {
      assert a + s == s;
    } else {
      assert (a + s)[1..] == a[1..] + s;
      StartPadding(space, a[1..], s);
    }
  }

  lemma PaddingIsTrimmed(space: char -> bool, a: string, t: string, b: string)
    requires AllIn(space, a) && AllIn(space, b) && t != "" && !space(t[0]) && !space(t[|t| - 1])
    ensures Trim(space, a + t + b) == t
  {
    EndPadding(space, a + t, b);
    assert (a + t)[|a + t| - 1] == t[|t| - 1];
    StartPadding(space, a, t);
  }

  lemma PaddedUpdate(space: char -> bool, a: string, b: string)
    requires AllIn(space, a) && AllIn(space, b) && !space('f') && !space('e')
    ensures IsUpdate(space, "event:" + a + "flag-update" + b)
  {
    var t := "flag-update";
    PaddingIsTrimmed(space, a, t, b);
    assert ("event:" + a + t + b)[6..] == a + t + b;
  }

  predicate IsUpdate(space: char -> bool, line: string) {
    IsEvent(line) && Trim(space, line[6..]) == "flag-update"
  }

  /** Line e names the event type that is pending after the lines. */
  predicate Pending(lines: seq<string>, e: nat) {
    && e < |lines| && IsEvent(lines[e])
    && forall k | e < k < |lines| :: !IsEvent(lines[k]) && !IsData(lines[k])
  }

  /** Line d is a data line, and line e names its event type. */
  predicate Consumes(lines: seq<string>, d: nat, e: nat) {
    d < |lines| && IsData(lines[d]) && Pending(lines[..d], e)
  }

  /** The lines, with the mark in front of the first if there is one. */
  function Marked(mark: bool, lines: seq<string>): seq<string> {
    if mark && lines != [] then [[MARK] + lines[0]] + lines[1..] else lines
  }

  lemma RunMarkedNext(space: char -> bool, mark: bool, front: seq<string>, line: string)
    ensures Run(space, Marked(mark, front + [line]))
         == if mark && front == [] then START else Feed(space, Run(space, Marked(mark, front)), line, |front|)
  {
    hide Trim, Run;
    if mark && front == [] {
      var first := [MARK] + line;
      assert Marked(mark, front + [line]) == [] + [first];
      RunNext(space, [], first);
      assert first[0] == MARK;
      assert Run(space, []) == START by {
        RunNothing(space);
      }
    } else {
      assert Marked(mark, front + [line]) == Marked(mark, front) + [line];
      RunNext(space, Marked(mark, front), line);
    }
  }

  lemma RunNothing(space: char -> bool)
    ensures Run(space, []) == START
  {}

  /** Line e names a flag update: under a trim, and with a mark in front the first line names none. */
  predicate Updates(space: char -> bool, mark: bool, lines: seq<string>, e: nat)
    requires e < |lines|
  {
    IsUpdate(space, lines[e]) && !(mark && e == 0)
  }

  /** The pending event type is a flag update exactly when some pending line names it. */
  ghost predicate UpdatePending(space: char -> bool, mark: bool, lines: seq<string>) {
    exists e: nat :: Pending(lines, e) && Updates(space, mark, lines, e)
  }

  lemma PendingIsUnique(lines: seq<string>, e: nat, f: nat)
    requires Pending(lines, e) && Pending(lines, f)
    ensures e == f
  {}

  lemma {:induction false} PendingDecides(space: char -> bool, mark: bool, lines: seq<string>)
    ensures Run(space, Marked(mark, lines)).eventType == "flag-update" <==> UpdatePending(space, mark, lines)
  {
    if lines != [] {
      hide Trim, Run, Marked;
      var n := |lines| - 1;
      var front := lines[..n];
      PendingDecides(space, mark, front);
      assert lines == front + [lines[n]];
      RunMarkedNext(space, mark, front, lines[n]);
      hide Feed;
      PendingNext(front, lines[n]);
      FeedUpdates(space, Run(space, Marked(mark, front)), lines[n], n);
      hide IsEvent, IsData, IsUpdate, Pending;
      if IsEvent(lines[n]) {
        assert Pending(lines, n);
      } else if !IsData(lines[n]) && UpdatePending(space, mark, front) {
        var e: nat :| Pending(front, e) && Updates(space, mark, front, e);
        assert Pending(lines, e) && front[e] == lines[e];
      }
    }
  }

  lemma PendingNext(front: seq<string>, line: string)
    ensures forall e: nat :: Pending(front + [line], e) <==>
              if e == |front| then IsEvent(line) else Pending(front, e) && !IsEvent(line) && !IsData(line)
    ensures forall e: nat | Pending(front, e) :: e < |front| && (front + [line])[e] == front[e]
  {
    var lines := front + [line];
    forall e: nat
      ensures Pending(lines, e) <==>
                if e == |front| then IsEvent(line) else Pending(front, e) && !IsEvent(line) && !IsData(line)
    {
      assert lines[|front|] == line && forall k | 0 <= k < |front| :: lines[k] == front[k];
    }
  }

  lemma FeedUpdates(space: char -> bool, st: State, line: string, number: nat)
    ensures Feed(space, st, line, number).eventType == "flag-update" <==>
              IsUpdate(space, line) || (st.eventType == "flag-update" && !IsEvent(line) && !IsData(line))
  {
    assert |"flag-update"| != 0;
    hide Trim;
  }

  lemma {:induction false} RefreshesAreLines(space: char -> bool, lines: seq<string>)
    ensures forall i | 0 <= i < |Run(space, lines).refreshes| :: Run(space, lines).refreshes[i] < |lines|
  {
    if lines != [] {
      RefreshesAreLines(space, lines[..|lines| - 1]);
    }
  }

  lemma Extended(a: seq<nat>, x: bool, b: seq<nat>, y: bool, n: nat)
    requires forall i | 0 <= i < |a| :: a[i] < n
    requires forall i | 0 <= i < |b| :: b[i] < n
    ensures a + (if x then [n] else []) == b + (if y then [n] else []) <==> a == b && x == y
  {
    var c, d := a + (if x then [n] else []), b + (if y then [n] else []);
    if c == d {
      assert x == y by {
        assert x ==> c[|c| - 1] == n;
        assert y ==> d[|d| - 1] == n;
        assert !x && c != [] ==> c[|c| - 1] < n;
        assert !y && d != [] ==> d[|d| - 1] < n;
      }
      assert a == c[..|a|] && b == d[..|b|];
    }
  }

  /**
   Each event line that a data line consumes names a flag update to both clients or to neither: under both
   trims or under neither, and to the Node client alone if a mark is in front of it.
   */
  ghost predicate UpdatesAgree(mark: bool, lines: seq<string>) {
    forall d: nat, e: nat | Consumes(lines, d, e) ::
      Updates(NodeSpace, false, lines, e) <==> Updates(GoSpace, mark, lines, e)
  }

  /** Whether a line that follows these lines refreshes. */
  predicate Refreshes(space: char -> bool, mark: bool, lines: seq<string>, line: string) {
    IsData(line) && Run(space, Marked(mark, lines)).eventType == "flag-update"
  }

  lemma FeedRefreshes(space: char -> bool, st: State, line: string, number: nat)
    ensures Feed(space, st, line, number).refreshes
         == st.refreshes + if IsData(line) && st.eventType == "flag-update" then [number] else []
  {
    hide Trim;
    assert "event:" <= line ==> line[0] == 'e';
    assert "data:" <= line ==> line[0] == 'd';
    assert st.refreshes + [] == st.refreshes;
  }

  lemma RunExtends(space: char -> bool, mark: bool, front: seq<string>, line: string)
    ensures Run(space, Marked(mark, front + [line])).refreshes
         == Run(space, Marked(mark, front)).refreshes
            + if Refreshes(space, mark, front, line) then [|front|] else []
  {
    RunMarkedNext(space, mark, front, line);
    RunNothing(space);
    hide Trim, Run;
    FeedRefreshes(space, Run(space, Marked(mark, front)), line, |front|);
  }

  /** A line refreshes exactly if it is data and the event line it consumes names a flag update. */
  lemma {:induction false} RefreshesExactly(space: char -> bool, lines: seq<string>, d: nat)
    ensures d in Run(space, lines).refreshes <==>
              exists e: nat :: Consumes(lines, d, e) && IsUpdate(space, lines[e])
  {
    if lines != [] {
      hide Run, Trim, IsUpdate;
      var n := |lines| - 1;
      var front, line := lines[..n], lines[n];
      assert lines == front + [line];
      RefreshesExactly(space, front, d);
      RefreshesAreLines(space, front);
      RunExtends(space, false, front, line);
      PendingDecides(space, false, front);
      forall e: nat
        ensures Consumes(lines, d, e) <==> Consumes(front, d, e) || (d == n && IsData(line) && Pending(front, e))
        ensures Consumes(front, d, e) || Pending(front, e) ==> e < n && front[e] == lines[e]
      {
        ConsumesNext(front, line, d, e);
      }
      hide Consumes, Pending, IsData;
    }
  }

  /** And each line refreshes once, in order. */
  lemma {:induction false} RefreshesAscend(space: char -> bool, lines: seq<string>)
    ensures var r := Run(space, lines).refreshes;
            forall i, j | 0 <= i < j < |r| :: r[i] < r[j]
  {
    if lines != [] {
      hide Run, Trim;
      var n := |lines| - 1;
      assert lines == lines[..n] + [lines[n]];
      RefreshesAscend(space, lines[..n]);
      RefreshesAreLines(space, lines[..n]);
      RunExtends(space, false, lines[..n], lines[n]);
    }
  }

  lemma {:induction false} RunsAgreeExactly(mark: bool, lines: seq<string>)
    ensures Run(GoSpace, Marked(mark, lines)).refreshes == Run(NodeSpace, lines).refreshes
       <==> UpdatesAgree(mark, lines)
  {
    if lines != [] {
      hide Run, UpdatesAgree, Refreshes;
      var n := |lines| - 1;
      var front, line := lines[..n], lines[n];
      assert lines == front + [line];
      RunsAgreeExactly(mark, front);
      RefreshesAreLines(GoSpace, Marked(mark, front));
      RefreshesAreLines(NodeSpace, front);
      RunExtends(GoSpace, mark, front, line);
      RunExtends(NodeSpace, false, front, line);
      hide Marked;
      assert Marked(false, front) == front && Marked(false, lines) == lines && |Marked(mark, front)| == n by {
        MarkedShape(mark, front);
        MarkedShape(mark, lines);
      }
      Extended(Run(GoSpace, Marked(mark, front)).refreshes, Refreshes(GoSpace, mark, front, line),
               Run(NodeSpace, front).refreshes, Refreshes(NodeSpace, false, front, line), n);
      LastLineAgrees(mark, front, line);
    }
  }

  lemma MarkedShape(mark: bool, lines: seq<string>)
    ensures |Marked(mark, lines)| == |lines| && Marked(false, lines) == lines
  {}

  lemma ConsumesNext(front: seq<string>, line: string, d: nat, e: nat)
    ensures Consumes(front + [line], d, e)
       <==> Consumes(front, d, e) || (d == |front| && IsData(line) && Pending(front, e))
  {
    var lines := front + [line];
    if d <= |front| {
      assert lines[..d] == front[..d];
      assert front[..|front|] == front;
    }
  }

  /** Only the new line can consume a pending one that the earlier lines did not. */
  lemma LastLineAgrees(mark: bool, front: seq<string>, line: string)
    ensures UpdatesAgree(mark, front + [line]) <==>
              UpdatesAgree(mark, front)
              && (Refreshes(GoSpace, mark, front, line) <==> Refreshes(NodeSpace, false, front, line))
  {
    hide Trim, Run, Marked;
    var lines := front + [line];
    PendingDecides(GoSpace, mark, front);
    PendingDecides(NodeSpace, false, front);
    forall d: nat, e: nat
      ensures Consumes(lines, d, e) <==> Consumes(front, d, e) || (d == |front| && IsData(line) && Pending(front, e))
      ensures Pending(front, e) || Consumes(front, d, e) ==> e < |front| && lines[e] == front[e]
    {
      ConsumesNext(front, line, d, e);
    }
    forall e: nat, f: nat | Pending(front, e) && Pending(front, f)
      ensures e == f
    {
      PendingIsUnique(front, e, f);
    }
    hide Consumes, Pending, IsUpdate;
    if IsData(line) && exists e: nat :: Pending(front, e) {
      var e: nat :| Pending(front, e);
      assert Consumes(lines, |front|, e);
      assert UpdatePending(GoSpace, mark, front) <==> Updates(GoSpace, mark, lines, e);
      assert UpdatePending(NodeSpace, false, front) <==> Updates(NodeSpace, false, lines, e);
    }
    if UpdatesAgree(mark, lines) {
      forall d: nat, e: nat | Consumes(front, d, e)
        ensures Updates(NodeSpace, false, front, e) <==> Updates(GoSpace, mark, front, e)
      {
        assert Consumes(lines, d, e);
      }
    }
  }

  /** The unfinished last line is the data of a flag update, which only the Go client looks at. */
  predicate RestRefreshes(text: string) {
    var p := Split(text);
    Run(GoSpace, p.lines).eventType == "flag-update" && IsData(p.rest)
  }

  /** Carriage returns never matter to the Go client. */
  lemma GoRefreshesAt(text: string)
    ensures GoRefreshes(text)
         == Run(GoSpace, Split(text).lines).refreshes + if RestRefreshes(text) then [|Split(text).lines|] else []
  {
    hide Split, Trim, Run;
    var p := Split(text);
    assert GoSpace('\r');
    RunDropsCRs(GoSpace, p.lines);
    if p.rest != "" {
      RunNext(GoSpace, DropCRs(p.lines), DropCR(p.rest));
      FeedDropsCR(GoSpace, Run(GoSpace, p.lines), p.rest, |p.lines|);
      FeedRefreshes(GoSpace, Run(GoSpace, p.lines), p.rest, |p.lines|);
    } else {
      var before := Run(GoSpace, p.lines).refreshes;
      assert ScanLines(text) == DropCRs(p.lines);
      assert before + [] == before;
    }
  }

  /** The mark stays in front of the first line, or of the rest if there is none. */
  lemma {:induction false} SplitOfMark(text: string)
    ensures var p := Split(text);
            Split([MARK] + text) == Pieces(Marked(true, p.lines), if p.lines == [] then [MARK] + p.rest else p.rest)
  {
    if text == "" {
      assert Split([MARK]) == Pieces([], [MARK]) by {
        SplitOfLine([MARK]);
      }
      assert [MARK] + text == [MARK];
    } else {
      var front, c := text[..|text| - 1], text[|text| - 1];
      SplitOfMark(front);
      assert ([MARK] + text)[..|text|] == [MARK] + front;
      var before := Split(front);
      if c == '\n' {
        assert before.lines == [] ==> Marked(true, [before.rest]) == [[MARK] + before.rest];
        assert before.lines != [] ==>
            Marked(true, before.lines + [before.rest]) == Marked(true, before.lines) + [before.rest];
      } else {
        assert ([MARK] + before.rest) + [c] == [MARK] + (before.rest + [c]);
      }
    }
  }

  lemma MarkedLines(text: string)
    ensures Split(text).lines == Marked(HasMark(text), Split(Unmarked(text)).lines)
  {
    hide Split;
    if HasMark(text) {
      assert text == [MARK] + text[1..];
      SplitOfMark(text[1..]);
    }
  }

  /**
   On every text the two clients refresh at the same lines exactly when each event line that a data line
   consumes names a flag update to both or to neither, and the unfinished last line would not refresh.
   */
  lemma ClientsAgreeExactly(text: string)
    ensures GoRefreshes(text) == NodeRefreshes(text)
       <==> UpdatesAgree(HasMark(text), Split(Unmarked(text)).lines) && !RestRefreshes(text)
  {
    hide Run, Split, UpdatesAgree, RestRefreshes;
    var mark, lines := HasMark(text), Split(Unmarked(text)).lines;
    GoRefreshesAt(text);
    MarkedLines(text);
    RunsAgreeExactly(mark, lines);
    MarkedShape(mark, lines);
    hide Marked;
    RefreshesAreLines(GoSpace, Marked(mark, lines));
    RefreshesAreLines(NodeSpace, lines);
    var go, node := Run(GoSpace, Marked(mark, lines)).refreshes, Run(NodeSpace, lines).refreshes;
    Extended(go, RestRefreshes(text), node, false, |lines|);
    assert node + [] == node;
  }

  /**
   So if no event line holds one of the two characters on which the trims differ, only two things can tell
   the clients apart: a mark in front of an event line that some data line consumes as a flag update, and
   an unterminated last line. On unmarked text that ends with a newline nothing can.
   */
  lemma ClientsAgree(text: string)
    requires forall line | line in Split(Unmarked(text)).lines && IsEvent(line) :: Plain(line)
    ensures GoRefreshes(text) == NodeRefreshes(text)
       <==> !(HasMark(text) && FirstUpdates(Split(Unmarked(text)).lines)) && !RestRefreshes(text)
    ensures text != "" && text[|text| - 1] == '\n' ==> !RestRefreshes(text)
  {
    hide Run, UpdatesAgree, FirstUpdates, Split, IsEvent, Plain, ScanLines;
    PlainEventsAgree(HasMark(text), Split(Unmarked(text)).lines);
    ClientsAgreeExactly(text);
    if text != "" && text[|text| - 1] == '\n' {
      EndedTextIsWhole(text);
    }
  }

  /** The first line is a flag update that a data line consumes. */
  ghost predicate FirstUpdates(lines: seq<string>) {
    exists d: nat :: Consumes(lines, d, 0) && IsUpdate(NodeSpace, lines[0])
  }

  lemma {:induction false} EndedTextIsWhole(text: string)
    requires text != "" && text[|text| - 1] == '\n'
    ensures Split(text).rest == ""
  {}

  lemma PlainEventsAgree(mark: bool, lines: seq<string>)
    requires forall line | line in lines && IsEvent(line) :: Plain(line)
    ensures UpdatesAgree(mark, lines) <==> !(mark && FirstUpdates(lines))
  {
    hide Trim, GoSpace, NodeSpace;
    forall d: nat, e: nat | Consumes(lines, d, e)
      ensures e < |lines| && (IsUpdate(NodeSpace, lines[e]) <==> IsUpdate(GoSpace, lines[e]))
    {
      assert lines[..d][e] == lines[e] && lines[e] in lines;
      TrimsAgree(lines[e][6..]);
    }
    hide Consumes, IsUpdate;
  }

  /** A leading character that only one of the trims removes. */
  lemma TrimsDiffer(c: char, s: string)
    requires s != "" && !CommonSpace(s[0]) && s[0] != '\U{FEFF}' && s[0] != '\U{0085}'
    requires var last := s[|s| - 1]; !CommonSpace(last) && last != '\U{FEFF}' && last != '\U{0085}'
    ensures c == '\U{FEFF}' ==> Trim(NodeSpace, [c] + s) == s && Trim(GoSpace, [c] + s) == [c] + s
    ensures c == '\U{0085}' ==> Trim(GoSpace, [c] + s) == s && Trim(NodeSpace, [c] + s) == [c] + s
  {
    var t := [c] + s;
    assert t[|t| - 1] == s[|s| - 1] && t[1..] == s && t[0] == c;
    assert TrimEnd(NodeSpace, t) == t && TrimEnd(GoSpace, t) == t;
    assert TrimStart(NodeSpace, s) == s && TrimStart(GoSpace, s) == s;
    assert !CommonSpace('\U{FEFF}') && !CommonSpace('\U{0085}');
  }

  /** A newline-terminated text of two lines. */
  lemma SplitOfTwoLines(a: string, b: string)
    requires '\n' !in a && '\n' !in b
    ensures Split(a + "\n" + b + "\n") == Pieces([a, b], "")
  {
    hide Split;
    SplitOfEndedLine(a);
    SplitOfEndedLine(b);
    SplitResumes(a + "\n", b + "\n");
    assert "" + (b + "\n") == b + "\n";
    assert (a + "\n") + (b + "\n") == a + "\n" + b + "\n";
    assert [a] + [b] == [a, b];
  }

  lemma SplitOfEndedLine(a: string)
    requires '\n' !in a
    ensures Split(a + "\n") == Pieces([a], "")
  {
    SplitOfLine(a);
    assert (a + "\n")[..|a|] == a;
    assert [] + [a] == [a];
  }

  /** The two clients on a text of an event line and a data line, as each sees them. */
  lemma TwoLineRuns(event: string, data: string)
    requires '\n' !in event && '\n' !in data && IsData(data)
    ensures Split(event + "\n" + data + "\n") == Pieces([event, data], "")
    ensures forall space :: Run(space, [event, data]).refreshes == if IsUpdate(space, event) then [1] else []
  {
    hide Trim;
    SplitOfTwoLines(event, data);
    assert [event, data] == ([] + [event]) + [data];
    forall space: char -> bool
      ensures Run(space, [event, data]).refreshes == if IsUpdate(space, event) then [1] else []
    {
      RunNext(space, [], event);
      RunNext(space, [] + [event], data);
      FeedUpdates(space, START, event, 0);
      FeedRefreshes(space, START, event, 0);
      FeedRefreshes(space, Feed(space, START, event, 0), data, 1);
    }
  }

  /**
   Both clients hear a flag update, as the server writes it, whatever blanks stand before and after its
   name and whatever data follows.
   */
  lemma UpdateIsHeard(front: string, back: string, event: string, data: string, text: string)
    requires (forall c | c in front || c in back :: CommonSpace(c) && c != '\n') && '\n' !in data
    requires event == "event:" + front + "flag-update" + back
    requires text == event + "\n" + ("data:" + data) + "\n"
    ensures NodeRefreshes(text) == [1] && GoRefreshes(text) == [1]
  {
    hide Trim, Run, Split, IsUpdate, IsEvent;
    PaddedUpdate(NodeSpace, front, back);
    PaddedUpdate(GoSpace, front, back);
    assert '\n' !in event && text[0] == 'e';
    TwoLineRuns(event, "data:" + data);
    GoRefreshesAt(text);
    assert [1] + [] == [1];
  }

  /** The very line of the server. */
  lemma ServerIsHeard(data: string, text: string)
    requires '\n' !in data && text == "event: flag-update" + "\n" + ("data: " + data) + "\n"
    ensures NodeRefreshes(text) == [1] && GoRefreshes(text) == [1]
  {
    assert "event: flag-update" == "event:" + " " + "flag-update" + "" && "data: " + data == "data:" + (" " + data);
    UpdateIsHeard(" ", "", "event: flag-update", " " + data, text);
  }

  /** On other texts they differ: with a byte order mark after "event:", only the Node client refreshes. */
  lemma ByteOrderMarkDivides(name: string, text: string)
    requires name == "flag-update"
    requires text == "event:" + [MARK] + name + "\n" + "data:" + "\n"
    ensures NodeRefreshes(text) == [1] && GoRefreshes(text) == []
  {
    hide Trim, Run, Split;
    TrimsDiffer(MARK, name);
    var event := "event:" + [MARK] + name;
    TwoLineRuns(event, "data:");
    assert event[6..] == [MARK] + name;
    assert ([MARK] + name)[0] != name[0];
    GoRefreshesAt(text);
  }

  /** So they do with a mark in front of the stream, which the standard allows, on a plain event line. */
  lemma LeadingMarkDivides(event: string, text: string)
    requires event == "event:flag-update" && text == [MARK] + event + "\n" + "data:" + "\n"
    ensures NodeRefreshes(text) == [1] && GoRefreshes(text) == []
    ensures Plain(event) && Split(Unmarked(text)) == Pieces([event, "data:"], "")
  {
    hide Trim, Run, Split, IsUpdate, IsEvent, Plain;
    var seen := [MARK] + event;
    UpdateOnlyUnmarked(event);
    TwoLineRuns(event, "data:");
    TwoLineRuns(seen, "data:");
    assert text[1..] == event + "\n" + "data:" + "\n";
    assert text == seen + "\n" + "data:" + "\n";
    GoRefreshesAt(text);
  }

  lemma UpdateOnlyUnmarked(event: string)
    requires event == "event:flag-update"
    ensures '\n' !in event && Plain(event) && IsUpdate(NodeSpace, event) && !IsUpdate(GoSpace, [MARK] + event)
  {
    assert event[6..] == "flag-update";
    TrimsNothing(NodeSpace, "flag-update");
    assert ([MARK] + event)[0] == MARK;
  }

  lemma TrimsNothing(space: char -> bool, s: string)
    requires s != "" && !space(s[0]) && !space(s[|s| - 1])
    ensures Trim(space, s) == s
  {}
}
