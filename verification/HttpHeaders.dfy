/** Reading an HTTP header that arrives in pieces, http-headers.h, and the loop of
    rfc8902-client.cpp that feeds it. */
module HttpHeaders {

  // ---------- The header of a whole stream ----------

  /** Reading on from the lines and the part of a line read so far: either the empty line that ends
      the header comes up, with what follows it, or the stream ends first. */
  datatype Scanned = Found(lines: seq<string>, payload: string) | Pending(lines: seq<string>, line: string)

  function Scan(lines: seq<string>, line: string, s: string): Scanned
    decreases |s|
  {
    if s == "" then Pending(lines, line)
    else if s[0] == '\n' then
      if line == "" then Found(lines, s[1..]) else Scan(lines + [line], "", s[1..])
    else if s[0] == '\r' then Scan(lines, line, s[1..])
    else Scan(lines, line + [s[0]], s[1..])
  }

  /** Reading a stream in two parts. */
  lemma {:induction false} ScanSplit(lines: seq<string>, line: string, a: string, b: string)
    ensures Scan(lines, line, a + b) ==
            match Scan(lines, line, a)
            case Found(l, payload) => Found(l, payload + b)
            case Pending(l, more) => Scan(l, more, b)
    decreases |a|
  {
    if a == "" {
      assert a + b == b;
    } else {
      assert (a + b)[1..] == a[1..] + b;
      if a[0] == '\n' {
        if line != "" {
          ScanSplit(lines + [line], "", a[1..], b);
        }
      } else if a[0] == '\r' {
        ScanSplit(lines, line, a[1..], b);
      } else {
        ScanSplit(lines, line + [a[0]], a[1..], b);
      }
    }
  }

  /** The first line of a stream is empty, carriage returns aside. */
  predicate FirstLineEmpty(s: string) {
    s != "" && (s[0] == '\n' || (s[0] == '\r' && FirstLineEmpty(s[1..])))
  }

  /** What follows an empty first line. */
  function AfterFirst(s: string): string
    requires FirstLineEmpty(s)
  {
    if s[0] == '\n' then s[1..] else AfterFirst(s[1..])
  }

  lemma {:induction false} EmptyFirstLine(s: string)
    ensures FirstLineEmpty(s) <==> Scan([], "", s).Found? && Scan([], "", s).lines == []
    ensures FirstLineEmpty(s) ==> Scan([], "", s).payload == AfterFirst(s)
  {
    if s != "" {
      if s[0] == '\r' {
        EmptyFirstLine(s[1..]);
      } else if s[0] != '\n' {
        SomeLine([], [s[0]], s[1..]);
        assert "" + [s[0]] == [s[0]];
      }
    }
  }

  /** A line that has begun, or been read, is among the lines found. */
  lemma {:induction false} SomeLine(lines: seq<string>, line: string, s: string)
    requires line != "" || lines != []
    ensures Scan(lines, line, s).Found? ==> Scan(lines, line, s).lines != []
    decreases |s|
  {
    if s != "" {
      if s[0] == '\n' {
        if line != "" {
          SomeLine(lines + [line], "", s[1..]);
        }
      } else if s[0] == '\r' {
        SomeLine(lines, line, s[1..]);
      } else {
        SomeLine(lines, line + [s[0]], s[1..]);
      }
    }
  }

  // ---------- What a header is ----------

  /** Carriage returns do not count. */
  function NoReturns(s: string): string {
    if s == "" then "" else (if s[0] == '\r' then "" else [s[0]]) + NoReturns(s[1..])
  }

  function Written(lines: seq<string>): string {
    if lines == [] then "" else lines[0] + "\n" + Written(lines[1..])
  }

  predicate PlainLine(line: string) {
    forall k :: 0 <= k < |line| ==> line[k] != '\r' && line[k] != '\n'
  }

  predicate PlainLines(lines: seq<string>) {
    forall i :: 0 <= i < |lines| ==> lines[i] != "" && PlainLine(lines[i])
  }

  /** `front` consists of the lines, each ended by a newline, and a newline for the empty line, with
      carriage returns anywhere before the last. */
  predicate HeaderOf(front: string, lines: seq<string>) {
    PlainLines(lines) && front != "" && front[|front| - 1] == '\n' && NoReturns(front) == Written(lines) + "\n"
  }

  predicate Stream(s: string, front: string, lines: seq<string>, payload: string) {
    HeaderOf(front, lines) && s == front + payload
  }

  lemma WrittenMore(line: string, lines: seq<string>)
    ensures Written([line] + lines) == line + "\n" + Written(lines)
  {
    assert ([line] + lines)[1..] == lines;
  }

  lemma NoReturnsMore(c: char, s: string)
    ensures NoReturns([c] + s) == (if c == '\r' then "" else [c]) + NoReturns(s)
  {
    assert ([c] + s)[1..] == s;
  }

  /** A header that is found: where it ends, and the lines it adds to those before. */
  lemma {:induction false} FoundHeader(lines: seq<string>, line: string, s: string)
    returns (front: string, more: seq<string>)
    requires Scan(lines, line, s).Found? && PlainLine(line)
    ensures s == front + Scan(lines, line, s).payload && Scan(lines, line, s).lines == lines + more
    ensures PlainLines(more) && front != "" && front[|front| - 1] == '\n'
    ensures line + NoReturns(front) == Written(more) + "\n"
    decreases |s|
  {
    hide NoReturns, Written;
    var c := s[0];
    assert s == [c] + s[1..];
    if c == '\n' && line == "" {
      front, more := "\n", [];
      NoReturnsMore(c, "");
      NothingWritten();
      assert ['\n'] + "" == "\n";
    } else if c == '\n' {
      var rest, later := FoundHeader(lines + [line], "", s[1..]);
      front, more := [c] + rest, [line] + later;
      NoReturnsMore(c, rest);
      WrittenMore(line, later);
      assert "" + NoReturns(rest) == NoReturns(rest);
      assert line + (['\n'] + (Written(later) + "\n")) == (line + "\n" + Written(later)) + "\n";
    } else if c == '\r' {
      var rest;
      rest, more := FoundHeader(lines, line, s[1..]);
      front := [c] + rest;
      NoReturnsMore(c, rest);
    } else {
      var rest;
      rest, more := FoundHeader(lines, line + [c], s[1..]);
      front := [c] + rest;
      NoReturnsMore(c, rest);
      assert (line + [c]) + NoReturns(rest) == line + ([c] + NoReturns(rest));
    }
  }

  lemma NothingWritten()
    ensures Written([]) == "" && NoReturns("") == ""
  {
  }

  /** The first line of what is written, told by its newline. */
  lemma FirstWritten(line: string, rest: string, more: seq<string>)
    requires PlainLine(line) && PlainLines(more) && line + "\n" + rest == Written(more) + "\n"
    ensures line == "" ==> more == [] && rest == ""
    ensures line != "" ==> more != [] && more[0] == line && rest == Written(more[1..]) + "\n"
  {
    var whole := line + "\n" + rest;
    assert whole[|line|] == '\n' && forall k :: 0 <= k < |line| ==> whole[k] == line[k];
    if more == [] {
      NothingWritten();
      assert whole == "\n";
    } else {
      var first, later := more[0], Written(more[1..]) + "\n";
      assert whole == first + "\n" + later;
      assert whole[|first|] == '\n' && forall k :: 0 <= k < |first| ==> whole[k] == first[k];
      assert |line| == |first|;
      assert whole[..|line|] == line && whole[..|line|] == first;
      assert whole[|line| + 1..] == rest && whole[|line| + 1..] == later;
    }
  }

  lemma {:induction false} NewlineStays(s: string)
    requires s != "" && s[|s| - 1] == '\n'
    ensures NoReturns(s) != ""
  {
    if s[0] == '\r' {
      NewlineStays(s[1..]);
    }
  }

  /** Every header is found. */
  lemma {:induction false} HeaderFound(lines: seq<string>, line: string, front: string, more: seq<string>,
                                       payload: string)
    requires PlainLine(line) && PlainLines(more) && front != "" && front[|front| - 1] == '\n'
    requires line + NoReturns(front) == Written(more) + "\n"
    ensures Scan(lines, line, front + payload) == Found(lines + more, payload)
    decreases |front|
  {
    hide NoReturns, Written;
    var c, rest := front[0], front[1..];
    assert front == [c] + rest && (front + payload)[1..] == rest + payload;
    NoReturnsMore(c, rest);
    if c == '\n' {
      assert line + (['\n'] + NoReturns(rest)) == line + "\n" + NoReturns(rest);
      FirstWritten(line, NoReturns(rest), more);
      if line == "" {
        if rest != "" {
          NewlineStays(rest);
        }
        assert rest + payload == payload && lines + more == lines;
      } else {
        if rest == "" {
          NothingWritten();
        }
        assert "" + NoReturns(rest) == NoReturns(rest);
        HeaderFound(lines + [line], "", rest, more[1..], payload);
        assert (lines + [line]) + more[1..] == lines + more;
      }
    } else {
      assert rest != "";
      if c == '\r' {
        assert line + ("" + NoReturns(rest)) == line + NoReturns(rest);
        HeaderFound(lines, line, rest, more, payload);
      } else {
        assert (line + [c]) + NoReturns(rest) == line + ([c] + NoReturns(rest));
        HeaderFound(lines, line + [c], rest, more, payload);
      }
    }
  }

  /** What is found are the lines of the header and what follows it, and nothing else. */
  lemma HeaderExactly(s: string, lines: seq<string>, payload: string)
    ensures Scan([], "", s) == Found(lines, payload) <==> exists front :: Stream(s, front, lines, payload)
  {
    if Scan([], "", s) == Found(lines, payload) {
      var front, more := FoundHeader([], "", s);
      assert [] + more == more && "" + NoReturns(front) == NoReturns(front);
      assert Stream(s, front, lines, payload);
    }
    if front :| Stream(s, front, lines, payload) {
      assert [] + lines == lines && "" + NoReturns(front) == NoReturns(front);
      HeaderFound([], "", front, lines, payload);
    }
  }

  lemma Headers(s: string)
    ensures forall front, lines, payload ::
      Stream(s, front, lines, payload) ==> Scan([], "", s) == Found(lines, payload)
  {
    forall front, lines, payload | Stream(s, front, lines, payload)
      ensures Scan([], "", s) == Found(lines, payload)
    {
      HeaderExactly(s, lines, payload);
    }
  }

  /** An instance, with carriage returns. */
  lemma HostHeader()
    ensures Scan([], "", "Host: x\r\n\r\n" + "body") == Found(["Host: x"], "body")
  {
    hide Scan, HeaderOf;
    var front := "Host: x\r\n\r\n";
    HostFront(front);
    assert Stream(front + "body", front, ["Host: x"], "body");
    HeaderExactly(front + "body", ["Host: x"], "body");
  }

  lemma {:induction false} NoReturnsPlain(line: string, s: string)
    requires PlainLine(line)
    ensures NoReturns(line + s) == line + NoReturns(s)
  {
    if line == "" {
      assert line + s == s;
    } else {
      NoReturnsPlain(line[1..], s);
      assert line + s == [line[0]] + (line[1..] + s);
      NoReturnsMore(line[0], line[1..] + s);
    }
  }

  lemma HostFront(front: string)
    requires front == "Host: x\r\n\r\n"
    ensures HeaderOf(front, ["Host: x"])
  {
    hide NoReturns, Written;
    var line := "Host: x";
    assert front == line + (['\r'] + (['\n'] + (['\r'] + (['\n'] + ""))));
    NoReturnsPlain(line, ['\r'] + (['\n'] + (['\r'] + (['\n'] + ""))));
    NoReturnsMore('\r', ['\n'] + (['\r'] + (['\n'] + "")));
    NoReturnsMore('\n', ['\r'] + (['\n'] + ""));
    NoReturnsMore('\r', ['\n'] + "");
    NoReturnsMore('\n', "");
    NothingWritten();
    WrittenMore(line, []);
    assert [line] + [] == [line];
    assert NoReturns(front) == line + ['\n', '\n'];
  }

  // ---------- The reader ----------

  datatype Reader = Reader(lines: seq<string>, line: string, ended: bool)

  predicate Complete(r: Reader) {
    r.lines != [] && r.ended
  }

  /** What a piece of the stream does to the reader, and what is left of the piece. */
  function Fed(r: Reader, buf: string): (Reader, string) {
    match Scan(r.lines, r.line, buf)
    case Found(lines, payload) => (Reader(lines, "", true), payload)
    case Pending(lines, line) => (Reader(lines, line, r.ended), "")
  }

  class HttpHeaders {
    var headerlines: seq<string>
    var line: string
    var hdrIsComplete: bool

    ghost function View(): Reader
      reads this
    {
      Reader(headerlines, line, hdrIsComplete)
    }

    constructor ()
      ensures View() == Reader([], "", false)
    {
      headerlines, line, hdrIsComplete := [], "", false;
    }

    /** `clear`. */
    method Clear()
      modifies this
      ensures View() == Reader([], "", false)
    {
      headerlines, line, hdrIsComplete := [], "", false;
    }

    /** `is_complete`. */
    method IsComplete() returns (r: bool)
      ensures r == Complete(View())
    {
      r := headerlines != [] && hdrIsComplete;
    }

    /** `add_data`: up to the empty line that ends the header; the rest of the data is returned. */
    method AddData(buf: string) returns (rest: string)
      modifies this
      ensures (View(), rest) == Fed(old(View()), buf)
      ensures old(View()) == Reader([], "", false) ==>
        forall front, lines, payload :: Stream(buf, front, lines, payload) ==>
          View() == Reader(lines, "", true) && rest == payload
    {
      ghost var r := View();
      Headers(buf);
      hide Stream;
      assert buf[0..] == buf;
      for i := 0 to |buf|
        invariant hdrIsComplete == r.ended
        invariant Scan(r.lines, r.line, buf) == Scan(headerlines, line, buf[i..])
      {
        assert buf[i..][1..] == buf[i + 1..];
        if buf[i] == '\n' {
          if line == "" {
            hdrIsComplete := true;
            return buf[i + 1..];
          }
          headerlines := headerlines + [line];
          line := "";
        } else if buf[i] == '\r' {
        } else {
          line := line + [buf[i]];
        }
      }
      assert buf[|buf|..] == "";
      rest := "";
    }
  }

  // ---------- Feeding pieces until the header is complete ----------

  function Joined(chunks: seq<string>): string {
    if chunks == [] then "" else chunks[0] + Joined(chunks[1..])
  }

  /** The result of the loop: whether the header is complete, its lines, and the payload known so
      far: the rest of the last piece read and the pieces not read. */
  datatype Outcome = Outcome(complete: bool, lines: seq<string>, payload: string)

  function Received(r: Reader, rest: string, chunks: seq<string>): Outcome
    decreases |chunks|
  {
    if Complete(r) || chunks == [] then Outcome(Complete(r), r.lines, rest + Joined(chunks))
    else
      var (r', rest') := Fed(r, chunks[0]);
      Received(r', rest', chunks[1..])
  }

  const START: Reader := Reader([], "", false)

  /** The loop of the client. */
  method Receive(chunks: seq<string>) returns (h: HttpHeaders, rest: string, ghost unread: seq<string>)
    ensures fresh(h)
    ensures Outcome(Complete(h.View()), h.View().lines, rest + Joined(unread)) == Received(START, "", chunks)
    ensures forall front, lines, payload :: Stream(Joined(chunks), front, lines, payload) && lines != [] ==>
              Complete(h.View()) && h.View().lines == lines && rest + Joined(unread) == payload
  {
    ReceivedHeaders(chunks);
    hide Stream;
    h := new HttpHeaders();
    rest := "";
    var i := 0;
    var complete := h.IsComplete();
    while !complete && i < |chunks|
      invariant 0 <= i <= |chunks| && fresh(h) && complete == Complete(h.View())
      invariant Received(START, "", chunks) == Received(h.View(), rest, chunks[i..])
      decreases |chunks| - i
    {
      rest := h.AddData(chunks[i]);
      assert chunks[i..][1..] == chunks[i + 1..];
      i := i + 1;
      complete := h.IsComplete();
    }
    unread := chunks[i..];
  }

  /** What the pieces should come to, whatever they are. */
  function Whole(r: Reader, s: string): Outcome {
    match Scan(r.lines, r.line, s)
    case Found(lines, payload) => Outcome(true, lines, payload)
    case Pending(lines, _) => Outcome(false, lines, "")
  }

  /** From any point before the end of a header that has a line, the pieces do not matter. */
  lemma {:induction false} PiecesDoNotMatter(r: Reader, chunks: seq<string>)
    requires !r.ended && (var w := Scan(r.lines, r.line, Joined(chunks)); w.Found? ==> w.lines != [])
    ensures Received(r, "", chunks) == Whole(r, Joined(chunks))
    decreases |chunks|
  {
    if chunks != [] {
      var c, later := chunks[0], Joined(chunks[1..]);
      ScanSplit(r.lines, r.line, c, later);
      var (r', rest') := Fed(r, c);
      if r'.ended {
        assert Received(r', rest', chunks[1..]) == Outcome(true, r'.lines, rest' + later);
      } else {
        PiecesDoNotMatter(r', chunks[1..]);
      }
    }
  }

  /** A stream whose first line is not empty has the same header and payload in whatever pieces it
      arrives. */
  lemma AnyPieces(chunks: seq<string>)
    requires !FirstLineEmpty(Joined(chunks))
    ensures Received(START, "", chunks) == Whole(START, Joined(chunks))
  {
    EmptyFirstLine(Joined(chunks));
    PiecesDoNotMatter(START, chunks);
  }

  /** Whatever the pieces, a header that has a line is complete exactly when it has been written out
      in full, and its lines and what follows it are handed over. */
  lemma ReceivedExactly(chunks: seq<string>, lines: seq<string>, payload: string)
    requires !FirstLineEmpty(Joined(chunks))
    ensures Received(START, "", chunks) == Outcome(true, lines, payload) <==>
            exists front :: Stream(Joined(chunks), front, lines, payload)
  {
    AnyPieces(chunks);
    HeaderExactly(Joined(chunks), lines, payload);
  }

  lemma ReceivedHeaders(chunks: seq<string>)
    ensures forall front, lines, payload :: Stream(Joined(chunks), front, lines, payload) && lines != [] ==>
              Received(START, "", chunks) == Outcome(true, lines, payload)
  {
    forall front, lines, payload | Stream(Joined(chunks), front, lines, payload) && lines != []
      ensures Received(START, "", chunks) == Outcome(true, lines, payload)
    {
      HeaderExactly(Joined(chunks), lines, payload);
      EmptyFirstLine(Joined(chunks));
      ReceivedExactly(chunks, lines, payload);
    }
  }

  /** All ways of cutting a stream into pieces come to the same. */
  ghost predicate Independent(s: string) {
    forall a: seq<string>, b: seq<string> :: Joined(a) == s && Joined(b) == s ==>
        Received(START, "", a) == Received(START, "", b)
  }

  /** Only carriage returns and the end of an empty line, or nothing any more. */
  predicate Blank(s: string) {
    s == "" || (FirstLineEmpty(s) && AfterFirst(s) == "")
  }

  lemma {:induction false} BlankPiece(c: string, later: string)
    requires Blank(c + later)
    ensures (Scan([], "", c) == Found([], "") && later == "") || (Scan([], "", c) == Pending([], "") && Blank(later))
  {
    if c == "" {
      assert c + later == later;
    } else {
      assert (c + later)[1..] == c[1..] + later;
      if c[0] == '\r' {
        BlankPiece(c[1..], later);
      }
    }
  }

  lemma {:induction false} OnlyAnEmptyLine(ended: bool, chunks: seq<string>)
    requires Blank(Joined(chunks))
    ensures Received(Reader([], "", ended), "", chunks) == Outcome(false, [], "")
    decreases |chunks|
  {
    if chunks != [] {
      BlankPiece(chunks[0], Joined(chunks[1..]));
      OnlyAnEmptyLine(Fed(Reader([], "", ended), chunks[0]).0.ended, chunks[1..]);
    }
  }

  lemma {:induction false} PayloadShorter(lines: seq<string>, line: string, s: string)
    ensures Scan(lines, line, s).Found? ==> |Scan(lines, line, s).payload| < |s|
    decreases |s|
  {
    if s != "" {
      if s[0] == '\n' {
        if line != "" {
          PayloadShorter(lines + [line], "", s[1..]);
        }
      } else if s[0] == '\r' {
        PayloadShorter(lines, line, s[1..]);
      } else {
        PayloadShorter(lines, line + [s[0]], s[1..]);
      }
    }
  }

  lemma {:induction false} FirstLineOf(s: string) returns (front: string)
    requires FirstLineEmpty(s)
    ensures s == front + AfterFirst(s) && Scan([], "", front) == Found([], "")
  {
    if s[0] == '\n' {
      front := s[..1];
    } else {
      var more := FirstLineOf(s[1..]);
      front := [s[0]] + more;
      assert front[1..] == more;
    }
  }

  lemma JoinedTwo(a: string, b: string)
    ensures Joined([a]) == a && Joined([a, b]) == a + b
  {
    assert [a][1..] == [];
    assert [a, b][1..] == [b];
    assert [b][1..] == [];
  }

  lemma ReceivedTwo(a: string, b: string)
    requires Scan([], "", a) == Found([], "")
    ensures var (r, rest) := Fed(Reader([], "", true), b);
            Received(START, "", [a, b]) == Outcome(Complete(r), r.lines, rest)
  {
    var (r, rest) := Fed(Reader([], "", true), b);
    assert [a, b][1..] == [b] && [b][1..] == [];
    assert Received(Reader([], "", true), "", [b]) == Received(r, rest, []);
    assert rest + "" == rest;
  }

  lemma ReceivedOne(s: string)
    requires FirstLineEmpty(s)
    ensures Received(START, "", [s]) == Outcome(false, [], AfterFirst(s))
  {
    EmptyFirstLine(s);
    assert [s][1..] == [];
    assert Received(START, "", [s]) == Received(Reader([], "", true), AfterFirst(s), []);
    assert AfterFirst(s) + "" == AfterFirst(s);
  }

  /** The flag set by an empty first line stays, and what followed it in its piece is lost when the
      next piece is read: cutting there makes a difference. */
  lemma CutAfterFirst(s: string)
    requires FirstLineEmpty(s) && AfterFirst(s) != ""
    ensures !Independent(s)
  {
    var front := FirstLineOf(s);
    var rest := AfterFirst(s);
    JoinedTwo(s, "");
    JoinedTwo(front, rest);
    ReceivedOne(s);
    ReceivedTwo(front, rest);
    PayloadShorter([], "", rest);
    assert Received(START, "", [s]) != Received(START, "", [front, rest]);
  }

  /** An instance: with the empty first line in a piece of its own, the header is taken to end after
      the next line. */
  lemma StaleFlag()
    ensures Received(START, "", ["\n", "A\nB\n\n"]) == Outcome(true, ["A", "B"], "")
    ensures Received(START, "", ["\n", "A\n", "B\n\n"]) == Outcome(true, ["A"], "B\n\n")
  {
    var r := Reader([], "", true);
    StaleScans();
    assert Fed(START, "\n") == (r, "");
    hide Scan;
    assert Fed(r, "A\nB\n\n") == (Reader(["A", "B"], "", true), "");
    assert Fed(r, "A\n") == (Reader(["A"], "", true), "");
    var two, three := ["\n", "A\nB\n\n"], ["\n", "A\n", "B\n\n"];
    assert two[1..] == ["A\nB\n\n"] && two[1..][1..] == [];
    assert three[1..] == ["A\n", "B\n\n"] && three[1..][1..] == ["B\n\n"];
    JoinedTwo("B\n\n", "");
    assert Received(r, "", two[1..]) == Received(Reader(["A", "B"], "", true), "", []);
    assert Received(r, "", three[1..]) == Received(Reader(["A"], "", true), "", ["B\n\n"]);
    assert "" + Joined(["B\n\n"]) == "B\n\n";
  }

  lemma StaleScans()
    ensures Scan([], "", "A\nB\n\n") == Found(["A", "B"], "")
    ensures Scan([], "", "A\n") == Pending(["A"], "")
  {
    ShortLine([], 'A', "B\n\n");
    ShortLine(["A"], 'B', "\n");
    ShortLine([], 'A', "");
    assert "A\n" + "B\n\n" == "A\nB\n\n" && "B\n" + "\n" == "B\n\n" && "A\n" + "" == "A\n";
    assert ['A', '\n'] == "A\n" && ['B', '\n'] == "B\n" && "\n"[1..] == "";
    var none: seq<string> := [];
    assert none + [['A']] == ["A"] && ["A"] + [['B']] == ["A", "B"];
  }

  lemma ShortLine(lines: seq<string>, c: char, rest: string)
    requires c != '\n' && c != '\r'
    ensures Scan(lines, "", [c, '\n'] + rest) == Scan(lines + [[c]], "", rest)
  {
    var s := [c, '\n'] + rest;
    assert s[1..] == ['\n'] + rest && s[1..][1..] == rest;
    assert "" + [c] == [c];
  }

  /** That is so exactly when the first line is not empty, or nothing follows it. */
  lemma IndependentExactly(s: string)
    ensures Independent(s) <==> !FirstLineEmpty(s) || AfterFirst(s) == ""
  {
    if !FirstLineEmpty(s) {
      forall a: seq<string>, b: seq<string> | Joined(a) == s && Joined(b) == s
        ensures Received(START, "", a) == Received(START, "", b)
      {
        AnyPieces(a);
        AnyPieces(b);
      }
    } else if AfterFirst(s) == "" {
      forall a: seq<string>, b: seq<string> | Joined(a) == s && Joined(b) == s
        ensures Received(START, "", a) == Received(START, "", b)
      {
        OnlyAnEmptyLine(false, a);
        OnlyAnEmptyLine(false, b);
      }
    } else {
      CutAfterFirst(s);
    }
  }

  // ---------- Splitting a line ----------

  /** The delimiters of a string, in order. */
  function Delimiters(s: string, delims: string): string {
    if s == "" then "" else (if s[0] in delims then [s[0]] else "") + Delimiters(s[1..], delims)
  }

  /** Parts and delimiters in turn. */
  function Woven(parts: seq<string>, seps: string): string {
    if parts == [] then ""
    else if seps == "" then parts[0]
    else parts[0] + [seps[0]] + Woven(parts[1..], seps[1..])
  }

  function SplitAt(s: string, delims: string, i: nat): seq<string>
    requires i <= |s|
    decreases |s| - i
  {
    if i == |s| then []
    else
      var j := PartEnd(s, delims, i);
      [s[i..j]] + if j < |s| then SplitAt(s, delims, j + 1) else []
  }

  function PartEnd(s: string, delims: string, i: nat): (j: nat)
    requires i <= |s|
    ensures i <= j <= |s| && (j < |s| ==> s[j] in delims) && forall k :: i <= k < j ==> s[k] !in delims
    decreases |s| - i
  {
    if i == |s| || s[i] in delims then i else PartEnd(s, delims, i + 1)
  }

  lemma {:induction false} NoDelimiters(s: string, delims: string, t: string)
    requires forall k :: 0 <= k < |s| ==> s[k] !in delims
    ensures Delimiters(s + t, delims) == Delimiters(t, delims)
  {
    if s == "" {
      assert s + t == t;
    } else {
      assert (s + t)[1..] == s[1..] + t;
      NoDelimiters(s[1..], delims, t);
    }
  }

  lemma WovenPart(s: string, i: nat, j: nat, rest: seq<string>, seps: string)
    requires i <= j < |s| && Woven(rest, seps) == s[j + 1..]
    ensures Woven([s[i..j]] + rest, [s[j]] + seps) == s[i..]
  {
    WovenStep(s[i..j], s[j], rest, seps);
    assert s[i..] == s[i..j] + [s[j]] + s[j + 1..];
  }

  lemma NothingWoven(seps: string)
    ensures Woven([], seps) == ""
  {
  }

  lemma OnlyPart(s: string, delims: string)
    requires forall k :: 0 <= k < |s| ==> s[k] !in delims
    ensures Woven([s], Delimiters(s, delims)) == s
  {
    NoDelimiters(s, delims, "");
    assert s + "" == s;
  }

  /** With the delimiters between them the parts are the string again; and they hold none. */
  lemma {:induction false} SplitWoven(s: string, delims: string, i: nat)
    requires i <= |s|
    ensures Woven(SplitAt(s, delims, i), Delimiters(s[i..], delims)) == s[i..]
    decreases |s| - i
  {
    hide Delimiters, PartEnd, Woven;
    if i == |s| {
      assert s[i..] == "" && SplitAt(s, delims, i) == [];
      NothingWoven(Delimiters("", delims));
    } else {
      var j := PartEnd(s, delims, i);
      if j < |s| {
        SplitWoven(s, delims, j + 1);
        PartDelimiters(s, delims, i, j);
        WovenPart(s, i, j, SplitAt(s, delims, j + 1), Delimiters(s[j + 1..], delims));
      } else {
        OnlyPart(s[i..], delims);
        assert s[i..] == s[i..j] && SplitAt(s, delims, i) == [s[i..j]];
      }
    }
  }

  lemma {:induction false} PartsClean(s: string, delims: string, i: nat)
    requires i <= |s|
    ensures forall p :: p in SplitAt(s, delims, i) ==> Clean(p, delims)
    decreases |s| - i
  {
    if i < |s| {
      var j := PartEnd(s, delims, i);
      if j < |s| {
        PartsClean(s, delims, j + 1);
      }
      assert Clean(s[i..j], delims);
    }
  }

  /** There is one part to a delimiter, and one more if the string does not end in a delimiter. */
  lemma {:induction false} PartsCounted(s: string, delims: string, i: nat)
    requires i <= |s|
    ensures |SplitAt(s, delims, i)| ==
            |Delimiters(s[i..], delims)| + if i == |s| || s[|s| - 1] in delims then 0 else 1
    decreases |s| - i
  {
    hide Delimiters, PartEnd, SplitAt;
    CountParts(s, delims, i);
    if i < |s| {
      var j := PartEnd(s, delims, i);
      if j < |s| {
        PartDelimiters(s, delims, i, j);
        PartsCounted(s, delims, j + 1);
      } else {
        OnlyDelimiters(s[i..], delims);
      }
    } else {
      OnlyDelimiters(s[i..], delims);
    }
  }

  lemma CountParts(s: string, delims: string, i: nat)
    requires i <= |s|
    ensures |SplitAt(s, delims, i)| ==
            if i == |s| then 0
            else
              var j := PartEnd(s, delims, i);
              1 + if j < |s| then |SplitAt(s, delims, j + 1)| else 0
  {
    hide PartEnd;
  }

  lemma OnlyDelimiters(s: string, delims: string)
    requires forall k :: 0 <= k < |s| ==> s[k] !in delims
    ensures Delimiters(s, delims) == ""
  {
    NoDelimiters(s, delims, "");
    assert s + "" == s;
  }

  predicate Clean(p: string, delims: string) {
    forall k :: 0 <= k < |p| ==> p[k] !in delims
  }

  lemma WovenStep(part: string, d: char, parts: seq<string>, seps: string)
    ensures Woven([part] + parts, [d] + seps) == part + [d] + Woven(parts, seps)
  {
    assert ([part] + parts)[1..] == parts && ([d] + seps)[1..] == seps;
  }

  lemma PartDelimiters(s: string, delims: string, i: nat, j: nat)
    requires i <= j < |s| && s[j] in delims && forall k :: i <= k < j ==> s[k] !in delims
    ensures Delimiters(s[i..], delims) == [s[j]] + Delimiters(s[j + 1..], delims)
  {
    assert s[i..] == s[i..j] + s[j..];
    NoDelimiters(s[i..j], delims, s[j..]);
    assert s[j..][1..] == s[j + 1..];
  }

  function Later(s: string, delims: string, i: nat): seq<string> {
    if i <= |s| then SplitAt(s, delims, i) else []
  }

  lemma LaterStep(s: string, delims: string, start: nat, i: nat, parts: seq<string>)
    requires start < |s| && i == PartEnd(s, delims, start)
    ensures parts + Later(s, delims, start) == parts + [s[start..i]] + Later(s, delims, i + 1)
  {
    assert Later(s, delims, start) == [s[start..i]] + Later(s, delims, i + 1);
    hide SplitAt, Later, PartEnd;
  }

  /** `split`: the loop variable runs on inside the loop. */
  method Split(s: string, delims: string) returns (parts: seq<string>)
    ensures parts == SplitAt(s, delims, 0)
  {
    hide SplitAt, PartEnd, Later;
    parts := [];
    var i := 0;
    LaterAll(s, delims);
    assert parts + Later(s, delims, 0) == Later(s, delims, 0);
    while i < |s|
      invariant 0 <= i <= |s| + 1
      invariant parts + Later(s, delims, i) == SplitAt(s, delims, 0)
      decreases |s| - i
    {
      var start := i;
      while i < |s| && s[i] !in delims
        invariant start <= i <= |s| && PartEnd(s, delims, start) == PartEnd(s, delims, i)
        decreases |s| - i
      {
        PartEndNext(s, delims, i);
        i := i + 1;
      }
      PartEndNext(s, delims, i);
      LaterStep(s, delims, start, i, parts);
      parts := parts + [s[start..i]];
      i := i + 1;
    }
    LaterNone(s, delims, i);
    assert parts + [] == parts;
  }

  lemma PartEndNext(s: string, delims: string, i: nat)
    requires i <= |s|
    ensures PartEnd(s, delims, i) == if i == |s| || s[i] in delims then i else PartEnd(s, delims, i + 1)
  {
  }

  lemma LaterAll(s: string, delims: string)
    ensures Later(s, delims, 0) == SplitAt(s, delims, 0)
  {
  }

  lemma LaterNone(s: string, delims: string, i: nat)
    requires i >= |s|
    ensures Later(s, delims, i) == []
  {
  }
}
