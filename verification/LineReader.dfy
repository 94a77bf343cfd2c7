/** Standard input through one buffer: lines, counted bytes and the whole rest, whatever sizes the
    reads come in. */
module LineReader {
  import opened Basics

  const LF: Byte := 10
  const CR: Byte := 13
  const CHUNK: nat := 65536

  // ----- what the stream means -----

  datatype Ending = Lf | CrLf | Unended

  datatype Line = Line(text: seq<Byte>, ending: Ending)

  function EndingBytes(e: Ending): seq<Byte> {
    match e
    case Lf => [LF]
    case CrLf => [CR, LF]
    case Unended => []
  }

  function Raw(l: Line): seq<Byte> {
    l.text + EndingBytes(l.ending)
  }

  function Join(lines: seq<Line>): seq<Byte> {
    if lines == [] then [] else Raw(lines[0]) + Join(lines[1..])
  }

  function EndsInCr(s: seq<Byte>): bool {
    s != [] && s[|s| - 1] == CR
  }

  /** A line as text: no newline inside, no carriage return before a bare newline, and only a
      non-empty last line may be unended. */
  predicate LineOk(l: Line, last: bool) {
    && (forall k :: 0 <= k < |l.text| ==> l.text[k] != LF)
    && (l.ending.Lf? ==> !EndsInCr(l.text))
    && (l.ending.Unended? ==> last && l.text != [])
  }

  predicate LinesOk(lines: seq<Line>) {
    forall i :: 0 <= i < |lines| ==> LineOk(lines[i], i == |lines| - 1)
  }

  /** Where the first newline is, or the length. */
  function Newline(s: seq<Byte>): (k: nat)
    ensures k <= |s| && (k < |s| ==> s[k] == LF) && forall i :: 0 <= i < k ==> s[i] != LF
  {
    if s == [] || s[0] == LF then 0 else 1 + Newline(s[1..])
  }

  function FirstLine(s: seq<Byte>): Line {
    var k := Newline(s);
    if k == |s| then Line(s, Unended)
    else if EndsInCr(s[..k]) then Line(s[..k - 1], CrLf)
    else Line(s[..k], Lf)
  }

  function LineBytes(s: seq<Byte>): (n: nat)
    ensures n <= |s| && (s != [] ==> n > 0)
  {
    if Newline(s) == |s| then |s| else Newline(s) + 1
  }

  /** The specification split of a byte stream. */
  function Split(s: seq<Byte>): seq<Line> {
    if s == [] then [] else [FirstLine(s)] + Split(s[LineBytes(s)..])
  }

  lemma FirstLineRaw(s: seq<Byte>)
    ensures Raw(FirstLine(s)) == s[..LineBytes(s)]
    ensures s != [] ==> LineOk(FirstLine(s), LineBytes(s) == |s|)
  {
  }

  /** Splitting loses nothing and yields proper lines ... */
  lemma {:induction false} SplitThenJoin(s: seq<Byte>)
    ensures Join(Split(s)) == s && LinesOk(Split(s))
  {
    if s != [] {
      var n := LineBytes(s);
      FirstLineRaw(s);
      SplitThenJoin(s[n..]);
      assert s == s[..n] + s[n..];
      MoreLines(FirstLine(s), Split(s[n..]));
    }
  }

  lemma MoreLines(first: Line, rest: seq<Line>)
    requires LinesOk(rest) && LineOk(first, rest == [])
    ensures LinesOk([first] + rest) && Join([first] + rest) == Raw(first) + Join(rest)
  {
  }

  predicate NoNewline(s: seq<Byte>) {
    forall k :: 0 <= k < |s| ==> s[k] != LF
  }

  /** Scanning on from where the last scan stopped. */
  lemma Unscanned(unread: seq<Byte>, scanned: nat, to: nat)
    requires scanned <= to <= |unread| && NoNewline(unread[..scanned]) && forall k :: scanned <= k < to ==> unread[k] != LF
    ensures NoNewline(unread[..to]) && (to == |unread| ==> unread[..to] == unread)
  {
  }

  lemma NewlineIs(s: seq<Byte>, k: nat)
    requires k <= |s| && (k < |s| ==> s[k] == LF) && forall i :: 0 <= i < k ==> s[i] != LF
    ensures Newline(s) == k
  {
  }

  /** A newline among the bytes read so far settles the first line, whatever follows. */
  lemma NewlineFound(unread: seq<Byte>, input: seq<Byte>, k: nat)
    requires k < |unread| && unread[k] == LF && NoNewline(unread[..k])
    ensures LineBytes(unread + input) == k + 1
    ensures FirstLine(unread + input).text == if k > 0 && unread[k - 1] == CR then unread[..k - 1] else unread[..k]
  {
    assert forall i :: 0 <= i < k ==> (unread + input)[i] == unread[..k][i];
    NewlineIs(unread + input, k);
    assert (unread + input)[..k] == unread[..k];
    assert k > 0 ==> (unread + input)[..k - 1] == unread[..k - 1];
  }

  lemma FirstOfJoin(l: Line, rest: seq<Byte>)
    requires LineOk(l, rest == [])
    ensures Raw(l) + rest != [] && FirstLine(Raw(l) + rest) == l && LineBytes(Raw(l) + rest) == |Raw(l)|
  {
    var s := Raw(l) + rest;
    var k := |l.text|;
    if l.ending.Lf? {
      NewlineIs(s, k);
      assert s[..k] == l.text;
    } else if l.ending.CrLf? {
      NewlineIs(s, k + 1);
      assert s[..k + 1] == l.text + [CR];
      assert s[..k] == l.text;
    } else {
      assert s == l.text;
      NewlineIs(s, k);
    }
  }

  lemma SplitStep(first: Line, tail: seq<Byte>)
    requires LineOk(first, tail == [])
    ensures Split(Raw(first) + tail) == [first] + Split(tail)
  {
    FirstOfJoin(first, tail);
    assert (Raw(first) + tail)[|Raw(first)|..] == tail;
  }

  lemma RestOk(lines: seq<Line>)
    requires LinesOk(lines) && lines != []
    ensures LinesOk(lines[1..])
  {
  }

  lemma JoinEmpty(lines: seq<Line>)
    requires LinesOk(lines) && lines != []
    ensures Join(lines) != []
  {
  }

  /** ... and it is the only split that does. */
  lemma {:induction false} JoinThenSplit(lines: seq<Line>)
    requires LinesOk(lines)
    ensures Split(Join(lines)) == lines
  {
    if lines != [] {
      var rest := lines[1..];
      RestOk(lines);
      JoinThenSplit(rest);
      if rest != [] {
        JoinEmpty(rest);
      }
      var first, tail := lines[0], Join(rest);
      assert LineOk(first, tail == []);
      SplitStep(first, tail);
      assert lines == [lines[0]] + rest;
    }
  }

  // ----- what a request means -----

  datatype Request = HasLine | TakeLine | TakeBytes(count: int) | ReadAll

  datatype Reply = Has(yes: bool) | Text(text: seq<Byte>)

  function Wanted(count: int, have: nat): (n: nat)
    ensures n <= have
  {
    var want := if count > 0 then count else 0;
    if have > want then want else have
  }

  function Answer(req: Request, rest: seq<Byte>): Reply {
    match req
    case HasLine => Has(rest != [])
    case TakeLine => Text(FirstLine(rest).text)
    case TakeBytes(count) => Text(rest[..Wanted(count, |rest|)])
    case ReadAll => Text(rest)
  }

  /** How many bytes of the stream a request uses up. */
  function Used(req: Request, rest: seq<Byte>): (n: nat)
    ensures n <= |rest|
  {
    match req
    case HasLine => 0
    case TakeLine => LineBytes(rest)
    case TakeBytes(count) => Wanted(count, |rest|)
    case ReadAll => |rest|
  }

  lemma CountedPart(rest: seq<Byte>, count: int, text: seq<Byte>, left: seq<Byte>)
    requires text == rest[..Wanted(count, |rest|)] && left == rest[|text|..]
    ensures text + left == rest && (count <= 0 ==> text == []) && (count >= 0 ==> |text| <= count)
    ensures |text| < count ==> text == rest && left == []
  {
  }

  /** What each request answers and uses up, told from the stream. A counted request gets exactly its
      bytes, fewer only when the stream ends first. */
  lemma AnswerMeans(req: Request, rest: seq<Byte>)
    ensures var a, used := Answer(req, rest), rest[..Used(req, rest)];
            match req
            case HasLine => a == Has(rest != []) && used == []
            case TakeLine =>
              if rest == [] then a == Text([]) && used == []
              else Split(rest) != [] && a == Text(Split(rest)[0].text) && used == Raw(Split(rest)[0])
            case TakeBytes(count) =>
              && a == Text(used) && (count <= 0 ==> used == []) && (count >= 0 ==> |used| <= count)
              && (|used| < count ==> used == rest)
            case ReadAll => a == Text(rest) && used == rest
  {
    FirstLineRaw(rest);
  }

  function Answers(reqs: seq<Request>, rest: seq<Byte>): seq<Reply> {
    if reqs == [] then [] else [Answer(reqs[0], rest)] + Answers(reqs[1..], rest[Used(reqs[0], rest)..])
  }

  function Left(reqs: seq<Request>, rest: seq<Byte>): seq<Byte> {
    if reqs == [] then rest else Left(reqs[1..], rest[Used(reqs[0], rest)..])
  }

  function Texts(lines: seq<Line>): seq<seq<Byte>> {
    if lines == [] then [] else [lines[0].text] + Texts(lines[1..])
  }

  /** The bytes each request uses up, in order. */
  function Uses(reqs: seq<Request>, rest: seq<Byte>): seq<Byte> {
    if reqs == [] then [] else rest[..Used(reqs[0], rest)] + Uses(reqs[1..], rest[Used(reqs[0], rest)..])
  }

  /** Every byte of the stream is used once, in order, or is still left. */
  lemma {:induction false} UsedOnce(reqs: seq<Request>, rest: seq<Byte>)
    ensures Uses(reqs, rest) + Left(reqs, rest) == rest
  {
    if reqs != [] {
      var n := Used(reqs[0], rest);
      UsedOnce(reqs[1..], rest[n..]);
      assert rest == rest[..n] + rest[n..];
    }
  }

  lemma Front(unread: seq<Byte>, input: seq<Byte>, n: nat)
    requires n <= |unread|
    ensures (unread + input)[..n] == unread[..n] && (unread + input)[n..] == unread[n..] + input
  {
  }

  // ----- the reader -----

  class Reader {
    var buffer: array<Byte>
    var start: nat
    var end: nat
    var lineEnd: nat
    var next: nat
    var pending: bool
    var eof: bool
    /** What the descriptor still delivers before its end or its first error. */
    var input: seq<Byte>

    ghost predicate Buffered()
      reads this
    {
      start <= end <= buffer.Length && (eof ==> input == [])
    }

    ghost function Unread(): seq<Byte>
      requires Buffered()
      reads this, buffer
    {
      buffer[start..end]
    }

    /** Everything not yet handed out. */
    ghost function Rest(): seq<Byte>
      requires Buffered()
      reads this, buffer
    {
      Unread() + input
    }

    ghost predicate Valid()
      reads this, buffer
    {
      Buffered() && (pending ==> Found())
    }

    /** The pending line is the first line of the stream. */
    ghost predicate Found()
      requires Buffered()
      reads this, buffer
    {
      && Rest() != [] && start <= lineEnd <= next <= end
      && Unread()[..lineEnd - start] == FirstLine(Rest()).text && next - start == LineBytes(Rest())
    }

    constructor (stream: seq<Byte>)
      ensures Valid() && Rest() == stream && fresh(buffer)
    {
      buffer := new Byte[0];
      start, end, lineEnd, next, pending, eof, input := 0, 0, 0, 0, false, false, stream;
    }

    /** `line_reader_fill`: unread bytes to the front, room for a chunk, one read of any size. */
    method Fill() returns (n: nat)
      requires Buffered() && !pending
      modifies this, buffer
      ensures Buffered() && !pending && (buffer == old(buffer) || fresh(buffer))
      ensures Rest() == old(Rest())
      ensures n == 0 <==> old(input) == []
      ensures if n == 0 then input == [] && eof else |input| < |old(input)|
      ensures |Unread()| == |old(Unread())| + n && Unread()[..|old(Unread())|] == old(Unread())
    {
      if eof {
        return 0;
      }
      ghost var rest := Rest();
      if start > 0 {
        Compact();
      }
      if buffer.Length - end < CHUNK {
        Grow();
      }
      n := Read();
    }

    method Compact()
      requires Buffered()
      modifies this`start, this`end, buffer
      ensures Buffered() && start == 0 && Unread() == old(Unread())
    {
      var n := end - start;
      forall i | 0 <= i < n {
        buffer[i] := buffer[start + i];
      }
      start, end := 0, n;
    }

    method Grow()
      requires Buffered()
      modifies this`buffer
      ensures Buffered() && fresh(buffer) && Unread() == old(Unread()) && buffer.Length - end >= CHUNK
    {
      var grown := if buffer.Length > 0 then buffer.Length * 2 else CHUNK;
      while grown - end < CHUNK
        invariant grown >= buffer.Length && grown > 0
        decreases end + CHUNK - grown
      {
        grown := grown * 2;
      }
      var bigger := new Byte[grown];
      forall i | 0 <= i < buffer.Length {
        bigger[i] := buffer[i];
      }
      assert bigger[start..end] == buffer[start..end];
      buffer := bigger;
    }

    /** One `read`: at least a byte unless the input has ended, at most what there is room for. */
    method Read() returns (n: nat)
      requires Buffered() && buffer.Length - end >= CHUNK
      modifies this`end, this`eof, this`input, buffer
      ensures Buffered() && Rest() == old(Rest())
      ensures n == 0 <==> old(input) == []
      ensures if n == 0 then eof else |input| < |old(input)|
      ensures end == old(end) + n && Unread()[..old(end) - start] == old(Unread())
    {
      if input == [] {
        eof := true;
        return 0;
      }
      n :| 1 <= n <= |input| && n <= buffer.Length - end;
      forall i | 0 <= i < n {
        buffer[end + i] := input[i];
      }
      ghost var was := old(Unread());
      assert buffer[start..end] == was;
      assert buffer[end..end + n] == input[..n];
      assert input == input[..n] + input[n..];
      end := end + n;
      assert buffer[start..end] == was + input[..n];
      input := input[n..];
    }

    /** The first newline at or behind `from`, or -1: `memchr` over the unread bytes. */
    method FindNewline(from: nat) returns (at: int)
      requires Buffered() && start <= from <= end
      ensures at == -1 ==> forall k :: from - start <= k < end - start ==> Unread()[k] != LF
      ensures at != -1 ==> from <= at < end && buffer[at] == LF
      ensures at != -1 ==> forall k :: from - start <= k < at - start ==> Unread()[k] != LF
    {
      var i := from;
      while i < end
        invariant from <= i <= end && forall k :: from <= k < i ==> buffer[k] != LF
      {
        if buffer[i] == LF {
          return i;
        }
        i := i + 1;
      }
      at := -1;
    }

    /** `line_reader_has_line`. */
    method LinePending() returns (yes: bool)
      requires Valid()
      modifies this, buffer
      ensures Valid() && (buffer == old(buffer) || fresh(buffer))
      ensures Rest() == old(Rest()) && yes == pending == (Rest() != [])
    {
      if pending {
        return true;
      }
      var scanned: nat := 0;
      while true
        invariant Buffered() && !pending && (buffer == old(buffer) || fresh(buffer)) && Rest() == old(Rest())
        invariant scanned <= end - start && NoNewline(Unread()[..scanned])
        decreases |input|
      {
        var at := FindNewline(start + scanned);
        if at != -1 {
          Unscanned(Unread(), scanned, at - start);
          MarkLine(at);
          return true;
        }
        Unscanned(Unread(), scanned, end - start);
        scanned := end - start;
        ghost var seen := Unread();
        var n := Fill();
        assert Unread()[..scanned] == seen;
        if n == 0 {
          break;
        }
      }
      if end == start {
        return false;
      }
      assert Unread()[..scanned] == Unread();
      MarkLast();
      return true;
    }

    /** An unended last line is still a line. */
    method MarkLast()
      requires Buffered() && start < end && input == [] && NoNewline(Unread())
      modifies this`lineEnd, this`next, this`pending
      ensures Valid() && pending
    {
      assert Rest() == Unread();
      NewlineIs(Rest(), end - start);
      lineEnd, next, pending := end, end, true;
    }

    /** Notes the line that ends at the newline found. */
    method MarkLine(at: nat)
      requires Buffered() && start <= at < end && buffer[at] == LF && NoNewline(Unread()[..at - start])
      modifies this`lineEnd, this`next, this`pending
      ensures Valid() && pending
    {
      NewlineFound(Unread(), input, at - start);
      lineEnd, next := at, at + 1;
      if lineEnd > start && buffer[lineEnd - 1] == CR {
        lineEnd := lineEnd - 1;
      }
      pending := true;
    }

    /** `line_reader_take_line`. */
    method Next() returns (text: seq<Byte>)
      requires Valid()
      modifies this, buffer
      ensures Valid() && (buffer == old(buffer) || fresh(buffer))
      ensures text == FirstLine(old(Rest())).text && Rest() == old(Rest())[LineBytes(old(Rest()))..]
    {
      var yes := LinePending();
      text := [];
      if yes {
        text := buffer[start..lineEnd];
        assert text == Unread()[..lineEnd - start];
        pending := false;
        var _ := HandOut(next - start);
      }
    }

    /** `io_stdin_take_bytes`. */
    method Bytes(count: int) returns (text: seq<Byte>)
      requires Valid()
      modifies this, buffer
      ensures Valid() && (buffer == old(buffer) || fresh(buffer))
      ensures text == old(Rest())[..Wanted(count, |old(Rest())|)] && Rest() == old(Rest())[|text|..]
      ensures text + Rest() == old(Rest()) && (count <= 0 ==> text == []) && (count >= 0 ==> |text| <= count)
      ensures |text| < count ==> text == old(Rest()) && Rest() == []
    {
      pending := false;
      var want := if count > 0 then count else 0;
      while end - start < want
        invariant Buffered() && !pending && (buffer == old(buffer) || fresh(buffer)) && Rest() == old(Rest())
        decreases |input|
      {
        var n := Fill();
        if n == 0 {
          break;
        }
      }
      text := HandOut(if end - start > want then want else end - start);
      CountedPart(old(Rest()), count, text, Rest());
    }

    method HandOut(length: nat) returns (text: seq<Byte>)
      requires Buffered() && !pending && start + length <= end
      modifies this`start
      ensures Valid() && |text| == length && text == old(Rest())[..length] && Rest() == old(Rest())[length..]
    {
      text := buffer[start..start + length];
      assert text == Unread()[..length] && Unread()[length..] == buffer[start + length..end];
      Front(Unread(), input, length);
      start := start + length;
    }

    /** `io_stdin_read_all`. */
    method All() returns (text: seq<Byte>)
      requires Valid()
      modifies this, buffer
      ensures Valid() && (buffer == old(buffer) || fresh(buffer))
      ensures text == old(Rest()) && Rest() == []
    {
      pending := false;
      while true
        invariant Buffered() && !pending && (buffer == old(buffer) || fresh(buffer)) && Rest() == old(Rest())
        decreases |input|
      {
        var n := Fill();
        if n == 0 {
          break;
        }
      }
      text := buffer[start..end];
      start := end;
    }

    method Serve(req: Request) returns (r: Reply)
      requires Valid()
      modifies this, buffer
      ensures Valid() && (buffer == old(buffer) || fresh(buffer))
      ensures r == Answer(req, old(Rest())) && Rest() == old(Rest())[Used(req, old(Rest()))..]
    {
      match req
      case HasLine =>
        var yes := LinePending();
        r := Has(yes);
      case TakeLine =>
        var text := Next();
        r := Text(text);
      case TakeBytes(count) =>
        var text := Bytes(count);
        r := Text(text);
      case ReadAll =>
        var text := All();
        r := Text(text);
    }

    /** Any mix of requests is answered from the stream alone, however it was split into reads. */
    method ServeAll(reqs: seq<Request>) returns (replies: seq<Reply>)
      requires Valid()
      modifies this, buffer
      ensures Valid() && replies == Answers(reqs, old(Rest())) && Rest() == Left(reqs, old(Rest()))
    {
      if reqs == [] {
        return [];
      }
      var r := Serve(reqs[0]);
      var others := ServeAll(reqs[1..]);
      replies := [r] + others;
    }

    /** Line by line to the end: the specification split. */
    method Lines() returns (texts: seq<seq<Byte>>)
      requires Valid()
      modifies this, buffer
      ensures Valid() && Rest() == [] && texts == Texts(Split(old(Rest())))
    {
      texts := [];
      var more := LinePending();
      while more
        invariant Valid() && (buffer == old(buffer) || fresh(buffer)) && more == (Rest() != [])
        invariant texts + Texts(Split(Rest())) == Texts(Split(old(Rest())))
        decreases |Rest()|
      {
        ghost var rest := Rest();
        var text := Next();
        assert Split(rest)[1..] == Split(Rest());
        texts := texts + [text];
        more := LinePending();
      }
    }
  }
}
