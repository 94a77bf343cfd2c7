/** Quoting arguments for a shell line and for a Windows command line, against the rules of the
    readers that take the quotes off again. */
module Quoting {

  const QUOTE: char := '\"'
  const SLASH: char := '\\'

  // ----- POSIX double quotes (section 2.2.3 of the POSIX.1-2017 Shell Command Language) -----

  /** The characters that stay live inside double quotes. */
  predicate PosixSpecial(c: char) {
    c == QUOTE || c == SLASH || c == '$' || c == '`'
  }

  function PosixBody(arg: string): string {
    if arg == [] then []
    else (if PosixSpecial(arg[0]) then [SLASH, arg[0]] else [arg[0]]) + PosixBody(arg[1..])
  }

  function PosixQuoted(arg: string): string {
    [QUOTE] + PosixBody(arg) + [QUOTE]
  }

  /** What a shell makes of the text behind an opening quote: the word up to the closing quote and
      what follows it, or an expansion, or no closing quote at all. */
  datatype Reading = Word(text: string, rest: string) | Expands | Unclosed

  function Prefixed(c: string, r: Reading): Reading {
    if r.Word? then r.(text := c + r.text) else r
  }

  function PosixRead(s: string): Reading {
    if s == [] then Unclosed
    else if s[0] == QUOTE then Word([], s[1..])
    else if s[0] == '$' || s[0] == '`' then Expands
    else if s[0] == SLASH && |s| >= 2 && PosixSpecial(s[1]) then Prefixed([s[1]], PosixRead(s[2..]))
    else if s[0] == SLASH && |s| >= 2 && s[1] == '\n' then PosixRead(s[2..])
    else Prefixed([s[0]], PosixRead(s[1..]))
  }

  /** A shell reads a quoted argument back as it was, and goes on right behind it. */
  lemma {:induction false} PosixRoundTrip(arg: string, rest: string)
    ensures PosixRead(PosixBody(arg) + [QUOTE] + rest) == Word(arg, rest)
  {
    if arg != [] {
      var c, more := arg[0], PosixBody(arg[1..]) + [QUOTE] + rest;
      PosixRoundTrip(arg[1..], rest);
      var s := PosixBody(arg) + [QUOTE] + rest;
      if PosixSpecial(c) {
        assert s == [SLASH, c] + more;
        assert s[2..] == more;
      } else {
        assert s == [c] + more;
        assert s[1..] == more;
      }
      assert [c] + arg[1..] == arg;
    }
  }

  lemma {:induction false} PosixSize(arg: string)
    ensures |PosixBody(arg)| <= 2 * |arg|
  {
    if arg != [] {
      PosixSize(arg[1..]);
    }
  }

  // ----- the Windows spelling -----

  function Slashes(n: nat): (r: string)
    ensures |r| == n
  {
    if n == 0 then [] else [SLASH] + Slashes(n - 1)
  }

  /** The length of the run of backslashes at the front. */
  function Run(s: string): (n: nat)
    ensures n <= |s|
  {
    if s == [] || s[0] != SLASH then 0 else Run(s[1..]) + 1
  }

  lemma {:induction false} RunIs(s: string)
    ensures s[..Run(s)] == Slashes(Run(s)) && (Run(s) < |s| ==> s[Run(s)] != SLASH)
  {
    if s != [] && s[0] == SLASH {
      RunIs(s[1..]);
      assert s[..Run(s)] == [SLASH] + s[1..][..Run(s) - 1];
    }
  }

  /** Backslashes doubled before a quote, whether the argument's own or the closing one. */
  function WinBody(arg: string): string {
    var k := Run(arg);
    if k == |arg| then Slashes(2 * k)
    else Slashes(if arg[k] == QUOTE then 2 * k + 1 else k) + [arg[k]] + WinBody(arg[k + 1..])
  }

  function WinQuoted(arg: string): string {
    [QUOTE] + WinBody(arg) + [QUOTE]
  }

  predicate NeedsQuotes(c: char) {
    c == ' ' || c == '\t' || c == '\n' || c == '\U{000B}' || c == QUOTE
  }

  predicate Bare(arg: string) {
    arg != [] && forall i :: 0 <= i < |arg| ==> !NeedsQuotes(arg[i])
  }

  function Spelled(arg: string): string {
    if Bare(arg) then arg else WinQuoted(arg)
  }

  /** An argument is passed as written exactly when it is not empty and no blank and no quote is in it; any
      other is put between quotes. */
  lemma AsWrittenIff(arg: string)
    ensures Spelled(arg) == arg <==>
            arg != "" && ' ' !in arg && '\t' !in arg && '\n' !in arg && '\U{000B}' !in arg && '"' !in arg
    ensures Spelled(arg) != arg ==> Spelled(arg)[0] == '"' && Spelled(arg)[|Spelled(arg)| - 1] == '"' && |Spelled(arg)| >= |arg| + 2
  {
    BodyHoldsAll(arg);
    if !Bare(arg) && arg != [] {
      var i :| 0 <= i < |arg| && NeedsQuotes(arg[i]);
      assert arg[i] in arg;
    }
  }

  lemma {:induction false} BodyHoldsAll(arg: string)
    ensures |WinBody(arg)| >= |arg|
    decreases |arg|
  {
    if Run(arg) < |arg| {
      BodyHoldsAll(arg[Run(arg) + 1..]);
    }
  }

  function Tail(args: seq<string>): string {
    if args == [] then [] else [' '] + Spelled(args[0]) + Tail(args[1..])
  }

  function CommandLine(program: string, args: seq<string>): string {
    Spelled(program) + Tail(args)
  }

  // ----- CommandLineToArgvW -----

  predicate Blank(c: char) {
    c == ' ' || c == '\t'
  }

  function SkipBlanks(s: string): (r: string)
    ensures |r| <= |s| && (r != [] ==> !Blank(r[0])) && (s != [] && Blank(s[0]) ==> |r| < |s|)
  {
    if s != [] && Blank(s[0]) then SkipBlanks(s[1..]) else s
  }

  /** The arguments in `s`, with `cur` read of the first one, `q` quotes counted (one means inside
      quotes) and the last `b` characters of `cur` a run of backslashes. */
  function ReadArgs(s: string, q: nat, b: nat, cur: string): seq<string>
    requires b <= |cur|
    decreases |s|, 1
  {
    if s == [] then [cur]
    else if Blank(s[0]) && q == 0 then
      var rest := SkipBlanks(s);
      if rest == [] then [cur] else [cur] + ReadArgs(rest, 0, 0, [])
    else if s[0] == SLASH then ReadArgs(s[1..], q, b + 1, cur + [SLASH])
    else if s[0] == QUOTE then
      if b % 2 == 0 then ReadQuotes(s[1..], q + 1, cur[..|cur| - b / 2])
      else ReadQuotes(s[1..], q, cur[..|cur| - b / 2 - 1] + [QUOTE])
    else ReadArgs(s[1..], q, 0, cur + [s[0]])
  }

  /** Quotes in a row: the third makes a literal one. */
  function ReadQuotes(s: string, q: nat, cur: string): seq<string>
    decreases |s|, 2
  {
    if s != [] && s[0] == QUOTE then
      if q + 1 == 3 then ReadQuotes(s[1..], 0, cur + [QUOTE]) else ReadQuotes(s[1..], q + 1, cur)
    else ReadArgs(s, if q == 2 then 0 else q, 0, cur)
  }

  /** Up to the next quote, which is dropped. */
  function UpToQuote(s: string): (r: (string, string))
    ensures |r.1| <= |s| && QUOTE !in r.0
  {
    if s == [] then ([], [])
    else if s[0] == QUOTE then ([], s[1..])
    else var r := UpToQuote(s[1..]); ([s[0]] + r.0, r.1)
  }

  function UpToBlank(s: string): (string, string) {
    if s == [] || Blank(s[0]) then ([], s)
    else var r := UpToBlank(s[1..]); ([s[0]] + r.0, r.1)
  }

  /** The program name follows simpler rules: no backslash escapes in it. */
  function ProgramOf(line: string): (string, string) {
    if line != [] && line[0] == QUOTE then UpToQuote(line[1..]) else UpToBlank(line)
  }

  function Argv(line: string): seq<string> {
    var program, rest := ProgramOf(line).0, SkipBlanks(ProgramOf(line).1);
    if rest == [] then [program] else [program] + ReadArgs(rest, 0, 0, [])
  }

  // ----- reading back one argument -----

  /** What may stand behind an argument. */
  predicate Stop(tail: string) {
    tail == [] || Blank(tail[0])
  }

  lemma {:induction false} ReadSlashes(n: nat, s: string, q: nat, b: nat, cur: string)
    requires b <= |cur|
    ensures ReadArgs(Slashes(n) + s, q, b, cur) == ReadArgs(s, q, b + n, cur + Slashes(n))
    decreases n
  {
    var all := Slashes(n) + s;
    if n == 0 {
      assert all == s && cur + Slashes(n) == cur;
    } else {
      ReadSlashes(n - 1, s, q, b + 1, cur + [SLASH]);
      assert all[1..] == Slashes(n - 1) + s;
      assert cur + [SLASH] + Slashes(n - 1) == cur + Slashes(n);
    }
  }

  lemma StepQuote(s: string, q: nat, b: nat, cur: string)
    requires b <= |cur|
    ensures ReadArgs([QUOTE] + s, q, b, cur) ==
            if b % 2 == 0 then ReadQuotes(s, q + 1, cur[..|cur| - b / 2])
            else ReadQuotes(s, q, cur[..|cur| - b / 2 - 1] + [QUOTE])
  {
  }

  lemma StepBlank(s: string, cur: string)
    requires s != [] && !Blank(s[0])
    ensures ReadArgs([' '] + s, 0, 0, cur) == [cur] + ReadArgs(s, 0, 0, [])
  {
    assert ([' '] + s)[1..] == s;
    assert SkipBlanks([' '] + s) == s;
  }

  /** Behind an escaped quote the count of quotes in a row changes nothing. */
  lemma QuotesThenArgs(s: string, q: nat, cur: string)
    requires q <= 1
    ensures ReadQuotes(s, q, cur) == ReadArgs(s, q, 0, cur)
  {
    if s != [] && s[0] == QUOTE {
      assert s == [QUOTE] + s[1..];
      StepQuote(s[1..], q, 0, cur);
      assert cur[..|cur| - 0] == cur;
    }
  }

  /** A run of backslashes before a quote that closes. */
  lemma ReadClosing(k: nat, tail: string, cur: string)
    requires Stop(tail)
    ensures ReadArgs(Slashes(2 * k) + [QUOTE] + tail, 1, 0, cur) == ReadArgs(tail, 0, 0, cur + Slashes(k))
  {
    Join3(Slashes(2 * k), [QUOTE], tail);
    ReadSlashes(2 * k, [QUOTE] + tail, 1, 0, cur);
    HalfRun(cur, 2 * k, k);
    StepQuote(tail, 1, 2 * k, cur + Slashes(2 * k));
  }

  lemma {:induction false} SlashesAt(n: nat, i: nat)
    requires i < n
    ensures Slashes(n)[i] == SLASH
  {
    if i > 0 {
      SlashesAt(n - 1, i - 1);
    }
  }

  lemma HalfRun(cur: string, n: nat, k: nat)
    requires k <= n
    ensures (cur + Slashes(n))[..|cur| + k] == cur + Slashes(k)
  {
    var left, right := (cur + Slashes(n))[..|cur| + k], cur + Slashes(k);
    forall i | 0 <= i < |right| ensures left[i] == right[i] {
      if i >= |cur| {
        SlashesAt(n, i - |cur|);
        SlashesAt(k, i - |cur|);
      }
    }
  }

  /** A run of backslashes before a quote that is the argument's own, inside quotes or outside. */
  lemma ReadEscaped(k: nat, s: string, q: nat, cur: string)
    requires q <= 1
    ensures ReadArgs(Slashes(2 * k + 1) + [QUOTE] + s, q, 0, cur) == ReadArgs(s, q, 0, cur + Slashes(k) + [QUOTE])
  {
    var n := 2 * k + 1;
    Join3(Slashes(n), [QUOTE], s);
    ReadSlashes(n, [QUOTE] + s, q, 0, cur);
    assert ReadArgs(Slashes(n) + [QUOTE] + s, q, 0, cur) == ReadArgs([QUOTE] + s, q, n, cur + Slashes(n));
    OddQuote(k, s, q, cur);
    QuotesThenArgs(s, q, cur + Slashes(k) + [QUOTE]);
  }

  lemma OddQuote(k: nat, s: string, q: nat, cur: string)
    ensures ReadArgs([QUOTE] + s, q, 2 * k + 1, cur + Slashes(2 * k + 1)) == ReadQuotes(s, q, cur + Slashes(k) + [QUOTE])
  {
    var n := 2 * k + 1;
    var full := cur + Slashes(n);
    assert n % 2 == 1 && |full| - n / 2 - 1 == |cur| + k;
    HalfRun(cur, n, k);
    StepQuote(s, q, n, full);
  }

  /** A run of backslashes before anything else. */
  lemma ReadPlain(k: nat, c: char, s: string, q: nat, cur: string)
    requires c != QUOTE && c != SLASH && (q > 0 || !Blank(c))
    ensures ReadArgs(Slashes(k) + [c] + s, q, 0, cur) == ReadArgs(s, q, 0, cur + Slashes(k) + [c])
  {
    Join3(Slashes(k), [c], s);
    ReadSlashes(k, [c] + s, q, 0, cur);
    assert ([c] + s)[1..] == s;
  }

  /** The reader, inside the quotes, takes a quoted body for what it spells. */
  lemma {:induction false} ReadBody(arg: string, tail: string, cur: string)
    requires Stop(tail)
    ensures ReadArgs(WinBody(arg) + [QUOTE] + tail, 1, 0, cur) == ReadArgs(tail, 0, 0, cur + arg)
    decreases |arg|
  {
    var k := Run(arg);
    RunIs(arg);
    if k == |arg| {
      assert arg == arg[..k];
      ReadClosing(k, tail, cur);
    } else {
      var c, more := arg[k], arg[k + 1..];
      var s := WinBody(more) + [QUOTE] + tail;
      RunAndRest(arg);
      BodyTurn(arg, k, if c == QUOTE then 2 * k + 1 else k, tail);
      if c == QUOTE {
        ReadEscaped(k, s, 1, cur);
      } else {
        ReadPlain(k, c, s, 1, cur);
      }
      ReadBody(more, tail, cur + Slashes(k) + [c]);
      Reassoc(cur, Slashes(k), [c], more);
    }
  }

  lemma RunAndRest(arg: string)
    requires Run(arg) < |arg|
    ensures var k := Run(arg); arg[k] != SLASH && arg == Slashes(k) + [arg[k]] + arg[k + 1..]
  {
    var k := Run(arg);
    RunIs(arg);
    CutAt(arg, k, Slashes(k));
  }

  lemma CutAt(s: string, k: nat, head: string)
    requires k < |s| && s[..k] == head
    ensures s == head + [s[k]] + s[k + 1..]
  {
  }

  lemma BodyTurn(arg: string, k: nat, n: nat, tail: string)
    requires k == Run(arg) < |arg| && n == if arg[k] == QUOTE then 2 * k + 1 else k
    ensures WinBody(arg) + [QUOTE] + tail == Slashes(n) + [arg[k]] + (WinBody(arg[k + 1..]) + [QUOTE] + tail)
  {
    Regroup(Slashes(n), [arg[k]], WinBody(arg[k + 1..]), [QUOTE], tail);
  }

  lemma Join3(a: string, b: string, c: string)
    ensures a + b + c == a + (b + c)
  {
  }

  lemma Reassoc(a: string, b: string, c: string, d: string)
    ensures a + b + c + d == a + (b + c + d)
  {
  }

  lemma Regroup(a: string, b: string, c: string, d: string, e: string)
    ensures a + b + c + d + e == a + b + (c + d + e)
  {
  }

  lemma {:induction false} ReadBare(arg: string, tail: string, b: nat, cur: string)
    requires b <= |cur| && Stop(tail) && forall i :: 0 <= i < |arg| ==> !NeedsQuotes(arg[i])
    ensures ReadArgs(arg + tail, 0, b, cur) == ReadArgs(tail, 0, 0, cur + arg)
    decreases |arg|
  {
    if arg == [] {
      assert arg + tail == tail && cur + arg == cur;
    } else {
      var c := arg[0];
      assert !NeedsQuotes(arg[0]);
      assert (arg + tail)[1..] == arg[1..] + tail;
      ReadBare(arg[1..], tail, if c == SLASH then b + 1 else 0, cur + [c]);
      assert cur + [c] + arg[1..] == cur + arg;
    }
  }

  /** Quoted or bare, an argument is read back as it was. */
  lemma ReadSpelled(arg: string, tail: string)
    requires Stop(tail)
    ensures ReadArgs(Spelled(arg) + tail, 0, 0, []) == ReadArgs(tail, 0, 0, arg)
  {
    if Bare(arg) {
      ReadBare(arg, tail, 0, []);
      assert [] + arg == arg;
    } else {
      ReadWinQuoted(arg, tail);
    }
  }

  /** The always-quoting form of the shell line: the same, for the reader the shell hands it to. */
  lemma ReadWinQuoted(arg: string, tail: string)
    requires Stop(tail)
    ensures ReadArgs(WinQuoted(arg) + tail, 0, 0, []) == ReadArgs(tail, 0, 0, arg)
  {
    var s, none: string := WinBody(arg) + [QUOTE] + tail, [];
    assert WinQuoted(arg) + tail == [QUOTE] + s;
    StepQuote(s, 0, 0, none);
    QuotesThenArgs(s, 1, none);
    ReadBody(arg, tail, none);
    assert none + arg == arg;
  }

  // ----- reading back a line -----

  lemma SpelledStart(arg: string)
    ensures Spelled(arg) != [] && !Blank(Spelled(arg)[0])
  {
  }

  lemma {:induction false} ReadTail(args: seq<string>, cur: string)
    ensures ReadArgs(Tail(args), 0, 0, cur) == [cur] + args && Stop(Tail(args))
    decreases |args|
  {
    if args != [] {
      var first, more := args[0], Tail(args[1..]);
      ReadTail(args[1..], first);
      SpelledStart(first);
      TailTurn(args);
      StepBlank(Spelled(first) + more, cur);
      ReadSpelled(first, more);
      assert [cur] + ([first] + args[1..]) == [cur] + args;
    }
  }

  lemma TailTurn(args: seq<string>)
    requires args != []
    ensures Tail(args) == [' '] + (Spelled(args[0]) + Tail(args[1..]))
  {
  }

  /** What the program name is read back as. */
  function ProgramRead(program: string): string {
    if Bare(program) then program else UpToQuote(WinBody(program) + [QUOTE]).0
  }

  lemma {:induction false} UpToBlankOf(s: string, tail: string)
    requires Stop(tail) && forall i :: 0 <= i < |s| ==> !Blank(s[i])
    ensures UpToBlank(s + tail) == (s, tail)
  {
    if s == [] {
      assert s + tail == tail;
    } else {
      assert (s + tail)[1..] == s[1..] + tail;
      UpToBlankOf(s[1..], tail);
      assert [s[0]] + s[1..] == s;
    }
  }

  lemma {:induction false} UpToQuoteOf(s: string, tail: string)
    requires QUOTE !in s
    ensures UpToQuote(s + [QUOTE] + tail) == (s, tail)
  {
    var all := s + [QUOTE] + tail;
    if s == [] {
      assert all == [QUOTE] + tail;
    } else {
      assert all[1..] == s[1..] + [QUOTE] + tail;
      UpToQuoteOf(s[1..], tail);
      assert [s[0]] + s[1..] == s;
    }
  }

  /** Without quotes of its own a body is the argument with its trailing backslashes doubled. */
  lemma {:induction false} PlainBody(arg: string)
    requires QUOTE !in arg
    ensures QUOTE !in WinBody(arg)
    ensures if EndsInSlash(arg) then |WinBody(arg)| > |arg| else WinBody(arg) == arg
    decreases |arg|
  {
    var k := Run(arg);
    OnlySlashes(k);
    if k == |arg| {
      RunIs(arg);
      assert arg == arg[..k];
      OnlySlashes(2 * k);
    } else {
      var c, more := arg[k], arg[k + 1..];
      RunAndRest(arg);
      PlainBody(more);
      PlainTurn(Slashes(k), c, more, WinBody(more));
    }
  }

  lemma {:induction false} OnlySlashes(n: nat)
    ensures QUOTE !in Slashes(n) && (n > 0 ==> EndsInSlash(Slashes(n)))
  {
    if n > 0 {
      OnlySlashes(n - 1);
    }
  }

  lemma PlainTurn(head: string, c: char, more: string, body: string)
    requires QUOTE !in head && c != QUOTE && c != SLASH && QUOTE !in body
    requires if EndsInSlash(more) then |body| > |more| else body == more
    ensures QUOTE !in head + [c] + body
    ensures if EndsInSlash(head + [c] + more) then |head + [c] + body| > |head + [c] + more| else body == more
  {
  }

  predicate EndsInSlash(s: string) {
    s != [] && s[|s| - 1] == SLASH
  }

  /** Every argument behind the program comes back unchanged, whenever the program has no quote. */
  lemma ArgumentsReadBack(program: string, args: seq<string>)
    requires QUOTE !in program
    ensures Argv(CommandLine(program, args)) == [ProgramRead(program)] + args
  {
    ReadTail(args, []);
    ProgramEnds(program, Tail(args));
    AfterProgram(args);
  }

  /** The program name ends where the arguments begin. */
  lemma ProgramEnds(program: string, tail: string)
    requires QUOTE !in program && Stop(tail)
    ensures ProgramOf(Spelled(program) + tail) == (ProgramRead(program), tail)
  {
    if Bare(program) {
      forall i | 0 <= i < |program| ensures !Blank(program[i]) {
        assert !NeedsQuotes(program[i]);
      }
      UpToBlankOf(program, tail);
      assert (program + tail)[0] == program[0];
    } else {
      PlainBody(program);
      QuotedEnds(program, tail);
      QuotedEnds(program, []);
    }
  }

  lemma QuotedEnds(program: string, tail: string)
    requires QUOTE !in WinBody(program)
    ensures ProgramOf(WinQuoted(program) + tail) == (WinBody(program), tail)
    ensures tail == [] ==> UpToQuote(WinBody(program) + [QUOTE]) == (WinBody(program), [])
  {
    var line := WinQuoted(program) + tail;
    assert line[0] == QUOTE;
    assert line[1..] == WinBody(program) + [QUOTE] + tail;
    UpToQuoteOf(WinBody(program), tail);
    assert tail == [] ==> WinBody(program) + [QUOTE] + tail == WinBody(program) + [QUOTE];
  }

  lemma AfterProgram(args: seq<string>)
    ensures var rest := SkipBlanks(Tail(args));
            (rest == [] <==> args == []) && (args != [] ==> ReadArgs(rest, 0, 0, []) == args)
  {
    if args != [] {
      var first, more := args[0], Tail(args[1..]);
      SpelledStart(first);
      TailTurn(args);
      var s := Spelled(first) + more;
      assert ([' '] + s)[1..] == s;
      ReadTail(args[1..], first);
      ReadSpelled(first, more);
      assert args == [first] + args[1..];
    }
  }

  /** The whole vector comes back exactly when the program has no quote in it and does not both need
      quotes and end in a backslash. */
  lemma ArgvReadBackIff(program: string, args: seq<string>)
    ensures Argv(CommandLine(program, args)) == [program] + args
            <==> QUOTE !in program && !(!Bare(program) && EndsInSlash(program))
  {
    if QUOTE in program {
      var i :| 0 <= i < |program| && program[i] == QUOTE;
      assert NeedsQuotes(program[i]);
      assert !Bare(program);
      assert QUOTE !in Argv(CommandLine(program, args))[0];
      assert ([program] + args)[0] == program;
    } else {
      ArgumentsReadBack(program, args);
      assert ([program] + args)[0] == program && ([ProgramRead(program)] + args)[0] == ProgramRead(program);
      if !Bare(program) {
        PlainBody(program);
        UpToQuoteOf(WinBody(program), []);
        assert WinBody(program) + [QUOTE] + [] == WinBody(program) + [QUOTE];
      }
    }
  }

  // ----- a program name with a quote in it -----

  predicate HasBlank(s: string) {
    exists i :: 0 <= i < |s| && Blank(s[i])
  }

  /** What text is cut into when it is read outside quotes with `cur` read already: the arguments it
      completes and what it leaves of the next one. */
  function Outside(s: string, cur: string): (r: (seq<string>, string))
    decreases |s|
  {
    if s == [] then ([], cur)
    else if Blank(s[0]) then
      var rest := Outside(SkipBlanks(s), []);
      ([cur] + rest.0, rest.1)
    else Outside(s[1..], cur + [s[0]])
  }

  /** It leaves more than the text itself if there is no blank in it, and less if there is one. */
  lemma {:induction false} OutsideLast(s: string, cur: string)
    ensures if HasBlank(s) then |Outside(s, cur).1| < |s| else Outside(s, cur).1 == cur + s
    decreases |s|
  {
    if s == [] {
      assert cur + s == cur;
    } else if Blank(s[0]) {
      OutsideLast(SkipBlanks(s), []);
    } else {
      OutsideLast(s[1..], cur + [s[0]]);
      assert cur + [s[0]] + s[1..] == cur + s;
      BlankBehind(s);
    }
  }

  lemma BlankBehind(s: string)
    requires s != [] && !Blank(s[0])
    ensures HasBlank(s) <==> HasBlank(s[1..])
  {
    var t := s[1..];
    if HasBlank(s) {
      var i :| 0 <= i < |s| && Blank(s[i]);
      assert t[i - 1] == s[i];
    }
    if HasBlank(t) {
      var i :| 0 <= i < |t| && Blank(t[i]);
      assert s[i + 1] == t[i];
    }
  }

  lemma {:induction false} OutsideSlashes(k: nat, s: string, cur: string)
    ensures Outside(Slashes(k) + s, cur) == Outside(s, cur + Slashes(k))
    decreases k
  {
    if k == 0 {
      assert Slashes(0) + s == s && cur + Slashes(0) == cur;
    } else {
      assert (Slashes(k) + s)[1..] == Slashes(k - 1) + s;
      OutsideSlashes(k - 1, s, cur + [SLASH]);
      assert cur + [SLASH] + Slashes(k - 1) == cur + Slashes(k);
    }
  }

  lemma OutsideOne(c: char, s: string, cur: string)
    requires !Blank(c)
    ensures Outside([c] + s, cur) == Outside(s, cur + [c])
  {
    assert ([c] + s)[1..] == s;
  }

  /** Outside quotes, the closing quote opens. */
  lemma ReadOpening(k: nat, tail: string, cur: string)
    requires Stop(tail)
    ensures ReadArgs(Slashes(2 * k) + [QUOTE] + tail, 0, 0, cur) == ReadArgs(tail, 1, 0, cur + Slashes(k))
  {
    Join3(Slashes(2 * k), [QUOTE], tail);
    ReadSlashes(2 * k, [QUOTE] + tail, 0, 0, cur);
    HalfRun(cur, 2 * k, k);
    StepQuote(tail, 0, 2 * k, cur + Slashes(2 * k));
  }

  lemma BlankOutside(k: nat, c: char, s: string, cur: string)
    requires Blank(c) && SkipBlanks(s) != []
    ensures ReadArgs(Slashes(k) + [c] + s, 0, 0, cur) == [cur + Slashes(k)] + ReadArgs(SkipBlanks(s), 0, 0, [])
  {
    Join3(Slashes(k), [c], s);
    ReadSlashes(k, [c] + s, 0, 0, cur);
    assert ([c] + s)[1..] == s;
  }

  /** Skipping blanks in front of a quoted body skips them in what it spells. */
  lemma {:induction false} SkipInBody(s: string, tail: string)
    ensures SkipBlanks(WinBody(s) + [QUOTE] + tail) == WinBody(SkipBlanks(s)) + [QUOTE] + tail
    decreases |s|
  {
    var all := WinBody(s) + [QUOTE] + tail;
    if s != [] && Blank(s[0]) {
      assert Run(s) == 0;
      BodyTurn(s, 0, 0, tail);
      assert s[0 + 1..] == s[1..];
      assert all == [s[0]] + (WinBody(s[1..]) + [QUOTE] + tail);
      assert all[1..] == WinBody(s[1..]) + [QUOTE] + tail;
      SkipInBody(s[1..], tail);
    } else {
      BodyNotBlank(s, tail);
    }
  }

  lemma BodyNotBlank(s: string, tail: string)
    requires s == [] || !Blank(s[0])
    ensures !Blank((WinBody(s) + [QUOTE] + tail)[0])
  {
    var k := Run(s);
    RunIs(s);
    if k == |s| {
      if k > 0 {
        SlashesAt(2 * k, 0);
      }
    } else {
      var n := if s[k] == QUOTE then 2 * k + 1 else k;
      BodyTurn(s, k, n, tail);
      if n > 0 {
        SlashesAt(n, 0);
      }
    }
  }

  /** A quoted body read outside quotes: cut at its blanks, and its closing quote opens. */
  lemma {:induction false} BodyOutside(arg: string, tail: string, cur: string)
    requires Stop(tail)
    ensures ReadArgs(WinBody(arg) + [QUOTE] + tail, 0, 0, cur) ==
            Outside(arg, cur).0 + ReadArgs(tail, 1, 0, Outside(arg, cur).1)
    decreases |arg|, 0
  {
    var k := Run(arg);
    if k == |arg| {
      RunIs(arg);
      assert arg == arg[..k];
      ReadOpening(k, tail, cur);
      OutsideSlashes(k, [], cur);
      assert Slashes(k) + [] == Slashes(k);
    } else {
      var c, more := arg[k], arg[k + 1..];
      var s := WinBody(more) + [QUOTE] + tail;
      RunAndRest(arg);
      BodyTurn(arg, k, if c == QUOTE then 2 * k + 1 else k, tail);
      Join3(Slashes(k), [c], more);
      OutsideSlashes(k, [c] + more, cur);
      if Blank(c) {
        BlankTurn(k, c, more, tail, cur);
      } else {
        OutsideOne(c, more, cur + Slashes(k));
        if c == QUOTE {
          ReadEscaped(k, s, 0, cur);
        } else {
          ReadPlain(k, c, s, 0, cur);
        }
        BodyOutside(more, tail, cur + Slashes(k) + [c]);
      }
    }
  }

  lemma BlankTurn(k: nat, c: char, more: string, tail: string, cur: string)
    requires Stop(tail) && Blank(c)
    ensures var now := cur + Slashes(k);
            ReadArgs(Slashes(k) + [c] + (WinBody(more) + [QUOTE] + tail), 0, 0, cur) ==
            Outside([c] + more, now).0 + ReadArgs(tail, 1, 0, Outside([c] + more, now).1)
    decreases |more|, 1
  {
    var now, rest := cur + Slashes(k), SkipBlanks(more);
    SkipInBody(more, tail);
    BlankOutside(k, c, WinBody(more) + [QUOTE] + tail, cur);
    assert ([c] + more)[1..] == more;
    assert SkipBlanks([c] + more) == rest;
    BodyOutside(rest, tail, []);
    var r := Outside(rest, []);
    Regrouped([now], r.0, ReadArgs(tail, 1, 0, r.1));
  }

  lemma Regrouped(a: seq<string>, b: seq<string>, c: seq<string>)
    ensures a + (b + c) == a + b + c
  {
  }

  /** Inside quotes an argument that needs none is text like any other. */
  lemma {:induction false} BareInside(arg: string, tail: string, b: nat, cur: string)
    requires b <= |cur| && Stop(tail) && forall i :: 0 <= i < |arg| ==> !NeedsQuotes(arg[i])
    ensures ReadArgs(arg + tail, 1, b, cur) == ReadArgs(tail, 1, 0, cur + arg)
    decreases |arg|
  {
    if arg == [] {
      assert arg + tail == tail && cur + arg == cur;
    } else {
      var c := arg[0];
      assert !NeedsQuotes(arg[0]);
      assert (arg + tail)[1..] == arg[1..] + tail;
      BareInside(arg[1..], tail, if c == SLASH then b + 1 else 0, cur + [c]);
      assert cur + [c] + arg[1..] == cur + arg;
    }
  }

  /** What one argument behind a blank becomes when the blank is read inside quotes: the arguments
      completed and what is left, which is never the argument itself. */
  lemma SpelledInside(arg: string, tail: string, cur: string) returns (done: seq<string>, left: string)
    requires Stop(tail) && arg != []
    ensures ReadArgs([' '] + Spelled(arg) + tail, 1, 0, cur) == done + ReadArgs(tail, 1, 0, left)
    ensures left != arg
  {
    var now := cur + [' '];
    Join3([' '], Spelled(arg), tail);
    assert ([' '] + (Spelled(arg) + tail))[1..] == Spelled(arg) + tail;
    assert ReadArgs([' '] + (Spelled(arg) + tail), 1, 0, cur) == ReadArgs(Spelled(arg) + tail, 1, 0, now);
    if Bare(arg) {
      BareInside(arg, tail, 0, now);
      done, left := [], now + arg;
    } else {
      var s := WinBody(arg) + [QUOTE] + tail;
      assert WinQuoted(arg) + tail == [QUOTE] + s;
      StepQuote(s, 1, 0, now);
      assert now[..|now| - 0] == now;
      BodyStart(arg, tail);
      BodyOutside(arg, tail, now);
      OutsideLast(arg, now);
      done, left := Outside(arg, now).0, Outside(arg, now).1;
    }
  }

  lemma BodyStart(arg: string, tail: string)
    requires arg != []
    ensures (WinBody(arg) + [QUOTE] + tail)[0] != QUOTE
  {
    var k := Run(arg);
    RunIs(arg);
    if k == |arg| {
      SlashesAt(2 * k, 0);
    } else {
      var n := if arg[k] == QUOTE then 2 * k + 1 else k;
      BodyTurn(arg, k, n, tail);
      if n > 0 {
        SlashesAt(n, 0);
      }
    }
  }

  /** An empty argument closes the quotes again, with a literal quote in what was being read. */
  lemma EmptyInside(tail: string, cur: string)
    requires Stop(tail)
    ensures ReadArgs([' '] + Spelled([]) + tail, 1, 0, cur) == ReadArgs(tail, 0, 0, cur + [' ', QUOTE])
  {
    var now := cur + [' '];
    assert WinBody([]) == [] && Spelled([]) == [QUOTE, QUOTE];
    var s := [QUOTE] + ([QUOTE] + tail);
    assert [' '] + Spelled([]) + tail == [' '] + s;
    assert ([' '] + s)[1..] == s;
    StepQuote([QUOTE] + tail, 1, 0, now);
    assert now[..|now| - 0] == now;
    assert ([QUOTE] + tail)[1..] == tail;
    assert ReadQuotes([QUOTE] + tail, 2, now) == ReadQuotes(tail, 0, now + [QUOTE]);
    assert now + [QUOTE] == cur + [' ', QUOTE];
  }

  /** Counted from the end, some argument is not what it was. */
  ghost predicate Differs(got: seq<string>, args: seq<string>) {
    exists k: nat :: DiffersAt(got, args, k)
  }

  predicate DiffersAt(got: seq<string>, args: seq<string>, k: nat) {
    k < |got| && k < |args| && got[|got| - 1 - k] != args[|args| - 1 - k]
  }

  lemma DiffersBehind(done: seq<string>, got: seq<string>, first: string, args: seq<string>)
    requires Differs(got, args)
    ensures Differs(done + got, [first] + args) && Differs(done + got, args)
  {
    var k: nat :| DiffersAt(got, args, k);
    assert DiffersAt(done + got, [first] + args, k) && DiffersAt(done + got, args, k);
  }

  /** With the quotes inverted, no list of arguments comes back. */
  lemma {:induction false} InvertedDiffers(args: seq<string>, cur: string)
    requires args != []
    ensures Differs(ReadArgs(Tail(args), 1, 0, cur), args)
    decreases |args|
  {
    var first, more := args[0], args[1..];
    var tail := Tail(more);
    ReadTail(more, []);
    assert args == [first] + more;
    if first == [] {
      EmptyInside(tail, cur);
      ReadTail(more, cur + [' ', QUOTE]);
      var got := [cur + [' ', QUOTE]] + more;
      assert DiffersAt(got, args, |more|);
    } else {
      var done, left := SpelledInside(first, tail, cur);
      if more == [] {
        var got := done + [left];
        assert ReadArgs(tail, 1, 0, left) == [left];
        assert DiffersAt(got, args, 0);
      } else {
        InvertedDiffers(more, left);
        DiffersBehind(done, ReadArgs(tail, 1, 0, left), first, more);
      }
    }
  }

  /** The text behind a program name's first quote, as it was spelled. */
  lemma {:induction false} QuoteCuts(program: string, s: string) returns (rest: string)
    requires QUOTE in program
    ensures UpToQuote(WinBody(program) + s).1 == WinBody(rest) + s
    decreases |program|
  {
    var k := Run(program);
    QuoteBehindRun(program);
    var c, more := program[k], program[k + 1..];
    var n := if c == QUOTE then 2 * k + 1 else k;
    WinTurn(program, k, n);
    OnlySlashes(n);
    Join3(Slashes(n) + [c], WinBody(more), s);
    if c == QUOTE {
      UpToQuoteOf(Slashes(n), WinBody(more) + s);
      rest := more;
    } else {
      rest := QuoteCuts(more, s);
      CutsBehind(Slashes(n) + [c], WinBody(more) + s);
    }
  }

  lemma QuoteBehindRun(program: string)
    requires QUOTE in program
    ensures Run(program) < |program| && (program[Run(program)] == QUOTE || QUOTE in program[Run(program) + 1..])
  {
    var k := Run(program);
    var i :| 0 <= i < |program| && program[i] == QUOTE;
    if i < k {
      RunAt(program, i);
    } else if i > k {
      assert program[k + 1..][i - k - 1] == QUOTE;
    }
  }

  lemma {:induction false} RunAt(s: string, j: nat)
    requires j < Run(s)
    ensures s[j] == SLASH
  {
    if j > 0 {
      RunAt(s[1..], j - 1);
    }
  }

  lemma {:induction false} CutsBehind(head: string, tail: string)
    requires QUOTE !in head
    ensures UpToQuote(head + tail).1 == UpToQuote(tail).1
  {
    if head == [] {
      assert head + tail == tail;
    } else {
      assert (head + tail)[1..] == head[1..] + tail;
      CutsBehind(head[1..], tail);
    }
  }

  /** A quote in the program name loses every list of arguments, the empty one included. */
  lemma QuoteLosesArguments(program: string, args: seq<string>)
    requires QUOTE in program
    ensures Argv(CommandLine(program, args))[1..] != args
  {
    var rest := BehindProgram(program, Tail(args));
    RestDiffers(rest, args);
  }

  lemma BehindProgram(program: string, tail: string) returns (rest: string)
    requires QUOTE in program
    ensures ProgramOf(Spelled(program) + tail).1 == WinBody(rest) + [QUOTE] + tail
  {
    var i :| 0 <= i < |program| && program[i] == QUOTE;
    assert NeedsQuotes(program[i]) && !Bare(program);
    Inner(WinBody(program), tail);
    rest := QuoteCuts(program, [QUOTE] + tail);
    Join3(WinBody(rest), [QUOTE], tail);
  }

  lemma Inner(body: string, tail: string)
    ensures var line := [QUOTE] + body + [QUOTE] + tail; line[0] == QUOTE && line[1..] == body + ([QUOTE] + tail)
  {
    var line := [QUOTE] + body + [QUOTE] + tail;
    assert line == [QUOTE] + (body + ([QUOTE] + tail));
  }

  lemma RestDiffers(rest: string, args: seq<string>)
    ensures var s := SkipBlanks(WinBody(rest) + [QUOTE] + Tail(args)); s != [] && ReadArgs(s, 0, 0, []) != args
  {
    var tail, body := Tail(args), SkipBlanks(rest);
    SkipInBody(rest, tail);
    ReadTail(args, []);
    BodyOutside(body, tail, []);
    var r := Outside(body, []);
    if args == [] {
      assert ReadArgs(tail, 1, 0, r.1) == [r.1];
    } else {
      InvertedDiffers(args, r.1);
      DiffersBehind(r.0, ReadArgs(tail, 1, 0, r.1), [], args);
    }
  }

  /** The smallest loss: the program `"` and the argument `x` are read as a backslash and ` x`. */
  lemma LostArgument()
    ensures Argv(CommandLine([QUOTE], ["x"])) == [[SLASH], " x"]
  {
    var tail: string := [' ', 'x'];
    TailOne("x");
    assert Tail(["x"]) == tail;
    var more := [QUOTE] + tail;
    QuoteSpelled();
    assert CommandLine([QUOTE], ["x"])[1..] == [SLASH] + [QUOTE] + more;
    UpToQuoteOf([SLASH], more);
    assert ProgramOf(CommandLine([QUOTE], ["x"])) == ([SLASH], more);
    var none: string := [];
    StepQuote(tail, 0, 0, none);
    assert none[..0] == none;
    assert tail[1..] == ['x'] && none + [' '] == [' '];
    assert ReadArgs(tail, 1, 0, none) == ReadArgs(['x'], 1, 0, [' ']);
    assert ['x'][1..] == [] && [' '] + ['x'] == tail;
    assert ReadArgs(['x'], 1, 0, [' ']) == [tail];
  }

  lemma QuoteSpelled()
    ensures Spelled([QUOTE]) == [QUOTE, SLASH, QUOTE, QUOTE]
  {
    assert NeedsQuotes([QUOTE][0]) && !Bare([QUOTE]);
    assert Slashes(1) == [SLASH] + Slashes(0);
    assert WinBody([QUOTE]) == Slashes(1) + [QUOTE] + WinBody([]);
  }

  /** The arguments behind the program come back exactly when the program name has no quote in it. */
  lemma ArgumentsReadBackIff(program: string, args: seq<string>)
    ensures Argv(CommandLine(program, args))[1..] == args <==> QUOTE !in program
  {
    if QUOTE in program {
      QuoteLosesArguments(program, args);
    } else {
      ArgumentsReadBack(program, args);
    }
  }

  // ----- the writers -----

  lemma {:induction false} WinSize(arg: string)
    ensures |WinBody(arg)| <= 2 * |arg|
    decreases |arg|
  {
    if Run(arg) < |arg| {
      WinSize(arg[Run(arg) + 1..]);
    }
  }

  method PutSlashes(out: array<char>, at: nat, n: nat)
    requires at + n <= out.Length
    modifies out
    ensures out[..at + n] == old(out[..at]) + Slashes(n)
  {
    var s := 0;
    while s < n
      invariant 0 <= s <= n
      invariant out[..at] == old(out[..at]) && forall i :: at <= i < at + s ==> out[i] == SLASH
    {
      out[at + s] := SLASH;
      s := s + 1;
    }
    forall i | 0 <= i < n ensures Slashes(n)[i] == SLASH {
      SlashesAt(n, i);
    }
    assert out[..at + n] == out[..at] + Slashes(n);
  }

  method CountSlashes(arg: string, from: nat) returns (k: nat)
    requires from <= |arg|
    ensures k == Run(arg[from..]) && from + k <= |arg|
  {
    k := 0;
    var i := from;
    while i < |arg| && arg[i] == SLASH
      invariant from <= i == from + k <= |arg|
      invariant k + Run(arg[i..]) == Run(arg[from..])
    {
      assert arg[i..][1..] == arg[i + 1..];
      k, i := k + 1, i + 1;
    }
  }

  /** One turn of the quoting loop: a run of backslashes and the character behind it, or the run that
      ends the argument. */
  method PutRun(out: array<char>, at: nat, arg: string, from: nat) returns (at': nat, i: nat)
    requires from < |arg| && at + |WinBody(arg[from..])| <= out.Length
    modifies out
    ensures from < i <= |arg| && at <= at' && at' + |WinBody(arg[i..])| == at + |WinBody(arg[from..])|
    ensures out[..at'] + WinBody(arg[i..]) == old(out[..at]) + WinBody(arg[from..])
  {
    var slashes := CountSlashes(arg, from);
    if from + slashes == |arg| {
      at' := PutLast(out, at, arg, from, slashes);
      return at', |arg|;
    }
    i := from + slashes + 1;
    var c := arg[from + slashes];
    var n := if c == QUOTE then slashes * 2 + 1 else slashes;
    SliceOf(arg, from, slashes);
    WinTurn(arg[from..], slashes, n);
    Reassoc(out[..at], Slashes(n), [c], WinBody(arg[i..]));
    PutOne(out, at, n, c);
    at' := at + n + 1;
  }

  method PutLast(out: array<char>, at: nat, arg: string, from: nat, slashes: nat) returns (at': nat)
    requires from + slashes == |arg| && slashes == Run(arg[from..]) && at + |WinBody(arg[from..])| <= out.Length
    modifies out
    ensures at <= at' == at + |WinBody(arg[from..])| && WinBody(arg[|arg|..]) == []
    ensures out[..at'] == old(out[..at]) + WinBody(arg[from..])
  {
    PutSlashes(out, at, slashes * 2);
    at' := at + slashes * 2;
  }

  method PutOne(out: array<char>, at: nat, n: nat, c: char)
    requires at + n < out.Length
    modifies out
    ensures out[..at + n + 1] == old(out[..at]) + Slashes(n) + [c]
  {
    PutSlashes(out, at, n);
    PutChar(out, at + n, c);
  }

  lemma SliceOf(s: string, from: nat, k: nat)
    requires from + k < |s|
    ensures s[from..][k] == s[from + k] && s[from..][k + 1..] == s[from + k + 1..]
  {
  }

  lemma WinTurn(arg: string, k: nat, n: nat)
    requires k == Run(arg) < |arg| && n == if arg[k] == QUOTE then 2 * k + 1 else k
    ensures WinBody(arg) == Slashes(n) + [arg[k]] + WinBody(arg[k + 1..])
  {
  }

  method PutChar(out: array<char>, at: nat, c: char)
    requires at < out.Length
    modifies out
    ensures out[..at + 1] == old(out[..at]) + [c]
  {
    out[at] := c;
  }

  method Terminate(out: array<char>, at: nat)
    requires at < out.Length
    modifies out
    ensures out[..at] == old(out[..at]) && out[at] == '\0'
  {
    out[at] := '\0';
  }

  /** The quoting loop of both Windows writers. */
  method PutQuoted(out: array<char>, at: nat, arg: string) returns (end: nat)
    requires at + 2 * |arg| + 2 <= out.Length
    modifies out
    ensures end == at + |WinQuoted(arg)| <= at + 2 * |arg| + 2
    ensures out[..end] == old(out[..at]) + WinQuoted(arg)
  {
    WinSize(arg);
    ghost var before := out[..at];
    out[at] := QUOTE;
    assert out[..at + 1] == before + [QUOTE];
    var o, i := at + 1, 0;
    assert arg[0..] == arg;
    while i < |arg|
      invariant 0 <= i <= |arg| && at < o
      invariant o + |WinBody(arg[i..])| == at + 1 + |WinBody(arg)|
      invariant out[..o] + WinBody(arg[i..]) == before + [QUOTE] + WinBody(arg)
    {
      o, i := PutRun(out, o, arg, i);
    }
    assert WinBody(arg[i..]) == [];
    ghost var body := out[..o];
    out[o] := QUOTE;
    end := o + 1;
    assert out[..end] == body + [QUOTE];
    assert before + [QUOTE] + WinBody(arg) + [QUOTE] == before + WinQuoted(arg);
  }

  method IsBare(arg: string) returns (bare: bool)
    ensures bare == Bare(arg)
  {
    bare := arg != [];
    var i := 0;
    while bare && i < |arg|
      invariant 0 <= i <= |arg| && (bare ==> arg != [])
      invariant bare ==> forall j :: 0 <= j < i ==> !NeedsQuotes(arg[j])
      invariant !bare ==> !Bare(arg)
    {
      if NeedsQuotes(arg[i]) {
        bare := false;
      }
      i := i + 1;
    }
  }

  method PutBare(out: array<char>, at: nat, arg: string)
    requires at + |arg| <= out.Length
    modifies out
    ensures out[..at + |arg|] == old(out[..at]) + arg
  {
    var i := 0;
    while i < |arg|
      invariant 0 <= i <= |arg| && out[..at + i] == old(out[..at]) + arg[..i]
    {
      ghost var front := out[..at + i];
      out[at + i] := arg[i];
      assert out[..at + i + 1] == front + [arg[i]];
      i := i + 1;
    }
    assert arg[..i] == arg;
  }

  /** `spawn_quote_into`. */
  method SpawnQuote(out: array<char>, at: nat, arg: string) returns (end: nat)
    requires at + 2 * |arg| + 2 <= out.Length
    modifies out
    ensures at <= end <= at + 2 * |arg| + 2 && out[..end] == old(out[..at]) + Spelled(arg)
  {
    var bare := IsBare(arg);
    if bare {
      PutBare(out, at, arg);
      end := at + |arg|;
    } else {
      end := PutQuoted(out, at, arg);
    }
  }

  /** The room `spawn_command_line` computes before it writes. */
  function Bound(program: string, args: seq<string>): nat {
    1 + (2 * |program| + 3) + Extra(args)
  }

  function Extra(args: seq<string>): nat {
    if args == [] then 0 else Extra(args[..|args| - 1]) + 2 * |args[|args| - 1]| + 4
  }

  lemma {:induction false} ExtraPrefix(args: seq<string>, i: nat)
    requires i < |args|
    ensures Extra(args[..i]) + 2 * |args[i]| + 4 == Extra(args[..i + 1]) <= Extra(args)
    decreases |args|
  {
    assert args[..i + 1][..i] == args[..i];
    if i + 1 == |args| {
      assert args[..i + 1] == args;
    } else {
      var front := args[..|args| - 1];
      ExtraPrefix(front, i);
      assert front[..i + 1] == args[..i + 1];
    }
  }

  lemma TailOne(arg: string)
    ensures Tail([arg]) == [' '] + Spelled(arg)
  {
  }

  lemma {:induction false} TailGrows(args: seq<string>, i: nat)
    requires i < |args|
    ensures Tail(args[..i + 1]) == Tail(args[..i]) + [' '] + Spelled(args[i])
    decreases i
  {
    if i == 0 {
      TailOne(args[0]);
      assert args[..1] == [args[0]] && args[..0] == [];
    } else {
      var more := args[1..];
      TailGrows(more, i - 1);
      assert args[..i + 1][1..] == more[..i] && args[..i][1..] == more[..i - 1];
      Regroup([' '], Spelled(args[0]), Tail(more[..i - 1]), [' '], Spelled(args[i]));
    }
  }

  method AppendArgument(line: array<char>, n: nat, arg: string) returns (end: nat)
    requires n + 2 * |arg| + 3 <= line.Length
    modifies line
    ensures n <= end <= n + 2 * |arg| + 3 && line[..end] == old(line[..n]) + [' '] + Spelled(arg)
  {
    PutChar(line, n, ' ');
    end := SpawnQuote(line, n + 1, arg);
  }

  /** `spawn_command_line`: every write stays inside the room it computed. */
  method BuildLine(program: string, args: seq<string>) returns (line: array<char>, n: nat)
    ensures fresh(line) && line.Length == Bound(program, args) && n < line.Length
    ensures line[..n] == CommandLine(program, args) && line[n] == '\0'
  {
    line := new char[Bound(program, args)];
    n := SpawnQuote(line, 0, program);
    var i := 0;
    while i < |args|
      invariant 0 <= i <= |args| && n <= 2 * |program| + 2 + Extra(args[..i]) <= 2 * |program| + 2 + Extra(args)
      invariant line[..n] == CommandLine(program, args[..i])
    {
      ExtraPrefix(args, i);
      TailGrows(args, i);
      n := AppendArgument(line, n, args[i]);
      Reassoc(Spelled(program), Tail(args[..i]), [' '], Spelled(args[i]));
      i := i + 1;
    }
    assert args[..i] == args;
    Terminate(line, n);
  }

  datatype Host = Windows | Posix

  /** `command_quote_arg`. */
  method QuoteForShell(host: Host, arg: string) returns (result: array<char>, n: nat)
    ensures fresh(result) && result.Length == 2 * |arg| + 3 && n < result.Length && result[n] == '\0'
    ensures result[..n] == if host.Windows? then WinQuoted(arg) else PosixQuoted(arg)
  {
    result := new char[2 * |arg| + 3];
    if host.Windows? {
      n := PutQuoted(result, 0, arg);
    } else {
      n := PutPosix(result, arg);
    }
    Terminate(result, n);
  }

  method PutPosix(out: array<char>, arg: string) returns (end: nat)
    requires 2 * |arg| + 2 <= out.Length
    modifies out
    ensures end <= 2 * |arg| + 2 && out[..end] == PosixQuoted(arg)
  {
    PosixSize(arg);
    out[0] := QUOTE;
    var o, i := 1, 0;
    assert arg[0..] == arg;
    while i < |arg|
      invariant 0 <= i <= |arg| && 1 <= o <= 2 * i + 1
      invariant out[..o] + PosixBody(arg[i..]) == [QUOTE] + PosixBody(arg)
    {
      var c := arg[i];
      assert arg[i..][1..] == arg[i + 1..];
      ghost var front := out[..o];
      if PosixSpecial(c) {
        out[o] := SLASH;
        o := o + 1;
      }
      out[o] := c;
      o := o + 1;
      assert out[..o] == front + if PosixSpecial(c) then [SLASH, c] else [c];
      i := i + 1;
    }
    ghost var body := out[..o];
    assert PosixBody(arg[i..]) == [];
    out[o] := QUOTE;
    end := o + 1;
    assert out[..end] == body + [QUOTE];
  }
}
