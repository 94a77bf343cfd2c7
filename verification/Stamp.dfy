/** The toolchain stamp: which artifacts a later build may reuse, and why a build that stops at any
    point leaves no entry that claims more than was built. */
module Stamp {

  datatype Option<T> = None | Some(value: T)

  const TITLE: string := "prismio-toolchain-stamp"
  const HEADER: string := "prismio-toolchain-stamp 1\n"
  const LINE_LIMIT: nat := 384

  // ----- the text -----

  datatype Entry = Entry(name: string, key: string)

  /** Names come from a newline-separated list and keys are hexadecimal digits. */
  predicate Plain(e: Entry) {
    '\n' !in e.name && '\n' !in e.key && ' ' !in e.key
  }

  function Words(e: Entry): string {
    e.name + [' '] + e.key
  }

  function Lines(entries: seq<Entry>): string {
    if entries == [] then [] else Words(entries[0]) + ['\n'] + Lines(entries[1..])
  }

  function Pattern(e: Entry): string {
    ['\n'] + Words(e) + ['\n']
  }

  ghost predicate At(text: string, i: nat, pattern: string) {
    i + |pattern| <= |text| && text[i..i + |pattern|] == pattern
  }

  ghost predicate Occurs(text: string, pattern: string) {
    exists i: nat :: At(text, i, pattern)
  }

  /** `stamp_holds`: the whole line between two newlines, if it fits the line buffer. */
  ghost predicate Holds(text: string, e: Entry) {
    |Pattern(e)| < LINE_LIMIT && Occurs(text, Pattern(e))
  }

  lemma OccursInLonger(text: string, n: nat, pattern: string)
    requires n <= |text| && Occurs(text[..n], pattern)
    ensures Occurs(text, pattern)
  {
    var i: nat :| At(text[..n], i, pattern);
    assert text[i..i + |pattern|] == text[..n][i..i + |pattern|];
    assert At(text, i, pattern);
  }

  /** Two newline-free texts that start the same string up to a newline are the same. */
  lemma SameLine(x: string, y: string, rest: string, rest': string)
    requires '\n' !in x && '\n' !in y && x + ['\n'] + rest == y + ['\n'] + rest'
    ensures x == y
  {
    var s := x + ['\n'] + rest;
    assert forall k :: 0 <= k < |x| ==> s[k] == x[k];
    assert forall k :: 0 <= k < |y| ==> s[k] == y[k];
    assert s[|x|] == '\n' && s[|y|] == '\n';
    assert x == s[..|x|] && y == s[..|y|];
  }

  /** Two entries that spell the same line are the same: a key has no space in it. */
  lemma SameEntry(d: Entry, e: Entry)
    requires Plain(d) && Plain(e) && Words(d) == Words(e)
    ensures d == e
  {
    var w := Words(d);
    var n := |w|;
    assert forall k :: |d.name| < k < n ==> w[k] == d.key[k - |d.name| - 1];
    assert forall k :: |e.name| < k < n ==> w[k] == e.key[k - |e.name| - 1];
    assert w[|d.name|] == ' ' && w[|e.name|] == ' ';
    assert d.name == w[..|d.name|] && e.name == w[..|e.name|];
    assert d.key == w[|d.name| + 1..] && e.key == w[|e.name| + 1..];
  }

  /** A line is found behind a first line exactly when it is one of the lines. */
  lemma {:induction false} OccursIff(first: string, entries: seq<Entry>, e: Entry)
    requires '\n' !in first && Plain(e) && forall i :: 0 <= i < |entries| ==> Plain(entries[i])
    ensures Occurs(first + ['\n'] + Lines(entries), Pattern(e)) <==> e in entries
    decreases |entries|
  {
    var text := first + ['\n'] + Lines(entries);
    if entries == [] {
      forall i: nat ensures !At(text, i, Pattern(e)) {
        NotAtEnd(first, i, e);
      }
    } else {
      var d, more := entries[0], entries[1..];
      assert entries == [d] + more;
      var rest := Words(d) + ['\n'] + Lines(more);
      assert text == first + ['\n'] + rest;
      OccursIff(Words(d), more, e);
      OccursBehind(first, rest, e);
      AtFirst(first, d, Lines(more), e);
    }
  }

  lemma NotAtEnd(first: string, i: nat, e: Entry)
    requires '\n' !in first && Plain(e)
    ensures !At(first + ['\n'] + [], i, Pattern(e))
  {
    var text, p := first + ['\n'] + [], Pattern(e);
    assert forall k :: 0 <= k < |first| ==> text[k] == first[k];
    if At(text, i, p) {
      Starts(text, i, p);
    }
  }

  lemma Starts(text: string, i: nat, p: string)
    requires At(text, i, p) && p != []
    ensures text[i] == p[0]
  {
  }

  /** An occurrence either starts at the first newline or lies behind it. */
  lemma OccursBehind(first: string, rest: string, e: Entry)
    requires '\n' !in first
    ensures var p := Pattern(e); Occurs(first + ['\n'] + rest, p) <==> At(first + ['\n'] + rest, |first|, p) || Occurs(rest, p)
  {
    var text, p, n := first + ['\n'] + rest, Pattern(e), |first| + 1;
    if Occurs(text, p) {
      var i: nat :| At(text, i, p);
      assert text[i..i + |p|][0] == text[i] == '\n';
      assert forall k :: 0 <= k < |first| ==> text[k] == first[k];
      if i > |first| {
        Shifted(text, rest, n, i - n, p);
      }
    }
    if Occurs(rest, p) {
      var j: nat :| At(rest, j, p);
      Shifted(text, rest, n, j, p);
    }
  }

  lemma Shifted(text: string, rest: string, n: nat, j: nat, p: string)
    requires n <= |text| && text[n..] == rest
    ensures At(text, n + j, p) <==> At(rest, j, p)
  {
  }

  lemma AtFirst(first: string, d: Entry, more: string, e: Entry)
    requires Plain(d) && Plain(e)
    ensures At(first + ['\n'] + (Words(d) + ['\n'] + more), |first|, Pattern(e)) <==> d == e
  {
    var text, p, n := first + ['\n'] + (Words(d) + ['\n'] + more), Pattern(e), |first|;
    assert text[n..] == ['\n'] + Words(d) + ['\n'] + more;
    if At(text, n, p) {
      var tail := text[n + |p|..];
      assert text[n..] == p + tail;
      assert text[n + 1..] == Words(d) + ['\n'] + more;
      assert text[n + 1..] == Words(e) + ['\n'] + tail;
      SameLine(Words(d), Words(e), more, tail);
      SameEntry(d, e);
    }
    if d == e {
      assert text[n..n + |p|] == p;
    }
  }

  /** What a whole or cut-off stamp is taken to say: nothing but entries that were written, and all
      of them when it is whole. */
  lemma HoldsOnlyWritten(entries: seq<Entry>, n: nat, e: Entry)
    requires Plain(e) && forall i :: 0 <= i < |entries| ==> Plain(entries[i])
    requires n <= |HEADER + Lines(entries)|
    ensures Holds((HEADER + Lines(entries))[..n], e) ==> e in entries
    ensures n == |HEADER + Lines(entries)| ==> (Holds((HEADER + Lines(entries))[..n], e) <==> e in entries && |Pattern(e)| < LINE_LIMIT)
  {
    var first := TITLE + " 1";
    assert HEADER == first + ['\n'];
    var text := HEADER + Lines(entries);
    OccursIff(first, entries, e);
    if Occurs(text[..n], Pattern(e)) {
      OccursInLonger(text, n, Pattern(e));
    }
    assert n == |text| ==> text[..n] == text;
  }

  // ----- the disk -----

  const RUNTIME_MODULES: nat := 2

  datatype File = Bitcode(index: nat, verify: bool) | RuntimeHash | Plib(name: string)

  /** What is in a file: the output from inputs with a key, or anything else. */
  datatype Content = From(key: string) | Other

  datatype Disk = Disk(stamp: Option<string>, files: map<File, Content>)

  datatype Artifact = Runtime | Std(name: string)

  function NameOf(a: Artifact): string {
    match a
    case Runtime => "runtime"
    case Std(name) => "std." + name
  }

  lemma NameInjective(a: Artifact, b: Artifact)
    requires NameOf(a) == NameOf(b)
    ensures a == b
  {
    var n := NameOf(a);
    assert a.Std? ==> n[0] == 's' && n[4..] == a.name;
    assert b.Std? ==> n[0] == 's' && n[4..] == b.name;
  }

  predicate BitcodeFile(f: File) {
    f.Bitcode? && f.index < RUNTIME_MODULES
  }

  /** `runtime_bitcode_present` and the tests beside it: the files a reuse needs on disk. */
  ghost predicate Present(files: map<File, Content>, a: Artifact) {
    match a
    case Runtime => (forall f :: BitcodeFile(f) ==> f in files) && RuntimeHash in files
    case Std(name) => Plib(name) in files
  }

  /** The artifact's files were emitted from inputs with the key. */
  ghost predicate Emitted(files: map<File, Content>, a: Artifact, key: string) {
    match a
    case Runtime => forall f :: BitcodeFile(f) ==> f in files && files[f] == From(key)
    case Std(name) => Plib(name) in files && files[Plib(name)] == From(key)
  }

  /** `stamp_read`: a text that starts with this version's header. */
  function Recorded(d: Disk): Option<string> {
    if d.stamp.Some? && HEADER <= d.stamp.value then d.stamp else None
  }

  /** A later build whose inputs have this key would reuse the artifact. */
  ghost predicate Reused(recorded: Option<string>, files: map<File, Content>, a: Artifact, key: string) {
    recorded.Some? && Holds(recorded.value, Entry(NameOf(a), key)) && Present(files, a)
  }

  predicate ArtifactOk(a: Artifact) {
    a.Std? ==> '\n' !in a.name
  }

  predicate KeyOk(key: string) {
    '\n' !in key && ' ' !in key
  }

  /** A recorded stamp may be relied on: what it lets a build reuse was emitted. */
  ghost predicate Trusted(recorded: Option<string>, files: map<File, Content>) {
    forall a, key :: ArtifactOk(a) && KeyOk(key) && Reused(recorded, files, a, key) ==> Emitted(files, a, key)
  }

  /** Nothing is claimed that was not built. */
  ghost predicate Truthful(d: Disk) {
    Trusted(Recorded(d), d.files)
  }

  datatype Claim = Claim(what: Artifact, key: string)

  ghost predicate ClaimOk(files: map<File, Content>, c: Claim) {
    ArtifactOk(c.what) && KeyOk(c.key) && Emitted(files, c.what, c.key)
  }

  function EntryOf(c: Claim): Entry {
    Entry(NameOf(c.what), c.key)
  }

  function Entries(claims: seq<Claim>): (r: seq<Entry>)
    ensures |r| == |claims| && forall i :: 0 <= i < |r| ==> r[i] == EntryOf(claims[i])
  {
    seq(|claims|, i requires 0 <= i < |claims| => EntryOf(claims[i]))
  }

  function StampText(claims: seq<Claim>): string {
    HEADER + Lines(Entries(claims))
  }

  lemma PlainEntry(a: Artifact, key: string)
    requires ArtifactOk(a) && KeyOk(key)
    ensures Plain(Entry(NameOf(a), key))
  {
  }

  /** However much of the stamp reached the disk, it is truthful when the claims are. */
  lemma CutStampTruthful(claims: seq<Claim>, files: map<File, Content>, n: nat)
    requires forall i :: 0 <= i < |claims| ==> ClaimOk(files, claims[i])
    requires n <= |StampText(claims)|
    ensures Truthful(Disk(Some(StampText(claims)[..n]), files))
  {
    var entries := Entries(claims);
    forall i | 0 <= i < |entries| ensures Plain(entries[i]) {
      PlainEntry(claims[i].what, claims[i].key);
    }
    forall a, key | ArtifactOk(a) && KeyOk(key) && Holds(StampText(claims)[..n], Entry(NameOf(a), key)) ensures Emitted(files, a, key) {
      PlainEntry(a, key);
      HoldsOnlyWritten(entries, n, Entry(NameOf(a), key));
      var i :| 0 <= i < |entries| && entries[i] == Entry(NameOf(a), key);
      NameInjective(a, claims[i].what);
      assert ClaimOk(files, claims[i]);
    }
  }

  /** A whole stamp vouches for every claim that fits the line buffer. */
  lemma WholeStampHolds(claims: seq<Claim>, files: map<File, Content>, i: nat)
    requires i < |claims| && forall j :: 0 <= j < |claims| ==> ClaimOk(files, claims[j])
    requires |Pattern(EntryOf(claims[i]))| < LINE_LIMIT && Present(files, claims[i].what)
    ensures Reused(Recorded(Disk(Some(StampText(claims)), files)), files, claims[i].what, claims[i].key)
  {
    var entries, text := Entries(claims), StampText(claims);
    forall j | 0 <= j < |entries| ensures Plain(entries[j]) {
      PlainEntry(claims[j].what, claims[j].key);
    }
    HoldsOnlyWritten(entries, |text|, entries[i]);
    assert text[..|text|] == text;
  }

  // ----- a stamp that could not be removed -----

  /** The stamp holds an entry for the artifact with this key. */
  ghost predicate Claimed(d: Disk, a: Artifact, key: string) {
    KeyOk(key) && Recorded(d).Some? && Holds(Recorded(d).value, Entry(NameOf(a), key))
  }

  /** A file that has to be there before the runtime counts as present. */
  predicate Needed(f: File) {
    BitcodeFile(f) || f == RuntimeHash
  }

  function ArtifactOf(f: File): Artifact {
    if f.Plib? then Std(f.name) else Runtime
  }

  function Put(d: Disk, f: File, content: Content): Disk {
    d.(files := d.files[f := content])
  }

  /** Writing the file keeps what a stamp says of its artifact under this key: a module's file is
      written from inputs with the key; after a write to one of the runtime's the runtime is still
      incomplete, or all its bitcode is from inputs with the key. */
  ghost predicate Accords(files: map<File, Content>, f: File, content: Content, key: string) {
    if f.Plib? then content == From(key)
    else (exists g :: Needed(g) && g != f && g !in files)
         || forall g :: BitcodeFile(g) ==> (if g == f then content else if g in files then files[g] else Other) == From(key)
  }

  /** Why the old stamp is removed first: under a stamp that is still there, the write of a file, of a
      module or of the runtime, stays truthful exactly when it accords with every entry for it. */
  lemma KeptStampIff(d: Disk, f: File, content: Content)
    requires Truthful(d) && ArtifactOk(ArtifactOf(f))
    ensures Truthful(Put(d, f, content)) <==> forall key :: Claimed(d, ArtifactOf(f), key) ==> Accords(d.files, f, content, key)
  {
    var d', a := Put(d, f, content), ArtifactOf(f);
    assert Recorded(d') == Recorded(d);
    forall key | KeyOk(key) ensures (Present(d'.files, a) ==> Emitted(d'.files, a, key)) <==> Accords(d.files, f, content, key) {
      WriteAccords(d.files, f, content, key);
    }
    if Truthful(d') {
      forall key | Claimed(d, a, key) ensures Accords(d.files, f, content, key) {
        if Present(d'.files, a) {
          assert Reused(Recorded(d'), d'.files, a, key);
        }
      }
    }
    if forall key :: Claimed(d, a, key) ==> Accords(d.files, f, content, key) {
      forall b, key | ArtifactOk(b) && KeyOk(key) && Reused(Recorded(d'), d'.files, b, key) ensures Emitted(d'.files, b, key) {
        if b == a {
          assert Claimed(d, a, key);
        } else {
          OtherKept(d.files, f, content, b);
          assert Reused(Recorded(d), d.files, b, key);
          assert Emitted(d.files, b, key);
        }
      }
    }
  }

  lemma WriteAccords(files: map<File, Content>, f: File, content: Content, key: string)
    ensures var files' := files[f := content];
            (Present(files', ArtifactOf(f)) ==> Emitted(files', ArtifactOf(f), key)) <==> Accords(files, f, content, key)
  {
    var files' := files[f := content];
    if !f.Plib? {
      if exists g :: Needed(g) && g != f && g !in files {
        var g :| Needed(g) && g != f && g !in files;
        assert g !in files';
      } else {
        forall g | BitcodeFile(g) ensures g in files' {
          assert Needed(g);
        }
        assert Needed(RuntimeHash);
      }
    }
  }

  lemma OtherKept(files: map<File, Content>, f: File, content: Content, b: Artifact)
    requires b != ArtifactOf(f)
    ensures var files' := files[f := content];
            (Present(files', b) <==> Present(files, b)) && forall key :: Emitted(files', b, key) <==> Emitted(files, b, key)
  {
  }

  /** Removing files leaves nothing that lies. */
  lemma FewerFiles(d: Disk, d': Disk)
    requires Truthful(d) && d'.stamp == d.stamp
    requires forall f :: f in d'.files ==> f in d.files && d'.files[f] == d.files[f]
    ensures Truthful(d')
  {
    forall a, key | ArtifactOk(a) && KeyOk(key) && Reused(Recorded(d'), d'.files, a, key) ensures Emitted(d'.files, a, key) {
      assert Reused(Recorded(d), d.files, a, key);
      assert Emitted(d.files, a, key);
    }
  }

  /** The build may provide the artifact under the stamp that is there: it reuses it, or the stamp has
      no entry for it; or it completes a runtime whose hash file is missing from inputs with the very
      key of every entry. */
  ghost predicate Calm(d: Disk, recorded: Option<string>, a: Artifact, key: Option<string>) {
    (key.Some? && Reused(recorded, d.files, a, key.value)) || Undisturbed(d, a, key)
  }

  ghost predicate Undisturbed(d: Disk, a: Artifact, key: Option<string>) {
    forall k :: Claimed(d, a, k) ==> a.Runtime? && RuntimeHash !in d.files && key == Some(k)
  }

  function KeyFor(name: string, keys: map<string, string>): Option<string> {
    if name in keys then Some(keys[name]) else None
  }

  ghost predicate ModuleCalm(d: Disk, recorded: Option<string>, name: string, keys: map<string, string>) {
    Calm(d, recorded, Std(name), KeyFor(name, keys))
  }

  ghost predicate AllCalm(d: Disk, recorded: Option<string>, runtimeKey: Option<string>, modules: seq<string>, keys: map<string, string>) {
    Calm(d, recorded, Runtime, runtimeKey) && forall i :: 0 <= i < |modules| ==> ModuleCalm(d, recorded, modules[i], keys)
  }

  lemma NoStampIsCalm(d: Disk, recorded: Option<string>, runtimeKey: Option<string>, modules: seq<string>, keys: map<string, string>)
    requires d.stamp.None?
    ensures AllCalm(d, recorded, runtimeKey, modules, keys)
  {
  }

  /** Only the runtime's bitcode may differ. */
  ghost predicate BitcodeOnly(a: map<File, Content>, b: map<File, Content>) {
    forall g: File :: !g.Bitcode? ==> (g in b <==> g in a) && (g in b ==> b[g] == a[g])
  }

  /** Some bitcode from the `i`-th module on is not there. */
  ghost predicate StillMissing(files: map<File, Content>, i: nat) {
    exists g :: BitcodeFile(g) && g.index >= i && g !in files
  }

  ghost predicate MissingBut(files: map<File, Content>, f: File) {
    exists g :: BitcodeFile(g) && g != f && g !in files
  }

  ghost predicate BitcodeUpTo(files: map<File, Content>, i: nat, content: Content) {
    forall f :: BitcodeFile(f) && f.index < i ==> f in files && files[f] == content
  }

  /** The hash file is there and the stamp has an entry for the runtime. */
  ghost predicate HashAndEntry(d: Disk) {
    RuntimeHash in d.files && exists k :: Claimed(d, Runtime, k)
  }

  lemma PairDone(files: map<File, Content>, files': map<File, Content>, i: nat, content: Content)
    requires BitcodeUpTo(files, i, content)
    requires files' == files[Bitcode(i, false) := content][Bitcode(i, true) := content]
    ensures BitcodeUpTo(files', i + 1, content)
    ensures MissingBut(files', Bitcode(i, true)) ==> StillMissing(files', i + 1)
  {
    if MissingBut(files', Bitcode(i, true)) {
      var g :| BitcodeFile(g) && g != Bitcode(i, true) && g !in files';
      assert g.index >= i && g != Bitcode(i, false);
    }
  }

  function ContentFor(key: Option<string>): Content {
    if key.Some? then From(key.value) else Other
  }

  /** While the hash file is missing, bitcode may be written; while it is there, only as long as other
      bitcode is missing. */
  lemma BitcodeWrite(start: Disk, d: Disk, f: File, key: Option<string>)
    requires Truthful(d) && BitcodeFile(f) && d.stamp == start.stamp && BitcodeOnly(start.files, d.files)
    ensures Undisturbed(start, Runtime, key) ==> Truthful(Put(d, f, Other)) && Truthful(Put(d, f, ContentFor(key)))
    ensures Truthful(Put(d, f, Other)) && HashAndEntry(start) ==> MissingBut(d.files, f)
  {
    KeptStampIff(d, f, Other);
    KeptStampIff(d, f, ContentFor(key));
    assert forall k :: Claimed(start, Runtime, k) <==> Claimed(d, Runtime, k);
    if Undisturbed(start, Runtime, key) {
      forall k, c | Claimed(d, Runtime, k) ensures Accords(d.files, f, c, k) {
        assert Claimed(start, Runtime, k);
        assert Needed(RuntimeHash) && RuntimeHash !in d.files;
      }
    }
    if Truthful(Put(d, f, Other)) && HashAndEntry(start) {
      var k :| Claimed(start, Runtime, k);
      assert Accords(d.files, f, Other, k);
      var g :| Needed(g) && g != f && g !in d.files;
      assert BitcodeFile(g);
    }
  }

  /** The hash file completes the runtime. */
  lemma HashWrite(start: Disk, d: Disk, key: Option<string>, hash: Content)
    requires Truthful(d) && d.stamp == start.stamp && BitcodeOnly(start.files, d.files)
    requires BitcodeUpTo(d.files, RUNTIME_MODULES, ContentFor(key))
    ensures Undisturbed(start, Runtime, key) ==> Truthful(Put(d, RuntimeHash, hash))
    ensures RuntimeHash !in start.files && !Undisturbed(start, Runtime, key) ==> !Truthful(Put(d, RuntimeHash, hash))
  {
    KeptStampIff(d, RuntimeHash, hash);
    forall k ensures Accords(d.files, RuntimeHash, hash, k) <==> key == Some(k) {
      assert BitcodeFile(Bitcode(0, false));
    }
    assert forall k :: Claimed(start, Runtime, k) <==> Claimed(d, Runtime, k);
    if RuntimeHash !in start.files && !Undisturbed(start, Runtime, key) {
      var k :| Claimed(start, Runtime, k) && key != Some(k);
      assert !Accords(d.files, RuntimeHash, hash, k);
    }
  }

  lemma ModuleWrite(d: Disk, name: string, key: Option<string>)
    requires Truthful(d) && '\n' !in name
    ensures Truthful(Put(d, Plib(name), Other)) <==> Undisturbed(d, Std(name), key)
    ensures Undisturbed(d, Std(name), key) ==> Truthful(Put(d, Plib(name), ContentFor(key)))
  {
    KeptStampIff(d, Plib(name), Other);
    KeptStampIff(d, Plib(name), ContentFor(key));
    forall k | Claimed(d, Std(name), k) ensures !Accords(d.files, Plib(name), Other, k) {
    }
  }

  /** Each module's file is there as it was at the start, unless the stamp has no entry for it. */
  ghost predicate Settled(start: Disk, files: map<File, Content>, modules: seq<string>) {
    forall i :: 0 <= i < |modules| ==> SettledOne(start, files, modules[i])
  }

  ghost predicate SettledOne(start: Disk, files: map<File, Content>, name: string) {
    (Plib(name) in files <==> Plib(name) in start.files) || forall k :: !Claimed(start, Std(name), k)
  }

  lemma CalmNow(start: Disk, d: Disk, recorded: Option<string>, name: string, keys: map<string, string>)
    requires d.stamp == start.stamp && SettledOne(start, d.files, name)
    ensures ModuleCalm(d, recorded, name, keys) <==> ModuleCalm(start, recorded, name, keys)
  {
    assert forall k :: Claimed(start, Std(name), k) <==> Claimed(d, Std(name), k);
  }

  /** The first `n` modules accord with the stamp. */
  ghost predicate FirstCalm(d: Disk, recorded: Option<string>, modules: seq<string>, keys: map<string, string>, n: nat)
    requires n <= |modules|
  {
    forall i :: 0 <= i < n ==> ModuleCalm(d, recorded, modules[i], keys)
  }

  /** After a module is provided without a lie, all are as settled as before. */
  lemma StillSettled(start: Disk, d: Disk, files: map<File, Content>, recorded: Option<string>, name: string, keys: map<string, string>, modules: seq<string>)
    requires d.stamp == start.stamp && Settled(start, d.files, modules) && SameBut(d.files, files, Plib(name))
    requires ModuleCalm(d, recorded, name, keys) && Plib(name) in files
    ensures Settled(start, files, modules)
  {
    assert forall k :: Claimed(start, Std(name), k) <==> Claimed(d, Std(name), k);
    forall i | 0 <= i < |modules| ensures SettledOne(start, files, modules[i]) {
      assert SettledOne(start, d.files, modules[i]);
    }
  }

  /** A removal that fails, and a rebuild of one module with another key: the build is not calm, and the
      stamp lies while the file is written and afterwards. */
  lemma KeptStampLies()
    ensures var d := Disk(Some(StampText([Claim(Std("m"), "k")])), map[Plib("m") := From("k")]);
            && Truthful(d) && !Inputs(true, false, false, true, None, ["m"], map["m" := "j"]).CalmOn(d)
            && !Truthful(Put(d, Plib("m"), Other)) && !Truthful(Put(d, Plib("m"), From("j")))
  {
    var files := map[Plib("m") := From("k")];
    var claims := [Claim(Std("m"), "k")];
    var text := StampText(claims);
    var d := Disk(Some(text), files);
    var keys: map<string, string> := map["m" := "j"];
    assert ClaimOk(files, claims[0]);
    assert text[..|text|] == text;
    CutStampTruthful(claims, files, |text|);
    WholeStampHolds(claims, files, 0);
    assert Claimed(d, Std("m"), "k");
    KeptStampIff(d, Plib("m"), Other);
    KeptStampIff(d, Plib("m"), From("j"));
    assert !Emitted(files, Std("m"), "j");
    assert !Reused(Recorded(d), files, Std("m"), "j");
    assert !Undisturbed(d, Std("m"), Some("j"));
    assert KeyFor(["m"][0], keys) == Some("j");
    assert !ModuleCalm(d, Recorded(d), ["m"][0], keys);
  }

  // ----- building the text -----

  /** The growing stamp text. */
  class Buffer {
    var text: array<char>
    var len: nat

    ghost predicate Valid()
      reads this
    {
      len <= text.Length
    }

    ghost function Contents(): string
      requires Valid()
      reads this, text
    {
      text[..len]
    }

    constructor ()
      ensures Valid() && Contents() == [] && fresh(text)
    {
      text := new char[0];
      len := 0;
    }

    /** `stamp_append`; `broken` when the line does not fit or the buffer could not grow, which under
        `steady` it can. */
    method Append(name: string, key: string, steady: bool) returns (broken: bool)
      requires Valid()
      modifies this, text
      ensures Valid() && (text == old(text) || fresh(text))
      ensures Contents() == old(Contents()) + if broken then [] else Words(Entry(name, key)) + ['\n']
      ensures !broken ==> |name| + |key| + 2 < LINE_LIMIT
      ensures steady ==> (broken <==> |name| + |key| + 2 >= LINE_LIMIT)
    {
      var line := name + [' '] + key + ['\n'];
      if |line| >= LINE_LIMIT {
        return true;
      }
      if len + |line| + 1 > text.Length {
        broken := Grow(len + |line| + 1, steady);
        if broken {
          return;
        }
      }
      Put(line);
      broken := false;
    }

    /** Behind what is there, with the terminator. */
    method Put(line: string)
      requires Valid() && len + |line| < text.Length
      modifies this`len, text
      ensures Valid() && Contents() == old(Contents()) + line
    {
      forall i | 0 <= i < |line| {
        text[len + i] := line[i];
      }
      text[len + |line|] := '\0';
      assert text[..len] == old(text[..len]);
      assert text[len..len + |line|] == line;
      assert text[..len + |line|] == text[..len] + text[len..len + |line|];
      len := len + |line|;
    }

    method Grow(needed: nat, steady: bool) returns (broken: bool)
      requires Valid() && needed > text.Length
      modifies this`text
      ensures steady ==> !broken
      ensures Valid() && Contents() == old(Contents()) && (if broken then text == old(text) else fresh(text) && text.Length >= needed)
    {
      var cap := if text.Length > 0 then text.Length else 512;
      while cap < needed
        invariant cap > 0
        decreases needed - cap
      {
        cap := cap * 2;
      }
      if !steady {
        if * {
          return true;
        }
      }
      var grown := new char[cap];
      forall i | 0 <= i < len {
        grown[i] := text[i];
      }
      assert grown[..len] == text[..len];
      text := grown;
      broken := false;
    }
  }

  // ----- one build -----

  /** What a complete build claims: the runtime and each module, where their inputs have a key. */
  function RuntimeClaims(key: Option<string>): seq<Claim> {
    if key.Some? then [Claim(Runtime, key.value)] else []
  }

  function ModuleClaims(modules: seq<string>, keys: map<string, string>): seq<Claim> {
    if modules == [] then []
    else ModuleClaims(modules[..|modules| - 1], keys) + ModuleClaim(modules[|modules| - 1], keys)
  }

  function ModuleClaim(name: string, keys: map<string, string>): seq<Claim> {
    if name in keys then [Claim(Std(name), keys[name])] else []
  }

  lemma NextClaims(runtimeKey: Option<string>, modules: seq<string>, keys: map<string, string>, i: nat)
    requires i < |modules|
    ensures RuntimeClaims(runtimeKey) + ModuleClaims(modules[..i + 1], keys)
         == RuntimeClaims(runtimeKey) + ModuleClaims(modules[..i], keys) + ModuleClaim(modules[i], keys)
  {
    assert modules[..i + 1][..i] == modules[..i];
  }

  /** What the build found on disk was truthful, and each keyed module's file is as it was found or
      was emitted since. */
  ghost predicate Ready(recorded: Option<string>, start: map<File, Content>, files: map<File, Content>, keys: map<string, string>) {
    && FoundOrEmitted(start, files, keys)
    && (forall name :: name in keys && '\n' !in name && Reused(recorded, start, Std(name), keys[name]) ==> Emitted(start, Std(name), keys[name]))
  }

  ghost predicate KeyedBy(claims: seq<Claim>, keys: map<string, string>) {
    forall i :: 0 <= i < |claims| && claims[i].what.Std? ==> claims[i].what.name in keys && claims[i].key == keys[claims[i].what.name]
  }

  lemma ReadyFor(recorded: Option<string>, start: map<File, Content>, files: map<File, Content>, keys: map<string, string>, name: string)
    requires Ready(recorded, start, files, keys) && '\n' !in name
    ensures name in keys && Reused(recorded, files, Std(name), keys[name]) ==> Emitted(files, Std(name), keys[name])
  {
  }

  /** The state after the first `i` modules. */
  ghost predicate Served(recorded: Option<string>, start: map<File, Content>, files: map<File, Content>, keys: map<string, string>,
                         claims: seq<Claim>, modules: seq<string>, i: nat)
    requires i <= |modules|
  {
    && AllOk(files, claims) && KeyedBy(claims, keys) && Ready(recorded, start, files, keys)
    && Present(files, Runtime) && (forall j :: 0 <= j < i ==> Present(files, Std(modules[j])))
    && OnlyModules(files, modules)
  }

  lemma ModuleDone(recorded: Option<string>, start: map<File, Content>, before: map<File, Content>, files: map<File, Content>,
                   keys: map<string, string>, claims: seq<Claim>, modules: seq<string>, i: nat)
    requires i < |modules| && Served(recorded, start, before, keys, claims, modules, i)
    requires var name := modules[i];
             && SameBut(before, files, Plib(name)) && Present(files, Std(name))
             && (name in keys ==> KeyOk(keys[name]) && Emitted(files, Std(name), keys[name]))
             && '\n' !in name
    ensures Served(recorded, start, files, keys, claims + ModuleClaim(modules[i], keys), modules, i + 1)
  {
    forall j | 0 <= j < i + 1 ensures Present(files, Std(modules[j])) {
      if j < i {
        assert Present(before, Std(modules[j]));
      }
    }
  }

  ghost predicate InputsOk(runtimeKey: Option<string>, modules: seq<string>, keys: map<string, string>) {
    && (runtimeKey.Some? ==> KeyOk(runtimeKey.value))
    && (forall i :: 0 <= i < |modules| ==> '\n' !in modules[i])
    && (forall m :: m in keys ==> KeyOk(keys[m]))
  }

  ghost predicate AllOk(files: map<File, Content>, claims: seq<Claim>) {
    forall i :: 0 <= i < |claims| ==> ClaimOk(files, claims[i])
  }

  /** The entry is short enough to be written. */
  predicate Short(c: Claim) {
    |NameOf(c.what)| + |c.key| + 2 < LINE_LIMIT
  }

  predicate AllShort(claims: seq<Claim>) {
    forall i :: 0 <= i < |claims| ==> Short(claims[i])
  }

  lemma ShortMore(claims: seq<Claim>, c: Claim)
    ensures AllShort(claims + [c]) <==> AllShort(claims) && Short(c)
  {
    if AllShort(claims + [c]) {
      forall i | 0 <= i < |claims| ensures Short(claims[i]) {
        assert Short((claims + [c])[i]);
      }
      assert Short((claims + [c])[|claims|]);
    }
  }

  lemma LinesGrow(entries: seq<Entry>, e: Entry)
    ensures Lines(entries + [e]) == Lines(entries) + (Words(e) + ['\n'])
  {
    if entries == [] {
      assert entries + [e] == [e];
      assert Lines([e]) == Words(e) + ['\n'] + Lines([e][1..]);
    } else {
      LinesGrow(entries[1..], e);
      assert (entries + [e])[1..] == entries[1..] + [e];
    }
  }

  lemma TextGrows(claims: seq<Claim>, c: Claim)
    ensures StampText(claims + [c]) == StampText(claims) + (Words(EntryOf(c)) + ['\n'])
  {
    LinesGrow(Entries(claims), EntryOf(c));
    assert Entries(claims + [c]) == Entries(claims) + [EntryOf(c)];
  }

  /** No file but one has come, gone or changed. */
  ghost predicate SameBut(a: map<File, Content>, b: map<File, Content>, f: File) {
    forall g: File :: g != f ==> (g in b <==> g in a) && (g in b ==> b[g] == a[g])
  }

  /** No `.plib` without a source. */
  ghost predicate OnlyModules(files: map<File, Content>, modules: seq<string>) {
    forall f: File :: f in files && f.Plib? ==> f.name in modules
  }

  ghost predicate PlibsKept(a: map<File, Content>, b: map<File, Content>) {
    forall g: File :: g.Plib? ==> (g in b <==> g in a) && (g in b ==> b[g] == a[g])
  }

  /** Each keyed module's file is as the build found it or was emitted by it. */
  ghost predicate FoundOrEmitted(start: map<File, Content>, files: map<File, Content>, keys: map<string, string>) {
    forall name :: name in keys && Plib(name) in files ==>
                     files[Plib(name)] == From(keys[name]) || (Plib(name) in start && files[Plib(name)] == start[Plib(name)])
  }

  /** `strstr`. */
  method Find(text: string, pattern: string) returns (found: bool)
    ensures found == Occurs(text, pattern)
  {
    var i := 0;
    while i + |pattern| <= |text|
      invariant forall j: nat :: j < i ==> !At(text, j, pattern)
      decreases |text| - i
    {
      if text[i..i + |pattern|] == pattern {
        assert At(text, i, pattern);
        return true;
      }
      i := i + 1;
    }
    found := false;
  }

  method StampHolds(recorded: Option<string>, e: Entry) returns (r: bool)
    ensures r == (recorded.Some? && Holds(recorded.value, e))
  {
    if recorded.None? || |Pattern(e)| >= LINE_LIMIT {
      return false;
    }
    r := Find(recorded.value, Pattern(e));
  }

  method RuntimePresent(files: map<File, Content>) returns (r: bool)
    ensures r == Present(files, Runtime)
  {
    var i := 0;
    while i < RUNTIME_MODULES
      invariant 0 <= i <= RUNTIME_MODULES && forall f :: BitcodeFile(f) && f.index < i ==> f in files
    {
      if Bitcode(i, false) !in files || Bitcode(i, true) !in files {
        assert BitcodeFile(Bitcode(i, false)) && BitcodeFile(Bitcode(i, true));
        return false;
      }
      i := i + 1;
    }
    r := RuntimeHash in files;
  }

  datatype Inputs = Inputs(usable: bool, bypass: bool, removed: bool, steady: bool, runtimeKey: Option<string>, modules: seq<string>, keys: map<string, string>)
  {
    ghost predicate Ok() {
      InputsOk(runtimeKey, modules, keys)
    }

    /** The claims of the build, complete. */
    function Claims(): seq<Claim> {
      RuntimeClaims(runtimeKey) + ModuleClaims(modules, keys)
    }

    /** Those of the runtime and of the first `i` modules. */
    function FirstClaims(i: nat): seq<Claim>
      requires i <= |modules|
    {
      RuntimeClaims(runtimeKey) + ModuleClaims(modules[..i], keys)
    }

    lemma ClaimsEnds()
      ensures FirstClaims(0) == RuntimeClaims(runtimeKey) && FirstClaims(|modules|) == Claims()
    {
      assert modules[..|modules|] == modules;
    }

    /** The artifact has a key in this build. */
    predicate Keyed(a: Artifact) {
      match a
      case Runtime => runtimeKey.Some?
      case Std(name) => name in modules && name in keys
    }

    function KeyOf(a: Artifact): string
      requires Keyed(a)
    {
      match a
      case Runtime => runtimeKey.value
      case Std(name) => keys[name]
    }

    /** What is recorded lets the build reuse the artifact. */
    ghost predicate Reuses(recorded: Option<string>, files: map<File, Content>, a: Artifact) {
      Keyed(a) && Reused(recorded, files, a, KeyOf(a))
    }

    /** What the build takes from the stamp it finds. */
    function Found(d: Disk): Option<string> {
      if bypass then None else Recorded(d)
    }

    /** What the build does under the stamp on this disk accords with it. */
    ghost predicate CalmOn(d: Disk) {
      AllCalm(d, Found(d), runtimeKey, modules, keys)
    }
  }

  // ----- what a build leaves alone -----

  ghost predicate FileKept(a: map<File, Content>, b: map<File, Content>, f: File) {
    (f in b <==> f in a) && (f in b ==> b[f] == a[f])
  }

  /** The artifact's files are as they were. */
  ghost predicate KeptIn(a: map<File, Content>, b: map<File, Content>, what: Artifact) {
    forall f {:trigger FileKept(a, b, f)} :: ArtifactOf(f) == what ==> FileKept(a, b, f)
  }

  function Last(trace: seq<Disk>): Disk {
    if trace == [] then Disk(None, map[]) else trace[|trace| - 1]
  }

  /** In every state since the last of `t0` the artifact's files are as they were there. */
  ghost predicate Kept(t0: seq<Disk>, t: seq<Disk>, a: Artifact) {
    && 0 < |t0| <= |t| && t0 <= t
    && forall i {:trigger KeptIn(Last(t0).files, t[i].files, a)} :: |t0| - 1 <= i < |t| ==> KeptIn(Last(t0).files, t[i].files, a)
  }

  /** Since the last of `t0` only files of `x` have changed. */
  ghost predicate OnlyTouched(t0: seq<Disk>, t: seq<Disk>, x: Artifact) {
    forall a {:trigger Kept(t0, t, a)} :: a != x ==> Kept(t0, t, a)
  }

  ghost predicate Untouched(t0: seq<Disk>, t: seq<Disk>) {
    forall a {:trigger Kept(t0, t, a)} :: Kept(t0, t, a)
  }

  lemma KeptInTrans(a: map<File, Content>, b: map<File, Content>, c: map<File, Content>, what: Artifact)
    requires KeptIn(a, b, what) && KeptIn(b, c, what)
    ensures KeptIn(a, c, what)
  {
    forall f | ArtifactOf(f) == what ensures FileKept(a, c, f) {
      assert FileKept(a, b, f) && FileKept(b, c, f);
    }
  }

  lemma KeptStart(t: seq<Disk>, a: Artifact)
    requires t != []
    ensures Kept(t, t, a)
  {
    assert forall f :: FileKept(Last(t).files, Last(t).files, f);
    assert KeptIn(Last(t).files, t[|t| - 1].files, a);
  }

  /** One more state. */
  lemma KeptMore(t0: seq<Disk>, t: seq<Disk>, next: Disk, a: Artifact)
    requires Kept(t0, t, a) && KeptIn(Last(t0).files, next.files, a)
    ensures Kept(t0, t + [next], a)
  {
    var more := t + [next];
    forall i | |t0| - 1 <= i < |more| ensures KeptIn(Last(t0).files, more[i].files, a) {
      if i < |t| {
        assert KeptIn(Last(t0).files, t[i].files, a);
      }
    }
  }

  /** Two stretches of a trace. */
  lemma KeptOn(t0: seq<Disk>, t1: seq<Disk>, t2: seq<Disk>, a: Artifact)
    requires Kept(t0, t1, a) && Kept(t1, t2, a)
    ensures Kept(t0, t2, a)
  {
    forall i | |t0| - 1 <= i < |t2| ensures KeptIn(Last(t0).files, t2[i].files, a) {
      assert KeptIn(Last(t0).files, t1[|t1| - 1].files, a);
      if i < |t1| {
        assert KeptIn(Last(t0).files, t1[i].files, a) && t2[i] == t1[i];
      } else {
        assert KeptIn(Last(t1).files, t2[i].files, a);
        KeptInTrans(Last(t0).files, Last(t1).files, t2[i].files, a);
      }
    }
  }

  lemma TouchedStart(t: seq<Disk>, x: Artifact)
    requires t != []
    ensures Untouched(t, t) && OnlyTouched(t, t, x)
  {
    forall a ensures Kept(t, t, a) {
      KeptStart(t, a);
    }
  }

  lemma TouchedMore(t0: seq<Disk>, t: seq<Disk>, next: Disk, f: File)
    requires OnlyTouched(t0, t, ArtifactOf(f)) && SameBut(Last(t0).files, next.files, f)
    ensures OnlyTouched(t0, t + [next], ArtifactOf(f))
  {
    forall a | a != ArtifactOf(f) ensures Kept(t0, t + [next], a) {
      assert Kept(t0, t, a);
      KeptMore(t0, t, next, a);
    }
  }

  lemma UntouchedMore(t0: seq<Disk>, t: seq<Disk>, next: Disk)
    requires Untouched(t0, t) && next.files == Last(t0).files
    ensures Untouched(t0, t + [next])
  {
    forall a ensures Kept(t0, t + [next], a) {
      assert Kept(t0, t, a);
      assert forall f :: FileKept(next.files, next.files, f);
      KeptMore(t0, t, next, a);
    }
  }

  lemma TouchedOn(t0: seq<Disk>, t1: seq<Disk>, t2: seq<Disk>, x: Artifact)
    requires OnlyTouched(t0, t1, x) && OnlyTouched(t1, t2, x)
    ensures OnlyTouched(t0, t2, x)
  {
    forall a | a != x ensures Kept(t0, t2, a) {
      assert Kept(t0, t1, a) && Kept(t1, t2, a);
      KeptOn(t0, t1, t2, a);
    }
  }

  /** Removing the files of modules without a source. */
  lemma DroppedKeeps(files: map<File, Content>, left: map<File, Content>, modules: seq<string>, a: Artifact)
    requires a.Std? ==> a.name in modules
    requires forall f :: f in left <==> f in files && (f.Plib? ==> f.name in modules)
    requires forall f :: f in left ==> left[f] == files[f]
    ensures KeptIn(files, left, a)
  {
  }

  /** A module whose file is as it was can still be reused. */
  lemma StillReused(recorded: Option<string>, files: map<File, Content>, now: map<File, Content>, name: string, key: string)
    requires Reused(recorded, files, Std(name), key) && KeptIn(files, now, Std(name))
    ensures Reused(recorded, now, Std(name), key)
  {
    assert FileKept(files, now, Plib(name));
  }

  /** What a completed build has put on disk. */
  ghost predicate Provided(b: Inputs, files: map<File, Content>) {
    && AllOk(files, b.Claims()) && Present(files, Runtime) && OnlyModules(files, b.modules)
    && forall i :: 0 <= i < |b.modules| ==> Present(files, Std(b.modules[i]))
  }

  /** Since the last of `t0` the build leaves every artifact it can reuse as it was. */
  ghost predicate AllReusedKept(b: Inputs, recorded: Option<string>, t0: seq<Disk>, t: seq<Disk>) {
    forall a {:trigger Kept(t0, t, a)} :: b.Reuses(recorded, Last(t0).files, a) ==> Kept(t0, t, a)
  }

  lemma KeptAll(b: Inputs, recorded: Option<string>, t0: seq<Disk>, t1: seq<Disk>, t2: seq<Disk>)
    requires AllReusedKept(b, recorded, t0, t1) && AllReusedKept(b, recorded, t1, t2) && Last(t1).files == Last(t0).files
    ensures AllReusedKept(b, recorded, t0, t2)
  {
    forall a | b.Reuses(recorded, Last(t0).files, a) ensures Kept(t0, t2, a) {
      assert Kept(t0, t1, a) && Kept(t1, t2, a);
      KeptOn(t0, t1, t2, a);
    }
  }

  lemma KeptRest(b: Inputs, recorded: Option<string>, t0: seq<Disk>, t1: seq<Disk>, t2: seq<Disk>)
    requires AllReusedKept(b, recorded, t0, t1)
    requires forall a: Artifact {:trigger Kept(t1, t2, a)} :: (a.Std? ==> a.name in b.modules) ==> Kept(t1, t2, a)
    ensures AllReusedKept(b, recorded, t0, t2)
  {
    forall a | b.Reuses(recorded, Last(t0).files, a) ensures Kept(t0, t2, a) {
      assert Kept(t0, t1, a) && Kept(t1, t2, a);
      KeptOn(t0, t1, t2, a);
    }
  }

  lemma RuntimeKept(b: Inputs, recorded: Option<string>, t0: seq<Disk>, t: seq<Disk>)
    requires t0 != [] && OnlyTouched(t0, t, Runtime) && (b.Reuses(recorded, Last(t0).files, Runtime) ==> t == t0)
    ensures AllReusedKept(b, recorded, t0, t)
  {
    forall a | b.Reuses(recorded, Last(t0).files, a) ensures Kept(t0, t, a) {
      if a == Runtime {
        KeptStart(t0, a);
      }
    }
  }

  lemma NextKept(b: Inputs, recorded: Option<string>, t0: seq<Disk>, t1: seq<Disk>, t2: seq<Disk>, name: string)
    requires AllReusedKept(b, recorded, t0, t1) && OnlyTouched(t1, t2, Std(name)) && name in b.modules
    requires name in b.keys && Reused(recorded, Last(t1).files, Std(name), b.keys[name]) ==> t2 == t1
    ensures AllReusedKept(b, recorded, t0, t2)
  {
    forall a | b.Reuses(recorded, Last(t0).files, a) ensures Kept(t0, t2, a) {
      assert Kept(t0, t1, a) && KeptIn(Last(t0).files, t1[|t1| - 1].files, a);
      if a == Std(name) {
        StillReused(recorded, Last(t0).files, Last(t1).files, name, b.keys[name]);
      } else {
        assert Kept(t1, t2, a);
        KeptOn(t0, t1, t2, a);
      }
    }
  }

  /** The entry is short enough to be looked up. */
  predicate AllFound(claims: seq<Claim>) {
    forall i :: 0 <= i < |claims| ==> |Pattern(EntryOf(claims[i]))| < LINE_LIMIT
  }

  lemma FoundIsShort(claims: seq<Claim>)
    requires AllFound(claims)
    ensures AllShort(claims)
  {
    forall i | 0 <= i < |claims| ensures Short(claims[i]) {
      assert |Pattern(EntryOf(claims[i]))| < LINE_LIMIT;
    }
  }

  /** Every artifact that has a key is claimed. */
  lemma {:induction false} ModuleClaimed(modules: seq<string>, keys: map<string, string>, name: string) returns (i: nat)
    requires name in modules && name in keys
    ensures i < |ModuleClaims(modules, keys)| && ModuleClaims(modules, keys)[i] == Claim(Std(name), keys[name])
  {
    var front, last := modules[..|modules| - 1], modules[|modules| - 1];
    if last == name {
      i := |ModuleClaims(front, keys)|;
    } else {
      assert modules == front + [last];
      i := ModuleClaimed(front, keys, name);
    }
  }

  /** On the disk a build completed, the next build with these keys reuses all of them. */
  lemma KeyedIsReused(b: Inputs, d: Disk, a: Artifact)
    requires b.Ok() && b.Keyed(a) && !b.bypass && AllFound(b.Claims()) && AllOk(d.files, b.Claims())
    requires d.stamp == Some(StampText(b.Claims())) && Present(d.files, Runtime)
    ensures b.Reuses(b.Found(d), d.files, a)
  {
    var claims, i := b.Claims(), 0;
    if a.Std? {
      i := ModuleClaimed(b.modules, b.keys, a.name);
      i := |RuntimeClaims(b.runtimeKey)| + i;
    }
    assert claims[i] == Claim(a, b.KeyOf(a)) && ClaimOk(d.files, claims[i]);
    assert Present(d.files, a);
    WholeStampHolds(claims, d.files, i);
  }

  /** Where a build stands after its first `i` modules; `before` is whether a state was untruthful before. */
  ghost predicate Stands(recorded: Option<string>, start: Disk, b: Inputs, claims: seq<Claim>, i: nat, t0: seq<Disk>, before: bool,
                         d: Disk, trace: seq<Disk>, lied: bool)
  {
    && i <= |b.modules| && Served(recorded, start.files, d.files, b.keys, claims, b.modules, i)
    && d.stamp == start.stamp && lied == (before || !FirstCalm(start, recorded, b.modules, b.keys, i))
    && (!lied ==> Settled(start, d.files, b.modules))
    && AllReusedKept(b, recorded, t0, trace)
  }

  /** Before the next module: what is recorded of it may be relied on, and it is as calm as at the start. */
  lemma NextReady(recorded: Option<string>, start: Disk, b: Inputs, claims: seq<Claim>, i: nat, t0: seq<Disk>, before: bool,
                  d: Disk, trace: seq<Disk>, lied: bool)
    requires b.Ok() && i < |b.modules| && Stands(recorded, start, b, claims, i, t0, before, d, trace, lied)
    ensures var name := b.modules[i];
            && (name in b.keys && Reused(recorded, d.files, Std(name), b.keys[name]) ==> Emitted(d.files, Std(name), b.keys[name]))
            && (!lied ==> (ModuleCalm(d, recorded, name, b.keys) <==> ModuleCalm(start, recorded, name, b.keys)))
  {
    ReadyFor(recorded, start.files, d.files, b.keys, b.modules[i]);
    if !lied {
      assert SettledOne(start, d.files, b.modules[i]);
      CalmNow(start, d, recorded, b.modules[i], b.keys);
    }
  }

  /** After it. */
  lemma NextStands(recorded: Option<string>, start: Disk, b: Inputs, claims: seq<Claim>, i: nat, t0: seq<Disk>, before: bool,
                   d: Disk, t1: seq<Disk>, lied: bool, d2: Disk, t2: seq<Disk>, lied2: bool)
    requires b.Ok() && i < |b.modules| && Stands(recorded, start, b, claims, i, t0, before, d, t1, lied)
    requires d2.stamp == d.stamp && SameBut(d.files, d2.files, Plib(b.modules[i])) && Present(d2.files, Std(b.modules[i]))
    requires b.modules[i] in b.keys ==> Emitted(d2.files, Std(b.modules[i]), b.keys[b.modules[i]])
    requires lied2 == (lied || !ModuleCalm(d, recorded, b.modules[i], b.keys))
    requires AllReusedKept(b, recorded, t0, t2)
    ensures Stands(recorded, start, b, claims + ModuleClaim(b.modules[i], b.keys), i + 1, t0, before, d2, t2, lied2)
  {
    NextReady(recorded, start, b, claims, i, t0, before, d, t1, lied);
    ModuleDone(recorded, start.files, d.files, d2.files, b.keys, claims, b.modules, i);
    CalmMore(start, recorded, b.modules, b.keys, i);
    if !lied2 {
      StillSettled(start, d, d2.files, recorded, b.modules[i], b.keys, b.modules);
    }
  }

  /** After the last. */
  lemma Finished(recorded: Option<string>, start: Disk, b: Inputs, t0: seq<Disk>, before: bool, d: Disk, trace: seq<Disk>, lied: bool)
    requires Stands(recorded, start, b, b.Claims(), |b.modules|, t0, before, d, trace, lied)
    ensures Provided(b, d.files) && d.stamp == start.stamp && AllReusedKept(b, recorded, t0, trace)
    ensures lied == (before || !FirstCalm(start, recorded, b.modules, b.keys, |b.modules|))
  {
  }

  lemma CalmMore(d: Disk, recorded: Option<string>, modules: seq<string>, keys: map<string, string>, i: nat)
    requires i < |modules|
    ensures FirstCalm(d, recorded, modules, keys, i + 1) <==> FirstCalm(d, recorded, modules, keys, i) && ModuleCalm(d, recorded, modules[i], keys)
    ensures FirstCalm(d, recorded, modules, keys, |modules|) ==> FirstCalm(d, recorded, modules, keys, i) && ModuleCalm(d, recorded, modules[i], keys)
  {
  }

  ghost predicate AllTruthful(trace: seq<Disk>) {
    forall i {:trigger TruthfulAt(trace, i)} :: TruthfulAt(trace, i)
  }

  ghost predicate TruthfulAt(trace: seq<Disk>, i: int) {
    0 <= i < |trace| ==> Truthful(trace[i])
  }

  lemma AllTruthfulMore(trace: seq<Disk>, next: Disk)
    ensures AllTruthful(trace + [next]) <==> AllTruthful(trace) && Truthful(next)
  {
    var more := trace + [next];
    if AllTruthful(more) {
      forall i ensures TruthfulAt(trace, i) {
        assert TruthfulAt(more, i);
      }
      assert TruthfulAt(more, |trace|);
    }
    if AllTruthful(trace) && Truthful(next) {
      forall i ensures TruthfulAt(more, i) {
        assert TruthfulAt(trace, i);
      }
    }
  }

  lemma AllTruthfulPrefix(trace: seq<Disk>, n: nat)
    requires n <= |trace| && AllTruthful(trace)
    ensures AllTruthful(trace[..n])
  {
    forall i ensures TruthfulAt(trace[..n], i) {
      assert TruthfulAt(trace, i);
    }
  }

  class Driver {
    var disk: Disk
    /** Every state the disk has been in: where a build could have been interrupted. */
    var trace: seq<Disk>
    /** One of them was not truthful. */
    ghost var lied: bool
    /** The system fails no write and no allocation of the build under way. */
    var steady: bool

    ghost predicate Honest()
      reads this
    {
      && trace != [] && disk == trace[|trace| - 1]
      && (lied <==> !AllTruthful(trace)) && (!lied ==> Truthful(disk))
    }

    constructor (start: Disk)
      requires Truthful(start)
      ensures Honest() && disk == start && trace == [start] && !lied
    {
      disk, trace, lied, steady := start, [start], false, true;
    }

    method Reach(next: Disk)
      requires Honest()
      modifies this`disk, this`trace, this`lied
      ensures Honest() && disk == next && trace == old(trace) + [next]
      ensures lied == (old(lied) || !Truthful(next))
    {
      AllTruthfulMore(trace, next);
      disk := next;
      trace := trace + [next];
      lied := lied || !Truthful(next);
    }

    /** One emission: the output is anything at all until it is done, and also when it fails. */
    method EmitFile(f: File, content: Content) returns (ok: bool)
      requires Honest()
      modifies this`disk, this`trace, this`lied
      ensures Honest() && old(trace) <= trace && disk.stamp == old(disk.stamp)
      ensures ok ==> disk.files == old(disk.files)[f := content]
      ensures SameBut(old(disk.files), disk.files, f) && OnlyTouched(old(trace), trace, ArtifactOf(f))
      ensures steady ==> ok
      ensures ok ==> |trace| > |old(trace)|
      ensures lied == (old(lied) || !Truthful(Put(old(disk), f, Other)) || (ok && !Truthful(Put(old(disk), f, content))))
    {
      ghost var start, t0 := disk, trace;
      TouchedStart(trace, ArtifactOf(f));
      TouchedMore(t0, trace, Put(disk, f, Other), f);
      Reach(Put(disk, f, Other));
      if !steady {
        if * {
          Discard(f, t0);
          return false;
        }
        if * {
          return false;
        }
      }
      assert Put(disk, f, content) == Put(start, f, content);
      TouchedMore(t0, trace, Put(disk, f, content), f);
      Reach(Put(disk, f, content));
      ok := true;
    }

    /** A failed emission's output is removed. */
    method Discard(f: File, ghost t0: seq<Disk>)
      requires Honest() && SameBut(Last(t0).files, disk.files, f) && OnlyTouched(t0, trace, ArtifactOf(f))
      modifies this`disk, this`trace, this`lied
      ensures Honest() && old(trace) <= trace && disk.stamp == old(disk.stamp) && lied == old(lied)
      ensures SameBut(Last(t0).files, disk.files, f) && OnlyTouched(t0, trace, ArtifactOf(f))
    {
      var left := disk.(files := disk.files - {f});
      if !lied {
        FewerFiles(disk, left);
      }
      TouchedMore(t0, trace, left, f);
      Reach(left);
    }

    /** One file of the runtime's bitcode. */
    method EmitBitcode(f: File, ghost start: Disk, key: Option<string>) returns (ok: bool)
      requires Honest() && BitcodeFile(f) && disk.stamp == start.stamp && BitcodeOnly(start.files, disk.files)
      modifies this`disk, this`trace, this`lied
      ensures Honest() && old(trace) <= trace && disk.stamp == start.stamp && BitcodeOnly(start.files, disk.files)
      ensures ok ==> disk.files == old(disk.files)[f := ContentFor(key)]
      ensures old(lied) ==> lied
      ensures !old(lied) && Undisturbed(start, Runtime, key) ==> !lied
      ensures ok && !lied && HashAndEntry(start) ==> MissingBut(disk.files, f)
      ensures (steady ==> ok) && OnlyTouched(old(trace), trace, Runtime)
    {
      if !lied {
        BitcodeWrite(start, disk, f, key);
      }
      ok := EmitFile(f, ContentFor(key));
    }

    /** The runtime bitcode, each module plain and verifying, then the recorded hash. */
    method EmitRuntime(key: Option<string>) returns (ok: bool)
      requires Honest()
      modifies this`disk, this`trace, this`lied
      ensures Honest() && old(trace) <= trace && disk.stamp == old(disk.stamp)
      ensures ok ==> Present(disk.files, Runtime) && (key.Some? ==> Emitted(disk.files, Runtime, key.value))
      ensures PlibsKept(old(disk.files), disk.files)
      ensures old(lied) ==> lied
      ensures !old(lied) && Undisturbed(old(disk), Runtime, key) ==> !lied
      ensures ok && !Undisturbed(old(disk), Runtime, key) ==> lied
      ensures (steady ==> ok) && OnlyTouched(old(trace), trace, Runtime)
      ensures ok ==> BitcodeUpTo(disk.files, RUNTIME_MODULES, ContentFor(key)) && |trace| > |old(trace)|
    {
      ghost var start, t0 := disk, trace;
      ok := EmitAllBitcode(start, key);
      if !ok {
        return;
      }
      // The hash file's write is not checked once it is open, so its content is left open here.
      var hash: Content := *;
      if !lied {
        HashWrite(start, disk, key, Other);
        HashWrite(start, disk, key, hash);
      }
      ghost var t1 := trace;
      ok := EmitFile(RuntimeHash, hash);
      TouchedOn(t0, t1, trace, Runtime);
    }

    method EmitAllBitcode(ghost start: Disk, key: Option<string>) returns (ok: bool)
      requires Honest() && disk == start
      modifies this`disk, this`trace, this`lied
      ensures Honest() && old(trace) <= trace && disk.stamp == start.stamp && BitcodeOnly(start.files, disk.files)
      ensures ok ==> BitcodeUpTo(disk.files, RUNTIME_MODULES, ContentFor(key))
      ensures old(lied) ==> lied
      ensures !old(lied) && Undisturbed(start, Runtime, key) ==> !lied
      ensures ok && !lied ==> !HashAndEntry(start)
      ensures (steady ==> ok) && OnlyTouched(old(trace), trace, Runtime)
    {
      ghost var t0 := trace;
      TouchedStart(trace, Runtime);
      ok := true;
      var i := 0;
      while i < RUNTIME_MODULES
        invariant 0 <= i <= RUNTIME_MODULES && Honest() && old(trace) <= trace && ok
        invariant disk.stamp == start.stamp && BitcodeOnly(start.files, disk.files)
        invariant BitcodeUpTo(disk.files, i, ContentFor(key))
        invariant old(lied) ==> lied
        invariant !old(lied) && Undisturbed(start, Runtime, key) ==> !lied
        invariant i > 0 && !lied && HashAndEntry(start) ==> StillMissing(disk.files, i)
        invariant t0 <= trace && OnlyTouched(t0, trace, Runtime)
      {
        ghost var t1 := trace;
        ok := EmitPair(i, start, key);
        TouchedOn(t0, t1, trace, Runtime);
        if !ok {
          return;
        }
        i := i + 1;
      }
    }

    /** One module of the runtime, plain and verifying. */
    method EmitPair(i: nat, ghost start: Disk, key: Option<string>) returns (ok: bool)
      requires Honest() && i < RUNTIME_MODULES && disk.stamp == start.stamp && BitcodeOnly(start.files, disk.files)
      requires BitcodeUpTo(disk.files, i, ContentFor(key))
      modifies this`disk, this`trace, this`lied
      ensures Honest() && old(trace) <= trace && disk.stamp == start.stamp && BitcodeOnly(start.files, disk.files)
      ensures ok ==> BitcodeUpTo(disk.files, i + 1, ContentFor(key))
      ensures old(lied) ==> lied
      ensures !old(lied) && Undisturbed(start, Runtime, key) ==> !lied
      ensures ok && !lied && HashAndEntry(start) ==> StillMissing(disk.files, i + 1)
      ensures (steady ==> ok) && OnlyTouched(old(trace), trace, Runtime)
    {
      ghost var files0, t0 := disk.files, trace;
      ok := EmitBitcode(Bitcode(i, false), start, key);
      if !ok {
        return;
      }
      ghost var t1 := trace;
      ok := EmitBitcode(Bitcode(i, true), start, key);
      TouchedOn(t0, t1, trace, Runtime);
      if ok {
        PairDone(files0, disk.files, i, ContentFor(key));
      }
    }

    /** Every prefix of the text is a state the disk passes through; the last one reached stays. `whole`
        is whether all of it was written, as it is unless the system fails. */
    method WriteStamp(text: string, ghost claims: seq<Claim>) returns (whole: bool)
      requires Honest() && text == StampText(claims) && AllOk(disk.files, claims)
      modifies this`disk, this`trace, this`lied
      ensures Honest() && old(trace) <= trace && disk.files == old(disk.files) && lied == old(lied)
      ensures disk.stamp.Some? ==> disk.stamp.value <= text
      ensures Truthful(disk) && Untouched(old(trace), trace)
      ensures (steady ==> whole) && (whole ==> disk.stamp == Some(text))
    {
      ghost var t0 := trace;
      TouchedStart(trace, Runtime);
      var n := 0;
      while n < |text|
        invariant 0 <= n <= |text| && Honest() && old(trace) <= trace && disk.files == old(disk.files) && lied == old(lied)
        invariant n > 0 ==> disk.stamp == Some(text[..n - 1]) && Truthful(disk)
        invariant t0 <= trace && Untouched(t0, trace)
      {
        CutStampTruthful(claims, disk.files, n);
        UntouchedMore(t0, trace, disk.(stamp := Some(text[..n])));
        Reach(disk.(stamp := Some(text[..n])));
        n := n + 1;
        if !steady {
          if * {
            return false;
          }
        }
      }
      CutStampTruthful(claims, disk.files, |text|);
      assert text[..|text|] == text;
      UntouchedMore(t0, trace, disk.(stamp := Some(text)));
      Reach(disk.(stamp := Some(text)));
      whole := true;
      if !steady {
        if * {
          UntouchedMore(t0, trace, disk.(stamp := None));
          Reach(disk.(stamp := None));
          whole := false;
        }
      }
    }

    /** A `.plib` whose source is gone goes too. */
    method DropGone(modules: seq<string>)
      requires Honest()
      modifies this`disk, this`trace, this`lied
      ensures Honest() && old(trace) <= trace && disk.stamp == old(disk.stamp) && lied == old(lied)
      ensures forall f :: f in disk.files <==> f in old(disk.files) && (f.Plib? ==> f.name in modules)
      ensures forall f :: f in disk.files ==> disk.files[f] == old(disk.files)[f]
      ensures forall a: Artifact {:trigger Kept(old(trace), trace, a)} ::
                (a.Std? ==> a.name in modules) ==> Kept(old(trace), trace, a)
    {
      ghost var start := disk;
      ghost var left := map f | f in disk.files && (f.Plib? ==> f.name in modules) :: disk.files[f];
      if !lied {
        FewerFiles(start, start.(files := left));
      }
      forall a: Artifact | a.Std? ==> a.name in modules ensures Kept(trace, trace + [start.(files := left)], a) {
        KeptStart(trace, a);
        DroppedKeeps(start.files, left, modules, a);
        KeptMore(trace, trace, start.(files := left), a);
      }
      Reach(disk.(files := map f | f in disk.files && (f.Plib? ==> f.name in modules) :: disk.files[f]));
    }

    /** The runtime half: reused when the stamp, the bitcode and the hash file say so. */
    method ProvideRuntime(recorded: Option<string>, key: Option<string>) returns (ok: bool)
      requires Honest()
      requires key.Some? && Reused(recorded, disk.files, Runtime, key.value) ==> Emitted(disk.files, Runtime, key.value)
      modifies this`disk, this`trace, this`lied
      ensures Honest() && old(trace) <= trace && disk.stamp == old(disk.stamp) && PlibsKept(old(disk.files), disk.files)
      ensures ok ==> Present(disk.files, Runtime) && (key.Some? ==> Emitted(disk.files, Runtime, key.value))
      ensures old(lied) ==> lied
      ensures !old(lied) && Calm(old(disk), recorded, Runtime, key) ==> !lied
      ensures ok && !Calm(old(disk), recorded, Runtime, key) ==> lied
      ensures (steady ==> ok) && OnlyTouched(old(trace), trace, Runtime)
      ensures if key.Some? && Reused(recorded, old(disk.files), Runtime, key.value) then ok && disk == old(disk) && trace == old(trace)
              else ok ==> BitcodeUpTo(disk.files, RUNTIME_MODULES, ContentFor(key)) && |trace| > |old(trace)|
    {
      TouchedStart(trace, Runtime);
      if key.Some? {
        var held := StampHolds(recorded, Entry(NameOf(Runtime), key.value));
        var present := RuntimePresent(disk.files);
        if held && present {
          return true;
        }
      }
      ok := EmitRuntime(key);
    }

    /** One module: reused when its entry holds and its file is there, else emitted. */
    method ProvideModule(recorded: Option<string>, name: string, keys: map<string, string>) returns (ok: bool)
      requires Honest() && '\n' !in name
      requires name in keys && Reused(recorded, disk.files, Std(name), keys[name]) ==> Emitted(disk.files, Std(name), keys[name])
      modifies this`disk, this`trace, this`lied
      ensures Honest() && old(trace) <= trace && disk.stamp == old(disk.stamp)
      ensures SameBut(old(disk.files), disk.files, Plib(name))
      ensures ok ==> Present(disk.files, Std(name)) && (name in keys ==> Emitted(disk.files, Std(name), keys[name]))
      ensures lied == (old(lied) || !ModuleCalm(old(disk), recorded, name, keys))
      ensures (steady ==> ok) && OnlyTouched(old(trace), trace, Std(name))
      ensures if name in keys && Reused(recorded, old(disk.files), Std(name), keys[name]) then ok && disk == old(disk) && trace == old(trace)
              else ok ==> disk.files == old(disk.files)[Plib(name) := ContentFor(KeyFor(name, keys))] && |trace| > |old(trace)|
    {
      TouchedStart(trace, Std(name));
      if name in keys {
        var held := StampHolds(recorded, Entry(NameOf(Std(name)), keys[name]));
        if held && Plib(name) in disk.files {
          return true;
        }
      }
      if !lied {
        ModuleWrite(disk, name, KeyFor(name, keys));
      }
      ok := EmitFile(Plib(name), ContentFor(KeyFor(name, keys)));
    }

    /** `compiler_emit_local_toolchain`. `b.usable` is whether the output directories are there,
        `b.removed` whether the old stamp could be deleted, which the source does not look at, `b.steady`
        whether the system fails nothing else; `b.keys` has the modules whose inputs could be keyed. A
        completed build passes through an untruthful state exactly when the old stamp stayed and what
        the build does is at odds with it. What it finds recorded it leaves as it is, in every state.
        What it provides is right in any case, and its claims are exactly its own. */
    method EmitToolchain(b: Inputs) returns (written: int)
      requires Honest() && !lied && b.Ok()
      modifies this
      ensures Honest() && old(trace) <= trace
      ensures written == -1 || written == |b.modules|
      ensures b.removed || !b.usable ==> !lied
      ensures b.removed ==> |trace| > |old(trace)|
      ensures b.CalmOn(old(disk)) ==> !lied
      ensures written >= 0 && !b.removed && !b.CalmOn(old(disk)) ==> lied
      ensures written == -1 ==> disk.stamp == if b.removed then None else old(disk).stamp
      ensures disk.stamp.Some? ==> (!b.removed && disk.stamp == old(disk).stamp) || disk.stamp.value <= StampText(b.Claims())
      ensures written >= 0 && (b.removed || disk.stamp != old(disk).stamp) ==> Truthful(disk)
      ensures written >= 0 ==> Provided(b, disk.files)
      ensures b.steady && b.usable ==> written >= 0 && (AllShort(b.Claims()) ==> disk.stamp == Some(StampText(b.Claims())))
      ensures AllReusedKept(b, b.Found(old(disk)), old(trace), trace)
    {
      ghost var t0 := trace;
      var recorded := b.Found(disk);
      steady := b.steady;
      RemoveOld(b, recorded);
      if !b.usable {
        return -1;
      }
      assert Trusted(recorded, disk.files);
      ghost var t1 := trace;
      written := Build(recorded, b);
      KeptAll(b, recorded, t0, t1, trace);
    }

    /** The build once the old stamp is out of the way, or stayed. */
    method Build(recorded: Option<string>, b: Inputs) returns (written: int)
      requires Honest() && !lied && b.Ok() && Trusted(recorded, disk.files)
      modifies this`disk, this`trace, this`lied
      ensures Honest() && old(trace) <= trace
      ensures written == -1 || (written == |b.modules| && Provided(b, disk.files))
      ensures AllCalm(old(disk), recorded, b.runtimeKey, b.modules, b.keys) ==> !lied
      ensures written >= 0 && !AllCalm(old(disk), recorded, b.runtimeKey, b.modules, b.keys) ==> lied
      ensures written == -1 ==> disk.stamp == old(disk).stamp
      ensures disk.stamp.Some? ==> disk.stamp == old(disk).stamp || disk.stamp.value <= StampText(b.Claims())
      ensures disk.stamp != old(disk).stamp ==> Truthful(disk)
      ensures steady ==> written >= 0 && (AllShort(b.Claims()) ==> disk.stamp == Some(StampText(b.Claims())))
      ensures AllReusedKept(b, recorded, old(trace), trace)
    {
      ghost var t0 := trace;
      var ok, buffer, broken := Provide(recorded, b);
      if !ok {
        return -1;
      }
      if !broken {
        ghost var t1 := trace;
        assert AllOk(disk.files, b.Claims());
        var _ := WriteStamp(buffer.text[..buffer.len], b.Claims());
        KeptRest(b, recorded, t0, t1, trace);
      }
      written := |b.modules|;
    }

    /** The old stamp goes first, where the system lets it. */
    method RemoveOld(b: Inputs, ghost recorded: Option<string>)
      requires Honest() && !lied
      modifies this`disk, this`trace, this`lied
      ensures Honest() && !lied && old(trace) <= trace && disk == if b.removed then old(disk).(stamp := None) else old(disk)
      ensures b.removed ==> |trace| > |old(trace)|
      ensures b.removed ==> AllCalm(disk, recorded, b.runtimeKey, b.modules, b.keys)
      ensures AllReusedKept(b, recorded, old(trace), trace)
    {
      TouchedStart(trace, Runtime);
      if b.removed {
        UntouchedMore(trace, trace, disk.(stamp := None));
        Reach(disk.(stamp := None));
        NoStampIsCalm(disk, recorded, b.runtimeKey, b.modules, b.keys);
      }
    }

    /** A build, and the same build again once it has completed: the second reuses every artifact that
        has a key, and touches its files in no state. */
    method BuildTwice(b: Inputs) returns (ghost first: seq<Disk>)
      requires Honest() && !lied && b.Ok() && b.usable && b.removed && b.steady && !b.bypass && AllFound(b.Claims())
      modifies this
      ensures Honest() && !lied && old(trace) <= first <= trace && AllOk(Last(first).files, b.Claims())
      ensures forall a {:trigger b.Keyed(a)} :: b.Keyed(a) ==> Kept(first, trace, a)
    {
      FoundIsShort(b.Claims());
      var _ := EmitToolchain(b);
      first := trace;
      forall a | b.Keyed(a) ensures b.Reuses(b.Found(Last(first)), Last(first).files, a) {
        KeyedIsReused(b, Last(first), a);
      }
      var _ := EmitToolchain(b);
    }

    /** Runtime, then modules, with the text of their stamp. */
    method Provide(recorded: Option<string>, b: Inputs) returns (ok: bool, buffer: Buffer, broken: bool)
      requires Honest() && !lied && b.Ok() && Trusted(recorded, disk.files)
      modifies this`disk, this`trace, this`lied
      ensures Honest() && old(trace) <= trace && disk.stamp == old(disk.stamp) && buffer.Valid()
      ensures ok ==> Noted(buffer, broken, b.Claims(), steady)
      ensures ok ==> Provided(b, disk.files)
      ensures AllCalm(old(disk), recorded, b.runtimeKey, b.modules, b.keys) ==> !lied
      ensures ok && !AllCalm(old(disk), recorded, b.runtimeKey, b.modules, b.keys) ==> lied
      ensures steady ==> ok
      ensures AllReusedKept(b, recorded, old(trace), trace)
    {
      ghost var start, t0 := disk, trace;
      ok := ProvideFirst(recorded, b);
      if ok {
        ok, buffer, broken := ProvideRest(recorded, start, b, t0);
      } else {
        broken := true;
        buffer := new Buffer();
      }
    }

    /** The modules, with the text of the stamp. */
    method ProvideRest(recorded: Option<string>, ghost start: Disk, b: Inputs, ghost t0: seq<Disk>)
      returns (ok: bool, buffer: Buffer, broken: bool)
      requires Honest() && b.Ok() && Upto(recorded, start, b, RuntimeClaims(b.runtimeKey), 0, t0, lied)
      modifies this`disk, this`trace, this`lied
      ensures Honest() && old(trace) <= trace && buffer.Valid()
      ensures ok ==> Noted(buffer, broken, b.Claims(), steady) && Provided(b, disk.files)
      ensures Stopped(recorded, start, b, t0, old(lied))
      ensures ok ==> lied == (old(lied) || !FirstCalm(start, recorded, b.modules, b.keys, |b.modules|))
      ensures steady ==> ok
    {
      b.ClaimsEnds();
      ghost var before := lied;
      buffer, broken := Begin(b.runtimeKey, steady);
      assert GoingWith(recorded, start, b, 0, t0, before, buffer, broken, RuntimeClaims(b.runtimeKey));
      ok, broken := ProvideModules(recorded, start, b, buffer, broken, t0, before);
      if ok {
        assert GoingWith(recorded, start, b, |b.modules|, t0, before, buffer, broken, b.Claims());
        Finished(recorded, start, b, t0, before, disk, trace, lied);
      }
    }

    /** The runtime, and no module without a source. */
    method ProvideFirst(recorded: Option<string>, b: Inputs) returns (ok: bool)
      requires Honest() && !lied && b.Ok() && Trusted(recorded, disk.files)
      modifies this`disk, this`trace, this`lied
      ensures Honest() && old(trace) <= trace && disk.stamp == old(disk.stamp)
      ensures ok ==> Ready(recorded, old(disk).files, disk.files, b.keys) && AllOk(disk.files, RuntimeClaims(b.runtimeKey))
      ensures ok ==> Present(disk.files, Runtime) && OnlyModules(disk.files, b.modules) && Settled(old(disk), disk.files, b.modules)
      ensures Calm(old(disk), recorded, Runtime, b.runtimeKey) ==> !lied
      ensures ok && !Calm(old(disk), recorded, Runtime, b.runtimeKey) ==> lied
      ensures steady ==> ok
      ensures AllReusedKept(b, recorded, old(trace), trace)
    {
      ghost var start, t0 := disk, trace;
      ok := ProvideRuntime(recorded, b.runtimeKey);
      RuntimeKept(b, recorded, t0, trace);
      if !ok {
        return;
      }
      if !steady {
        if * {
          return false;
        }
      }
      Prepare(recorded, b, start, t0);
    }

    /** Drops what has no source, once the runtime is there. */
    method Prepare(ghost recorded: Option<string>, b: Inputs, ghost start: Disk, ghost t0: seq<Disk>)
      requires Honest() && b.Ok() && Trusted(recorded, start.files) && Present(disk.files, Runtime) && PlibsKept(start.files, disk.files)
      requires b.runtimeKey.Some? ==> Emitted(disk.files, Runtime, b.runtimeKey.value)
      requires AllReusedKept(b, recorded, t0, trace)
      modifies this`disk, this`trace, this`lied
      ensures Honest() && old(trace) <= trace && disk.stamp == old(disk.stamp) && lied == old(lied)
      ensures Ready(recorded, start.files, disk.files, b.keys) && AllOk(disk.files, RuntimeClaims(b.runtimeKey))
      ensures Present(disk.files, Runtime) && OnlyModules(disk.files, b.modules) && Settled(start, disk.files, b.modules)
      ensures AllReusedKept(b, recorded, t0, trace)
    {
      ghost var t1 := trace;
      DropGone(b.modules);
      KeptRest(b, recorded, t0, t1, trace);
      StillClaimed(b.runtimeKey);
      StillReady(recorded, start.files, b.keys);
    }

    lemma StillReady(recorded: Option<string>, start: map<File, Content>, keys: map<string, string>)
      requires Trusted(recorded, start) && forall m :: m in keys ==> KeyOk(keys[m])
      requires forall f :: f in disk.files && f.Plib? ==> f in start && disk.files[f] == start[f]
      ensures Ready(recorded, start, disk.files, keys)
    {
    }

    lemma StillClaimed(key: Option<string>)
      requires key.Some? ==> KeyOk(key.value) && Emitted(disk.files, Runtime, key.value)
      ensures AllOk(disk.files, RuntimeClaims(key))
    {
    }

    /** The buffer has the text of the claims, unless it is broken, as it is under `steady` exactly when
        one of them is too long. */
    static ghost predicate Noted(buffer: Buffer, broken: bool, claims: seq<Claim>, steady: bool)
      requires buffer.Valid()
      reads buffer, buffer.text
    {
      && (!broken ==> buffer.Contents() == StampText(claims))
      && (steady ==> (broken <==> !AllShort(claims)))
    }

    /** The stamp's header line and the runtime's entry. */
    static method Begin(key: Option<string>, steady: bool) returns (buffer: Buffer, broken: bool)
      ensures fresh(buffer) && fresh(buffer.text) && buffer.Valid() && Noted(buffer, broken, RuntimeClaims(key), steady)
    {
      buffer := new Buffer();
      broken := buffer.Append(TITLE, "1", steady);
      assert !broken ==> buffer.Contents() == HEADER;
      if key.Some? && !broken {
        TextGrows([], Claim(Runtime, key.value));
        assert [] + [Claim(Runtime, key.value)] == RuntimeClaims(key);
        broken := buffer.Append(NameOf(Runtime), key.value, steady);
      }
    }

    ghost predicate Upto(recorded: Option<string>, start: Disk, b: Inputs, claims: seq<Claim>, i: nat, t0: seq<Disk>, before: bool)
      reads this
    {
      Stands(recorded, start, b, claims, i, t0, before, disk, trace, lied)
    }

    /** The same with the text of the stamp so far. */
    ghost predicate Going(recorded: Option<string>, start: Disk, b: Inputs, i: nat, t0: seq<Disk>, before: bool, buffer: Buffer, broken: bool)
      requires buffer.Valid()
      reads this, buffer, buffer.text
    {
      forall claims {:trigger GoingWith(recorded, start, b, i, t0, before, buffer, broken, claims)} ::
        i <= |b.modules| && claims == b.FirstClaims(i) ==> GoingWith(recorded, start, b, i, t0, before, buffer, broken, claims)
    }

    ghost predicate GoingWith(recorded: Option<string>, start: Disk, b: Inputs, i: nat, t0: seq<Disk>, before: bool, buffer: Buffer, broken: bool,
                              claims: seq<Claim>)
      requires buffer.Valid()
      reads this, buffer, buffer.text
    {
      Upto(recorded, start, b, claims, i, t0, before) && Noted(buffer, broken, claims, steady)
    }

    /** Every module in turn, each with its entry once it is provided. */
    method ProvideModules(recorded: Option<string>, ghost start: Disk, b: Inputs, buffer: Buffer, brokenBefore: bool, ghost t0: seq<Disk>,
                          ghost before: bool)
      returns (ok: bool, broken: bool)
      requires Honest() && b.Ok() && buffer.Valid() && Going(recorded, start, b, 0, t0, before, buffer, brokenBefore)
      modifies this`disk, this`trace, this`lied, buffer, buffer.text
      ensures Honest() && old(trace) <= trace && buffer.Valid()
      ensures ok ==> Going(recorded, start, b, |b.modules|, t0, before, buffer, broken)
      ensures !ok ==> Stopped(recorded, start, b, t0, before) && !steady
    {
      ok, broken := true, brokenBefore;
      var i := 0;
      while i < |b.modules|
        invariant 0 <= i <= |b.modules| && Honest() && old(trace) <= trace && ok
        invariant buffer.Valid() && (buffer.text == old(buffer.text) || fresh(buffer.text))
        invariant Going(recorded, start, b, i, t0, before, buffer, broken)
      {
        ok, broken := OneModule(recorded, start, b, i, t0, before, buffer, broken);
        if !ok {
          return;
        }
        i := i + 1;
      }
    }

    /** What still holds when a module could not be provided. */
    ghost predicate Stopped(recorded: Option<string>, start: Disk, b: Inputs, t0: seq<Disk>, before: bool)
      reads this
    {
      && disk.stamp == start.stamp && AllReusedKept(b, recorded, t0, trace)
      && (FirstCalm(start, recorded, b.modules, b.keys, |b.modules|) && lied ==> before)
    }

    /** One module, and its entry. */
    method OneModule(recorded: Option<string>, ghost start: Disk, b: Inputs, i: nat, ghost t0: seq<Disk>, ghost before: bool,
                     buffer: Buffer, brokenBefore: bool)
      returns (ok: bool, broken: bool)
      requires Honest() && b.Ok() && i < |b.modules| && buffer.Valid()
      requires Going(recorded, start, b, i, t0, before, buffer, brokenBefore)
      modifies this`disk, this`trace, this`lied, buffer, buffer.text
      ensures Honest() && old(trace) <= trace
      ensures buffer.Valid() && (buffer.text == old(buffer.text) || fresh(buffer.text))
      ensures ok ==> Going(recorded, start, b, i + 1, t0, before, buffer, broken)
      ensures !ok ==> Stopped(recorded, start, b, t0, before) && !steady
    {
      broken := brokenBefore;
      assert GoingWith(recorded, start, b, i, t0, before, buffer, broken, b.FirstClaims(i));
      ok := ProvideNext(recorded, start, b, b.FirstClaims(i), i, t0, before);
      if ok {
        broken := Note(buffer, broken, b.modules[i], b.keys, b.FirstClaims(i), steady);
        NextClaims(b.runtimeKey, b.modules, b.keys, i);
        assert GoingWith(recorded, start, b, i + 1, t0, before, buffer, broken, b.FirstClaims(i) + ModuleClaim(b.modules[i], b.keys));
      }
    }

    method ProvideNext(recorded: Option<string>, ghost start: Disk, b: Inputs, ghost claims: seq<Claim>, i: nat, ghost t0: seq<Disk>, ghost before: bool)
      returns (ok: bool)
      requires Honest() && b.Ok() && i < |b.modules| && Upto(recorded, start, b, claims, i, t0, before)
      modifies this`disk, this`trace, this`lied
      ensures Honest() && old(trace) <= trace
      ensures ok ==> Upto(recorded, start, b, claims + ModuleClaim(b.modules[i], b.keys), i + 1, t0, before)
      ensures Stopped(recorded, start, b, t0, before) && (steady ==> ok)
    {
      ghost var d, t1, lied1 := disk, trace, lied;
      NextReady(recorded, start, b, claims, i, t0, before, disk, trace, lied);
      CalmMore(start, recorded, b.modules, b.keys, i);
      ok := ProvideModule(recorded, b.modules[i], b.keys);
      NextKept(b, recorded, t0, t1, trace, b.modules[i]);
      if ok {
        NextStands(recorded, start, b, claims, i, t0, before, d, t1, lied1, disk, trace, lied);
      }
    }

    static method Note(buffer: Buffer, brokenBefore: bool, name: string, keys: map<string, string>, ghost claims: seq<Claim>, steady: bool)
      returns (broken: bool)
      requires buffer.Valid() && Noted(buffer, brokenBefore, claims, steady)
      modifies buffer, buffer.text
      ensures buffer.Valid() && (buffer.text == old(buffer.text) || fresh(buffer.text))
      ensures Noted(buffer, broken, claims + ModuleClaim(name, keys), steady)
    {
      broken := brokenBefore;
      if name in keys {
        ShortMore(claims, Claim(Std(name), keys[name]));
        if !broken {
          TextGrows(claims, Claim(Std(name), keys[name]));
          broken := buffer.Append(NameOf(Std(name)), keys[name], steady);
        }
      } else {
        assert claims + [] == claims;
      }
    }

    /** Any history of builds, with any inputs, each stopped at any of the states it passed through, up
        to the first that begins with a stamp it cannot remove and with which it is at odds: until then
        every state is truthful. */
    method History(builds: seq<Inputs>) returns (n: nat, ghost last: Disk)
      requires Honest() && !lied && forall i :: 0 <= i < |builds| ==> builds[i].Ok()
      modifies this
      ensures Honest() && n <= |builds|
      ensures lied || n < |builds| ==> n > 0 && !builds[n - 1].removed && last in trace && Truthful(last) && !builds[n - 1].CalmOn(last)
    {
      last := disk;
      n := 0;
      while n < |builds|
        invariant n <= |builds| && Honest() && !lied
      {
        var b, from := builds[n], |trace|;
        last := disk;
        var calm := IsCalm(b, disk);
        var _ := EmitToolchain(b);
        n := n + 1;
        if !calm && !b.removed {
          return;
        }
        if from < |trace| {
          var stop :| from <= stop < |trace|;
          Stop(stop);
        }
      }
    }

    /** The build is interrupted after the state with this number. */
    method Stop(stop: nat)
      requires Honest() && !lied && stop < |trace|
      modifies this`disk, this`trace
      ensures Honest() && disk == old(trace)[stop] && trace == old(trace)[..stop + 1]
    {
      AllTruthfulPrefix(trace, stop + 1);
      assert TruthfulAt(trace, stop);
      disk := trace[stop];
      trace := trace[..stop + 1];
    }
  }

  // ----- whether a build accords with the stamp -----

  method IsCalm(b: Inputs, d: Disk) returns (r: bool)
    requires b.Ok()
    ensures r == b.CalmOn(d)
  {
    var recorded := b.Found(d);
    r := IsCalmFor(d, recorded, Runtime, b.runtimeKey);
    var i := 0;
    while r && i < |b.modules|
      invariant 0 <= i <= |b.modules|
      invariant r == (Calm(d, recorded, Runtime, b.runtimeKey) && forall j :: 0 <= j < i ==> ModuleCalm(d, recorded, b.modules[j], b.keys))
    {
      r := IsCalmFor(d, recorded, Std(b.modules[i]), KeyFor(b.modules[i], b.keys));
      assert r == ModuleCalm(d, recorded, b.modules[i], b.keys);
      i := i + 1;
    }
  }

  method IsCalmFor(d: Disk, recorded: Option<string>, a: Artifact, key: Option<string>) returns (r: bool)
    ensures r == Calm(d, recorded, a, key)
  {
    if key.Some? {
      var held := StampHolds(recorded, Entry(NameOf(a), key.value));
      var present := a.Std? && Plib(NameOf(a)[4..]) in d.files;
      if a.Runtime? {
        present := RuntimePresent(d.files);
      }
      if held && present {
        return true;
      }
    }
    r := IsUndisturbed(d, a, key);
  }

  /** Looks at every stretch of the stamp that could be an entry of the artifact. */
  method IsUndisturbed(d: Disk, a: Artifact, key: Option<string>) returns (r: bool)
    ensures r == Undisturbed(d, a, key)
  {
    if Recorded(d).None? {
      return true;
    }
    var text := Recorded(d).value;
    var i := 0;
    while i < |text|
      invariant 0 <= i <= |text|
      invariant forall j: nat, n: nat :: j < i ==> !AtOdds(d, a, key, text, j, n)
    {
      var n := 0;
      while n < LINE_LIMIT
        invariant 0 <= n <= LINE_LIMIT
        invariant forall m: nat :: m < n ==> !AtOdds(d, a, key, text, i, m)
      {
        var odd := IsAtOdds(d, a, key, text, i, n);
        if odd {
          OddIsClaimed(d, a, key, text, i, n);
          return false;
        }
        n := n + 1;
      }
      i := i + 1;
    }
    NothingAtOdds(d, a, key, text);
    r := true;
  }

  /** A key the entry for the artifact may not have. */
  predicate Odd(d: Disk, a: Artifact, key: Option<string>, k: string) {
    KeyOk(k) && !(a.Runtime? && RuntimeHash !in d.files && key == Some(k))
  }

  /** The `n` characters at `i` are an entry of the artifact with such a key. */
  ghost predicate AtOdds(d: Disk, a: Artifact, key: Option<string>, text: string, i: nat, n: nat) {
    exists k :: Odd(d, a, key, k) && |Pattern(Entry(NameOf(a), k))| == n < LINE_LIMIT && At(text, i, Pattern(Entry(NameOf(a), k)))
  }

  method IsAtOdds(d: Disk, a: Artifact, key: Option<string>, text: string, i: nat, n: nat) returns (r: bool)
    requires n < LINE_LIMIT
    ensures r == AtOdds(d, a, key, text, i, n)
  {
    var name := NameOf(a);
    r := false;
    if n >= |name| + 3 && i + n <= |text| {
      var k := KeyIn(text[i..i + n], name);
      var p := Pattern(Entry(name, k));
      r := Odd(d, a, key, k) && text[i..i + n] == p;
      assert r ==> |p| == n && At(text, i, p);
    }
    if AtOdds(d, a, key, text, i, n) {
      var k :| Odd(d, a, key, k) && |Pattern(Entry(name, k))| == n && At(text, i, Pattern(Entry(name, k)));
      KeyInPattern(name, k);
    }
  }

  /** What stands between the name and the end of the line. */
  function KeyIn(p: string, name: string): string
    requires |p| >= |name| + 3
  {
    p[|name| + 2..|p| - 1]
  }

  lemma KeyInPattern(name: string, k: string)
    ensures var p := Pattern(Entry(name, k)); |p| == |name| + |k| + 3 && KeyIn(p, name) == k
  {
    var p, head := Pattern(Entry(name, k)), ['\n'] + (name + [' ']);
    assert p == head + (k + ['\n']);
    assert p[|head|..] == k + ['\n'];
    assert p[|head|..][..|k|] == k;
  }

  lemma OddIsClaimed(d: Disk, a: Artifact, key: Option<string>, text: string, i: nat, n: nat)
    requires Recorded(d) == Some(text) && AtOdds(d, a, key, text, i, n)
    ensures !Undisturbed(d, a, key)
  {
    var k :| Odd(d, a, key, k) && |Pattern(Entry(NameOf(a), k))| == n < LINE_LIMIT && At(text, i, Pattern(Entry(NameOf(a), k)));
    assert Claimed(d, a, k);
  }

  lemma NothingAtOdds(d: Disk, a: Artifact, key: Option<string>, text: string)
    requires Recorded(d) == Some(text) && forall j: nat, n: nat :: j < |text| ==> !AtOdds(d, a, key, text, j, n)
    ensures Undisturbed(d, a, key)
  {
    forall k | Claimed(d, a, k) ensures a.Runtime? && RuntimeHash !in d.files && key == Some(k) {
      var p := Pattern(Entry(NameOf(a), k));
      var j: nat :| At(text, j, p);
      assert !AtOdds(d, a, key, text, j, |p|);
    }
  }
}
