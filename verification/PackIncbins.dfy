/**
 Packing resource slices into one blob: `main` of toolchain/juice-pack-incbins.py.

 The regular expression is its result, an ordered list of disjoint matches, each of whole
 lines; the assembler is what it reads in a `.set` and an `.incbin` line. Resource
 lookup is a map from the path a directive names to the bytes of the file found.
 */
module PackIncbins {
  import opened Bytes

  const BASE: string := ".L__wine_spec_packed_resources"

  /** One matched directive: its place in the text and its groups. */
  datatype Match = Match(start: nat, end: nat, symbol: string, path: string, offset: nat, size: nat)

  /** A match begins a line, runs to the end of one, and names a resource. */
  predicate WholeLines(text: string, m: Match) {
    && m.start < m.end <= |text|
    && (m.start == 0 || text[m.start - 1] == '\n')
    && (m.end == |text| || text[m.end - 1] == '\n')
    && IsResource(m.symbol)
  }

  const RESOURCE: string := ".L__wine_spec_res_"

  /** The first group of the expression: the prefix of resource labels, and a number. */
  predicate IsResource(s: string) {
    RESOURCE < s && forall i :: |RESOURCE| <= i < |s| ==> '0' <= s[i] <= '9'
  }

  ghost predicate Ordered(text: string, ms: seq<Match>) {
    && (forall i :: 0 <= i < |ms| ==> WholeLines(text, ms[i]))
    && (forall i, j :: 0 <= i < j < |ms| ==> ms[i].end <= ms[j].start)
  }

  type Resources = map<string, seq<Byte>>

  // ---------------------------------------------------------------- what a directive asks for

  /** The bytes the directive includes are all there. */
  predicate Available(m: Match, res: Resources) {
    m.path in res && (m.size == 0 || m.offset + m.size <= |res[m.path]|)
  }

  function Requested(m: Match, res: Resources): (s: seq<Byte>)
    requires Available(m, res)
    ensures |s| == m.size
  {
    if m.size == 0 then [] else res[m.path][m.offset..m.offset + m.size]
  }

  /** Directive `m` finds its bytes in the blob at `at`, which is aligned. */
  predicate Holds(blob: seq<Byte>, at: nat, m: Match, res: Resources) {
    at % 4 == 0 && at + m.size <= |blob| && Available(m, res) && blob[at..at + m.size] == Requested(m, res)
  }

  ghost predicate AllHold(blob: seq<Byte>, offsets: seq<nat>, ms: seq<Match>, res: Resources)
    requires |offsets| == |ms|
  {
    forall i :: 0 <= i < |ms| ==> Holds(blob, offsets[i], ms[i], res)
  }

  /** Each slice starts at the first aligned place after the one before it. */
  ghost predicate Tight(offsets: seq<nat>, ms: seq<Match>)
    requires |offsets| == |ms|
  {
    && (ms != [] ==> offsets[0] == 0)
    && forall i :: 0 < i < |ms| ==> offsets[i - 1] + ms[i - 1].size <= offsets[i] < offsets[i - 1] + ms[i - 1].size + 4
  }

  function End(offsets: seq<nat>, ms: seq<Match>): nat
    requires |offsets| == |ms|
  {
    if ms == [] then 0 else offsets[|ms| - 1] + ms[|ms| - 1].size
  }

  /** The blob is the requested slices in order, with nothing but padding between. */
  ghost predicate Packed(blob: seq<Byte>, offsets: seq<nat>, ms: seq<Match>, res: Resources) {
    |offsets| == |ms| && AllHold(blob, offsets, ms, res) && Tight(offsets, ms) && |blob| == End(offsets, ms)
  }

  lemma {:induction false} NoOverlap(offsets: seq<nat>, ms: seq<Match>, i: nat, j: nat)
    requires |offsets| == |ms| && Tight(offsets, ms) && i < j < |ms|
    ensures offsets[i] + ms[i].size <= offsets[j]
    decreases j
  {
    assert offsets[j - 1] + ms[j - 1].size <= offsets[j];
    if i < j - 1 { NoOverlap(offsets, ms, i, j - 1); }
  }

  // ---------------------------------------------------------------- the text

  function Decimal(n: nat): (s: string)
    ensures s != "" && forall i :: 0 <= i < |s| ==> '0' <= s[i] <= '9'
  {
    if n < 10 then [('0' as int + n) as char] else Decimal(n / 10) + [('0' as int + n % 10) as char]
  }

  function Escape(path: string): string {
    if path == "" then ""
    else (if path[0] == '\\' then "\\\\" else if path[0] == '"' then "\\\"" else [path[0]]) + Escape(path[1..])
  }

  function Separator(): string {
    "," + BASE + "+"
  }

  /** `.set symbol, base + offset`. */
  function SetLine(symbol: string, offset: nat): string {
    "\t.set " + (symbol + (Separator() + (Decimal(offset) + "\n")))
  }

  const INCBIN: string := "\t.incbin \""

  function BlobLines(path: string): string {
    "\t.balign 4\n" + (BASE + (":\n" + (INCBIN + (Escape(path) + "\"\n"))))
  }

  function Replacement(i: nat, symbol: string, offset: nat, path: string): string {
    if i == 0 then BlobLines(path) + SetLine(symbol, offset) else SetLine(symbol, offset)
  }

  function From(ms: seq<Match>, k: nat): nat
    requires k <= |ms|
  {
    if k == 0 then 0 else ms[k - 1].end
  }

  /** The text up to the end of match `k - 1`, with `lines` in place of the matches. */
  function Upto(text: string, ms: seq<Match>, lines: seq<string>, k: nat): string
    requires k <= |ms| && k <= |lines|
    requires Ordered(text, ms)
  {
    if k == 0 then "" else Upto(text, ms, lines, k - 1) + text[From(ms, k - 1)..ms[k - 1].start] + lines[k - 1]
  }

  /** `text` with `lines` in place of its matches. */
  function Woven(text: string, ms: seq<Match>, lines: seq<string>): string
    requires Ordered(text, ms) && |lines| == |ms|
  {
    Upto(text, ms, lines, |ms|) + text[From(ms, |ms|)..]
  }

  function Originals(text: string, ms: seq<Match>): seq<string>
    requires Ordered(text, ms)
  {
    seq(|ms|, i requires 0 <= i < |ms| => text[ms[i].start..ms[i].end])
  }

  lemma MatchBounds(text: string, ms: seq<Match>, k: nat)
    requires Ordered(text, ms) && k < |ms|
    ensures From(ms, k) <= ms[k].start < ms[k].end == From(ms, k + 1) <= |text|
  {}

  lemma UptoUnfolds(text: string, ms: seq<Match>, lines: seq<string>, k: nat)
    requires k < |ms| && k < |lines| && Ordered(text, ms)
    ensures From(ms, k) <= ms[k].start <= |text|
    ensures Upto(text, ms, lines, k + 1) == Upto(text, ms, lines, k) + text[From(ms, k)..ms[k].start] + lines[k]
  {
    MatchBounds(text, ms, k);
    hide Ordered;
  }

  lemma {:induction false} UptoOriginals(text: string, ms: seq<Match>, k: nat)
    requires Ordered(text, ms) && k <= |ms|
    ensures Upto(text, ms, Originals(text, ms), k) == text[..From(ms, k)]
  {
    hide Ordered;
    if k > 0 {
      hide Upto;
      UptoOriginals(text, ms, k - 1);
      MatchBounds(text, ms, k - 1);
      UptoUnfolds(text, ms, Originals(text, ms), k - 1);
      SlicesJoin(text, From(ms, k - 1), ms[k - 1].start, ms[k - 1].end);
    }
  }

  /** The original text is the same weaving with the matched lines: the rest of it is shared, in order. */
  lemma OnlyMatchesDiffer(text: string, ms: seq<Match>)
    requires Ordered(text, ms)
    ensures Woven(text, ms, Originals(text, ms)) == text
  {
    UptoOriginals(text, ms, |ms|);
  }

  function Lines(ms: seq<Match>, offsets: seq<nat>, path: string): (lines: seq<string>)
    requires |offsets| == |ms|
    ensures |lines| == |ms|
  {
    seq(|ms|, i requires 0 <= i < |ms| => Replacement(i, ms[i].symbol, offsets[i], path))
  }

  // ---------------------------------------------------------------- reading a `.set` line back

  /** How many characters precede the first comma. */
  function Comma(s: string): (k: nat)
    ensures k <= |s|
  {
    if s == "" || s[0] == ',' then 0 else 1 + Comma(s[1..])
  }

  /** `s` without the prefix `p`. */
  function After(p: string, s: string): Option<string> {
    if p <= s then Some(s[|p|..]) else None
  }

  function Number(s: string): int {
    if s == "" then 0 else 10 * Number(s[..|s| - 1]) + (s[|s| - 1] as int - '0' as int)
  }

  /** The symbol and the offset a `.set` line defines, as the assembler reads it. */
  function ReadSet(line: string): Option<(string, int)> {
    match After("\t.set ", line)
    case None => None
    case Some(s) =>
      match After(Separator(), s[Comma(s)..])
      case None => None
      case Some(d) =>
        if d == "" || d[|d| - 1] != '\n' then None else Some((s[..Comma(s)], Number(d[..|d| - 1])))
  }

  lemma {:induction false} NumberOfDecimal(n: nat)
    ensures Number(Decimal(n)) == n
  {
    var s := Decimal(n);
    if n >= 10 {
      NumberOfDecimal(n / 10);
      assert s[..|s| - 1] == Decimal(n / 10);
    } else {
      assert s[..|s| - 1] == "";
    }
  }

  lemma {:induction false} CommaIs(s: string, r: string)
    requires ',' !in s && r != "" && r[0] == ','
    ensures Comma(s + r) == |s|
  {
    if s == "" {
      assert s + r == r;
    } else {
      assert (s + r)[1..] == s[1..] + r;
      CommaIs(s[1..], r);
    }
  }

  lemma AfterPrefix(p: string, r: string)
    ensures After(p, p + r) == Some(r)
  {}

  lemma SeparatorStartsWithComma()
    ensures Separator() != "" && Separator()[0] == ','
  {}

  lemma ReadSetLine(symbol: string, offset: nat)
    requires ',' !in symbol
    ensures ReadSet(SetLine(symbol, offset)) == Some((symbol, offset))
  {
    hide Decimal, Number, Separator, After, Comma;
    var d := Decimal(offset) + "\n";
    var rest := Separator() + d;
    NumberOfDecimal(offset);
    SeparatorStartsWithComma();
    AfterPrefix("\t.set ", symbol + rest);
    CommaIs(symbol, rest);
    assert (symbol + rest)[..|symbol|] == symbol && (symbol + rest)[|symbol|..] == rest;
    AfterPrefix(Separator(), d);
    assert d[..|d| - 1] == Decimal(offset);
  }

  /** A string literal after its opening quote: the string and what follows the closing quote. Newlines are plain. */
  function ReadLiteral(s: string): Option<(string, string)> {
    if s == "" then None
    else if s[0] == '"' then Some(("", s[1..]))
    else if s[0] != '\\' then Prepend(s[0], ReadLiteral(s[1..]))
    else if |s| >= 2 && (s[1] == '\\' || s[1] == '"') then Prepend(s[1], ReadLiteral(s[2..]))
    else None
  }

  function Prepend(c: char, r: Option<(string, string)>): Option<(string, string)> {
    if r.Some? then Some(([c] + r.value.0, r.value.1)) else None
  }

  /** The path an `.incbin` line names. */
  function ReadIncbin(line: string): Option<string> {
    match After(INCBIN, line)
    case None => None
    case Some(s) =>
      var r := ReadLiteral(s);
      if r.Some? && r.value.1 == "\n" then Some(r.value.0) else None
  }

  /** Every path survives quoting. */
  lemma {:induction false} ReadEscaped(path: string, rest: string)
    ensures ReadLiteral(Escape(path) + ("\"" + rest)) == Some((path, rest))
  {
    if path == "" {
      assert Escape(path) + ("\"" + rest) == "\"" + rest;
      assert ("\"" + rest)[1..] == rest;
    } else {
      ReadEscaped(path[1..], rest);
      EscapedHead(path, "\"" + rest);
      hide Escape, ReadLiteral;
      assert path == [path[0]] + path[1..];
    }
  }

  lemma EscapedHead(path: string, r: string)
    requires path != ""
    ensures ReadLiteral(Escape(path) + r) == Prepend(path[0], ReadLiteral(Escape(path[1..]) + r))
  {
    hide ReadLiteral;
    var rest := Escape(path[1..]) + r;
    if path[0] == '\\' || path[0] == '"' {
      assert Escape(path) + r == ['\\', path[0]] + rest;
      QuotedPair(path[0], rest);
    } else {
      assert Escape(path) + r == [path[0]] + rest;
      QuotedPlain(path[0], rest);
    }
  }

  lemma QuotedPair(c: char, rest: string)
    requires c == '"' || c == '\\'
    ensures ReadLiteral(['\\', c] + rest) == Prepend(c, ReadLiteral(rest))
  {
    assert (['\\', c] + rest)[2..] == rest;
  }

  lemma QuotedPlain(c: char, rest: string)
    requires c != '"' && c != '\\'
    ensures ReadLiteral([c] + rest) == Prepend(c, ReadLiteral(rest))
  {
    assert ([c] + rest)[1..] == rest;
  }

  // ---------------------------------------------------------------- what a line defines

  predicate SymbolChar(c: char) {
    'a' <= c <= 'z' || 'A' <= c <= 'Z' || '0' <= c <= '9' || c == '_' || c == '.' || c == '$'
  }

  /** How many characters of the symbol at the start of `s` there are. */
  function Token(s: string): (k: nat)
    ensures k <= |s|
  {
    if s == "" || !SymbolChar(s[0]) then 0 else 1 + Token(s[1..])
  }

  function Blanks(s: string): string {
    if s != "" && (s[0] == ' ' || s[0] == '\t') then Blanks(s[1..]) else s
  }

  /** The symbol a line defines, one statement a line: a label, an assignment, or a `.set` and its kin. */
  function Defined(line: string): Option<string> {
    var s := Blanks(line);
    var name, rest := s[..Token(s)], Blanks(s[Token(s)..]);
    if name == "" then None
    else if rest != "" && (rest[0] == ':' || rest[0] == '=') then Some(name)
    else if name == ".set" || name == ".equ" || name == ".equiv" then SetName(rest)
    else None
  }

  /** The symbol before the comma of a `.set`. */
  function SetName(s: string): Option<string> {
    var after := Blanks(s[Token(s)..]);
    if Token(s) > 0 && after != "" && after[0] == ',' then Some(s[..Token(s)]) else None
  }

  lemma {:induction false} TokenIs(s: string, r: string)
    requires (forall i :: 0 <= i < |s| ==> SymbolChar(s[i])) && (r == "" || !SymbolChar(r[0]))
    ensures Token(s + r) == |s| && (s + r)[..|s|] == s && (s + r)[|s|..] == r
  {
    hide SymbolChar;
    if s == "" {
      assert s + r == r;
    } else {
      assert (s + r)[1..] == s[1..] + r;
      TokenIs(s[1..], r);
    }
  }

  lemma NoBlanks(s: string)
    requires s != "" && s[0] != ' ' && s[0] != '\t'
    ensures Blanks(s) == s
  {}

  lemma OneBlank(c: char, s: string)
    requires (c == ' ' || c == '\t') && s != "" && s[0] != ' ' && s[0] != '\t'
    ensures Blanks([c] + s) == s
  {
    assert ([c] + s)[1..] == s;
  }

  lemma ResourceChars(s: string)
    requires IsResource(s)
    ensures s != "" && s[0] == '.' && (forall i :: 0 <= i < |s| ==> SymbolChar(s[i])) && ',' !in s && '\n' !in s
    ensures s != BASE
  {
    assert forall i :: 0 <= i < |RESOURCE| ==> s[i] == RESOURCE[i];
    assert forall i :: 0 <= i < |RESOURCE| ==> SymbolChar(RESOURCE[i]);
    assert BASE[14] == 'p' && RESOURCE[14] == 'r';
  }

  /** A `.set` line defines its symbol. */
  lemma SetLineDefines(symbol: string, offset: nat)
    requires IsResource(symbol)
    ensures Defined(SetLine(symbol, offset)) == Some(symbol)
  {
    hide Decimal, Token, Blanks, IsResource, SymbolChar;
    ResourceChars(symbol);
    var d := Decimal(offset) + "\n";
    var tail := Separator() + d;
    SeparatorStartsWithComma();
    var s := symbol + tail;
    assert SetLine(symbol, offset) == ['\t'] + (".set" + ([' '] + s));
    OneBlank('\t', ".set" + ([' '] + s));
    SymbolChars();
    TokenIs(".set", [' '] + s);
    OneBlank(' ', s);
    TokenIs(symbol, tail);
    NoBlanks(tail);
  }

  lemma SymbolChars()
    ensures forall i :: 0 <= i < 4 ==> SymbolChar(".set"[i])
    ensures forall i :: 0 <= i < 7 ==> SymbolChar(".balign"[i]) && SymbolChar(".incbin"[i])
    ensures forall i :: 0 <= i < |BASE| ==> SymbolChar(BASE[i])
    ensures !SymbolChar(' ') && !SymbolChar(',') && !SymbolChar(':') && !SymbolChar('"')
  {}

  /** The lines that include the blob define nothing but the symbol the others are relative to. */
  lemma BlobLinesDefine(rest: string)
    ensures Defined("\t.balign 4\n") == None && Defined(BASE + ":\n") == Some(BASE) && Defined(INCBIN + rest) == None
  {
    hide Token, Blanks, SymbolChar;
    SymbolChars();
    assert "\t.balign 4\n" == ['\t'] + (".balign" + ([' '] + "4\n"));
    OneBlank('\t', ".balign" + ([' '] + "4\n"));
    TokenIs(".balign", [' '] + "4\n");
    OneBlank(' ', "4\n");
    assert BASE[0] == '.';
    NoBlanks(BASE + ":\n");
    TokenIs(BASE, ":\n");
    NoBlanks(":\n");
    assert INCBIN + rest == ['\t'] + (".incbin" + ([' '] + ("\"" + rest)));
    OneBlank('\t', ".incbin" + ([' '] + ("\"" + rest)));
    TokenIs(".incbin", [' '] + ("\"" + rest));
    OneBlank(' ', "\"" + rest);
  }

  // ---------------------------------------------------------------- the text as lines

  function LineEnd(s: string): (k: nat)
    requires s != ""
    ensures 1 <= k <= |s| && '\n' !in s[..k - 1] && (k == |s| || s[k - 1] == '\n')
  {
    if s[0] == '\n' || |s| == 1 then 1
    else
      var k := LineEnd(s[1..]);
      assert s[..k] == [s[0]] + s[1..][..k - 1];
      k + 1
  }

  /** The lines of a text, each with its newline. */
  function LinesOf(s: string): seq<string> {
    if s == "" then [] else [s[..LineEnd(s)]] + LinesOf(s[LineEnd(s)..])
  }

  predicate Closed(s: string) {
    s == "" || s[|s| - 1] == '\n'
  }

  lemma LineEndIs(s: string, k: nat)
    requires 1 <= k <= |s| && '\n' !in s[..k - 1] && (k == |s| || s[k - 1] == '\n')
    ensures LineEnd(s) == k
  {
    var e := LineEnd(s);
    assert forall j :: 0 <= j < k - 1 ==> s[j] == s[..k - 1][j] != '\n';
    assert forall j :: 0 <= j < e - 1 ==> s[j] == s[..e - 1][j] != '\n';
  }

  /** A line is the only line of itself. */
  lemma OneLine(s: string)
    requires s != "" && '\n' !in s[..|s| - 1]
    ensures LinesOf(s) == [s]
  {
    LineEndIs(s, |s|);
    assert s[..|s|] == s && s[|s|..] == "";
  }

  lemma {:induction false} LinesJoin(a: string, b: string)
    requires Closed(a)
    ensures LinesOf(a + b) == LinesOf(a) + LinesOf(b)
    decreases |a|
  {
    if a == "" {
      assert a + b == b;
    } else {
      var k := LineEnd(a);
      assert (a + b)[..k] == a[..k] && (a + b)[..k - 1] == a[..k - 1] && (a + b)[k..] == a[k..] + b;
      LineEndIs(a + b, k);
      LinesJoin(a[k..], b);
    }
  }

  /** The untouched text before match `k`, and after the last one. */
  function Between(text: string, ms: seq<Match>, k: nat): string
    requires Ordered(text, ms) && k <= |ms|
  {
    if k < |ms| then text[From(ms, k)..ms[k].start] else text[From(ms, k)..]
  }

  /** The lines outside the matches, and the lines of `lines`, in order. */
  function LinesUpto(text: string, ms: seq<Match>, lines: seq<string>, k: nat): seq<string>
    requires Ordered(text, ms) && k <= |ms| && k <= |lines|
  {
    if k == 0 then []
    else LinesUpto(text, ms, lines, k - 1) + LinesOf(Between(text, ms, k - 1)) + LinesOf(lines[k - 1])
  }

  ghost predicate AllClosed(text: string, ms: seq<Match>, lines: seq<string>)
    requires |lines| == |ms|
  {
    forall i :: 0 <= i < |ms| ==> Closed(lines[i]) || ms[i].end == |text|
  }

  lemma BetweenIsClosed(text: string, ms: seq<Match>, k: nat)
    requires Ordered(text, ms) && k < |ms|
    ensures From(ms, k) <= ms[k].start <= |text| && Between(text, ms, k) == text[From(ms, k)..ms[k].start]
    ensures Closed(Between(text, ms, k)) && From(ms, k) < |text|
  {}

  lemma LinesUptoUnfolds(text: string, ms: seq<Match>, lines: seq<string>, k: nat)
    requires Ordered(text, ms) && k < |ms| && k < |lines|
    ensures LinesUpto(text, ms, lines, k + 1) ==
            LinesUpto(text, ms, lines, k) + LinesOf(Between(text, ms, k)) + LinesOf(lines[k])
  {
    hide Ordered, LinesOf, Between;
  }

  lemma {:induction false} UptoLines(text: string, ms: seq<Match>, lines: seq<string>, k: nat)
    requires Ordered(text, ms) && |lines| == |ms| && k <= |ms| && AllClosed(text, ms, lines)
    ensures LinesOf(Upto(text, ms, lines, k)) == LinesUpto(text, ms, lines, k)
    ensures Closed(Upto(text, ms, lines, k)) || From(ms, k) == |text|
  {
    hide Ordered, LinesOf, Closed, Between;
    if k == 0 {
      NoLines();
    } else {
      hide Upto, LinesUpto;
      UptoLines(text, ms, lines, k - 1);
      UptoUnfolds(text, ms, lines, k - 1);
      BetweenIsClosed(text, ms, k - 1);
      LinesUptoUnfolds(text, ms, lines, k - 1);
      JoinThree(Upto(text, ms, lines, k - 1), Between(text, ms, k - 1), lines[k - 1]);
      assert Closed(lines[k - 1]) || ms[k - 1].end == |text|;
    }
  }

  lemma NoLines()
    ensures LinesOf("") == [] && Closed("")
  {}

  lemma JoinThree(a: string, b: string, c: string)
    requires Closed(a) && Closed(b)
    ensures LinesOf(a + b + c) == LinesOf(a) + LinesOf(b) + LinesOf(c)
    ensures Closed(c) ==> Closed(a + b + c)
  {
    hide LinesOf;
    LinesJoin(a, b);
    LinesJoin(a + b, c);
  }

  /** The lines of the woven text: those outside the matches, with the lines put in place of each match. */
  lemma WovenLines(text: string, ms: seq<Match>, lines: seq<string>)
    requires Ordered(text, ms) && |lines| == |ms| && AllClosed(text, ms, lines)
    ensures LinesOf(Woven(text, ms, lines)) == LinesUpto(text, ms, lines, |ms|) + LinesOf(Between(text, ms, |ms|))
  {
    var a, b := Upto(text, ms, lines, |ms|), Between(text, ms, |ms|);
    UptoLines(text, ms, lines, |ms|);
    if From(ms, |ms|) == |text| {
      assert b == "" && a + b == a && LinesOf(b) == [];
      hide LinesOf;
    } else {
      LinesJoin(a, b);
      hide LinesOf;
    }
  }

  /** The lines of the original text: the same lines outside the matches, with the matched lines between them. */
  lemma OldLines(text: string, ms: seq<Match>)
    requires Ordered(text, ms)
    ensures LinesOf(text) == LinesUpto(text, ms, Originals(text, ms), |ms|) + LinesOf(Between(text, ms, |ms|))
  {
    hide Ordered, LinesOf, LinesUpto, Closed, Between, Originals, Woven;
    OriginalsClosed(text, ms);
    OnlyMatchesDiffer(text, ms);
    WovenLines(text, ms, Originals(text, ms));
  }

  lemma OriginalsClosed(text: string, ms: seq<Match>)
    requires Ordered(text, ms)
    ensures |Originals(text, ms)| == |ms| && AllClosed(text, ms, Originals(text, ms))
  {
    hide IsResource;
    forall i | 0 <= i < |ms| ensures Closed(Originals(text, ms)[i]) || ms[i].end == |text| {
      assert text[ms[i].start..ms[i].end][ms[i].end - ms[i].start - 1] == text[ms[i].end - 1];
    }
  }

  // ---------------------------------------------------------------- what the symbols of the new text mean

  /** The rewritten text, as lines. */
  function NewLines(text: string, ms: seq<Match>, offsets: seq<nat>, path: string): seq<string>
    requires Ordered(text, ms) && |offsets| == |ms|
  {
    LinesOf(Woven(text, ms, Lines(ms, offsets, path)))
  }

  lemma SetLineIsALine(symbol: string, offset: nat)
    requires '\n' !in symbol
    ensures LinesOf(SetLine(symbol, offset)) == [SetLine(symbol, offset)] && Closed(SetLine(symbol, offset))
  {
    var s := SetLine(symbol, offset);
    hide LinesOf;
    assert s[..|s| - 1] == "\t.set " + (symbol + (Separator() + Decimal(offset)));
    OneLine(s);
  }

  lemma BlobLinesClosed(path: string)
    ensures Closed(BlobLines(path))
  {
    hide Escape;
    var s := BlobLines(path);
    assert s[|s| - 1] == "\"\n"[1];
  }

  /** The lines of one replacement: those that include the blob, if it is the first, and a `.set` line. */
  lemma ReplacementLines(i: nat, symbol: string, offset: nat, path: string)
    requires '\n' !in symbol
    ensures Closed(Replacement(i, symbol, offset, path))
    ensures LinesOf(Replacement(i, symbol, offset, path)) ==
            (if i == 0 then LinesOf(BlobLines(path)) else []) + [SetLine(symbol, offset)]
  {
    hide LinesOf, BlobLines, SetLine, Closed;
    SetLineIsALine(symbol, offset);
    BlobLinesClosed(path);
    LinesJoin(BlobLines(path), SetLine(symbol, offset));
    ClosedJoin(BlobLines(path), SetLine(symbol, offset));
  }

  lemma ClosedJoin(a: string, b: string)
    requires Closed(a) && Closed(b)
    ensures Closed(a + b)
  {}

  lemma ReplacementsClosed(text: string, ms: seq<Match>, offsets: seq<nat>, path: string)
    requires Ordered(text, ms) && |offsets| == |ms|
    ensures AllClosed(text, ms, Lines(ms, offsets, path))
  {
    hide LinesOf, Replacement, Closed;
    forall i | 0 <= i < |ms| ensures Closed(Lines(ms, offsets, path)[i]) {
      SymbolIsPlain(text, ms, i);
      ReplacementLines(i, ms[i].symbol, offsets[i], path);
    }
  }

  /** The lines up to match `k` are a prefix of all lines. */
  lemma {:induction false} UptoIsPrefix(text: string, ms: seq<Match>, lines: seq<string>, k: nat, n: nat)
    requires Ordered(text, ms) && |lines| == |ms| && k <= n <= |ms|
    ensures LinesUpto(text, ms, lines, k) <= LinesUpto(text, ms, lines, n)
  {
    hide Ordered, LinesOf, Between, LinesUpto;
    if k < n {
      UptoIsPrefix(text, ms, lines, k, n - 1);
      LinesUptoUnfolds(text, ms, lines, n - 1);
    }
  }

  lemma InPrefix(a: seq<string>, b: seq<string>, l: seq<string>)
    requires a + b <= l
    ensures |a| + |b| <= |l| && l[|a|..|a| + |b|] == b
  {
    assert l[|a|..|a| + |b|] == (a + b)[|a|..];
  }

  /** Where the lines of replacement `i` stand in the new text. */
  lemma ReplacementInText(text: string, ms: seq<Match>, offsets: seq<nat>, path: string, i: nat) returns (at: nat)
    requires Ordered(text, ms) && |offsets| == |ms| && i < |ms|
    ensures var l, r := NewLines(text, ms, offsets, path), LinesOf(Replacement(i, ms[i].symbol, offsets[i], path));
            at + |r| <= |l| && l[at..at + |r|] == r
  {
    hide LinesOf, Replacement, Woven, Between, LinesUpto, Ordered, AllClosed;
    var lines := Lines(ms, offsets, path);
    ReplacementsClosed(text, ms, offsets, path);
    WovenLines(text, ms, lines);
    UptoIsPrefix(text, ms, lines, i + 1, |ms|);
    LinesUptoUnfolds(text, ms, lines, i);
    var before := LinesUpto(text, ms, lines, i) + LinesOf(Between(text, ms, i));
    at := |before|;
    InPrefix(before, LinesOf(lines[i]), NewLines(text, ms, offsets, path));
  }

  /**
   Every symbol keeps its meaning: some line of the rewritten text defines it, as an
   aligned place in the blob followed by exactly the bytes its directive included.
   */
  lemma SymbolKeepsItsMeaning(text: string, ms: seq<Match>, res: Resources, blob: seq<Byte>, offsets: seq<nat>,
                              path: string, i: nat) returns (k: nat)
    requires Ordered(text, ms) && Packed(blob, offsets, ms, res) && i < |ms|
    ensures var l := NewLines(text, ms, offsets, path);
            && k < |l| && ReadSet(l[k]) == Some((ms[i].symbol, offsets[i]))
            && Holds(blob, offsets[i], ms[i], res)
  {
    hide LinesOf, Replacement, NewLines, ReadSet, SetLine, Ordered, Holds, Tight, End;
    var at := ReplacementInText(text, ms, offsets, path, i);
    SymbolIsPlain(text, ms, i);
    ReplacementLines(i, ms[i].symbol, offsets[i], path);
    ReadSetLine(ms[i].symbol, offsets[i]);
    var l, r := NewLines(text, ms, offsets, path), LinesOf(Replacement(i, ms[i].symbol, offsets[i], path));
    k := at + |r| - 1;
    assert l[k] == l[at..at + |r|][|r| - 1] == r[|r| - 1];
  }

  /**
   The symbol the others are relative to labels the blob: at the start of a line of the
   rewritten text stand an alignment, the label and an `.incbin` of the blob's own path,
   whatever the path is.
   */
  lemma BlobIsIncluded(text: string, ms: seq<Match>, offsets: seq<nat>, path: string)
    returns (before: string, literal: string)
    requires Ordered(text, ms) && |offsets| == |ms| && ms != []
    ensures Woven(text, ms, Lines(ms, offsets, path)) ==
            before + ("\t.balign 4\n" + (BASE + (":\n" + (INCBIN + literal))))
    ensures Closed(before)
    ensures var r := ReadLiteral(literal); r.Some? && r.value.0 == path && "\n" <= r.value.1
  {
    var lines := Lines(ms, offsets, path);
    var tail := FirstInText(text, ms, lines);
    before := text[..ms[0].start];
    BetweenIsClosed(text, ms, 0);
    hide Ordered, Woven, Closed, Between, ReadLiteral, Escape;
    var setLine := SetLine(ms[0].symbol, offsets[0]);
    hide SetLine, Lines;
    var rest := "\n" + (setLine + tail);
    literal := Escape(path) + ("\"" + rest);
    ReadEscaped(path, rest);
    assert lines[0] == BlobLines(path) + setLine;
    BlobThenRest(path, setLine, tail);
  }

  /** The text begins with what stands before the first match and its replacement. */
  lemma FirstInText(text: string, ms: seq<Match>, lines: seq<string>) returns (tail: string)
    requires Ordered(text, ms) && |lines| == |ms| && ms != []
    ensures ms[0].start <= |text| && Woven(text, ms, lines) == text[..ms[0].start] + (lines[0] + tail)
  {
    MatchBounds(text, ms, 0);
    hide Ordered;
    var t := UptoFirst(text, ms, lines, |ms|);
    hide Upto;
    tail := t + text[From(ms, |ms|)..];
    Assoc(lines[0], t, text[From(ms, |ms|)..]);
    Assoc(text[..ms[0].start], lines[0] + t, text[From(ms, |ms|)..]);
  }

  lemma {:induction false} UptoFirst(text: string, ms: seq<Match>, lines: seq<string>, k: nat) returns (tail: string)
    requires Ordered(text, ms) && |lines| == |ms| && 1 <= k <= |ms| && ms[0].start <= |text|
    ensures Upto(text, ms, lines, k) == text[..ms[0].start] + (lines[0] + tail)
  {
    hide Ordered, Upto;
    UptoUnfolds(text, ms, lines, k - 1);
    if k == 1 {
      tail := "";
      UptoNothing(text, ms, lines);
      assert text[0..ms[0].start] == text[..ms[0].start];
    } else {
      var t := UptoFirst(text, ms, lines, k - 1);
      tail := t + (text[From(ms, k - 1)..ms[k - 1].start] + lines[k - 1]);
    }
  }

  lemma UptoNothing(text: string, ms: seq<Match>, lines: seq<string>)
    requires Ordered(text, ms)
    ensures Upto(text, ms, lines, 0) == ""
  {
    hide Ordered;
  }

  lemma BlobThenRest(path: string, setLine: string, tail: string)
    ensures (BlobLines(path) + setLine) + tail ==
            "\t.balign 4\n" + (BASE + (":\n" + (INCBIN + (Escape(path) + ("\"" + ("\n" + (setLine + tail)))))))
  {
    hide Escape;
    assert "\"\n" == "\"" + "\n";
  }

  /** The lines the blob's inclusion is made of, when its path is one line. */
  lemma BlobLinesAre(path: string)
    requires '\n' !in path
    ensures LinesOf(BlobLines(path)) == ["\t.balign 4\n", BASE + ":\n", INCBIN + (Escape(path) + "\"\n")]
    ensures ReadIncbin(INCBIN + (Escape(path) + "\"\n")) == Some(path)
  {
    hide Escape, LinesOf, ReadIncbin;
    var incbin := INCBIN + (Escape(path) + "\"\n");
    IncbinLine(path);
    OneLine("\t.balign 4\n");
    OneLine(BASE + ":\n");
    LinesJoin(BASE + ":\n", incbin);
    LinesJoin("\t.balign 4\n", (BASE + ":\n") + incbin);
    BlobInLines(Escape(path) + "\"\n");
  }

  lemma BlobInLines(literal: string)
    ensures "\t.balign 4\n" + (BASE + (":\n" + (INCBIN + literal)))
        == "\t.balign 4\n" + ((BASE + ":\n") + (INCBIN + literal))
  {
    Assoc(BASE, ":\n", INCBIN + literal);
  }

  lemma IncbinLine(path: string)
    requires '\n' !in path
    ensures var incbin := INCBIN + (Escape(path) + "\"\n");
            LinesOf(incbin) == [incbin] && ReadIncbin(incbin) == Some(path)
  {
    hide Escape, LinesOf, ReadLiteral;
    var incbin := INCBIN + (Escape(path) + "\"\n");
    assert "\"" + "\n" == "\"\n";
    ReadEscaped(path, "\n");
    AfterPrefix(INCBIN, Escape(path) + "\"\n");
    NoNewlineEscaped(path);
    assert incbin[..|incbin| - 1] == INCBIN + (Escape(path) + "\"");
    OneLine(incbin);
  }

  lemma {:induction false} NoNewlineEscaped(path: string)
    requires '\n' !in path
    ensures '\n' !in Escape(path)
  {
    if path != "" { NoNewlineEscaped(path[1..]); }
  }

  /** The lines of the text outside the matches. */
  function Untouched(text: string, ms: seq<Match>, k: nat): seq<string>
    requires Ordered(text, ms) && k <= |ms|
  {
    (if k == 0 then [] else Untouched(text, ms, k - 1)) + LinesOf(Between(text, ms, k))
  }

  /** Nothing else is in the new text: a line is an untouched one, one that includes the blob, or a `.set` line. */
  lemma {:induction false} LinesAccounted(text: string, ms: seq<Match>, offsets: seq<nat>, path: string, k: nat,
                                          line: string)
    requires Ordered(text, ms) && |offsets| == |ms| && k <= |ms|
    requires line in LinesUpto(text, ms, Lines(ms, offsets, path), k)
    ensures || (k > 0 && line in Untouched(text, ms, k - 1))
            || line in LinesOf(BlobLines(path))
            || exists j :: 0 <= j < k && line == SetLine(ms[j].symbol, offsets[j])
  {
    hide LinesOf, Between, BlobLines, SetLine, Ordered, LinesUpto, Untouched, Replacement;
    var lines := Lines(ms, offsets, path);
    if k == 0 {
      NoneUpto(text, ms, lines);
    } else {
      LinesUptoUnfolds(text, ms, lines, k - 1);
      UntouchedUnfolds(text, ms, k - 1);
      SymbolIsPlain(text, ms, k - 1);
      ReplacementLines(k - 1, ms[k - 1].symbol, offsets[k - 1], path);
      if line in LinesUpto(text, ms, lines, k - 1) { LinesAccounted(text, ms, offsets, path, k - 1, line); }
    }
  }

  lemma NoneUpto(text: string, ms: seq<Match>, lines: seq<string>)
    requires Ordered(text, ms)
    ensures LinesUpto(text, ms, lines, 0) == []
  {
    hide Ordered;
  }

  lemma UntouchedUnfolds(text: string, ms: seq<Match>, k: nat)
    requires Ordered(text, ms) && k <= |ms|
    ensures k == 0 ==> Untouched(text, ms, k) == LinesOf(Between(text, ms, k))
    ensures k > 0 ==> Untouched(text, ms, k) == Untouched(text, ms, k - 1) + LinesOf(Between(text, ms, k))
  {
    hide Ordered, LinesOf, Between;
  }

  /**
   Where the directives name distinct symbols, the untouched text defines none of them and
   the blob's path is one line, the one line of the new text that defines a symbol, by
   whatever statement, is its `.set` line, and that gives its one place.
   */
  lemma OneMeaning(text: string, ms: seq<Match>, offsets: seq<nat>, path: string, i: nat, line: string)
    requires Ordered(text, ms) && |offsets| == |ms| && i < |ms|
    requires forall j :: 0 <= j < |ms| && ms[j].symbol == ms[i].symbol ==> j == i
    requires forall l :: l in Untouched(text, ms, |ms|) ==> Defined(l) != Some(ms[i].symbol)
    requires '\n' !in path
    requires line in NewLines(text, ms, offsets, path) && Defined(line) == Some(ms[i].symbol)
    ensures line == SetLine(ms[i].symbol, offsets[i]) && ReadSet(line) == Some((ms[i].symbol, offsets[i]))
  {
    hide LinesOf, Between, Woven, BlobLines, SetLine, ReadSet, Ordered, AllClosed, LinesUpto, Untouched, Defined;
    var lines := Lines(ms, offsets, path);
    ReplacementsClosed(text, ms, offsets, path);
    WovenLines(text, ms, lines);
    UntouchedGrows(text, ms, line);
    SymbolIsPlain(text, ms, i);
    BlobDefinesNothing(path, ms[i].symbol, line);
    if line in LinesUpto(text, ms, lines, |ms|) {
      LinesAccounted(text, ms, offsets, path, |ms|, line);
      var j :| 0 <= j < |ms| && line == SetLine(ms[j].symbol, offsets[j]);
      SymbolIsPlain(text, ms, j);
      SetLineDefines(ms[j].symbol, offsets[j]);
      ReadSetLine(ms[j].symbol, offsets[j]);
    }
  }

  lemma BlobDefinesNothing(path: string, symbol: string, line: string)
    requires '\n' !in path && IsResource(symbol)
    ensures line in LinesOf(BlobLines(path)) ==> Defined(line) != Some(symbol)
  {
    hide LinesOf, BlobLines, Defined, IsResource, Escape;
    BlobLinesAre(path);
    BlobLinesDefine(Escape(path) + "\"\n");
    ResourceChars(symbol);
  }

  lemma UntouchedGrows(text: string, ms: seq<Match>, line: string)
    requires Ordered(text, ms)
    ensures |ms| > 0 && line in Untouched(text, ms, |ms| - 1) ==> line in Untouched(text, ms, |ms|)
    ensures line in LinesOf(Between(text, ms, |ms|)) ==> line in Untouched(text, ms, |ms|)
  {
    hide Ordered, LinesOf, Between;
  }

  lemma SymbolIsPlain(text: string, ms: seq<Match>, j: nat)
    requires Ordered(text, ms) && j < |ms|
    ensures IsResource(ms[j].symbol) && ',' !in ms[j].symbol && '\n' !in ms[j].symbol
  {
    ResourceChars(ms[j].symbol);
  }

  // ---------------------------------------------------------------- packing

  /** One more slice after some padding. */
  lemma PackedGrows(blob: seq<Byte>, pad: seq<Byte>, offsets: seq<nat>, ms: seq<Match>, m: Match, res: Resources)
    requires Packed(blob, offsets, ms, res) && Available(m, res)
    requires |pad| < 4 && (|blob| + |pad|) % 4 == 0 && (|blob| % 4 == 0 ==> pad == [])
    ensures Packed(blob + pad + Requested(m, res), offsets + [|blob| + |pad|], ms + [m], res)
  {
    hide Holds, Requested, Available, AllHold, Tight;
    HoldsAtEnd(blob + pad, m, res);
    assert blob + (pad + Requested(m, res)) == blob + pad + Requested(m, res);
    AllHoldGrows(blob, pad + Requested(m, res), offsets, ms, |blob| + |pad|, m, res);
    TightGrows(offsets, ms, |blob| + |pad|, m);
  }

  lemma AllHoldGrows(blob: seq<Byte>, tail: seq<Byte>, offsets: seq<nat>, ms: seq<Match>, at: nat, m: Match,
                     res: Resources)
    requires |offsets| == |ms| && AllHold(blob, offsets, ms, res) && Holds(blob + tail, at, m, res)
    ensures AllHold(blob + tail, offsets + [at], ms + [m], res)
  {
    hide Holds;
    forall i | 0 <= i < |ms| + 1 ensures Holds(blob + tail, (offsets + [at])[i], (ms + [m])[i], res) {
      if i < |ms| { HoldsInLonger(blob, tail, offsets[i], ms[i], res); }
    }
  }

  lemma TightGrows(offsets: seq<nat>, ms: seq<Match>, at: nat, m: Match)
    requires |offsets| == |ms| && Tight(offsets, ms)
    requires if ms == [] then at == 0 else End(offsets, ms) <= at < End(offsets, ms) + 4
    ensures Tight(offsets + [at], ms + [m]) && End(offsets + [at], ms + [m]) == at + m.size
  {}

  lemma HoldsAtEnd(blob: seq<Byte>, m: Match, res: Resources)
    requires |blob| % 4 == 0 && Available(m, res)
    ensures Holds(blob + Requested(m, res), |blob|, m, res) && |blob + Requested(m, res)| == |blob| + m.size
  {
    hide Available;
    assert |Requested(m, res)| == m.size;
    assert (blob + Requested(m, res))[|blob|..|blob| + m.size] == Requested(m, res);
  }

  lemma HoldsInLonger(blob: seq<Byte>, more: seq<Byte>, at: nat, m: Match, res: Resources)
    requires Holds(blob, at, m, res)
    ensures Holds(blob + more, at, m, res)
  {
    hide Available, Requested;
    assert (blob + more)[at..at + m.size] == blob[at..at + m.size];
  }

  /** Pad to a word. */
  method Align(blob: seq<Byte>) returns (aligned: seq<Byte>, ghost pad: seq<Byte>)
    ensures aligned == blob + pad && |pad| < 4 && |aligned| % 4 == 0
    ensures |blob| % 4 == 0 ==> pad == []
  {
    aligned, pad := blob, [];
    while |aligned| % 4 != 0
      invariant aligned == blob + pad
      invariant |pad| == 0 || |blob| % 4 + |pad| <= 4
      invariant |blob| % 4 == 0 ==> pad == []
      decreases 4 - |pad|
    {
      aligned, pad := aligned + [0], pad + [0];
    }
  }

  /** Seek and read: all the bytes a directive asks for, or a failure. */
  method ReadSlice(m: Match, res: Resources) returns (ok: bool, data: seq<Byte>)
    ensures ok <==> Available(m, res)
    ensures ok ==> data == Requested(m, res)
  {
    data := [];
    if m.path !in res { return false, data; }
    var content := res[m.path];
    var from := if m.offset < |content| then m.offset else |content|;
    var to := if m.offset + m.size < |content| then m.offset + m.size else |content|;
    data := content[from..to];
    ok := |data| == m.size;
  }

  /**
   `main`: succeeds exactly when every slice is there; then each directive finds its
   bytes in the blob, and the text is the original with only its matches replaced.
   */
  method Pack(text: string, ms: seq<Match>, res: Resources, path: string)
    returns (ok: bool, rewritten: string, blob: seq<Byte>, offsets: seq<nat>)
    requires Ordered(text, ms)
    ensures ok <==> forall i :: 0 <= i < |ms| ==> Available(ms[i], res)
    ensures ok ==> Packed(blob, offsets, ms, res) && rewritten == Woven(text, ms, Lines(ms, offsets, path))
    ensures ok && ms == [] ==> rewritten == text && blob == []
  {
    hide Available, Packed, Ordered;
    NothingPacked(text, ms, res, path);
    blob, offsets, rewritten := [], [], text;
    if ms == [] { return true, rewritten, blob, offsets; }
    var lines: seq<string> := [];
    for i := 0 to |ms|
      invariant forall j :: 0 <= j < i ==> Available(ms[j], res)
      invariant |offsets| == i && Packed(blob, offsets, ms[..i], res)
      invariant lines == Lines(ms[..i], offsets, path)
    {
      var m := ms[i];
      ghost var before := blob;
      var aligned, pad := Align(blob);
      var fine, data := ReadSlice(m, res);
      if !fine { return false, rewritten, blob, offsets; }
      PackedGrows(before, pad, offsets, ms[..i], m, res);
      assert ms[..i + 1] == ms[..i] + [m];
      blob := aligned + data;
      offsets := offsets + [|aligned|];
      lines := lines + [Replacement(i, m.symbol, |aligned|, path)];
    }
    assert ms[..|ms|] == ms;
    rewritten := Weave(text, ms, lines);
    return true, rewritten, blob, offsets;
  }

  lemma NothingPacked(text: string, ms: seq<Match>, res: Resources, path: string)
    requires Ordered(text, ms)
    ensures Packed([], [], [], res)
    ensures ms == [] ==> Woven(text, ms, Lines(ms, [], path)) == text
  {}

  /** The loop that rebuilds the text. */
  method Weave(text: string, ms: seq<Match>, lines: seq<string>) returns (rewritten: string)
    requires Ordered(text, ms) && |lines| == |ms|
    ensures rewritten == Woven(text, ms, lines)
  {
    var position := 0;
    rewritten := "";
    for i := 0 to |ms|
      invariant position == From(ms, i)
      invariant rewritten == Upto(text, ms, lines, i)
    {
      rewritten := rewritten + text[position..ms[i].start] + lines[i];
      position := ms[i].end;
    }
    rewritten := rewritten + text[position..];
  }
}
