/**
 The DLL override recognizer of app/JuiceProfilePolicy.c.

 The reference is a grammar given by its derivations: `RenderAll` writes down a list
 of entries with any spacing, and the recognizer accepts exactly what it writes.
 */
module ProfilePolicy {
  import opened Bytes

  const MAX_TEXT: nat := 4096
  const MAX_MODULE: nat := 255

  // ---------------------------------------------------------------- grammar

  predicate ModuleChar(c: char) {
    'a' <= c <= 'z' || 'A' <= c <= 'Z' || '0' <= c <= '9' || c == '_' || c == '-' || c == '.' || c == '*'
  }

  predicate Lower(c: char) {
    'a' <= c <= 'z'
  }

  predicate IsSpace(c: char) {
    c == ' '
  }

  datatype Class = Native | Builtin

  function ClassOf(word: string): Option<Class> {
    if word == "n" || word == "native" then Some(Native)
    else if word == "b" || word == "builtin" then Some(Builtin)
    else None
  }

  /** A word with the spaces around it. */
  datatype Token = Token(lead: nat, word: string, trail: nat)

  /** `module, module = order, order`; with no order, `blank` spaces follow the equals sign. */
  datatype Entry = Entry(modules: seq<Token>, orders: seq<Token>, blank: nat)

  predicate WellFormed(e: Entry) {
    && e.modules != []
    && (forall i :: 0 <= i < |e.modules| ==> IsModule(e.modules[i].word))
    && |e.orders| <= 2
    && (forall i :: 0 <= i < |e.orders| ==> ClassOf(e.orders[i].word).Some?)
    && (|e.orders| == 2 ==> ClassOf(e.orders[0].word) != ClassOf(e.orders[1].word))
  }

  predicate All(word: string, p: char -> bool) {
    forall i :: 0 <= i < |word| ==> p(word[i])
  }

  predicate IsModule(word: string) {
    1 <= |word| <= MAX_MODULE && All(word, ModuleChar)
  }

  ghost predicate AllWellFormed(es: seq<Entry>) {
    forall i :: 0 <= i < |es| ==> WellFormed(es[i])
  }

  function Spaces(n: nat): (t: string)
    ensures |t| == n && forall i :: 0 <= i < n ==> t[i] == ' '
  {
    seq(n, _ => ' ')
  }

  // Each rendering function takes the text that follows.

  function Render(t: Token, rest: string): string {
    Spaces(t.lead) + (t.word + (Spaces(t.trail) + rest))
  }

  function RenderList(ts: seq<Token>, rest: string): string {
    if ts == [] then rest
    else Render(ts[0], if |ts| == 1 then rest else "," + RenderList(ts[1..], rest))
  }

  function RenderOrders(orders: seq<Token>, blank: nat, rest: string): string {
    if orders == [] then Spaces(blank) + rest else RenderList(orders, rest)
  }

  /** The entries, separated by semicolons. */
  function RenderAll(es: seq<Entry>): string
    decreases |es|, 0
  {
    if es == [] then ""
    else RenderList(es[0].modules, "=" + RenderOrders(es[0].orders, es[0].blank, RenderMore(es[1..])))
  }

  function RenderMore(es: seq<Entry>): string
    decreases |es|, 1
  {
    if es == [] then "" else ";" + RenderAll(es)
  }

  /** The override texts: nothing at all, or a bounded list of well-formed entries. */
  ghost predicate IsOverrides(s: string) {
    s == "" || (|s| <= MAX_TEXT && IsEntries(s))
  }

  ghost predicate IsEntries(s: string) {
    exists es: seq<Entry> :: es != [] && AllWellFormed(es) && RenderAll(es) == s
  }

  // ---------------------------------------------------------------- the recognizer as functions

  function Leading(t: string, p: char -> bool): (n: nat)
    ensures n <= |t|
    ensures forall i :: 0 <= i < n ==> p(t[i])
    ensures n < |t| ==> !p(t[n])
  {
    if t == "" || !p(t[0]) then 0 else 1 + Leading(t[1..], p)
  }

  function Trim(t: string): (r: string)
    ensures |r| <= |t|
  {
    t[Leading(t, IsSpace)..]
  }

  /** Skip spaces, take the longest word, skip spaces. */
  function Lex(t: string, p: char -> bool): (r: (string, string))
    ensures |r.0| + |r.1| <= |t|
  {
    var u := Trim(t);
    var n := Leading(u, p);
    (u[..n], Trim(u[n..]))
  }

  /** At the start of a module name. */
  predicate Entries(t: string)
    decreases |t|
  {
    var (word, r) := Lex(t, ModuleChar);
    && 1 <= |word| <= MAX_MODULE && r != ""
    && if r[0] == ',' then Entries(r[1..]) else r[0] == '=' && Orders(r[1..], {})
  }

  predicate AtEnd(r: string) {
    r == "" || r[0] == ';'
  }

  /** Past an equals sign, or past an order and its comma. */
  predicate Orders(t: string, seen: set<Class>)
    decreases |t|
  {
    if seen == {} && AtEnd(Trim(t)) then Finish(Trim(t))
    else
      var (word, r) := Lex(t, Lower);
      var cls := ClassOf(word);
      && cls.Some? && cls.value !in seen
      && if AtEnd(r) then Finish(r) else r[0] == ',' && Orders(r[1..], seen + {cls.value})
  }

  predicate Finish(r: string)
    requires AtEnd(r)
    decreases |r|, 0
  {
    r == "" || Entries(r[1..])
  }

  // ---------------------------------------------------------------- the code

  /** `spaces`. */
  method SkipSpaces(s: string, i: nat) returns (j: nat)
    requires i <= |s|
    ensures i <= j <= |s| && s[j..] == Trim(s[i..])
  {
    j := i;
    while j < |s| && s[j] == ' '
      invariant i <= j <= |s|
      invariant forall k :: i <= k < j ==> s[k] == ' '
    {
      j := j + 1;
    }
    LeadingIs(s[i..], IsSpace, j - i);
  }

  /** The word loops: move past every character in `p`. */
  method SkipWord(s: string, i: nat, p: char -> bool) returns (j: nat)
    requires i <= |s|
    ensures i <= j <= |s| && j == i + Leading(s[i..], p)
  {
    j := i;
    while j < |s| && p(s[j])
      invariant i <= j <= |s|
      invariant forall k :: i <= k < j ==> p(s[k])
    {
      j := j + 1;
    }
    LeadingIs(s[i..], p, j - i);
  }

  /** The first inner loop: the modules of one entry, up to and including the equals sign. */
  method ModuleList(s: string, from: nat) returns (ok: bool, i: nat)
    requires from <= |s|
    ensures !ok ==> !Entries(s[from..])
    ensures ok ==> from < i <= |s| && (Entries(s[from..]) <==> Orders(s[i..], {}))
  {
    hide Entries, Orders, Trim, Leading;
    i := from;
    while true
      invariant from <= i <= |s|
      invariant Entries(s[from..]) <==> Entries(s[i..])
      decreases |s| - i
    {
      var begin := SkipSpaces(s, i);
      var j := SkipWord(s, begin, ModuleChar);
      var k := SkipSpaces(s, j);
      EntriesStep(s, i, begin, j, k);
      i := k;
      if j == begin || j - begin > MAX_MODULE { return false, i; }
      if i < |s| && s[i] == ',' {
        i := i + 1;
        continue;
      }
      if i == |s| || s[i] != '=' { return false, i; }
      return true, i + 1;
    }
  }

  /** The second inner loop: the orders of one entry, up to its semicolon or the end. */
  method OrderList(s: string, from: nat) returns (ok: bool, i: nat)
    requires from <= |s|
    ensures !ok ==> !Orders(s[from..], {})
    ensures ok ==> from <= i <= |s| && (Orders(s[from..], {}) <==> i == |s| || Entries(s[i + 1..]))
  {
    hide Entries, Orders, Trim, Leading;
    var seen: set<Class> := {};
    i := from;
    while true
      invariant from <= i <= |s|
      invariant Orders(s[from..], {}) <==> Orders(s[i..], seen)
      invariant seen != {} ==> !AtEnd(Trim(s[i..]))
      decreases |s| - i
    {
      var begin := SkipSpaces(s, i);
      if begin == |s| || s[begin] == ';' {
        OrdersEmpty(s, i, begin);
        return true, begin;
      }
      var j := SkipWord(s, begin, Lower);
      var k := SkipSpaces(s, j);
      OrdersStep(s, i, begin, j, k, seen);
      i := k;
      var cls := ClassOf(s[begin..j]);
      if cls.None? || cls.value in seen { return false, i; }
      seen := seen + {cls.value};
      if i == |s| || s[i] == ';' { return true, i; }
      if s[i] != ',' { return false, i; }
      i := SkipSpaces(s, i + 1);
      OrdersTrimmed(s[k + 1..], seen);
      if i == |s| || s[i] == ';' {
        DanglingComma(s[i..], seen);
        return false, i;
      }
      TrimTwice(s[k + 1..]);
    }
  }

  /** `JuiceDLLOverridesValid`: accepts exactly the override texts of the grammar. */
  method DLLOverridesValid(s: string) returns (ok: bool)
    ensures ok <==> IsOverrides(s)
  {
    hide Entries, Orders, IsEntries;
    if |s| > MAX_TEXT { return false; }
    if |s| == 0 { return true; }
    EntriesExactly(s);
    NoEmptyEntry();
    var i := 0;
    assert s[i..] == s;
    while i < |s|
      invariant i <= |s|
      invariant if i < |s| then Entries(s) <==> Entries(s[i..]) else Entries(s)
    {
      ok, i := ModuleList(s, i);
      if !ok { return; }
      ok, i := OrderList(s, i);
      if !ok { return; }
      if i < |s| {
        i := i + 1;
        if i == |s| {
          assert s[i..] == "";
          return false;
        }
      }
    }
    return true;
  }

  lemma {:induction false} LeadingIs(t: string, p: char -> bool, n: nat)
    requires n <= |t| && forall i :: 0 <= i < n ==> p(t[i])
    requires n < |t| ==> !p(t[n])
    ensures Leading(t, p) == n
  {
    if n > 0 { LeadingIs(t[1..], p, n - 1); }
  }

  lemma LexAt(s: string, i: nat, begin: nat, j: nat, k: nat, p: char -> bool)
    requires i <= begin <= j <= k <= |s|
    requires s[begin..] == Trim(s[i..]) && j == begin + Leading(s[begin..], p) && s[k..] == Trim(s[j..])
    ensures Lex(s[i..], p) == (s[begin..j], s[k..])
  {
    hide Trim, Leading;
    assert s[begin..][..j - begin] == s[begin..j];
    assert s[begin..][j - begin..] == s[j..];
  }

  lemma EntriesStep(s: string, i: nat, begin: nat, j: nat, k: nat)
    requires i <= begin <= j <= k <= |s|
    requires s[begin..] == Trim(s[i..]) && j == begin + Leading(s[begin..], ModuleChar) && s[k..] == Trim(s[j..])
    ensures Entries(s[i..]) <==>
              && 1 <= j - begin <= MAX_MODULE && k < |s|
              && if s[k] == ',' then Entries(s[k + 1..]) else s[k] == '=' && Orders(s[k + 1..], {})
  {
    hide Trim, Leading, Lex, Orders;
    LexAt(s, i, begin, j, k, ModuleChar);
    assert k < |s| ==> s[k..][1..] == s[k + 1..];
  }

  lemma OrdersEmpty(s: string, i: nat, begin: nat)
    requires i <= begin <= |s| && s[begin..] == Trim(s[i..]) && AtEnd(s[begin..])
    ensures Orders(s[i..], {}) <==> begin == |s| || Entries(s[begin + 1..])
  {
    assert begin < |s| ==> s[begin..][1..] == s[begin + 1..];
  }

  lemma OrdersStep(s: string, i: nat, begin: nat, j: nat, k: nat, seen: set<Class>)
    requires i <= begin <= j <= k <= |s| && !AtEnd(s[begin..])
    requires s[begin..] == Trim(s[i..]) && j == begin + Leading(s[begin..], Lower) && s[k..] == Trim(s[j..])
    ensures Orders(s[i..], seen) <==>
              var cls := ClassOf(s[begin..j]);
              && cls.Some? && cls.value !in seen
              && (k == |s| || s[k] == ';' || s[k] == ',')
              && (k < |s| && s[k] == ';' ==> Entries(s[k + 1..]))
              && (k < |s| && s[k] == ',' ==> Orders(s[k + 1..], seen + {cls.value}))
  {
    hide Trim, Leading, Lex, ClassOf, Entries;
    LexAt(s, i, begin, j, k, Lower);
    assert k < |s| ==> s[k..][1..] == s[k + 1..];
  }

  lemma TrimTwice(t: string)
    ensures Trim(Trim(t)) == Trim(t)
  {
    LeadingIs(Trim(t), IsSpace, 0);
  }

  lemma LexTrimmed(t: string, p: char -> bool)
    ensures Lex(Trim(t), p) == Lex(t, p)
  {
    TrimTwice(t);
  }

  /** Leading spaces make no difference to the orders. */
  lemma OrdersTrimmed(t: string, seen: set<Class>)
    ensures Orders(Trim(t), seen) <==> Orders(t, seen)
  {
    hide Lex, Trim, Finish, ClassOf;
    TrimTwice(t);
    LexTrimmed(t, Lower);
  }

  lemma DanglingComma(t: string, seen: set<Class>)
    requires AtEnd(t) && seen != {}
    ensures !Orders(t, seen)
  {
    LeadingIs(t, IsSpace, 0);
    LeadingIs(t, Lower, 0);
    assert Lex(t, Lower).0 == "";
  }

  lemma NoEmptyEntry()
    ensures !Entries("")
  {}

  // ---------------------------------------------------------------- the grammar is recognized

  lemma TrimSpaces(n: nat, u: string)
    requires u == "" || u[0] != ' '
    ensures Trim(Spaces(n) + u) == u
  {
    LeadingIs(Spaces(n) + u, IsSpace, n);
  }

  lemma LeadingWord(word: string, u: string, p: char -> bool)
    requires All(word, p) && (u == "" || !p(u[0]))
    ensures Leading(word + u, p) == |word|
  {
    LeadingIs(word + u, p, |word|);
  }

  /** Reading back a token that something outside `p` follows. */
  lemma LexReadsToken(tok: Token, r: string, p: char -> bool)
    requires tok.word != "" && All(tok.word, p) && !p(' ')
    requires r == "" || (r[0] != ' ' && !p(r[0]))
    ensures Lex(Render(tok, r), p) == (tok.word, r)
  {
    hide Trim, Leading;
    var v := Spaces(tok.trail) + r;
    var u := tok.word + v;
    TrimSpaces(tok.lead, u);
    LeadingWord(tok.word, v, p);
    assert u[..|tok.word|] == tok.word && u[|tok.word|..] == v;
    TrimSpaces(tok.trail, r);
  }

  lemma OrderWord(word: string)
    requires ClassOf(word).Some?
    ensures word != "" && All(word, Lower)
  {}

  /** What follows an entry: nothing, or a semicolon. */
  lemma MoreEnds(es: seq<Entry>)
    requires AllWellFormed(es)
    ensures AtEnd(RenderMore(es)) && (es == [] <==> RenderMore(es) == "")
    ensures es != [] ==> RenderMore(es)[1..] == RenderAll(es)
  {}

  /** Splitting the first module off a list of entries. */
  lemma RenderFirst(es: seq<Entry>)
    requires es != [] && es[0].modules != []
    ensures var e := es[0];
            RenderAll(es) == Render(e.modules[0],
              if |e.modules| == 1 then "=" + RenderOrders(e.orders, e.blank, RenderMore(es[1..]))
              else "," + RenderAll([e.(modules := e.modules[1..])] + es[1..]))
  {
    hide Render, RenderOrders, RenderMore;
    var e := es[0];
    if |e.modules| > 1 {
      assert ([e.(modules := e.modules[1..])] + es[1..])[1..] == es[1..];
    }
  }

  lemma {:induction false} EntriesComplete(es: seq<Entry>)
    requires es != [] && AllWellFormed(es)
    ensures Entries(RenderAll(es))
    decreases |es|, |es[0].modules|, 1
  {
    hide Lex, RenderAll, RenderMore, RenderOrders, Render, Orders;
    var e := es[0];
    RenderFirst(es);
    if |e.modules| == 1 {
      var t := RenderOrders(e.orders, e.blank, RenderMore(es[1..]));
      assert ("=" + t)[1..] == t;
      LexReadsToken(e.modules[0], "=" + t, ModuleChar);
      OrdersComplete(e.orders, e.blank, es[1..], {});
    } else {
      var es' := [e.(modules := e.modules[1..])] + es[1..];
      assert ("," + RenderAll(es'))[1..] == RenderAll(es');
      LexReadsToken(e.modules[0], "," + RenderAll(es'), ModuleChar);
      EntriesComplete(es');
    }
  }

  /** The orders are of classes not seen before, each once. */
  ghost predicate FreshOrders(orders: seq<Token>, seen: set<Class>) {
    && (forall i :: 0 <= i < |orders| ==> ClassOf(orders[i].word).Some? && ClassOf(orders[i].word).value !in seen)
    && (forall i, j :: 0 <= i < j < |orders| ==> ClassOf(orders[i].word) != ClassOf(orders[j].word))
  }

  lemma {:induction false} OrdersComplete(orders: seq<Token>, blank: nat, es: seq<Entry>, seen: set<Class>)
    requires FreshOrders(orders, seen) && (orders == [] ==> seen == {})
    requires AllWellFormed(es)
    ensures Orders(RenderOrders(orders, blank, RenderMore(es)), seen)
    decreases |es|, if es == [] then 0 else |es[0].modules|, 2 + |orders|
  {
    hide Lex, Render, RenderAll, RenderMore, Entries, ClassOf, Trim;
    var more := RenderMore(es);
    MoreEnds(es);
    if es != [] { EntriesComplete(es); }
    if orders == [] {
      TrimSpaces(blank, more);
    } else {
      var o := orders[0];
      OrderWord(o.word);
      var r := if |orders| == 1 then more else "," + RenderOrders(orders[1..], blank, more);
      assert RenderOrders(orders, blank, more) == Render(o, r);
      LexReadsToken(o, r, Lower);
      WordFirst(o, r);
      if |orders| > 1 {
        assert r[1..] == RenderOrders(orders[1..], blank, more);
        OrdersComplete(orders[1..], blank, es, seen + {ClassOf(o.word).value});
      }
    }
  }

  lemma WordFirst(tok: Token, r: string)
    requires tok.word != "" && Lower(tok.word[0])
    ensures !AtEnd(Trim(Render(tok, r)))
  {
    hide Trim;
    TrimSpaces(tok.lead, tok.word + (Spaces(tok.trail) + r));
  }

  // ---------------------------------------------------------------- only the grammar is recognized

  lemma TrimmedSpaces(t: string) returns (n: nat)
    ensures t == Spaces(n) + Trim(t)
  {
    n := Leading(t, IsSpace);
    assert t[..n] == Spaces(n);
  }

  lemma RenderParts(tok: Token, t: string, u: string, v: string, r: string)
    requires t == Spaces(tok.lead) + u && u == tok.word + v && v == Spaces(tok.trail) + r
    ensures t == Render(tok, r)
  {}

  lemma LexIsToken(t: string, p: char -> bool) returns (tok: Token)
    ensures Render(tok, Lex(t, p).1) == t && tok.word == Lex(t, p).0
    ensures All(tok.word, p)
  {
    hide *;
    LexParts(t, p);
    var u := Trim(t);
    var n := Leading(u, p);
    var a := TrimmedSpaces(t);
    var c := TrimmedSpaces(u[n..]);
    tok := Token(a, u[..n], c);
    assert u == u[..n] + u[n..];
    RenderParts(tok, t, u, u[n..], Trim(u[n..]));
  }

  lemma LexParts(t: string, p: char -> bool)
    ensures var u := Trim(t);
            var n := Leading(u, p);
            && 0 <= n <= |u| && All(u[..n], p)
            && Lex(t, p) == (u[..n], Trim(u[n..]))
  {}

  lemma {:induction false} EntriesSound(t: string) returns (es: seq<Entry>)
    requires Entries(t)
    ensures es != [] && AllWellFormed(es) && RenderAll(es) == t
    decreases |t|
  {
    hide Lex, RenderAll, RenderMore, RenderOrders, Render, Orders;
    var r := Lex(t, ModuleChar).1;
    var tok := LexIsToken(t, ModuleChar);
    LexShrinks(t, ModuleChar);
    assert r == [r[0]] + r[1..];
    if r[0] == ',' {
      var es' := EntriesSound(r[1..]);
      var e := es'[0];
      es := [e.(modules := [tok] + e.modules)] + es'[1..];
      assert es[0].modules[1..] == e.modules && [e] + es[1..] == es';
    } else {
      var orders, blank, es' := OrdersSound(r[1..], {});
      es := [Entry([tok], orders, blank)] + es';
      assert es[1..] == es';
    }
    RenderFirst(es);
  }

  lemma LexShrinks(t: string, p: char -> bool)
    ensures |Lex(t, p).0| + |Lex(t, p).1| <= |t|
  {}

  lemma AtMostTwoClasses(seen: set<Class>)
    ensures |seen| <= 2
  {
    forall c | c in seen ensures c in {Native, Builtin} {
      match c { case Native => case Builtin => }
    }
    assert |{Native, Builtin} - seen| + |seen| == |{Native, Builtin}|;
  }

  lemma {:induction false} OrdersSound(t: string, seen: set<Class>)
    returns (orders: seq<Token>, blank: nat, es: seq<Entry>)
    requires Orders(t, seen)
    ensures FreshOrders(orders, seen) && |orders| + |seen| <= 2
    ensures AllWellFormed(es)
    ensures seen != {} ==> orders != []
    ensures RenderOrders(orders, blank, RenderMore(es)) == t
    decreases |t|
  {
    hide Lex, RenderAll, Entries, ClassOf, Render;
    AtMostTwoClasses(seen);
    blank, es := 0, [];
    if seen == {} && AtEnd(Trim(t)) {
      orders := [];
      blank := TrimmedSpaces(t);
      if Trim(t) != "" { es := EntriesSound(Trim(t)[1..]); }
      assert Trim(t) == RenderMore(es);
    } else {
      var r := Lex(t, Lower).1;
      var tok := LexIsToken(t, Lower);
      LexShrinks(t, Lower);
      var cls := ClassOf(tok.word).value;
      AtMostTwoClasses(seen + {cls});
      if AtEnd(r) {
        orders := [tok];
        if r != "" { es := EntriesSound(r[1..]); }
        assert r == RenderMore(es);
      } else {
        var orders';
        orders', blank, es := OrdersSound(r[1..], seen + {cls});
        orders := [tok] + orders';
        assert orders[1..] == orders' && r == "," + r[1..];
      }
    }
  }

  /** The functions accept exactly what the grammar derives. */
  lemma EntriesExactly(t: string)
    ensures Entries(t) <==> IsEntries(t)
  {
    if Entries(t) { var es := EntriesSound(t); }
    if es: seq<Entry> :| es != [] && AllWellFormed(es) && RenderAll(es) == t {
      EntriesComplete(es);
    }
  }
}
