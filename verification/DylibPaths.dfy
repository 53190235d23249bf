/**
 The Mach-O rewriter of scripts/patch-bundled-dylib-paths.py: dependency load commands
 are pointed at libraries of the same directory, through short aliases where the name
 does not fit; then symbolic links and aliases become copies of the patched files.

 Paths and names are their bytes; the script's surrogateescape decoding loses none.
 */
module DylibPaths {
  import opened Bytes

  const MH_MAGIC_64 := 0xFEEDFACF
  const DEPENDENCY_COMMANDS := {0xC, 0x80000018, 0x8000001F, 0x20, 0x80000023}
  const SLASH: Byte := 0x2F
  const LOADER: seq<Byte> := [0x40, 0x6C, 0x6F, 0x61, 0x64, 0x65, 0x72, 0x5F, 0x70, 0x61, 0x74, 0x68, SLASH]

  type Name = seq<Byte>

  // ---------------------------------------------------------------- names

  /** A directory entry: not empty, not a dot, without slash or NUL. */
  predicate IsEntryName(n: Name) {
    n != [] && n != [0x2E] && SLASH !in n && 0 !in n
  }

  /** Position of the last slash, or -1. */
  function LastSlash(p: seq<Byte>): (k: int)
    ensures -1 <= k < |p|
    ensures k >= 0 ==> p[k] == SLASH
    ensures forall i :: k < i < |p| ==> p[i] != SLASH
  {
    if p == [] then -1 else if p[|p| - 1] == SLASH then |p| - 1 else LastSlash(p[..|p| - 1])
  }

  /** `PurePosixPath(p).name`: the last component that is neither empty nor a dot. */
  function BaseName(p: seq<Byte>): Name {
    var k := LastSlash(p);
    var last := p[k + 1..];
    if last != [] && last != [0x2E] then last else if k < 0 then [] else BaseName(p[..k])
  }

  /** The components of a path but the empty ones and the dots. */
  function Components(p: seq<Byte>): seq<Name> {
    var k := LastSlash(p);
    var last := p[k + 1..];
    (if k < 0 then [] else Components(p[..k])) + (if last != [] && last != [0x2E] then [last] else [])
  }

  /** After `@loader_path/` a base name is the last component. */
  lemma {:induction false} BaseNameAfterLoader(rest: seq<Byte>)
    requires Components(rest) != []
    ensures BaseName(LOADER + rest) == Components(rest)[|Components(rest)| - 1]
    decreases |rest|
  {
    hide LastSlash, BaseName, Components, LOADER;
    var k, p := LastSlash(rest), LOADER + rest;
    SlashBounds(rest);
    LastSlashAfterLoader(rest);
    Unfold(rest);
    Unfold(p);
    assert p[..13] == LOADER;
    if k >= 0 {
      assert p[13 + k + 1..] == rest[k + 1..] && p[..13 + k] == LOADER + rest[..k];
      if rest[k + 1..] == [] || rest[k + 1..] == [0x2E] { BaseNameAfterLoader(rest[..k]); }
    } else {
      assert p[13..] == rest && rest[0..] == rest;
    }
  }

  lemma SlashBounds(p: seq<Byte>)
    ensures -1 <= LastSlash(p) < |p| && |LOADER| == 13
  {}

  /** Both readings of a path, one component from its end. */
  lemma Unfold(p: seq<Byte>)
    ensures var k := LastSlash(p);
            && -1 <= k < |p|
            && var last := p[k + 1..];
               if last != [] && last != [0x2E] then
                 BaseName(p) == last && Components(p) == (if k < 0 then [] else Components(p[..k])) + [last]
               else
                 && BaseName(p) == (if k < 0 then [] else BaseName(p[..k]))
                 && Components(p) == (if k < 0 then [] else Components(p[..k]))
  {
    hide LastSlash;
    SlashBounds(p);
  }

  /** One slash more at the beginning makes no component. */
  lemma {:induction false} ExtraSlash(rest: seq<Byte>)
    ensures Components([SLASH] + rest) == Components(rest)
    decreases |rest|
  {
    hide LastSlash, Components, BaseName;
    var k, p := LastSlash(rest), [SLASH] + rest;
    LastSlashAfterSlash(rest);
    Unfold(rest);
    Unfold(p);
    if k >= 0 {
      assert p[1 + k + 1..] == rest[k + 1..] && p[..1 + k] == [SLASH] + rest[..k];
      ExtraSlash(rest[..k]);
    } else {
      assert p[1..] == rest && rest[0..] == rest && p[..0] == [];
      NoComponents();
    }
  }

  lemma LastSlashAfterSlash(rest: seq<Byte>)
    ensures LastSlash([SLASH] + rest) == if LastSlash(rest) >= 0 then 1 + LastSlash(rest) else 0
  {
    var p := [SLASH] + rest;
    var k := LastSlash(p);
    assert p[0] == SLASH;
    assert forall i :: 0 <= i < |rest| ==> p[1 + i] == rest[i];
  }

  lemma NoComponents()
    ensures Components([]) == []
  {
    SlashBounds([]);
  }

  lemma LastSlashAfterLoader(rest: seq<Byte>)
    ensures LastSlash(LOADER + rest) == if LastSlash(rest) >= 0 then 13 + LastSlash(rest) else 12
  {
    var p := LOADER + rest;
    var k := LastSlash(p);
    assert |LOADER| == 13 && p[12] == SLASH;
    assert forall i :: 0 <= i < |rest| ==> p[13 + i] == rest[i];
  }

  /** An entry name is its own only component. */
  lemma ComponentsOfName(n: Name)
    requires IsEntryName(n)
    ensures Components(n) == [n]
  {
    assert LastSlash(n) == -1 && n[0..] == n;
  }

  lemma BaseNameOfLoaderPath(n: Name)
    requires IsEntryName(n)
    ensures BaseName(LOADER + n) == n
  {
    var p := LOADER + n;
    var k := LastSlash(p);
    assert p[12] == SLASH;
    assert forall i :: 13 <= i < |p| ==> p[i] == n[i - 13];
    assert p[13..] == n;
  }

  /** `decode_c_string`: everything before the first NUL. */
  function CString(area: seq<Byte>): (s: seq<Byte>)
    ensures |s| <= |area| && 0 !in s && s == area[..|s|]
    ensures |s| < |area| ==> area[|s|] == 0
  {
    if area == [] || area[0] == 0 then [] else [area[0]] + CString(area[1..])
  }

  function Zeros(n: nat): (z: seq<Byte>)
    ensures |z| == n && forall i :: 0 <= i < n ==> z[i] == 0
  {
    seq(n, _ => 0)
  }

  /** `replace_c_string`: the new bytes of an area, NUL-padded. */
  function Area(s: seq<Byte>, capacity: nat): (area: seq<Byte>)
    requires |s| + 1 <= capacity
    ensures |area| == capacity
  {
    s + Zeros(capacity - |s|)
  }

  lemma {:induction false} CStringOfArea(s: seq<Byte>, capacity: nat)
    requires |s| + 1 <= capacity && 0 !in s
    ensures CString(Area(s, capacity)) == s
  {
    if s != [] {
      assert Area(s, capacity)[1..] == Area(s[1..], capacity - 1);
      CStringOfArea(s[1..], capacity - 1);
    }
  }

  // ---------------------------------------------------------------- aliases

  function Digits(n: nat): (s: seq<Byte>)
    ensures s != [] && forall i :: 0 <= i < |s| ==> 0x30 <= s[i] <= 0x39
  {
    if n < 10 then [0x30 + n] else Digits(n / 10) + [0x30 + n % 10]
  }

  lemma {:induction false} DigitsInjective(m: nat, n: nat)
    requires Digits(m) == Digits(n)
    ensures m == n
  {
    var s, t := Digits(m), Digits(n);
    assert s[|s| - 1] == 0x30 + m % 10 && t[|t| - 1] == 0x30 + n % 10;
    assert m < 10 <==> |s| == 1;
    assert n < 10 <==> |t| == 1;
    if m >= 10 {
      assert s[..|s| - 1] == Digits(m / 10) && t[..|t| - 1] == Digits(n / 10);
      DigitsInjective(m / 10, n / 10);
    }
  }

  function Alias(n: nat): Name {
    [0x6A] + Digits(n)
  }

  lemma AliasInjective(m: nat, n: nat)
    requires Alias(m) == Alias(n)
    ensures m == n
  {
    assert Alias(m)[1..] == Digits(m) && Alias(n)[1..] == Digits(n);
    DigitsInjective(m, n);
  }

  lemma AliasIsEntryName(n: nat)
    ensures IsEntryName(Alias(n))
  {
    assert Alias(n)[0] == 0x6A;
  }

  /** What the table hands out: distinct new names, none of an original entry. */
  ghost predicate GoodAliases(table: map<Name, Name>, original: set<Name>) {
    && (forall t :: t in table ==> IsEntryName(table[t]) && table[t] !in original)
    && (forall t, u :: t in table && u in table && table[t] == table[u] ==> t == u)
  }

  class AliasTable {
    var reserved: set<Name>
    var byTarget: map<Name, Name>
    ghost const original: set<Name>

    ghost predicate Valid()
      reads this
    {
      && reserved == original + byTarget.Values
      && GoodAliases(byTarget, original)
    }

    constructor (names: set<Name>)
      ensures Valid() && original == names && byTarget == map[]
    {
      reserved, byTarget, original := names, map[], names;
    }

    /** `AliasTable.get`: a known target keeps its alias, a new one gets a name never used before. */
    method Get(target: Name) returns (alias: Name)
      requires Valid()
      modifies this
      ensures Valid()
      ensures old(byTarget.Keys) + {target} == byTarget.Keys
      ensures forall t :: t in old(byTarget) ==> byTarget[t] == old(byTarget)[t]
      ensures alias == byTarget[target] && byTarget == Aliased(old(byTarget), original, target)
    {
      hide Alias, IsEntryName, GoodAliases, FreeAlias, FirstFree;
      if target in byTarget { return byTarget[target]; }
      alias := FreshAlias(reserved, |byTarget|);
      ValuesAfterInsert(byTarget, target, alias);
      NewAliasKeepsGood(byTarget, original, target, alias);
      reserved := reserved + {alias};
      byTarget := byTarget[target := alias];
    }
  }

  lemma ValuesAfterInsert(m: map<Name, Name>, target: Name, alias: Name)
    requires target !in m
    ensures m[target := alias].Values == m.Values + {alias}
  {
    var n := m[target := alias];
    forall t | t in m ensures m[t] in n.Values { assert n[t] == m[t]; }
    assert n[target] == alias;
  }

  lemma NewAliasKeepsGood(table: map<Name, Name>, original: set<Name>, target: Name, alias: Name)
    requires GoodAliases(table, original) && target !in table
    requires IsEntryName(alias) && alias !in original && alias !in table.Values
    ensures GoodAliases(table[target := alias], original)
  {
    hide IsEntryName;
    assert forall t :: t in table ==> table[t] in table.Values;
  }

  /** The first of `j<from>`, `j<from + 1>`, ... that is not reserved. */
  ghost predicate FirstFree(reserved: set<Name>, from: nat, alias: Name) {
    && alias !in reserved
    && exists k: nat :: k >= from && alias == Alias(k) && forall i: nat :: from <= i < k ==> Alias(i) in reserved
  }

  /** The search of `get`: it ends because it can run into each reserved name only once. */
  method FreshAlias(reserved: set<Name>, from: nat) returns (alias: Name)
    ensures alias == FreeAlias(reserved, from) && alias !in reserved && IsEntryName(alias)
  {
    hide FreeAlias;
    var index: nat := from;
    ghost var tried: set<Name> := {};
    alias := Alias(index);
    while alias in reserved
      invariant index >= from && alias == Alias(index)
      invariant forall i: nat :: from <= i < index ==> Alias(i) in reserved
      invariant tried <= reserved && forall a :: a in tried ==> exists k: nat :: k < index && a == Alias(k)
      decreases |reserved - tried|
    {
      NotTriedYet(tried, index);
      assert reserved - tried == (reserved - (tried + {alias})) + {alias};
      tried := tried + {alias};
      index := index + 1;
      alias := Alias(index);
    }
    AliasIsEntryName(index);
    assert FirstFree(reserved, from, alias);
    FreeAliasExactly(reserved, from, alias);
  }

  /** The same search on values. */
  function FreeAlias(reserved: set<Name>, from: nat): Name
    decreases |reserved|
  {
    if Alias(from) in reserved then FreeAlias(reserved - {Alias(from)}, from + 1) else Alias(from)
  }

  lemma {:induction false} FreeAliasIsFirst(reserved: set<Name>, from: nat)
    ensures FirstFree(reserved, from, FreeAlias(reserved, from))
    decreases |reserved|
  {
    hide Alias;
    if Alias(from) in reserved {
      var left := reserved - {Alias(from)};
      FreeAliasIsFirst(left, from + 1);
      var k: nat :| k >= from + 1 && FreeAlias(left, from + 1) == Alias(k)
                    && forall i: nat :: from + 1 <= i < k ==> Alias(i) in left;
      if Alias(k) == Alias(from) { AliasInjective(k, from); }
      assert forall i: nat :: from <= i < k ==> Alias(i) in reserved;
    }
  }

  /** There is just one first free alias. */
  lemma FreeAliasExactly(reserved: set<Name>, from: nat, alias: Name)
    ensures FirstFree(reserved, from, alias) <==> alias == FreeAlias(reserved, from)
  {
    hide Alias, FreeAlias;
    FreeAliasIsFirst(reserved, from);
  }

  /** The table after `get`. */
  function Aliased(table: map<Name, Name>, original: set<Name>, target: Name): map<Name, Name> {
    if target in table then table else table[target := FreeAlias(original + table.Values, |table|)]
  }

  lemma NotTriedYet(tried: set<Name>, index: nat)
    requires forall a :: a in tried ==> exists k: nat :: k < index && a == Alias(k)
    ensures Alias(index) !in tried
  {
    if Alias(index) in tried {
      var k: nat :| k < index && Alias(index) == Alias(k);
      AliasInjective(k, index);
    }
  }

  // ---------------------------------------------------------------- load commands

  function Cmd(d: seq<Byte>, at: nat): int requires at + 8 <= |d| { U32(d, at) }

  function Size(d: seq<Byte>, at: nat): int requires at + 8 <= |d| { U32(d, at + 4) }

  /** The command at `at` passes the checks of the loop. */
  predicate CommandOk(d: seq<Byte>, at: nat) {
    && at + 8 <= |d| && 8 <= Size(d, at) && at + Size(d, at) <= |d|
    && (Cmd(d, at) in DEPENDENCY_COMMANDS ==> 24 <= Size(d, at) && 24 <= U32(d, at + 8) < Size(d, at))
  }

  predicate IsDependency(d: seq<Byte>, at: nat) {
    CommandOk(d, at) && Cmd(d, at) in DEPENDENCY_COMMANDS
  }

  function NameStart(d: seq<Byte>, at: nat): (start: nat)
    requires IsDependency(d, at)
    ensures at + 24 <= start < at + Size(d, at) <= |d|
  {
    at + U32(d, at + 8)
  }

  /** The bytes a dependency name may occupy. */
  function NameArea(d: seq<Byte>, at: nat): (area: seq<Byte>)
    requires IsDependency(d, at)
    ensures |area| == at + Size(d, at) - NameStart(d, at) > 0
  {
    d[NameStart(d, at)..at + Size(d, at)]
  }

  function NameAt(d: seq<Byte>, at: nat): seq<Byte>
    requires IsDependency(d, at)
  {
    CString(NameArea(d, at))
  }

  /** The file with a new name in the dependency at `at`. */
  function Renamed(d: seq<Byte>, at: nat, name: seq<Byte>): seq<Byte>
    requires IsDependency(d, at) && |name| + 1 <= |NameArea(d, at)|
  {
    d[..NameStart(d, at)] + Area(name, |NameArea(d, at)|) + d[at + Size(d, at)..]
  }

  /** Two files with the same first `m` bytes have the same commands there. */
  lemma CommandIsLocal(a: seq<Byte>, b: seq<Byte>, m: nat, at: nat)
    requires m <= |a| && m <= |b| && a[..m] == b[..m]
    requires CommandOk(a, at) && at + Size(a, at) <= m
    ensures CommandOk(b, at) && Cmd(a, at) == Cmd(b, at) && Size(a, at) == Size(b, at)
    ensures IsDependency(a, at) ==> NameStart(a, at) == NameStart(b, at) && NameArea(a, at) == NameArea(b, at)
    ensures a[at..at + Size(a, at)] == b[at..at + Size(a, at)]
  {
    assert forall i :: 0 <= i < m ==> a[i] == a[..m][i] == b[..m][i] == b[i];
    FieldsInWindow(a, b, 0, m);
  }

  lemma RenamedFrame(d: seq<Byte>, at: nat, name: seq<Byte>)
    requires IsDependency(d, at) && |name| + 1 <= |NameArea(d, at)| && 0 !in name
    ensures var r := Renamed(d, at, name);
            && |r| == |d| && r[..NameStart(d, at)] == d[..NameStart(d, at)]
            && r[at + Size(d, at)..] == d[at + Size(d, at)..]
            && r[NameStart(d, at)..at + Size(d, at)] == Area(name, |NameArea(d, at)|)
  {}

  lemma RenamedCommand(d: seq<Byte>, at: nat, name: seq<Byte>)
    requires IsDependency(d, at) && |name| + 1 <= |NameArea(d, at)| && 0 !in name
    ensures var r := Renamed(d, at, name);
            && IsDependency(r, at) && Cmd(r, at) == Cmd(d, at) && Size(r, at) == Size(d, at)
            && NameStart(r, at) == NameStart(d, at) && NameAt(r, at) == name
  {
    hide Renamed, Area, CString, U32;
    var r, start := Renamed(d, at, name), NameStart(d, at);
    RenamedFrame(d, at, name);
    FieldsInWindow(d, r, 0, start);
    assert U32(r, at) == U32(d, at) && U32(r, at + 4) == U32(d, at + 4) && U32(r, at + 8) == U32(d, at + 8);
    CStringOfArea(name, |NameArea(d, at)|);
  }

  // ---------------------------------------------------------------- what a dependency becomes

  function LoaderPath(n: Name): seq<Byte> {
    LOADER + n
  }

  predicate FitsIn(name: seq<Byte>, capacity: nat) {
    |name| + 1 <= capacity
  }

  /** The dependency needs an alias: its library is here, but its own name does not fit. */
  predicate NeedsAlias(name: seq<Byte>, capacity: nat, available: set<Name>) {
    BaseName(name) in available && !FitsIn(LoaderPath(BaseName(name)), capacity)
  }

  /** The aliases in `table` suffice for this dependency. */
  predicate Covered(name: seq<Byte>, capacity: nat, available: set<Name>, table: map<Name, Name>) {
    NeedsAlias(name, capacity, available) ==>
      BaseName(name) in table && FitsIn(LoaderPath(table[BaseName(name)]), capacity)
  }

  /** An alias is needed and known, and does not fit either. */
  predicate TooTight(name: seq<Byte>, capacity: nat, available: set<Name>, table: map<Name, Name>) {
    && NeedsAlias(name, capacity, available)
    && BaseName(name) in table && !FitsIn(LoaderPath(table[BaseName(name)]), capacity)
  }

  function Wanted(name: seq<Byte>, capacity: nat, available: set<Name>, table: map<Name, Name>): seq<Byte>
    requires Covered(name, capacity, available, table)
  {
    if BaseName(name) !in available then name
    else if NeedsAlias(name, capacity, available) then LoaderPath(table[BaseName(name)])
    else LoaderPath(BaseName(name))
  }

  ghost predicate AllEntryNames(names: set<Name>) {
    forall n :: n in names ==> IsEntryName(n)
  }

  lemma LoaderPathHasNoNul(n: Name)
    requires IsEntryName(n)
    ensures 0 !in LoaderPath(n)
  {
    assert forall i :: 0 <= i < 13 ==> LOADER[i] != 0;
  }

  /** The command stops the script: it is malformed, or no alias fits where one is needed. */
  predicate Refuses(d: seq<Byte>, at: nat, available: set<Name>, table: map<Name, Name>) {
    !CommandOk(d, at) || (IsDependency(d, at) && TooTight(NameAt(d, at), |NameArea(d, at)|, available, table))
  }

  /** The aliases issued once the command at `at` has had its turn. */
  function AfterCommand(d: seq<Byte>, at: nat, available: set<Name>, table: map<Name, Name>): map<Name, Name> {
    if IsDependency(d, at) && NeedsAlias(NameAt(d, at), |NameArea(d, at)|, available)
    then Aliased(table, available, BaseName(NameAt(d, at))) else table
  }

  /** One turn of the loop of `patch_one`. */
  method PatchCommand(d: seq<Byte>, at: nat, available: set<Name>, aliases: AliasTable)
    returns (ok: bool, r: seq<Byte>, changed: bool)
    requires aliases.Valid() && aliases.original == available && AllEntryNames(available)
    modifies aliases
    ensures aliases.Valid() && aliases.byTarget == AfterCommand(d, at, available, old(aliases.byTarget))
    ensures old(aliases.byTarget.Keys) <= aliases.byTarget.Keys <= old(aliases.byTarget.Keys) + available
    ensures forall t :: t in old(aliases.byTarget) ==> aliases.byTarget[t] == old(aliases.byTarget)[t]
    ensures ok ==> CommandOk(d, at)
    ensures ok <==> !Refuses(d, at, available, aliases.byTarget)
    ensures ok && !IsDependency(d, at) ==> r == d && !changed
    ensures ok && IsDependency(d, at) ==>
              && Covered(NameAt(d, at), |NameArea(d, at)|, available, aliases.byTarget)
              && var wanted := Wanted(NameAt(d, at), |NameArea(d, at)|, available, aliases.byTarget);
                 && (changed <==> wanted != NameAt(d, at))
                 && (changed ==> FitsIn(wanted, |NameArea(d, at)|) && 0 !in wanted && r == Renamed(d, at, wanted))
                 && (!changed ==> r == d)
  {
    hide BaseName, CString, Area, IsEntryName, LoaderPath, GoodAliases, Aliased;
    r, changed := d, false;
    if at + 8 > |d| { return false, r, changed; }
    var cmd, size := U32(d, at), U32(d, at + 4);
    if size < 8 || at + size > |d| { return false, r, changed; }
    if cmd !in DEPENDENCY_COMMANDS { return true, r, changed; }
    if size < 24 { return false, r, changed; }
    var nameOffset := U32(d, at + 8);
    if nameOffset < 24 || nameOffset >= size { return false, r, changed; }
    var capacity := size - nameOffset;
    var name := NameAt(d, at);
    var base := BaseName(name);
    if base !in available { return true, r, changed; }
    var replacement := LoaderPath(base);
    ghost var target := base;
    if !FitsIn(replacement, capacity) {
      var alias := aliases.Get(base);
      AliasFacts(aliases.byTarget, aliases.original, base);
      target := alias;
      replacement := LoaderPath(alias);
      if !FitsIn(replacement, capacity) { return false, r, changed; }
    }
    if replacement != name {
      LoaderPathHasNoNul(target);
      r, changed := Renamed(d, at, replacement), true;
    }
    return true, r, changed;
  }

  lemma AliasFacts(table: map<Name, Name>, original: set<Name>, base: Name)
    requires GoodAliases(table, original) && base in table
    ensures IsEntryName(table[base]) && table[base] !in original
  {}

  // ---------------------------------------------------------------- one file

  predicate IsMachO(d: seq<Byte>) {
    |d| >= 32 && U32(d, 0) == MH_MAGIC_64
  }

  /** `offs` are the positions of consecutive sound commands from byte 32 up to `end`. */
  ghost predicate IsWalk(d: seq<Byte>, offs: seq<nat>, end: nat) {
    if offs == [] then end == 32
    else
      var n := |offs| - 1;
      CommandOk(d, offs[n]) && end == offs[n] + Size(d, offs[n]) && IsWalk(d, offs[..n], offs[n])
  }

  lemma {:induction false} WalkBounds(d: seq<Byte>, offs: seq<nat>, end: nat)
    requires IsWalk(d, offs, end)
    ensures end >= 32
    ensures forall i :: 0 <= i < |offs| ==> 32 <= offs[i] && CommandOk(d, offs[i]) && offs[i] + Size(d, offs[i]) <= end
  {
    if offs != [] {
      var n := |offs| - 1;
      WalkBounds(d, offs[..n], offs[n]);
      forall i | 0 <= i < n
        ensures 32 <= offs[i] && CommandOk(d, offs[i]) && offs[i] + Size(d, offs[i]) <= end
      {
        assert offs[..n][i] == offs[i];
      }
    }
  }

  /** The aliases issued by `n` commands from `at` on, in order; none when one of them refuses. */
  function Commands(d: seq<Byte>, at: nat, n: nat, available: set<Name>, table: map<Name, Name>)
    : Option<map<Name, Name>>
    decreases n
  {
    if n == 0 then Some(table)
    else
      var next := AfterCommand(d, at, available, table);
      if Refuses(d, at, available, next) then None else Commands(d, at + Size(d, at), n - 1, available, next)
  }

  /** The libraries that some of `n` commands from `at` on need an alias for. */
  function Needs(d: seq<Byte>, at: nat, n: nat, available: set<Name>): set<Name>
    decreases n
  {
    if n == 0 || !CommandOk(d, at) then {}
    else Wants(d, at, available) + Needs(d, at + Size(d, at), n - 1, available)
  }

  /** The library the command at `at` needs an alias for, if it does. */
  function Wants(d: seq<Byte>, at: nat, available: set<Name>): set<Name> {
    if IsDependency(d, at) && NeedsAlias(NameAt(d, at), |NameArea(d, at)|, available)
    then {BaseName(NameAt(d, at))} else {}
  }

  /** Exactly the libraries needed get an alias. */
  lemma {:induction false} CommandsKeys(d: seq<Byte>, at: nat, n: nat, available: set<Name>, table: map<Name, Name>)
    ensures var t := Commands(d, at, n, available, table);
            t.Some? ==> t.value.Keys == table.Keys + Needs(d, at, n, available)
    decreases n
  {
    hide AfterCommand, Refuses, CommandOk, Size, Wants, Commands, Needs;
    if n == 0 {
      NoMoreCommands(d, at, available, table);
      NeedsUnfolds(d, at, n, available);
    } else {
      OneCommand(d, at, n, available, table);
      AfterKeys(d, at, available, table);
      NeedsUnfolds(d, at, n, available);
      var next := AfterCommand(d, at, available, table);
      if !Refuses(d, at, available, next) { CommandsKeys(d, at + Size(d, at), n - 1, available, next); }
    }
  }

  lemma AfterKeys(d: seq<Byte>, at: nat, available: set<Name>, table: map<Name, Name>)
    ensures AfterCommand(d, at, available, table).Keys == table.Keys + Wants(d, at, available)
  {
    hide U32, CString, BaseName, FreeAlias, NeedsAlias, IsDependency;
  }

  lemma NeedsUnfolds(d: seq<Byte>, at: nat, n: nat, available: set<Name>)
    ensures n == 0 ==> Needs(d, at, n, available) == {}
    ensures n > 0 && CommandOk(d, at) ==>
              && at + Size(d, at) >= 0
              && Needs(d, at, n, available) == Wants(d, at, available) + Needs(d, at + Size(d, at), n - 1, available)
  {
    hide U32, Wants;
  }

  function FileNeeds(d: seq<Byte>, available: set<Name>): set<Name> {
    if IsMachO(d) then Needs(d, 32, U32(d, 16), available) else {}
  }

  lemma FileKeys(d: seq<Byte>, available: set<Name>, table: map<Name, Name>)
    ensures var t := AfterFile(d, available, table);
            t.Some? ==> t.value.Keys == table.Keys + FileNeeds(d, available)
  {
    hide Commands, Needs;
    if IsMachO(d) { CommandsKeys(d, 32, U32(d, 16), available, table); }
  }

  /** The aliases issued after a whole file: this alone decides whether `patch_one` gets through. */
  function AfterFile(d: seq<Byte>, available: set<Name>, table: map<Name, Name>): Option<map<Name, Name>> {
    if !IsMachO(d) then Some(table)
    else if 32 + U32(d, 20) > |d| then None
    else Commands(d, 32, U32(d, 16), available, table)
  }

  /** The command at `at` keeps its kind, its size and all bytes but the name area. */
  ghost predicate SameShape(d: seq<Byte>, r: seq<Byte>, at: nat) {
    && CommandOk(d, at) && CommandOk(r, at)
    && Cmd(r, at) == Cmd(d, at) && Size(r, at) == Size(d, at)
    && (!IsDependency(d, at) ==> r[at..at + Size(d, at)] == d[at..at + Size(d, at)])
    && (IsDependency(d, at) ==>
          NameStart(r, at) == NameStart(d, at) && r[at..NameStart(d, at)] == d[at..NameStart(d, at)])
  }

  /** A name area holds the wanted name, and is untouched if it did before. */
  ghost predicate RightName(area: seq<Byte>, area': seq<Byte>, available: set<Name>, table: map<Name, Name>) {
    var name, name' := CString(area), CString(area');
    && |area'| == |area|
    && Covered(name, |area|, available, table)
    && name' == Wanted(name, |area|, available, table)
    && (name' == name ==> area' == area)
    && (name' != name ==> FitsIn(name', |area|))
  }

  ghost predicate Repaired(d: seq<Byte>, r: seq<Byte>, at: nat, available: set<Name>, table: map<Name, Name>) {
    && SameShape(d, r, at)
    && (IsDependency(d, at) ==> RightName(NameArea(d, at), NameArea(r, at), available, table))
  }

  /** The whole file: same length, same walk, nothing changed but the names. */
  ghost predicate Rewritten(d: seq<Byte>, r: seq<Byte>, offs: seq<nat>, end: nat,
                            available: set<Name>, table: map<Name, Name>)
  {
    && IsWalk(d, offs, end) && 32 <= end <= |d| == |r|
    && r[..32] == d[..32] && r[end..] == d[end..]
    && forall i :: 0 <= i < |offs| ==> Repaired(d, r, offs[i], available, table)
  }

  /** What `patch_one` makes of a file it does not refuse. */
  ghost predicate Patched(d: seq<Byte>, r: seq<Byte>, available: set<Name>, table: map<Name, Name>) {
    if !IsMachO(d) then r == d
    else
      && 32 + U32(d, 20) <= |d|
      && exists offs, end :: |offs| == U32(d, 16) && Rewritten(d, r, offs, end, available, table)
  }

  predicate Extends(table: map<Name, Name>, more: map<Name, Name>) {
    forall t :: t in table ==> t in more && more[t] == table[t]
  }

  lemma SameShapeStays(d: seq<Byte>, a: seq<Byte>, b: seq<Byte>, m: nat, at: nat)
    requires SameShape(d, a, at)
    requires m <= |a| && m <= |b| && a[..m] == b[..m] && at + Size(d, at) <= m
    ensures SameShape(d, b, at) && (IsDependency(d, at) ==> NameArea(b, at) == NameArea(a, at))
  {
    hide U32;
    CommandIsLocal(a, b, m, at);
    if IsDependency(d, at) {
      var n := NameStart(d, at) - at;
      SliceOfSlice(a, at, Size(a, at), 0, n);
      SliceOfSlice(b, at, Size(a, at), 0, n);
    }
  }

  /** A command stays repaired when later commands change and the table grows. */
  lemma RepairedStays(d: seq<Byte>, a: seq<Byte>, b: seq<Byte>, m: nat, at: nat,
                      available: set<Name>, table: map<Name, Name>, more: map<Name, Name>)
    requires Repaired(d, a, at, available, table) && Extends(table, more)
    requires m <= |a| && m <= |b| && a[..m] == b[..m] && at + Size(d, at) <= m
    ensures Repaired(d, b, at, available, more)
  {
    SameShapeStays(d, a, b, m, at);
    hide RightName, U32, SameShape, Extends;
    if IsDependency(d, at) { RightNameStays(NameArea(d, at), NameArea(a, at), available, table, more); }
  }

  lemma RightNameStays(area: seq<Byte>, area': seq<Byte>, available: set<Name>,
                       table: map<Name, Name>, more: map<Name, Name>)
    requires RightName(area, area', available, table) && Extends(table, more)
    ensures RightName(area, area', available, more)
  {}

  /** A whole file stays rewritten when the table grows. */
  lemma PatchedStays(d: seq<Byte>, r: seq<Byte>, available: set<Name>, table: map<Name, Name>, more: map<Name, Name>)
    requires Patched(d, r, available, table) && Extends(table, more)
    ensures Patched(d, r, available, more)
  {
    if IsMachO(d) {
      var offs, end :| |offs| == U32(d, 16) && Rewritten(d, r, offs, end, available, table);
      WalkBounds(d, offs, end);
      forall i | 0 <= i < |offs| ensures Repaired(d, r, offs[i], available, more) {
        RepairedStays(d, r, r, |r|, offs[i], available, table, more);
      }
      assert Rewritten(d, r, offs, end, available, more);
    }
  }

  /** One command more. */
  lemma RewrittenGrows(d: seq<Byte>, a: seq<Byte>, b: seq<Byte>, offs: seq<nat>, at: nat,
                       available: set<Name>, table: map<Name, Name>, more: map<Name, Name>)
    requires Rewritten(d, a, offs, at, available, table) && Extends(table, more)
    requires CommandOk(d, at) && |b| == |a| && b[..at] == a[..at]
    requires b[at + Size(d, at)..] == a[at + Size(d, at)..]
    requires Repaired(d, b, at, available, more)
    ensures Rewritten(d, b, offs + [at], at + Size(d, at), available, more)
  {
    var end := at + Size(d, at);
    assert at <= end <= |d|;
    hide CommandOk, Repaired;
    WalkBounds(d, offs, at);
    assert (offs + [at])[..|offs|] == offs;
    forall i | 0 <= i < |offs| ensures Repaired(d, b, offs[i], available, more) {
      RepairedStays(d, a, b, at, offs[i], available, table, more);
    }
    assert b[..32] == b[..at][..32] && a[..32] == a[..at][..32];
    assert a[end..] == a[at..][end - at..] && d[end..] == d[at..][end - at..];
  }

  /** The dependency at `at` already reads as it should. */
  ghost predicate Kept(d: seq<Byte>, at: nat, available: set<Name>, table: map<Name, Name>) {
    IsDependency(d, at) ==>
      && Covered(NameAt(d, at), |NameArea(d, at)|, available, table)
      && Wanted(NameAt(d, at), |NameArea(d, at)|, available, table) == NameAt(d, at)
  }

  lemma KeptStays(d: seq<Byte>, r: seq<Byte>, at: nat, available: set<Name>,
                  table: map<Name, Name>, more: map<Name, Name>)
    requires Repaired(d, r, at, available, table) && Extends(table, more)
    ensures Kept(d, at, available, table) <==> Kept(d, at, available, more)
  {
    hide BaseName, CString, LoaderPath, U32;
  }

  /** What `PatchCommand` returns repairs the command it was given. */
  lemma CommandRepaired(d: seq<Byte>, a: seq<Byte>, b: seq<Byte>, at: nat, available: set<Name>, table: map<Name, Name>)
    requires |a| == |d| && at <= |d| && a[at..] == d[at..] && CommandOk(a, at)
    requires !IsDependency(a, at) ==> b == a
    requires IsDependency(a, at) ==>
               && Covered(NameAt(a, at), |NameArea(a, at)|, available, table)
               && var wanted := Wanted(NameAt(a, at), |NameArea(a, at)|, available, table);
                  if wanted == NameAt(a, at) then b == a
                  else FitsIn(wanted, |NameArea(a, at)|) && 0 !in wanted && b == Renamed(a, at, wanted)
    ensures CommandOk(d, at) && at + 8 <= at + Size(d, at) <= |d|
    ensures Size(d, at) == Size(a, at) && (IsDependency(d, at) <==> IsDependency(a, at))
    ensures IsDependency(d, at) ==> NameArea(d, at) == NameArea(a, at)
    ensures Repaired(d, b, at, available, table)
    ensures |b| == |d| && b[..at] == a[..at] && b[at + Size(d, at)..] == a[at + Size(d, at)..]
  {
    hide U32, CString, BaseName, LoaderPath;
    SuffixCommand(d, a, at);
    if IsDependency(a, at) {
      var wanted := Wanted(NameAt(a, at), |NameArea(a, at)|, available, table);
      if wanted != NameAt(a, at) {
        RenamedFrame(a, at, wanted);
        RenamedCommand(a, at, wanted);
        RenamedHeader(a, at, wanted);
      }
    }
    hide Wanted, Covered, Renamed, FitsIn;
  }

  lemma SuffixCommand(d: seq<Byte>, a: seq<Byte>, at: nat)
    requires |a| == |d| && at <= |d| && a[at..] == d[at..] && CommandOk(a, at)
    ensures CommandOk(d, at) && Size(d, at) == Size(a, at) && Cmd(d, at) == Cmd(a, at)
    ensures a[at..at + Size(a, at)] == d[at..at + Size(a, at)]
    ensures IsDependency(d, at) ==>
              && NameStart(d, at) == NameStart(a, at) && NameArea(d, at) == NameArea(a, at)
              && a[at..NameStart(a, at)] == d[at..NameStart(a, at)]
  {
    assert forall i :: at <= i < |d| ==> a[i] == a[at..][i - at] == d[at..][i - at] == d[i];
  }

  lemma RenamedHeader(d: seq<Byte>, at: nat, name: seq<Byte>)
    requires IsDependency(d, at) && |name| + 1 <= |NameArea(d, at)| && 0 !in name
    ensures var r := Renamed(d, at, name);
            && r[..at] == d[..at] && |r| == |d|
            && r[at..NameStart(d, at)] == d[at..NameStart(d, at)]
  {
    var r, start := Renamed(d, at, name), NameStart(d, at);
    RenamedFrame(d, at, name);
    hide Renamed;
    assert forall i :: 0 <= i < start ==> r[i] == r[..start][i] == d[..start][i] == d[i];
  }

  ghost predicate AllKept(d: seq<Byte>, offs: seq<nat>, available: set<Name>, table: map<Name, Name>) {
    forall i :: 0 <= i < |offs| ==> Kept(d, offs[i], available, table)
  }

  lemma AllKeptGrows(d: seq<Byte>, r: seq<Byte>, offs: seq<nat>, at: nat,
                     available: set<Name>, table: map<Name, Name>, more: map<Name, Name>)
    requires Rewritten(d, r, offs, at, available, table) && Extends(table, more)
    ensures AllKept(d, offs + [at], available, more) <==>
              AllKept(d, offs, available, table) && Kept(d, at, available, more)
  {
    hide Kept, Repaired, IsWalk;
    forall i | 0 <= i < |offs|
      ensures Kept(d, offs[i], available, table) <==> Kept(d, offs[i], available, more)
    {
      KeptStays(d, r, offs[i], available, table, more);
    }
    assert forall i :: 0 <= i < |offs| ==> (offs + [at])[i] == offs[i];
    assert (offs + [at])[|offs|] == at;
  }

  lemma KeptNow(d: seq<Byte>, a: seq<Byte>, at: nat, available: set<Name>, table: map<Name, Name>)
    requires CommandOk(d, at) && (IsDependency(d, at) <==> IsDependency(a, at))
    requires IsDependency(d, at) ==> NameArea(d, at) == NameArea(a, at)
    requires IsDependency(a, at) ==> Covered(NameAt(a, at), |NameArea(a, at)|, available, table)
    ensures Kept(d, at, available, table) <==>
              (IsDependency(a, at) ==> Wanted(NameAt(a, at), |NameArea(a, at)|, available, table) == NameAt(a, at))
  {
    hide Wanted, Covered, U32, CString;
  }

  /**
   `patch_one`. What it does not refuse it rewrites as `Patched` says; it reports zero
   changes exactly when every dependency already read as wanted, and then returns the
   file as it was. Whether it refuses, and which aliases it issues, is `AfterFile`.
   */
  method PatchOne(d: seq<Byte>, available: set<Name>, aliases: AliasTable)
    returns (ok: bool, r: seq<Byte>, changed: nat, ghost offs: seq<nat>, ghost end: nat)
    requires aliases.Valid() && aliases.original == available && AllEntryNames(available)
    modifies aliases
    ensures ok <==> AfterFile(d, available, old(aliases.byTarget)).Some?
    ensures ok ==> Some(aliases.byTarget) == AfterFile(d, available, old(aliases.byTarget))
    ensures aliases.Valid() && Extends(old(aliases.byTarget), aliases.byTarget)
    ensures aliases.byTarget.Keys <= old(aliases.byTarget.Keys) + available
    ensures ok ==> Patched(d, r, available, aliases.byTarget) && (changed == 0 ==> r == d)
    ensures !ok ==> Refused(d, offs, end, available, aliases.byTarget)
    ensures ok && !IsMachO(d) ==> changed == 0
    ensures ok && IsMachO(d) ==>
              && 32 + U32(d, 20) <= |d|
              && |offs| == U32(d, 16) && Rewritten(d, r, offs, end, available, aliases.byTarget)
              && (changed == 0 <==> AllKept(d, offs, available, aliases.byTarget))
  {
    hide Repaired, Kept, AllKept, Wanted, Covered, U32, GoodAliases, AllEntryNames, IsWalk, CommandOk, Size, NameAt,
      NameArea, IsDependency, Renamed, Refuses, AfterCommand, Commands;
    r, changed, offs, end := d, 0, [], 32;
    if |d| < 32 || U32(d, 0) != MH_MAGIC_64 { return true, r, changed, offs, end; }
    if 32 + U32(d, 20) > |d| { return false, r, changed, offs, end; }
    NoCommandsYet(d, available, aliases.byTarget);
    var commands: nat := U32(d, 16);
    var offset: nat := 32;
    var k := 0;
    while k < commands
      invariant |offs| == k <= commands
      invariant end == offset && Rewritten(d, r, offs, offset, available, aliases.byTarget)
      invariant aliases.Valid() && Extends(old(aliases.byTarget), aliases.byTarget)
      invariant aliases.byTarget.Keys <= old(aliases.byTarget.Keys) + available
      invariant changed == 0 <==> AllKept(d, offs, available, aliases.byTarget)
      invariant changed == 0 ==> r == d
      invariant Commands(d, 32, commands, available, old(aliases.byTarget)) ==
                Commands(d, offset, commands - k, available, aliases.byTarget)
    {
      ghost var before := aliases.byTarget;
      var fine, next, rewrote := PatchCommand(r, offset, available, aliases);
      SameCommand(d, r, offset, available, before);
      OneCommand(d, offset, commands - k, available, before);
      if !fine {
        return false, r, changed, offs, end;
      }
      ghost var table := aliases.byTarget;
      CommandRepaired(d, r, next, offset, available, table);
      RewrittenGrows(d, r, next, offs, offset, available, before, table);
      AllKeptGrows(d, r, offs, offset, available, before, table);
      KeptNow(d, r, offset, available, table);
      offs := offs + [offset];
      offset := offset + Size(d, offset);
      end := offset;
      r := next;
      if rewrote { changed := changed + 1; }
      k := k + 1;
    }
    NoMoreCommands(d, offset, available, aliases.byTarget);
    return true, r, changed, offs, end;
  }

  /** Why a file is refused: its header is truncated, or a command before the last one due refuses. */
  ghost predicate Refused(d: seq<Byte>, offs: seq<nat>, end: nat, available: set<Name>, table: map<Name, Name>) {
    && IsMachO(d)
    && (32 + U32(d, 20) <= |d| ==> |offs| < U32(d, 16) && IsWalk(d, offs, end) && Refuses(d, end, available, table))
  }

  /** The rewritten file and the original show the loop the same command. */
  lemma SameCommand(d: seq<Byte>, a: seq<Byte>, at: nat, available: set<Name>, table: map<Name, Name>)
    requires |a| == |d| && at <= |d| && a[at..] == d[at..]
    ensures AfterCommand(a, at, available, table) == AfterCommand(d, at, available, table)
    ensures var t := AfterCommand(d, at, available, table);
            Refuses(a, at, available, t) <==> Refuses(d, at, available, t)
  {
    hide U32, TooTight, CString, Aliased, NeedsAlias, BaseName;
    if CommandOk(a, at) {
      SuffixCommand(d, a, at);
    } else if CommandOk(d, at) {
      SuffixCommand(a, d, at);
    }
  }

  lemma OneCommand(d: seq<Byte>, at: nat, n: nat, available: set<Name>, table: map<Name, Name>)
    requires n > 0
    ensures var next := AfterCommand(d, at, available, table);
            if Refuses(d, at, available, next) then Commands(d, at, n, available, table) == None
            else CommandOk(d, at) && at + 8 <= |d| && at + Size(d, at) >= 0
                 && Commands(d, at, n, available, table) == Commands(d, at + Size(d, at), n - 1, available, next)
  {
    hide U32, TooTight, CString, AfterCommand, BaseName;
  }

  lemma NoMoreCommands(d: seq<Byte>, at: nat, available: set<Name>, table: map<Name, Name>)
    ensures Commands(d, at, 0, available, table) == Some(table)
  {}

  lemma NoCommandsYet(d: seq<Byte>, available: set<Name>, table: map<Name, Name>)
    requires |d| >= 32
    ensures Rewritten(d, d, [], 32, available, table) && AllKept(d, [], available, table) && U32(d, 16) >= 0
  {}
}
