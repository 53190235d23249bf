/**
 The whole run of scripts/patch-bundled-dylib-paths.py over a directory of libraries,
 and what a second run finds.
 */
module DylibBundle {
  import opened Bytes
  import opened DylibPaths

  // ---------------------------------------------------------------- a second run

  lemma {:induction false} WalkUnique(d: seq<Byte>, offs: seq<nat>, end: nat, offs': seq<nat>, end': nat)
    requires IsWalk(d, offs, end) && IsWalk(d, offs', end') && |offs| == |offs'|
    ensures offs == offs' && end == end'
  {
    hide CommandOk, Size;
    if offs != [] {
      var n := |offs| - 1;
      WalkUnique(d, offs[..n], offs[n], offs'[..n], offs'[n]);
      assert offs == offs[..n] + [offs[n]] && offs' == offs'[..n] + [offs'[n]];
    }
  }

  lemma {:induction false} WalkPrefix(d: seq<Byte>, offs: seq<nat>, end: nat, m: nat)
    requires IsWalk(d, offs, end) && m < |offs|
    ensures IsWalk(d, offs[..m], offs[m]) && CommandOk(d, offs[m])
  {
    hide CommandOk, Size;
    var n := |offs| - 1;
    if m < n {
      WalkPrefix(d, offs[..n], offs[n], m);
      assert offs[..n][..m] == offs[..m];
    }
  }

  /** Where command `i` of a walk stands; the end of the walk after the last. */
  function Position(offs: seq<nat>, end: nat, i: nat): nat {
    if i < |offs| then offs[i] else end
  }

  lemma {:induction false} WalkStep(d: seq<Byte>, offs: seq<nat>, end: nat, i: nat)
    requires IsWalk(d, offs, end)
    ensures Position(offs, end, 0) == 32
    ensures i < |offs| ==> CommandOk(d, offs[i]) && Position(offs, end, i + 1) == offs[i] + Size(d, offs[i])
  {
    hide CommandOk, Size;
    if offs != [] {
      var n := |offs| - 1;
      WalkStep(d, offs[..n], offs[n], i);
    }
  }

  /** Patching keeps the walk. */
  lemma {:induction false} WalkKept(d: seq<Byte>, r: seq<Byte>, offs: seq<nat>, end: nat)
    requires IsWalk(d, offs, end)
    requires forall i :: 0 <= i < |offs| ==> SameShape(d, r, offs[i])
    ensures IsWalk(r, offs, end)
  {
    if offs != [] {
      var n := |offs| - 1;
      assert SameShape(d, r, offs[n]);
      assert forall i :: 0 <= i < n ==> offs[..n][i] == offs[i];
      WalkKept(d, r, offs[..n], offs[n]);
    }
  }

  /** Nothing is left to do for a name: its library is elsewhere, or it is reached directly. */
  predicate Settled(name: seq<Byte>, capacity: nat, available: set<Name>) {
    BaseName(name) in available ==>
      FitsIn(LoaderPath(BaseName(name)), capacity) && name == LoaderPath(BaseName(name))
  }

  /** With honest aliases, a name is what is wanted exactly when it is settled. */
  lemma SettledExactly(name: seq<Byte>, capacity: nat, available: set<Name>, table: map<Name, Name>)
    requires Covered(name, capacity, available, table)
    requires GoodAliases(table, available)
    ensures Wanted(name, capacity, available, table) == name <==> Settled(name, capacity, available)
  {
    if NeedsAlias(name, capacity, available) {
      BaseNameOfLoaderPath(table[BaseName(name)]);
    }
    hide BaseName;
  }

  /** The first run left this dependency alone although it carries the name of an alias. */
  predicate Clashes(name: seq<Byte>, capacity: nat, table: map<Name, Name>) {
    BaseName(name) in table.Values && !(name == LoaderPath(BaseName(name)) && FitsIn(name, capacity))
  }

  lemma SecondLook(name: seq<Byte>, capacity: nat, available: set<Name>, table: map<Name, Name>)
    requires Covered(name, capacity, available, table)
    requires AllEntryNames(available) && GoodAliases(table, available)
    ensures Settled(Wanted(name, capacity, available, table), capacity, available + table.Values) <==>
              !Clashes(name, capacity, table)
  {
    var base := BaseName(name);
    if base in available {
      var x := if NeedsAlias(name, capacity, available) then table[base] else base;
      BaseNameOfLoaderPath(x);
      assert base !in table.Values;
    }
    hide BaseName;
  }

  /** Dependency `at` of `d` clashes with an alias issued in the first run. */
  ghost predicate ClashAt(d: seq<Byte>, at: nat, table: map<Name, Name>) {
    IsDependency(d, at) && Clashes(NameAt(d, at), |NameArea(d, at)|, table)
  }

  ghost predicate SettledAt(r: seq<Byte>, at: nat, available: set<Name>) {
    IsDependency(r, at) ==> Settled(NameAt(r, at), |NameArea(r, at)|, available)
  }

  lemma SettledAfterPatch(d: seq<Byte>, r: seq<Byte>, at: nat, available: set<Name>, table: map<Name, Name>)
    requires Repaired(d, r, at, available, table)
    requires AllEntryNames(available) && GoodAliases(table, available)
    ensures SettledAt(r, at, available + table.Values) <==> !ClashAt(d, at, table)
  {
    if IsDependency(d, at) {
      SecondLook(NameAt(d, at), |NameArea(d, at)|, available, table);
    }
    hide Settled, Clashes, Wanted, Covered, U32;
  }

  lemma KeptIfSettled(r: seq<Byte>, r2: seq<Byte>, at: nat, available: set<Name>, table: map<Name, Name>)
    requires Repaired(r, r2, at, available, table) && GoodAliases(table, available)
    ensures Kept(r, at, available, table) <==> SettledAt(r, at, available)
  {
    if IsDependency(r, at) {
      SettledExactly(NameAt(r, at), |NameArea(r, at)|, available, table);
    }
    hide Settled, Wanted, Covered, U32;
  }

  lemma MoreEntryNames(available: set<Name>, table: map<Name, Name>)
    requires AllEntryNames(available) && GoodAliases(table, available)
    ensures AllEntryNames(available + table.Values)
  {
    hide IsEntryName;
    forall n | n in table.Values ensures IsEntryName(n) {
      var t :| t in table && table[t] == n;
    }
  }

  lemma Unchanged(d: seq<Byte>, r: seq<Byte>, available: set<Name>, table: map<Name, Name>)
    requires Patched(d, r, available, table)
    ensures IsMachO(d) <==> IsMachO(r)
    ensures !IsMachO(d) ==> r == d
    ensures IsMachO(d) ==> |r| == |d| && U32(r, 16) == U32(d, 16) && U32(r, 20) == U32(d, 20)
  {
    if IsMachO(d) {
      var offs, end :| |offs| == U32(d, 16) && Rewritten(d, r, offs, end, available, table);
      FieldsInWindow(d, r, 0, 32);
      assert d[0..32] == d[..32];
    }
    hide U16, IsWalk, Repaired;
  }

  lemma SameWalk(d: seq<Byte>, r: seq<Byte>, offs: seq<nat>, end: nat, available: set<Name>, table: map<Name, Name>)
    requires Rewritten(d, r, offs, end, available, table)
    ensures IsWalk(d, offs, end) && IsWalk(r, offs, end)
  {
    hide SameShape, IsWalk, RightName;
    WalkKept(d, r, offs, end);
  }

  /** With the aliases in `table`, a file is patched or refused, never both. */
  lemma PatchedIsNotRefused(d: seq<Byte>, r: seq<Byte>, offs: seq<nat>, end: nat, available: set<Name>,
                            table: map<Name, Name>)
    requires Patched(d, r, available, table)
    ensures !Refused(d, offs, end, available, table)
  {
    hide Repaired, IsWalk, CommandOk, U32, Refuses;
    if Refused(d, offs, end, available, table) {
      var offs', end' :| |offs'| == U32(d, 16) && Rewritten(d, r, offs', end', available, table);
      var m := |offs|;
      WalkPrefix(d, offs', end', m);
      WalkUnique(d, offs'[..m], offs'[m], offs, end);
      RepairedDoesNotRefuse(d, r, offs'[m], available, table);
    }
  }

  lemma RepairedDoesNotRefuse(d: seq<Byte>, r: seq<Byte>, at: nat, available: set<Name>, table: map<Name, Name>)
    requires CommandOk(d, at) && Repaired(d, r, at, available, table)
    ensures !Refuses(d, at, available, table)
  {
    hide U32, BaseName, CString;
  }

  // ---------------------------------------------------------------- a second run on one file

  /** Some dependency of `d` clashes with an alias in `table`. */
  ghost predicate Clashing(d: seq<Byte>, table: map<Name, Name>) {
    IsMachO(d) && exists offs, end, i ::
      IsWalk(d, offs, end) && |offs| == U32(d, 16) && 0 <= i < |offs| && ClashAt(d, offs[i], table)
  }

  /** Where every command is settled, nothing is refused and no alias is issued. */
  lemma {:induction false} SettledCommands(r: seq<Byte>, offs: seq<nat>, end: nat, i: nat, available: set<Name>,
                                           table: map<Name, Name>)
    requires IsWalk(r, offs, end) && i <= |offs|
    requires forall j :: 0 <= j < |offs| ==> SettledAt(r, offs[j], available)
    ensures Commands(r, Position(offs, end, i), |offs| - i, available, table) == Some(table)
    decreases |offs| - i
  {
    hide IsWalk, SettledAt, Commands;
    WalkStep(r, offs, end, i);
    if i < |offs| {
      SettledDoesNothing(r, offs[i], available, table);
      OneCommand(r, offs[i], |offs| - i, available, table);
      SettledCommands(r, offs, end, i + 1, available, table);
    } else {
      NoMoreCommands(r, end, available, table);
    }
  }

  lemma SettledDoesNothing(r: seq<Byte>, at: nat, available: set<Name>, table: map<Name, Name>)
    requires CommandOk(r, at) && SettledAt(r, at, available)
    ensures AfterCommand(r, at, available, table) == table && !Refuses(r, at, available, table)
  {
    hide U32, BaseName, CString;
  }

  /** A file in which every name is kept is kept. */
  lemma {:induction false} KeptBytes(d: seq<Byte>, r: seq<Byte>, offs: seq<nat>, end: nat, i: nat,
                                     available: set<Name>, table: map<Name, Name>)
    requires Rewritten(d, r, offs, end, available, table) && AllKept(d, offs, available, table) && i <= |offs|
    ensures Position(offs, end, i) <= |d| && r[..Position(offs, end, i)] == d[..Position(offs, end, i)]
  {
    hide Repaired, Kept, IsWalk;
    WalkStep(d, offs, end, i);
    if i > 0 {
      KeptBytes(d, r, offs, end, i - 1, available, table);
      WalkStep(d, offs, end, i - 1);
      KeptCommand(d, r, offs[i - 1], available, table);
    }
  }

  lemma KeptCommand(d: seq<Byte>, r: seq<Byte>, at: nat, available: set<Name>, table: map<Name, Name>)
    requires |r| == |d| && at <= |d| && r[..at] == d[..at]
    requires Repaired(d, r, at, available, table) && Kept(d, at, available, table)
    ensures at + 8 <= |d| && 0 <= at + Size(d, at) <= |d| && r[..at + Size(d, at)] == d[..at + Size(d, at)]
  {
    hide U32, CString, Wanted, Covered;
    var end := at + Size(d, at);
    if IsDependency(d, at) {
      SlicesJoin(r, at, NameStart(d, at), end);
      SlicesJoin(d, at, NameStart(d, at), end);
    } else {
      SlicesJoin(r, at, end, end);
      SlicesJoin(d, at, end, end);
    }
  }

  lemma KeptFile(d: seq<Byte>, r: seq<Byte>, offs: seq<nat>, end: nat, available: set<Name>, table: map<Name, Name>)
    requires Rewritten(d, r, offs, end, available, table) && AllKept(d, offs, available, table)
    ensures r == d
  {
    hide Repaired, Kept, IsWalk;
    KeptBytes(d, r, offs, end, |offs|, available, table);
    assert r == r[..end] + r[end..] && d == d[..end] + d[end..];
  }

  /** The walk of a patched file, settled for the next run exactly where it does not clash. */
  lemma SettledWalk(d: seq<Byte>, r: seq<Byte>, available: set<Name>, table: map<Name, Name>)
    returns (offs: seq<nat>, end: nat)
    requires Patched(d, r, available, table) && IsMachO(d)
    requires AllEntryNames(available) && GoodAliases(table, available)
    ensures IsMachO(r) && |r| == |d| && U32(r, 20) == U32(d, 20) && 32 + U32(d, 20) <= |d|
    ensures |offs| == U32(d, 16) == U32(r, 16) && IsWalk(d, offs, end) && IsWalk(r, offs, end)
    ensures forall i :: 0 <= i < |offs| ==>
              (SettledAt(r, offs[i], available + table.Values) <==> !ClashAt(d, offs[i], table))
  {
    hide Repaired, IsWalk, AllEntryNames, GoodAliases, SettledAt, ClashAt, U32;
    Unchanged(d, r, available, table);
    offs, end :| |offs| == U32(d, 16) && Rewritten(d, r, offs, end, available, table);
    SameWalk(d, r, offs, end, available, table);
    forall i | 0 <= i < |offs|
      ensures SettledAt(r, offs[i], available + table.Values) <==> !ClashAt(d, offs[i], table)
    {
      SettledAfterPatch(d, r, offs[i], available, table);
    }
  }

  /** What a second run does to a patched file: nothing if it does not clash... */
  lemma SecondRunQuiet(d: seq<Byte>, r: seq<Byte>, available: set<Name>, table: map<Name, Name>)
    requires Patched(d, r, available, table) && AllEntryNames(available) && GoodAliases(table, available)
    requires !Clashing(d, table)
    ensures AfterFile(r, available + table.Values, map[]) == Some(map[])
  {
    hide Patched, IsWalk, AllEntryNames, GoodAliases, SettledAt, ClashAt, U32, Commands;
    Untouched(d, r, available, table);
    if IsMachO(d) {
      var offs, end := SettledWalk(d, r, available, table);
      SettledCommands(r, offs, end, 0, available + table.Values, map[]);
      WalkStep(r, offs, end, 0);
    }
  }

  lemma Untouched(d: seq<Byte>, r: seq<Byte>, available: set<Name>, table: map<Name, Name>)
    requires Patched(d, r, available, table)
    ensures !IsMachO(d) ==> r == d
  {
    hide U32, Rewritten;
  }

  /** ...and exactly then: whatever aliases it would use, it leaves the bytes alone if and only if none clashes. */
  lemma SecondRunExactly(d: seq<Byte>, r: seq<Byte>, r2: seq<Byte>, available: set<Name>, table: map<Name, Name>,
                         table2: map<Name, Name>)
    requires Patched(d, r, available, table) && AllEntryNames(available) && GoodAliases(table, available)
    requires Patched(r, r2, available + table.Values, table2) && GoodAliases(table2, available + table.Values)
    ensures r2 == r <==> !Clashing(d, table)
  {
    hide Patched, IsWalk, AllEntryNames, GoodAliases, SettledAt, ClashAt, U32, Repaired, Kept;
    var more := available + table.Values;
    Untouched(d, r, available, table);
    Untouched(r, r2, more, table2);
    if IsMachO(d) {
      var offs, end := SettledWalk(d, r, available, table);
      var offs2, end2 := RewrittenWalk(r, r2, more, table2);
      WalkUnique(r, offs, end, offs2, end2);
      forall i | 0 <= i < |offs| ensures Kept(r, offs[i], more, table2) <==> !ClashAt(d, offs[i], table) {
        KeptIfSettled(r, r2, offs[i], more, table2);
      }
      if AllKept(r, offs, more, table2) { KeptFile(r, r2, offs, end, more, table2); }
      if r2 == r { SameNamesKept(r, offs, end, more, table2); }
      SameClashes(d, offs, end, table);
    }
  }

  lemma RewrittenWalk(d: seq<Byte>, r: seq<Byte>, available: set<Name>, table: map<Name, Name>)
    returns (offs: seq<nat>, end: nat)
    requires Patched(d, r, available, table) && IsMachO(d)
    ensures |offs| == U32(d, 16) && Rewritten(d, r, offs, end, available, table) && IsWalk(d, offs, end)
  {
    hide U32, Repaired, IsWalk;
    offs, end :| |offs| == U32(d, 16) && Rewritten(d, r, offs, end, available, table);
  }

  /** A file rewritten to itself had the wanted names. */
  lemma SameNamesKept(d: seq<Byte>, offs: seq<nat>, end: nat, available: set<Name>, table: map<Name, Name>)
    requires Rewritten(d, d, offs, end, available, table)
    ensures AllKept(d, offs, available, table)
  {
    hide U32, IsWalk, CString, Wanted, Covered;
  }

  /** The clashes of a file are those along its walk. */
  lemma SameClashes(d: seq<Byte>, offs: seq<nat>, end: nat, table: map<Name, Name>)
    requires IsMachO(d) && IsWalk(d, offs, end) && |offs| == U32(d, 16)
    ensures Clashing(d, table) <==> exists i :: 0 <= i < |offs| && ClashAt(d, offs[i], table)
  {
    hide IsWalk, ClashAt, U32;
    if Clashing(d, table) {
      var offs', end', i :|
        IsWalk(d, offs', end') && |offs'| == U32(d, 16) && 0 <= i < |offs'| && ClashAt(d, offs'[i], table);
      WalkUnique(d, offs, end, offs', end');
    }
  }

  // ---------------------------------------------------------------- the directory

  /** A link names the entry of this directory its path leads to; a path elsewhere names none. */
  datatype Entry = File(bytes: seq<Byte>) | Link(target: Name) | Folder

  type Tree = map<Name, Entry>

  /**
   `resolve(strict=True)` and the check that follows: the regular file at the end of the
   links, if they end at one.
   */
  function Resolve(tree: Tree, n: Name, hops: nat): Option<Name>
    decreases hops
  {
    if n !in tree then None
    else match tree[n]
      case File(_) => Some(n)
      case Link(next) => if hops == 0 then None else Resolve(tree, next, hops - 1)
      case Folder => None
  }

  function Library(tree: Tree, n: Name): Option<Name> {
    Resolve(tree, n, |tree|)
  }

  /** Same names, same kinds, same links: only the bytes of files may differ. */
  ghost predicate SameLinks(a: Tree, b: Tree) {
    a.Keys == b.Keys && forall n :: n in a ==> (a[n].File? <==> b[n].File?) && (!a[n].File? ==> a[n] == b[n])
  }

  lemma {:induction false} ResolveSame(a: Tree, b: Tree, n: Name, hops: nat)
    requires SameLinks(a, b)
    ensures Resolve(a, n, hops) == Resolve(b, n, hops)
    decreases hops
  {
    if n in a && a[n].Link? && hops > 0 { ResolveSame(a, b, a[n].target, hops - 1); }
  }

  lemma LibrarySame(a: Tree, b: Tree, n: Name)
    requires SameLinks(a, b)
    ensures Library(a, n) == Library(b, n)
  {
    ResolveSame(a, b, n, |a|);
    assert |a| == |a.Keys| && |b| == |b.Keys|;
  }

  lemma {:induction false} ResolvesToFile(tree: Tree, n: Name, hops: nat)
    requires Resolve(tree, n, hops).Some?
    ensures Resolve(tree, n, hops).value in tree && tree[Resolve(tree, n, hops).value].File?
    ensures n in tree && (tree[n].File? ==> Resolve(tree, n, hops).value == n)
    decreases hops
  {
    if tree[n].Link? { ResolvesToFile(tree, tree[n].target, hops - 1); }
  }

  // ---------------------------------------------------------------- what the directory decides

  /** The aliases issued by the files in order; none when one of them is refused. */
  function RunTable(tree: Tree, files: seq<Name>, available: set<Name>, table: map<Name, Name>): Option<map<Name, Name>>
    requires forall f :: f in files ==> f in tree && tree[f].File?
  {
    if files == [] then Some(table)
    else
      match AfterFile(tree[files[0]].bytes, available, table)
      case None => None
      case Some(next) => RunTable(tree, files[1..], available, next)
  }

  /** The names of `files` are the regular files of `tree`, each once. */
  ghost predicate Lists(tree: Tree, files: seq<Name>) {
    && (forall n :: n in files <==> n in tree && tree[n].File?)
    && (forall i, j :: 0 <= i < j < |files| ==> files[i] != files[j])
  }

  ghost predicate LinksLead(tree: Tree) {
    forall n :: n in tree && tree[n].Link? ==> Library(tree, n).Some?
  }

  /** Nobody wants a copy of a folder. */
  ghost predicate NoFolder(tree: Tree, table: map<Name, Name>) {
    forall t :: t in table && t in tree ==> !tree[t].Folder?
  }

  /** The aliases the whole run issues, from the directory and the order of its files alone. */
  ghost function Plan(tree: Tree, files: seq<Name>): Option<map<Name, Name>>
    requires Lists(tree, files)
  {
    RunTable(tree, files, tree.Keys, map[])
  }

  /** The run gets through: no file is refused, every link leads to a file, no folder is to be copied. */
  ghost predicate Feasible(tree: Tree, files: seq<Name>)
    requires Lists(tree, files)
  {
    Plan(tree, files).Some? && LinksLead(tree) && NoFolder(tree, Plan(tree, files).value)
  }

  /** The libraries some file needs an alias for. */
  function AllNeeds(tree: Tree, files: seq<Name>, available: set<Name>): set<Name>
    requires forall f :: f in files ==> f in tree && tree[f].File?
  {
    set f, t | f in files && t in FileNeeds(tree[f].bytes, available) :: t
  }

  lemma {:induction false} RunKeys(tree: Tree, files: seq<Name>, available: set<Name>, table: map<Name, Name>)
    requires forall f :: f in files ==> f in tree && tree[f].File?
    ensures var t := RunTable(tree, files, available, table);
            t.Some? ==> t.value.Keys == table.Keys + AllNeeds(tree, files, available)
  {
    hide AfterFile, FileNeeds;
    if files != [] {
      var next := AfterFile(tree[files[0]].bytes, available, table);
      FileKeys(tree[files[0]].bytes, available, table);
      if next.Some? { RunKeys(tree, files[1..], available, next.value); }
      assert files == [files[0]] + files[1..];
      assert AllNeeds(tree, files, available)
          == FileNeeds(tree[files[0]].bytes, available) + AllNeeds(tree, files[1..], available);
    }
  }

  /**
   A library gets an alias exactly when some dependency on it has no room for its name.
   Which libraries do, unlike the numbers they get, does not depend on the order of files.
   */
  lemma AliasedExactly(tree: Tree, files: seq<Name>, t: Name)
    requires Lists(tree, files) && Plan(tree, files).Some?
    ensures t in Plan(tree, files).value <==>
        exists f :: f in tree && tree[f].File? && NeededIn(tree[f].bytes, tree.Keys, t)
  {
    hide RunTable, AfterFile, FileNeeds, NeededIn;
    RunKeys(tree, files, tree.Keys, map[]);
    forall f | f in tree && tree[f].File?
      ensures t in FileNeeds(tree[f].bytes, tree.Keys) <==> NeededIn(tree[f].bytes, tree.Keys, t)
    {
      var table := FileGotThrough(tree, files, tree.Keys, map[], f);
      NeededExactly(tree[f].bytes, tree.Keys, table, t);
    }
  }

  lemma {:induction false} FileGotThrough(tree: Tree, files: seq<Name>, available: set<Name>, table: map<Name, Name>,
                                          f: Name)
    returns (at: map<Name, Name>)
    requires forall g :: g in files ==> g in tree && tree[g].File?
    requires RunTable(tree, files, available, table).Some? && f in files
    ensures AfterFile(tree[f].bytes, available, at).Some?
  {
    hide AfterFile;
    if f == files[0] {
      at := table;
    } else {
      var next := AfterFile(tree[files[0]].bytes, available, table);
      at := FileGotThrough(tree, files[1..], available, next.value, f);
    }
  }

  /** Some dependency of `d` needs an alias for `t`. */
  ghost predicate NeededIn(d: seq<Byte>, available: set<Name>, t: Name) {
    IsMachO(d) && exists offs, end, i ::
      IsWalk(d, offs, end) && |offs| == U32(d, 16) && 0 <= i < |offs| && t in Wants(d, offs[i], available)
  }

  lemma NeededExactly(d: seq<Byte>, available: set<Name>, table: map<Name, Name>, t: Name)
    requires AfterFile(d, available, table).Some?
    ensures t in FileNeeds(d, available) <==> NeededIn(d, available, t)
  {
    hide IsWalk, Commands, Needs, Wants, U32;
    if IsMachO(d) {
      NoCommandsWalked(d);
      var offs, end := CommandsWalk(d, [], 32, U32(d, 16), available, table);
      NeedsAlong(d, offs, end, 0, available, t);
      WalkStep(d, offs, end, 0);
      if NeededIn(d, available, t) {
        var offs', end', i :|
          IsWalk(d, offs', end') && |offs'| == U32(d, 16) && 0 <= i < |offs'| && t in Wants(d, offs'[i], available);
        WalkUnique(d, offs, end, offs', end');
      }
    }
  }

  lemma NoCommandsWalked(d: seq<Byte>)
    ensures IsWalk(d, [], 32)
  {}

  /** The commands a file gets through are a walk. */
  lemma {:induction false} CommandsWalk(d: seq<Byte>, offs: seq<nat>, at: nat, n: nat, available: set<Name>,
                                        table: map<Name, Name>)
    returns (all: seq<nat>, end: nat)
    requires IsWalk(d, offs, at) && Commands(d, at, n, available, table).Some?
    ensures IsWalk(d, all, end) && |all| == |offs| + n
    decreases n
  {
    hide Commands, Refuses, AfterCommand, CommandOk, Size;
    if n == 0 {
      all, end := offs, at;
    } else {
      OneCommand(d, at, n, available, table);
      assert (offs + [at])[..|offs|] == offs;
      assert IsWalk(d, offs + [at], at + Size(d, at));
      hide IsWalk;
      var next := AfterCommand(d, at, available, table);
      all, end := CommandsWalk(d, offs + [at], at + Size(d, at), n - 1, available, next);
    }
  }

  lemma {:induction false} NeedsAlong(d: seq<Byte>, offs: seq<nat>, end: nat, i: nat, available: set<Name>, t: Name)
    requires IsWalk(d, offs, end) && i <= |offs|
    ensures t in Needs(d, Position(offs, end, i), |offs| - i, available) <==>
              exists j :: i <= j < |offs| && t in Wants(d, offs[j], available)
    decreases |offs| - i
  {
    hide IsWalk, Needs, Wants, CommandOk, Size;
    WalkStep(d, offs, end, i);
    NeedsUnfolds(d, Position(offs, end, i), |offs| - i, available);
    if i < |offs| { NeedsAlong(d, offs, end, i + 1, available, t); }
  }

  /** No plan means that some file is refused: its header is truncated, a command is malformed, or no alias fits. */
  lemma {:induction false} PlanFails(tree: Tree, files: seq<Name>, available: set<Name>, table: map<Name, Name>)
    returns (f: Name, offs: seq<nat>, end: nat, at: map<Name, Name>)
    requires forall g :: g in files ==> g in tree && tree[g].File?
    requires RunTable(tree, files, available, table).None?
    ensures f in files && Refused(tree[f].bytes, offs, end, available, at)
  {
    hide AfterFile, Refused;
    var next := AfterFile(tree[files[0]].bytes, available, table);
    if next.None? {
      f := files[0];
      offs, end, at := RefusalHasCause(tree[f].bytes, available, table);
    } else {
      f, offs, end, at := PlanFails(tree, files[1..], available, next.value);
    }
  }

  lemma RefusalHasCause(d: seq<Byte>, available: set<Name>, table: map<Name, Name>)
    returns (offs: seq<nat>, end: nat, at: map<Name, Name>)
    requires AfterFile(d, available, table).None?
    ensures Refused(d, offs, end, available, at)
  {
    hide IsWalk, Commands, Refuses, U32;
    offs, end, at := [], 32, table;
    if 32 + U32(d, 20) <= |d| {
      NoCommandsWalked(d);
      offs, end, at := CommandsStop(d, [], 32, U32(d, 16), available, table);
    }
  }

  lemma {:induction false} CommandsStop(d: seq<Byte>, offs: seq<nat>, at: nat, n: nat, available: set<Name>,
                                        table: map<Name, Name>)
    returns (all: seq<nat>, end: nat, last: map<Name, Name>)
    requires IsWalk(d, offs, at) && Commands(d, at, n, available, table).None?
    ensures IsWalk(d, all, end) && |all| < |offs| + n && Refuses(d, end, available, last)
    decreases n
  {
    hide Commands, Refuses, AfterCommand, CommandOk, Size;
    if n == 0 {
      NoMoreCommands(d, at, available, table);
      assert false;
    }
    OneCommand(d, at, n, available, table);
    var next := AfterCommand(d, at, available, table);
    if Refuses(d, at, available, next) {
      all, end, last := offs, at, next;
    } else {
      assert (offs + [at])[..|offs|] == offs;
      assert IsWalk(d, offs + [at], at + Size(d, at));
      all, end, last := CommandsStop(d, offs + [at], at + Size(d, at), n - 1, available, next);
    }
  }

  /**
   The order of the files decides which alias a library gets: exchanging two requests
   changes the table exactly when they ask for two different libraries, both new.
   */
  lemma OrderDecidesAliases(table: map<Name, Name>, original: set<Name>, a: Name, b: Name)
    ensures Aliased(Aliased(table, original, a), original, b) != Aliased(Aliased(table, original, b), original, a) <==>
              a != b && a !in table && b !in table
  {
    hide FreeAlias;
    if a != b && a !in table && b !in table {
      var first := FreeAlias(original + table.Values, |table|);
      var one := table[b := first];
      assert one[b] == first && first in one.Values;
      FreeAliasExactly(original + one.Values, |one|, FreeAlias(original + one.Values, |one|));
      assert Aliased(Aliased(table, original, a), original, b)[a] == first;
      assert Aliased(one, original, a)[a] == FreeAlias(original + one.Values, |one|);
    }
  }

  // ---------------------------------------------------------------- what the run leaves

  /** The files in `done` are patched, everything else is as it was. */
  ghost predicate FilesPatched(was: Tree, now: Tree, done: set<Name>, table: map<Name, Name>) {
    && SameLinks(was, now)
    && forall f :: f in was && was[f].File? ==>
         if f in done then Patched(was[f].bytes, now[f].bytes, was.Keys, table) else now[f] == was[f]
  }

  lemma OneMoreFile(was: Tree, now: Tree, done: set<Name>, table: map<Name, Name>, more: map<Name, Name>,
                    f: Name, r: seq<Byte>)
    requires FilesPatched(was, now, done, table) && Extends(table, more)
    requires f in was && was[f].File? && Patched(was[f].bytes, r, was.Keys, more)
    ensures FilesPatched(was, now[f := File(r)], done + {f}, more)
  {
    hide Patched, Extends;
    forall g | g in was && was[g].File? && g in done
      ensures Patched(was[g].bytes, now[g].bytes, was.Keys, more)
    {
      PatchedStays(was[g].bytes, now[g].bytes, was.Keys, table, more);
    }
  }

  /** Every entry but the folders is now the file its links led to. */
  ghost predicate LinksCopied(was: Tree, now: Tree) {
    && now.Keys == was.Keys
    && (forall n :: n in was && was[n].Folder? ==> now[n] == was[n])
    && (forall n :: n in was && !was[n].Folder? ==>
          && Library(was, n).Some? && Library(was, n).value in was
          && was[Library(was, n).value].File? && now[n] == was[Library(was, n).value])
  }

  function Issued(table: map<Name, Name>, todo: set<Name>): set<Name> {
    set t | t in table && t !in todo :: table[t]
  }

  /** The aliases are copies of their targets, next to everything there was. */
  ghost predicate AliasesCopied(was: Tree, now: Tree, table: map<Name, Name>, todo: set<Name>) {
    && now.Keys == was.Keys + Issued(table, todo)
    && (forall n :: n in was ==> now[n] == was[n])
    && (forall t :: t in table && t !in todo && t in was ==> now[table[t]] == was[t])
  }

  lemma OneMoreAlias(was: Tree, now: Tree, table: map<Name, Name>, todo: set<Name>, t: Name)
    requires GoodAliases(table, was.Keys) && table.Keys <= was.Keys && todo <= table.Keys && t in todo
    requires AliasesCopied(was, now, table, todo)
    ensures t in now && table[t] !in now
    ensures AliasesCopied(was, now[table[t] := now[t]], table, todo - {t})
  {
    hide IsEntryName;
    var next := now[table[t] := now[t]];
    assert Issued(table, todo - {t}) == Issued(table, todo) + {table[t]};
  }

  /** What becomes of one entry: a patched file, a copy of one in place of a link, or the folder it was. */
  ghost predicate EntryBundled(was: Tree, now: Tree, table: map<Name, Name>, n: Name) {
    && n in was && n in now
    && (was[n].Folder? ==> now[n] == was[n])
    && (!was[n].Folder? ==>
          && now[n].File? && Library(was, n).Some? && Library(was, n).value in was
          && was[Library(was, n).value].File? && Library(was, n).value in now && now[n] == now[Library(was, n).value])
    && (was[n].File? ==> Patched(was[n].bytes, now[n].bytes, was.Keys, table))
  }

  /** What the run leaves: every entry as above, and copies under the aliases. */
  ghost predicate Bundled(was: Tree, now: Tree, table: map<Name, Name>) {
    && GoodAliases(table, was.Keys) && table.Keys <= was.Keys
    && now.Keys == was.Keys + table.Values
    && (forall n :: n in was ==> EntryBundled(was, now, table, n))
    && (forall t :: t in table ==> !was[t].Folder? && table[t] in now && now[table[t]] == now[t])
  }

  lemma BundledInSteps(was: Tree, patched: Tree, linked: Tree, now: Tree, table: map<Name, Name>)
    requires GoodAliases(table, was.Keys) && table.Keys <= was.Keys
    requires FilesPatched(was, patched, was.Keys, table) && LinksCopied(patched, linked)
    requires AliasesCopied(linked, now, table, {}) && NoFolder(linked, table)
    ensures Bundled(was, now, table)
  {
    hide GoodAliases, FilesPatched, LinksCopied, AliasesCopied, EntryBundled;
    KeysKept(patched, linked);
    LinksKept(was, patched, was.Keys, table, []);
    AliasesInSteps(linked, now, table);
    forall n | n in was
      ensures EntryBundled(was, now, table, n) && n in now && now[n] == linked[n]
      ensures linked[n].Folder? <==> was[n].Folder?
    {
      EntryInSteps(was, patched, linked, now, table, n);
    }
  }

  lemma EntryInSteps(was: Tree, patched: Tree, linked: Tree, now: Tree, table: map<Name, Name>, n: Name)
    requires FilesPatched(was, patched, was.Keys, table) && LinksCopied(patched, linked)
    requires AliasesCopied(linked, now, table, {}) && n in was
    ensures n in linked && n in now && EntryBundled(was, now, table, n) && now[n] == linked[n]
    ensures linked[n].Folder? <==> was[n].Folder?
  {
    hide Patched, Issued;
    LibrarySame(was, patched, n);
    LibrariesAreFiles(patched);
    FilesAreTheirLibrary(patched);
    hide Library;
  }

  lemma AliasesInSteps(linked: Tree, now: Tree, table: map<Name, Name>)
    requires AliasesCopied(linked, now, table, {}) && table.Keys <= linked.Keys
    ensures now.Keys == linked.Keys + table.Values
    ensures forall t :: t in table ==> table[t] in now && now[table[t]] == linked[t]
  {
    assert Issued(table, {}) == table.Values;
  }

  function Members(names: seq<Name>): set<Name> {
    set n | n in names
  }

  class Directory {
    var entries: Tree

    constructor (tree: Tree)
      ensures entries == tree
    {
      entries := tree;
    }

    /**
     `main`. `files` is what `sorted` gives, `links` the symbolic links in any order. The
     order of `files` decides which alias a library gets, and so may decide whether all fit.
     */
    method Patch(files: seq<Name>, links: seq<Name>) returns (ok: bool, ghost table: map<Name, Name>)
      requires AllEntryNames(entries.Keys) && Lists(entries, files)
      requires forall n :: n in links <==> n in entries && entries[n].Link?
      modifies this
      ensures ok <==> Feasible(old(entries), files)
      ensures ok ==> Some(table) == Plan(old(entries), files) && Bundled(old(entries), entries, table)
    {
      hide AllEntryNames, GoodAliases, FilesPatched, LinksCopied, AliasesCopied, Bundled, Lists, RunTable, LinksLead,
        NoFolder;
      ghost var was := entries;
      var available := entries.Keys;
      var aliases := new AliasTable(available);
      ok := PatchFiles(files, available, aliases);
      table := aliases.byTarget;
      if !ok { return; }
      ghost var patched := entries;
      LinksKept(was, patched, available, table, links);
      LeadSame(was, patched, table);
      ok := MaterializeLinks(links);
      if !ok { return; }
      ghost var linked := entries;
      KeysKept(patched, linked);
      FoldersKept(was, patched, linked, table);
      ok := MaterializeAliases(aliases);
      if !ok { return; }
      BundledInSteps(was, patched, linked, entries, table);
    }

    /**
     The script run again on its own output. The second run gets through and leaves every
     entry as it is exactly when no dependency that the first run left alone clashes with
     an alias issued anywhere in it.
     */
    method PatchTwice(files: seq<Name>, links: seq<Name>)
      returns (ok: bool, again: bool, ghost between: Tree, ghost table: map<Name, Name>)
      requires AllEntryNames(entries.Keys) && Lists(entries, files)
      requires forall n :: n in links <==> n in entries && entries[n].Link?
      modifies this
      ensures ok <==> Feasible(old(entries), files)
      ensures ok ==> Some(table) == Plan(old(entries), files) && Bundled(old(entries), between, table)
      ensures ok ==> (again && entries == between <==> NoClash(old(entries), table))
    {
      hide AllEntryNames, Bundled, Lists, Feasible, Plan, NoClash;
      again := false;
      ok, table := Patch(files, links);
      between := entries;
      if !ok { return; }
      MoreEntries(old(entries), between, table);
      NoLinksLeft(old(entries), between, table);
      var files2 := Listing();
      ghost var table2;
      again, table2 := Patch(files2, []);
      if again {
        SecondRunLeaves(old(entries), between, entries, table, table2, files2);
      } else if NoClash(old(entries), table) {
        SecondRunFeasible(old(entries), between, table, files2);
      }
    }

    /** The regular files, in some order. */
    method Listing() returns (files: seq<Name>)
      ensures Lists(entries, files)
    {
      files := [];
      var todo := set n | n in entries && entries[n].File?;
      while todo != {}
        invariant forall n :: n in entries && entries[n].File? <==> n in files || n in todo
        invariant forall n :: n in files ==> n !in todo
        invariant forall i, j :: 0 <= i < j < |files| ==> files[i] != files[j]
        decreases todo
      {
        var n :| n in todo;
        files, todo := files + [n], todo - {n};
      }
    }

    method PatchFiles(files: seq<Name>, available: set<Name>, aliases: AliasTable) returns (ok: bool)
      requires available == entries.Keys && AllEntryNames(available)
      requires aliases.Valid() && aliases.original == available && aliases.byTarget == map[]
      requires Lists(entries, files)
      modifies this, aliases
      ensures aliases.Valid() && aliases.byTarget.Keys <= available
      ensures ok <==> Plan(old(entries), files).Some?
      ensures ok ==> Some(aliases.byTarget) == Plan(old(entries), files)
      ensures ok ==> FilesPatched(old(entries), entries, available, aliases.byTarget)
    {
      hide AllEntryNames, GoodAliases, Patched, Rewritten, Refused, AllKept, U32, Extends, FilesPatched, RunTable,
        AfterFile;
      ghost var was := entries;
      NothingPatched(was, aliases.byTarget);
      assert files[0..] == files;
      for i := 0 to |files|
        invariant aliases.Valid() && aliases.byTarget.Keys <= available
        invariant FilesPatched(was, entries, Members(files[..i]), aliases.byTarget)
        invariant Plan(was, files) == RunTable(was, files[i..], available, aliases.byTarget)
      {
        var f := files[i];
        assert f in files;
        ghost var before, now := aliases.byTarget, entries;
        ghost var done := Members(files[..i]);
        NotYet(was, now, done, before, f);
        OneFile(was, files, i, available, before);
        var fine, r, changed, offs, end := PatchOne(entries[f].bytes, available, aliases);
        if !fine { return false; }
        OneMoreFile(was, now, done, before, aliases.byTarget, f, r);
        if changed > 0 { entries := entries[f := File(r)]; }
        assert entries == now[f := File(r)];
        assert Members(files[..i + 1]) == done + {f};
      }
      assert files[..|files|] == files;
      NoFilesLeft(was, files, available, aliases.byTarget);
      AllFilesDone(was, entries, Members(files), aliases.byTarget);
      ok := true;
    }

    /** `materialize_symlinks`: resolve every link first, then replace each by a copy. */
    method MaterializeLinks(links: seq<Name>) returns (ok: bool)
      requires forall n :: n in links <==> n in entries && entries[n].Link?
      modifies this
      ensures ok <==> LinksLead(old(entries))
      ensures ok ==> LinksCopied(old(entries), entries)
      ensures !ok ==> entries == old(entries)
    {
      hide Library;
      ghost var was := entries;
      var targets: seq<Name> := [];
      for i := 0 to |links|
        invariant |targets| == i && entries == was
        invariant forall j :: 0 <= j < i ==> Library(was, links[j]) == Some(targets[j])
      {
        var target := Library(entries, links[i]);
        if target.None? {
          assert links[i] in links;
          return false;
        }
        targets := targets + [target.value];
      }
      FilesAreTheirLibrary(was);
      LibrariesAreFiles(was);
      for i := 0 to |links|
        invariant entries.Keys == was.Keys
        invariant forall n :: n in was ==>
          entries[n] == if n in links[..i] then was[Library(was, n).value] else was[n]
      {
        assert Library(was, links[i]) == Some(targets[i]);
        assert targets[i] !in links;
        entries := entries[links[i] := entries[targets[i]]];
        assert links[..i + 1] == links[..i] + [links[i]];
      }
      assert links[..|links|] == links;
      ok := true;
    }

    /** `AliasTable.materialize`: neither of its two checks can fail here, but a folder cannot be copied. */
    method MaterializeAliases(aliases: AliasTable) returns (ok: bool)
      requires aliases.Valid() && aliases.original == entries.Keys && aliases.byTarget.Keys <= entries.Keys
      modifies this
      ensures ok <==> NoFolder(old(entries), aliases.byTarget)
      ensures ok ==> AliasesCopied(old(entries), entries, aliases.byTarget, {})
    {
      ghost var was := entries;
      var table := aliases.byTarget;
      var todo := table.Keys;
      hide AliasesCopied, GoodAliases;
      NoAliasYet(was, table);
      while todo != {}
        invariant todo <= table.Keys
        invariant AliasesCopied(was, entries, table, todo)
        invariant forall t :: t in table && t !in todo ==> !was[t].Folder?
        decreases todo
      {
        var t :| t in todo;
        OneMoreAlias(was, entries, table, todo, t);
        if entries[t].Folder? { return false; }
        entries := entries[table[t] := entries[t]];
        todo := todo - {t};
      }
      return true;
    }
  }

  lemma OneFile(was: Tree, files: seq<Name>, i: nat, available: set<Name>, table: map<Name, Name>)
    requires Lists(was, files) && i < |files|
    ensures forall f :: f in files[i..] ==> f in was && was[f].File?
    ensures files[i] in was && was[files[i]].File?
    ensures var next := AfterFile(was[files[i]].bytes, available, table);
            RunTable(was, files[i..], available, table) ==
              if next.None? then None else RunTable(was, files[i + 1..], available, next.value)
  {
    hide AfterFile;
    assert files[i..][1..] == files[i + 1..] && files[i] in files;
  }

  lemma NoFilesLeft(was: Tree, files: seq<Name>, available: set<Name>, table: map<Name, Name>)
    ensures RunTable(was, files[|files|..], available, table) == Some(table)
  {}

  lemma LeadSame(was: Tree, now: Tree, table: map<Name, Name>)
    requires FilesPatched(was, now, was.Keys, table)
    ensures LinksLead(was) <==> LinksLead(now)
  {
    hide Patched, Library;
    forall n ensures Library(was, n) == Library(now, n) { LibrarySame(was, now, n); }
  }

  lemma FoldersKept(was: Tree, patched: Tree, linked: Tree, table: map<Name, Name>)
    requires FilesPatched(was, patched, was.Keys, table) && LinksCopied(patched, linked)
    ensures NoFolder(was, table) <==> NoFolder(linked, table)
  {
    hide Patched, Library;
  }

  lemma NothingPatched(was: Tree, table: map<Name, Name>)
    ensures FilesPatched(was, was, Members([]), table)
  {}

  lemma NotYet(was: Tree, now: Tree, done: set<Name>, table: map<Name, Name>, f: Name)
    requires FilesPatched(was, now, done, table) && f in was && was[f].File? && f !in done
    ensures f in now && now[f] == was[f] && now.Keys == was.Keys
  {}

  lemma AllFilesDone(was: Tree, now: Tree, done: set<Name>, table: map<Name, Name>)
    requires FilesPatched(was, now, done, table) && forall n :: n in was && was[n].File? ==> n in done
    ensures FilesPatched(was, now, was.Keys, table)
  {
    hide Patched;
  }

  lemma LinksKept(was: Tree, now: Tree, done: set<Name>, table: map<Name, Name>, links: seq<Name>)
    requires FilesPatched(was, now, done, table)
    ensures now.Keys == was.Keys
    ensures (forall n :: n in links <==> n in was && was[n].Link?) ==>
              forall n :: n in links <==> n in now && now[n].Link?
  {
    hide Patched;
  }

  lemma KeysKept(was: Tree, now: Tree)
    requires LinksCopied(was, now)
    ensures now.Keys == was.Keys
  {}

  lemma FilesAreTheirLibrary(tree: Tree)
    ensures forall n :: n in tree && tree[n].File? ==> Library(tree, n) == Some(n)
  {}

  lemma LibrariesAreFiles(tree: Tree)
    ensures forall n :: Library(tree, n).Some? ==>
              n in tree && Library(tree, n).value in tree && tree[Library(tree, n).value].File?
  {
    forall n | Library(tree, n).Some?
      ensures n in tree && Library(tree, n).value in tree && tree[Library(tree, n).value].File?
    {
      ResolvesToFile(tree, n, |tree|);
    }
  }

  lemma NoAliasYet(was: Tree, table: map<Name, Name>)
    ensures AliasesCopied(was, was, table, table.Keys)
  {
    assert Issued(table, table.Keys) == {};
  }

  // ---------------------------------------------------------------- what loading finds

  /**
   After the run, every dependency on a library of the directory reads `@loader_path/x`
   for a regular file `x` there, and `x` holds the patched bytes of the very library the
   dependency named before, reached through however many links.
   */
  lemma DependencyFindsItsLibrary(was: Tree, now: Tree, table: map<Name, Name>, f: Name,
                                  offs: seq<nat>, end: nat, i: nat) returns (x: Name)
    requires Bundled(was, now, table)
    requires f in was && was[f].File? && IsMachO(was[f].bytes)
    requires IsWalk(was[f].bytes, offs, end) && |offs| == U32(was[f].bytes, 16) && i < |offs|
    requires IsDependency(was[f].bytes, offs[i])
    requires var base := BaseName(NameAt(was[f].bytes, offs[i])); base in was && !was[base].Folder?
    ensures x in now && now[x].File?
    ensures f in now && now[f].File? && IsDependency(now[f].bytes, offs[i])
    ensures NameAt(now[f].bytes, offs[i]) == LoaderPath(x)
    ensures var library := Library(was, BaseName(NameAt(was[f].bytes, offs[i])));
            && library.Some? && library.value in was && was[library.value].File?
            && Patched(was[library.value].bytes, now[x].bytes, was.Keys, table)
  {
    var d, at := was[f].bytes, offs[i];
    CommandOfPatched(d, now[f].bytes, was.Keys, table, offs, end, i);
    var base := BaseName(NameAt(d, at));
    x := if NeedsAlias(NameAt(d, at), |NameArea(d, at)|, was.Keys) then table[base] else base;
    hide Patched, BaseName, U32, CString, Library, IsWalk;
  }

  lemma CommandOfPatched(d: seq<Byte>, r: seq<Byte>, available: set<Name>, table: map<Name, Name>,
                         offs: seq<nat>, end: nat, i: nat)
    requires Patched(d, r, available, table) && IsMachO(d)
    requires IsWalk(d, offs, end) && |offs| == U32(d, 16) && i < |offs|
    ensures Repaired(d, r, offs[i], available, table)
  {
    hide Repaired, IsWalk, U32;
    var offs', end' :| |offs'| == U32(d, 16) && Rewritten(d, r, offs', end', available, table);
    WalkUnique(d, offs, end, offs', end');
  }

  /** A path `@loader_path/n`, with any number of empty and dot components in it, as in a base name. */
  predicate Spells(path: seq<Byte>, n: Name) {
    LOADER <= path && Components(path[13..]) == [n]
  }

  /** The path leads the loader to entry `n` of the directory. */
  predicate Leads(tree: Tree, path: seq<Byte>, n: Name) {
    n in tree && Spells(path, n)
  }

  lemma SpelledBaseName(path: seq<Byte>, n: Name)
    requires Spells(path, n)
    ensures BaseName(path) == n
  {
    hide BaseName, Components;
    assert path == LOADER + path[13..];
    BaseNameAfterLoader(path[13..]);
  }

  lemma LoaderPathSpells(n: Name)
    requires IsEntryName(n)
    ensures Spells(LoaderPath(n), n)
  {
    hide Components;
    assert LoaderPath(n)[13..] == n;
    ComponentsOfName(n);
  }

  /**
   A dependency on a library that is not in the directory keeps its name. It led to no
   entry of the directory before, and still leads to none, if and only if it does not
   spell `@loader_path/j` for an alias `j` that was issued: such a name is captured by
   the alias.
   */
  lemma UntouchedKeepsItsMeaning(was: Tree, now: Tree, table: map<Name, Name>, f: Name, offs: seq<nat>, end: nat,
                                 i: nat)
    requires Bundled(was, now, table)
    requires f in was && was[f].File? && IsMachO(was[f].bytes)
    requires IsWalk(was[f].bytes, offs, end) && |offs| == U32(was[f].bytes, 16) && i < |offs|
    requires IsDependency(was[f].bytes, offs[i]) && BaseName(NameAt(was[f].bytes, offs[i])) !in was
    ensures f in now && now[f].File? && IsDependency(now[f].bytes, offs[i])
    ensures NameAt(now[f].bytes, offs[i]) == NameAt(was[f].bytes, offs[i])
    ensures var name := NameAt(was[f].bytes, offs[i]);
            && (forall n :: !Leads(was, name, n))
            && ((forall n :: !Leads(now, name, n)) <==> forall t :: t in table ==> !Spells(name, table[t]))
  {
    var d, at := was[f].bytes, offs[i];
    CommandOfPatched(d, now[f].bytes, was.Keys, table, offs, end, i);
    var name := NameAt(d, at);
    hide Patched, BaseName, U32, CString, Library, IsWalk, Components, IsEntryName;
    forall n | Spells(name, n) ensures n !in was { SpelledBaseName(name, n); }
    hide Spells;
    forall t | t in table && Spells(name, table[t]) ensures Leads(now, name, table[t]) {}
    forall n | Leads(now, name, n) ensures exists t :: t in table && Spells(name, table[t]) {
      var t :| t in table && table[t] == n;
    }
  }

  // ---------------------------------------------------------------- the whole run again

  /** Every regular file after the run is the patched form of some file before it. */
  lemma PatchedFrom(was: Tree, now: Tree, table: map<Name, Name>, n: Name) returns (f: Name)
    requires Bundled(was, now, table) && n in now && now[n].File?
    ensures f in was && was[f].File? && f in now && now[f] == now[n]
    ensures Patched(was[f].bytes, now[n].bytes, was.Keys, table)
  {
    hide Patched, GoodAliases, Library;
    var m := n;
    if n !in was { m :| m in table && table[m] == n; }
    f := Library(was, m).value;
  }

  lemma {:induction false} QuietRun(tree: Tree, files: seq<Name>, available: set<Name>)
    requires forall f :: f in files ==> f in tree && tree[f].File?
    requires forall f :: f in files ==> AfterFile(tree[f].bytes, available, map[]) == Some(map[])
    ensures RunTable(tree, files, available, map[]) == Some(map[])
  {
    hide AfterFile;
    if files != [] { QuietRun(tree, files[1..], available); }
  }

  /** No dependency of any file clashes with an alias of the run. */
  ghost predicate NoClash(tree: Tree, table: map<Name, Name>) {
    forall f :: f in tree && tree[f].File? ==> !Clashing(tree[f].bytes, table)
  }

  /** Without a clash a second run issues no alias and cannot fail. */
  lemma SecondRunFeasible(was: Tree, now: Tree, table: map<Name, Name>, files: seq<Name>)
    requires Bundled(was, now, table) && AllEntryNames(was.Keys) && Lists(now, files)
    requires NoClash(was, table)
    ensures Plan(now, files) == Some(map[]) && Feasible(now, files)
  {
    hide AfterFile, Patched, AllEntryNames, GoodAliases, Clashing, RunTable, Library;
    forall n | n in files ensures AfterFile(now[n].bytes, now.Keys, map[]) == Some(map[]) {
      var f := PatchedFrom(was, now, table, n);
      SecondRunQuiet(was[f].bytes, now[n].bytes, was.Keys, table);
    }
    QuietRun(now, files, now.Keys);
    NoLinksLeft(was, now, table);
  }

  lemma NoLinksLeft(was: Tree, now: Tree, table: map<Name, Name>)
    requires Bundled(was, now, table)
    ensures forall n :: n in now ==> !now[n].Link?
  {
    hide Patched, GoodAliases, Library;
    forall n | n in now && n !in was ensures !now[n].Link? {
      var t :| t in table && table[t] == n;
    }
  }

  /** A second run leaves the directory as it is exactly when nothing clashes. */
  lemma SecondRunLeaves(was: Tree, now: Tree, now2: Tree, table: map<Name, Name>, table2: map<Name, Name>,
                        files: seq<Name>)
    requires Bundled(was, now, table) && AllEntryNames(was.Keys) && Lists(now, files)
    requires Bundled(now, now2, table2) && Plan(now, files) == Some(table2)
    ensures now2 == now <==> NoClash(was, table)
  {
    hide Bundled, AllEntryNames, Clashing, RunTable;
    if NoClash(was, table) {
      SecondRunFeasible(was, now, table, files);
      SameNames(now, now2);
      forall n | n in now ensures now2[n] == now[n] { EntryLeft(was, now, now2, table, table2, n); }
    } else {
      var f :| f in was && was[f].File? && Clashing(was[f].bytes, table);
      ClashRewritten(was, now, now2, table, table2, f);
    }
  }

  lemma MoreEntries(was: Tree, now: Tree, table: map<Name, Name>)
    requires Bundled(was, now, table) && AllEntryNames(was.Keys)
    ensures AllEntryNames(now.Keys)
  {
    hide Patched, Library, AllEntryNames, GoodAliases;
    MoreEntryNames(was.Keys, table);
  }

  lemma SameNames(now: Tree, now2: Tree)
    requires Bundled(now, now2, map[])
    ensures now2.Keys == now.Keys
  {
    hide Patched, Library;
  }

  lemma EntryLeft(was: Tree, now: Tree, now2: Tree, table: map<Name, Name>, table2: map<Name, Name>, n: Name)
    requires Bundled(was, now, table) && AllEntryNames(was.Keys) && Bundled(now, now2, table2)
    requires NoClash(was, table) && n in now
    ensures n in now2 && now2[n] == now[n]
  {
    hide Patched, AllEntryNames, Clashing, GoodAliases, Library;
    NoLinksLeft(was, now, table);
    if now[n].File? {
      var f := PatchedFrom(was, now, table, n);
      SecondRunExactly(was[f].bytes, now[n].bytes, now2[n].bytes, was.Keys, table, table2);
    }
  }

  lemma ClashRewritten(was: Tree, now: Tree, now2: Tree, table: map<Name, Name>, table2: map<Name, Name>, f: Name)
    requires Bundled(was, now, table) && AllEntryNames(was.Keys) && Bundled(now, now2, table2)
    requires f in was && was[f].File? && Clashing(was[f].bytes, table)
    ensures f in now && f in now2 && now2[f] != now[f]
  {
    hide Patched, AllEntryNames, Clashing, GoodAliases, Library;
    SecondRunExactly(was[f].bytes, now[f].bytes, now2[f].bytes, was.Keys, table, table2);
  }

  // ---------------------------------------------------------------- a clash

  /** A header and the fields of one LC_LOAD_DYLIB of 40 bytes, whose name starts after 24. */
  function FieldByte(i: int): Byte {
    match i
    case 0 => 0xCF
    case 1 => 0xFA
    case 2 => 0xED
    case 3 => 0xFE
    case 16 => 1
    case 20 => 40
    case 32 => 0xC
    case 36 => 40
    case 40 => 24
    case _ => 0
  }

  /** A library with one dependency: 16 bytes are left for its name. */
  function Dylib(name: seq<Byte>): seq<Byte>
    requires |name| < 16
  {
    seq(56, i => FieldByte(i)) + Area(name, 16)
  }

  lemma DylibFields(name: seq<Byte>)
    requires |name| < 16
    ensures var d := Dylib(name);
            && |d| == 72 && IsMachO(d) && U32(d, 16) == 1 && U32(d, 20) == 40
            && U32(d, 32) == 0xC && U32(d, 36) == 40 && U32(d, 40) == 24
  {
    var d := Dylib(name);
    assert forall i :: 0 <= i < 56 ==> d[i] == FieldByte(i);
    hide Area;
  }

  lemma DylibCommand(name: seq<Byte>)
    requires |name| < 16 && 0 !in name
    ensures var d := Dylib(name);
            && IsDependency(d, 32) && |NameArea(d, 32)| == 16 && NameAt(d, 32) == name
            && IsWalk(d, [32], 72)
  {
    var d := Dylib(name);
    DylibFields(name);
    CStringOfArea(name, 16);
    hide U32, Area, CString;
    assert d[56..72] == Area(name, 16);
    assert [32][..0] == [];
  }

  const ABC: Name := [0x61, 0x62, 0x63]
  const B: Name := [0x62]
  const J0: Name := [0x6A, 0x30]
  const USR_LIB_J0: seq<Byte> := [0x2F, 0x75, 0x73, 0x72, 0x2F, 0x6C, 0x69, 0x62, 0x2F, 0x6A, 0x30]

  /** `abc` depends on itself with room for `@loader_path/j0` only; `b` depends on `/usr/lib/j0`. */
  const CLASHING: Tree := map[ABC := File(Dylib(ABC)), B := File(Dylib(USR_LIB_J0))]

  const LOADER_J0: seq<Byte> := LoaderPath(J0)

  /** The same, but `b` depends on `@loader_path/j0`, which names nothing. */
  const CAPTURED: Tree := map[ABC := File(Dylib(ABC)), B := File(Dylib(LOADER_J0))]

  lemma BaseNames()
    ensures BaseName(ABC) == ABC && BaseName(USR_LIB_J0) == J0
  {
    assert LastSlash(ABC) == -1 && ABC[0..] == ABC;
    assert LastSlash(USR_LIB_J0) == 8 && USR_LIB_J0[9..] == J0;
  }

  lemma FirstAlias()
    ensures Aliased(map[], {ABC, B}, ABC) == map[ABC := J0]
  {
    var none: map<Name, Name> := map[];
    assert {ABC, B} + none.Values == {ABC, B};
    assert Alias(0) == J0;
    assert |ABC| == 3 && |B| == 1 && |J0| == 2;
  }

  /** What the two files of the example need. */
  lemma ClashingFiles()
    ensures AfterFile(Dylib(ABC), {ABC, B}, map[]) == Some(map[ABC := J0])
    ensures AfterFile(Dylib(USR_LIB_J0), {ABC, B}, map[ABC := J0]) == Some(map[ABC := J0])
  {
    hide U32, BaseName, Dylib, CString, Aliased;
    BaseNames();
    FirstAlias();
    var names: set<Name>, none: map<Name, Name> := {ABC, B}, map[];
    assert |LoaderPath(ABC)| == 16 && |LoaderPath(J0)| == 15 && J0 !in names by {
      assert |J0| == 2;
    }
    DylibFields(ABC);
    DylibCommand(ABC);
    OneCommand(Dylib(ABC), 32, 1, names, none);
    NoMoreCommands(Dylib(ABC), 72, names, map[ABC := J0]);
    DylibFields(USR_LIB_J0);
    DylibCommand(USR_LIB_J0);
    OneCommand(Dylib(USR_LIB_J0), 32, 1, names, map[ABC := J0]);
    NoMoreCommands(Dylib(USR_LIB_J0), 72, names, map[ABC := J0]);
    hide Commands;
  }

  /**
   A directory whose second run is not quiet: the first run gets through and
   issues `j0` for `abc`, and `b`, which needs no alias itself, names a `j0` elsewhere.
   */
  lemma ClashHappens()
    ensures AllEntryNames(CLASHING.Keys) && Lists(CLASHING, [ABC, B])
    ensures Feasible(CLASHING, [ABC, B]) && Plan(CLASHING, [ABC, B]) == Some(map[ABC := J0])
    ensures !NoClash(CLASHING, map[ABC := J0])
  {
    hide AfterFile, Dylib, U32, BaseName, CString, RunTable;
    ClashingPlan();
    BaseNames();
    DylibFields(USR_LIB_J0);
    DylibCommand(USR_LIB_J0);
    var table: map<Name, Name> := map[ABC := J0];
    assert table[ABC] == J0 && J0 in table.Values;
    assert USR_LIB_J0[0] == 0x2F && LoaderPath(J0)[0] == 0x40;
    assert ClashAt(Dylib(USR_LIB_J0), [32][0], table);
    assert Clashing(CLASHING[B].bytes, table);
  }

  lemma ClashingPlan()
    ensures CLASHING.Keys == {ABC, B} && ABC != B && Lists(CLASHING, [ABC, B])
    ensures CLASHING[ABC].bytes == Dylib(ABC) && CLASHING[B].bytes == Dylib(USR_LIB_J0)
    ensures Plan(CLASHING, [ABC, B]) == Some(map[ABC := J0])
  {
    hide AfterFile, Dylib;
    assert |ABC| == 3 && |B| == 1;
    assert CLASHING.Keys == {ABC, B};
    ClashingFiles();
    var one: map<Name, Name> := map[ABC := J0];
    assert [B][1..] == [] && [ABC, B][1..] == [B];
    assert RunTable(CLASHING, [], {ABC, B}, one) == Some(one);
    assert RunTable(CLASHING, [B], {ABC, B}, one) == Some(one);
  }
  lemma CapturedPlan()
    ensures CAPTURED.Keys == {ABC, B} && ABC != B && J0 != ABC && J0 != B && Lists(CAPTURED, [ABC, B])
    ensures CAPTURED[ABC].bytes == Dylib(ABC) && CAPTURED[B].bytes == Dylib(LOADER_J0)
    ensures Plan(CAPTURED, [ABC, B]) == Some(map[ABC := J0])
  {
    hide AfterFile, Dylib;
    assert |ABC| == 3 && |B| == 1 && |J0| == 2;
    assert CAPTURED.Keys == {ABC, B};
    ClashingFiles();
    CapturedFile();
    var one: map<Name, Name> := map[ABC := J0];
    assert [B][1..] == [] && [ABC, B][1..] == [B];
    assert RunTable(CAPTURED, [], {ABC, B}, one) == Some(one);
    assert RunTable(CAPTURED, [B], {ABC, B}, one) == Some(one);
  }

  lemma CapturedFile()
    ensures AfterFile(Dylib(LOADER_J0), {ABC, B}, map[ABC := J0]) == Some(map[ABC := J0])
  {
    hide U32, BaseName, Dylib, CString, Aliased;
    BaseNameOfLoaderPath(J0);
    var names: set<Name>, one: map<Name, Name> := {ABC, B}, map[ABC := J0];
    assert |LoaderPath(J0)| == 15 && J0 !in names by { assert |J0| == 2 && |ABC| == 3 && |B| == 1; }
    NoNulInLoaderJ0();
    DylibFields(LOADER_J0);
    DylibCommand(LOADER_J0);
    OneCommand(Dylib(LOADER_J0), 32, 1, names, one);
    NoMoreCommands(Dylib(LOADER_J0), 72, names, one);
    hide Commands;
  }

  lemma NoNulInLoaderJ0()
    ensures |LOADER_J0| == 15 && 0 !in LOADER_J0
  {
    LoaderPathHasNoNul(J0);
  }

  /**
   A capture: the run gets through, `@loader_path/j0` named nothing in the directory
   before it, is left alone, and after it names the copy of `abc`.
   */
  lemma CaptureHappens(now: Tree)
    requires Bundled(CAPTURED, now, map[ABC := J0])
    ensures AllEntryNames(CAPTURED.Keys) && Lists(CAPTURED, [ABC, B]) && Feasible(CAPTURED, [ABC, B])
    ensures Plan(CAPTURED, [ABC, B]) == Some(map[ABC := J0])
    ensures CAPTURED[B] == File(Dylib(LOADER_J0))
    ensures IsDependency(Dylib(LOADER_J0), 32) && NameAt(Dylib(LOADER_J0), 32) == LOADER_J0
    ensures forall n :: !Leads(CAPTURED, LOADER_J0, n)
    ensures B in now && now[B].File? && IsDependency(now[B].bytes, 32) && NameAt(now[B].bytes, 32) == LOADER_J0
    ensures Leads(now, LOADER_J0, J0) && now[J0] == now[ABC]
  {
    hide AfterFile, Dylib, U32, BaseName, CString, RunTable, Components, Bundled;
    CapturedPlan();
    NoNulInLoaderJ0();
    DylibFields(LOADER_J0);
    DylibCommand(LOADER_J0);
    BaseNameOfLoaderPath(J0);
    LoaderPathSpells(J0);
    var table: map<Name, Name> := map[ABC := J0];
    UntouchedKeepsItsMeaning(CAPTURED, now, table, B, [32], 72, 0);
    AliasIsCopied(CAPTURED, now, table, ABC);
  }

  lemma AliasIsCopied(was: Tree, now: Tree, table: map<Name, Name>, t: Name)
    requires Bundled(was, now, table) && t in table
    ensures t in now && table[t] in now && now[table[t]] == now[t]
  {
    hide Patched, GoodAliases, Library;
  }

  /** Other spellings are captured as well: a slash more makes no difference. */
  lemma OtherSpelling(n: Name)
    requires IsEntryName(n)
    ensures Spells(LOADER + ([SLASH] + n), n) && LOADER + ([SLASH] + n) != LoaderPath(n)
  {
    hide Components;
    ComponentsOfName(n);
    ExtraSlash(n);
    assert (LOADER + ([SLASH] + n))[13..] == [SLASH] + n;
    assert |LoaderPath(n)| == 13 + |n|;
  }
}
