/** The log-structured file system of p7: an append-only log of inodes, where creating a name appends a new
    version of its directory, and the last version of an inode is the one that counts. */
module Wfs {
  import opened Blocks

  const SB := 8       // sizeof(struct wfs_sb)
  const INODE := 44   // sizeof(struct wfs_inode)
  const DENTRY := 40  // sizeof(struct wfs_dentry)
  const MAX_FILE_NAME_LEN := 32

  datatype Dentry = Dentry(name: string, num: nat)

  /** A log entry: the inode fields that matter to names, and, for a directory, its data. */
  datatype Entry = Entry(num: nat, deleted: bool, isDir: bool, size: nat, dentries: seq<Dentry>)

  // ---------- layout ----------

  /** Where entry i starts: right after the one before it. */
  function OffsetOf(es: seq<Entry>, i: nat): nat
    requires i <= |es|
  {
    if i == 0 then SB else OffsetOf(es, i - 1) + INODE + es[i - 1].size
  }

  lemma {:induction false} OffsetsGrow(es: seq<Entry>, i: nat, j: nat)
    requires i < j <= |es|
    ensures OffsetOf(es, i) + INODE + es[i].size <= OffsetOf(es, j)
    decreases j
  {
    if i < j - 1 {
      OffsetsGrow(es, i, j - 1);
    }
  }

  lemma {:induction false} OffsetSame(es: seq<Entry>, fs: seq<Entry>, i: nat)
    requires i <= |es| && i <= |fs| && forall k :: 0 <= k < i ==> es[k].size == fs[k].size
    ensures OffsetOf(es, i) == OffsetOf(fs, i)
    decreases i
  {
    if i > 0 {
      OffsetSame(es, fs, i - 1);
    }
  }

  /** The entries tile the disk from the superblock to head. */
  ghost predicate Tiles(disk: map<nat, Entry>, es: seq<Entry>, head: nat) {
    head == OffsetOf(es, |es|) && forall i: nat {:trigger Tile(disk, es, i)} :: i < |es| ==> Tile(disk, es, i)
  }

  ghost predicate Tile(disk: map<nat, Entry>, es: seq<Entry>, i: nat)
    requires i < |es|
  {
    Holds(disk, OffsetOf(es, i), es[i])
  }

  predicate Holds(disk: map<nat, Entry>, at: nat, e: Entry) { at in disk && disk[at] == e }

  lemma {:induction false} AppendAt(disk: map<nat, Entry>, es: seq<Entry>, es2: seq<Entry>, head: nat, e: Entry, i: nat)
    requires Tiles(disk, es, head) && i <= |es| && es2 == es + [e]
    ensures OffsetOf(es2, i) == OffsetOf(es, i) && Tile(disk[head := e], es2, i)
  {
    OffsetSame(es, es2, i);
    if i < |es| {
      assert Tile(disk, es, i);
      OffsetsGrow(es, i, |es|);
    }
  }

  /** An entry written at head extends the tiling. */
  lemma {:induction false} Append(disk: map<nat, Entry>, es: seq<Entry>, es2: seq<Entry>, head: nat, e: Entry)
    requires Tiles(disk, es, head) && es2 == es + [e]
    ensures Tiles(disk[head := e], es2, head + INODE + e.size)
  {
    var disk2 := disk[head := e];
    forall i: nat | i < |es2| ensures Tile(disk2, es2, i) {
      AppendAt(disk, es, es2, head, e, i);
    }
    AppendAt(disk, es, es2, head, e, |es|);
  }

  /** An entry rewritten in place, with its size, keeps the tiling. */
  lemma {:induction false} Rewrite(disk: map<nat, Entry>, es: seq<Entry>, head: nat, k: nat, e: Entry)
    requires Tiles(disk, es, head) && k < |es| && e.size == es[k].size
    ensures Tiles(disk[OffsetOf(es, k) := e], es[k := e], head)
  {
    var es2 := es[k := e];
    OffsetSame(es, es2, |es|);
    var disk2 := disk[OffsetOf(es, k) := e];
    forall i: nat | i < |es2| ensures Tile(disk2, es2, i) {
      OffsetSame(es, es2, i);
      assert Tile(disk, es, i);
      if i < k {
        OffsetsGrow(es, i, k);
      } else if k < i {
        OffsetsGrow(es, k, i);
      }
    }
  }

  // ---------- the last version of an inode ----------

  ghost predicate IsLast(es: seq<Entry>, num: nat, k: nat) {
    k < |es| && es[k].num == num && forall j :: k < j < |es| ==> es[j].num != num
  }

  function LastIndex(es: seq<Entry>, num: nat): (r: Option<nat>)
    ensures r.Some? ==> IsLast(es, num, r.value)
    ensures r.None? ==> forall j :: 0 <= j < |es| ==> es[j].num != num
    decreases |es|
  {
    if es == [] then None
    else if es[|es| - 1].num == num then Some(|es| - 1)
    else LastIndex(es[..|es| - 1], num)
  }

  function Lookup(es: seq<Entry>, num: nat): Option<Entry> {
    var k := LastIndex(es, num);
    if k.None? || es[k.value].deleted then None else Some(es[k.value])
  }

  /** The last entry of each inode number is its only undeleted one. */
  ghost predicate OneLive(es: seq<Entry>) {
    forall k :: 0 <= k < |es| ==> (!es[k].deleted <==> IsLast(es, es[k].num, k))
  }

  lemma {:induction false} LastUnique(es: seq<Entry>, num: nat, k: nat)
    requires IsLast(es, num, k)
    ensures LastIndex(es, num) == Some(k)
  {
    assert LastIndex(es, num).Some?;
    var r := LastIndex(es, num).value;
    assert r == k;
  }

  /** Appending a version after deleting the one before it, if any. */
  function Superseded(es: seq<Entry>, e: Entry): seq<Entry> {
    var k := LastIndex(es, e.num);
    (if k.None? then es else es[k.value := Deleted(es[k.value])]) + [e]
  }

  function Deleted(e: Entry): Entry { Entry(e.num, true, e.isDir, e.size, e.dentries) }

  lemma {:induction false} SupersededLast(es: seq<Entry>, e: Entry, num: nat)
    ensures LastIndex(Superseded(es, e), num) == if num == e.num then Some(|es|) else LastIndex(es, num)
  {
    var es2 := Superseded(es, e);
    if num == e.num {
      LastUnique(es2, num, |es|);
    } else if LastIndex(es, num).Some? {
      LastUnique(es2, num, LastIndex(es, num).value);
    } else {
      forall j | 0 <= j < |es2| ensures es2[j].num != num {}
    }
  }

  lemma {:induction false} SupersededLookup(es: seq<Entry>, e: Entry, num: nat)
    requires !e.deleted
    ensures Lookup(Superseded(es, e), num) == if num == e.num then Some(e) else Lookup(es, num)
  {
    SupersededLast(es, e, num);
  }

  lemma {:induction false} SupersededOneLive(es: seq<Entry>, e: Entry)
    requires OneLive(es) && !e.deleted
    ensures OneLive(Superseded(es, e))
  {
    var es2 := Superseded(es, e);
    forall k | 0 <= k < |es2| ensures !es2[k].deleted <==> IsLast(es2, es2[k].num, k) {
      if k < |es| {
        var num := es[k].num;
        SupersededLast(es, e, num);
        assert !es[k].deleted <==> IsLast(es, num, k);
        if IsLast(es, num, k) {
          LastUnique(es, num, k);
        }
        if IsLast(es2, num, k) {
          LastUnique(es2, num, k);
        }
        assert es2[k].num == num;
        assert IsLast(es2, num, k) <==> num != e.num && IsLast(es, num, k);
      }
    }
  }

  // ---------- names ----------

  function Find(ds: seq<Dentry>, name: string): (r: Option<nat>) {
    if ds == [] then None else if ds[0].name == name then Some(ds[0].num) else Find(ds[1..], name)
  }

  lemma {:induction false} FindAppend(ds: seq<Dentry>, d: Dentry, name: string)
    ensures Find(ds + [d], name) == if Find(ds, name).Some? then Find(ds, name)
              else if d.name == name then Some(d.num) else None
  {
    if ds != [] {
      FindAppend(ds[1..], d, name);
      assert (ds + [d])[1..] == ds[1..] + [d];
    }
  }

  /** What a path leads to. Junk: the walk reads something that is not a directory as one. */
  datatype Resolved = Hit(num: nat) | Miss | Junk

  /** path_to_inode from inode cur; None is the NULL that number_to_inode returns. */
  function Resolve(es: seq<Entry>, cur: nat, path: seq<string>): Resolved
    decreases |path|
  {
    var e := Lookup(es, cur);
    if path == [] then if e.None? then Miss else Hit(cur)
    else if e.None? || !e.value.isDir then Junk
    else
      var j := Find(e.value.dentries, path[0]);
      if j.None? then Miss else Resolve(es, j.value, path[1..])
  }

  // ---------- the tree it stands for ----------

  /** The reference: every existing path, with its inode number and kind. */
  datatype Node = Node(num: nat, isDir: bool)
  type Tree = map<seq<string>, Node>

  predicate DirAt(tree: Tree, p: seq<string>) { p in tree && tree[p].isDir }

  /** The live entry of the node at p, and, if it is a directory, the names below it. */
  ghost predicate NodeOk(es: seq<Entry>, tree: Tree, p: seq<string>)
    requires p in tree
  {
    var e := Lookup(es, tree[p].num);
    && e.Some? && e.value.isDir == tree[p].isDir
    && (e.value.isDir ==> e.value.size == DENTRY * |e.value.dentries|)
    && (e.value.isDir ==> forall name: string :: NameOk(e.value.dentries, tree, p, name))
  }

  ghost predicate NameOk(ds: seq<Dentry>, tree: Tree, p: seq<string>, name: string) {
    Find(ds, name) == if p + [name] in tree then Some(tree[p + [name]].num) else None
  }

  ghost predicate ParentOk(tree: Tree, p: seq<string>) { p != [] ==> DirAt(tree, p[..|p| - 1]) }

  ghost predicate Apart(tree: Tree, p: seq<string>, q: seq<string>) {
    p in tree && q in tree && p != q ==> tree[p].num != tree[q].num
  }

  ghost predicate Numbered(tree: Tree, p: seq<string>, cur: nat)
    requires p in tree
  {
    tree[p].num <= cur
  }

  /** The log stands for the tree; cur is the last inode number given out. */
  ghost predicate Represents(es: seq<Entry>, tree: Tree, cur: nat) {
    && [] in tree && tree[[]] == Node(0, true)
    && (forall p {:trigger NodeOk(es, tree, p)} :: p in tree ==> NodeOk(es, tree, p))
    && (forall p {:trigger Numbered(tree, p, cur)} :: p in tree ==> Numbered(tree, p, cur))
    && (forall p {:trigger ParentOk(tree, p)} :: p in tree ==> ParentOk(tree, p))
    && (forall p, q :: Apart(tree, p, q))
  }

  /** Nothing on the way to path p is a file. */
  ghost predicate ThroughDirs(tree: Tree, p: seq<string>) {
    forall i :: 0 <= i < |p| && p[..i] in tree ==> tree[p[..i]].isDir
  }

  /** From a directory at p on, the walk finds exactly what the tree has. */
  lemma {:induction false} ResolveFrom(es: seq<Entry>, tree: Tree, cur: nat, p: seq<string>, rest: seq<string>)
    requires Represents(es, tree, cur) && p in tree && ThroughDirs(tree, p + rest)
    ensures Resolve(es, tree[p].num, rest) == if p + rest in tree then Hit(tree[p + rest].num) else Miss
    decreases |rest|
  {
    assert NodeOk(es, tree, p);
    if rest == [] {
      assert p + rest == p;
    } else {
      assert (p + rest)[..|p|] == p;
      var e := Lookup(es, tree[p].num).value;
      assert NameOk(e.dentries, tree, p, rest[0]);
      var p1 := p + [rest[0]];
      assert p + rest == p1 + rest[1..];
      if p1 in tree {
        ResolveFrom(es, tree, cur, p1, rest[1..]);
      } else {
        NothingBelow(es, tree, cur, p1, rest[1..]);
      }
    }
  }

  lemma {:induction false} NothingBelow(es: seq<Entry>, tree: Tree, cur: nat, p: seq<string>, rest: seq<string>)
    requires Represents(es, tree, cur) && p !in tree
    ensures p + rest !in tree
    decreases |rest|
  {
    if rest == [] {
      assert p + rest == p;
    } else {
      NothingBelow(es, tree, cur, p, rest[..|rest| - 1]);
      assert (p + rest)[..|p + rest| - 1] == p + rest[..|rest| - 1];
      assert p + rest in tree ==> ParentOk(tree, p + rest);
    }
  }

  /** Every path through directories resolves exactly as in the tree. */
  lemma {:induction false} ResolveExact(es: seq<Entry>, tree: Tree, cur: nat, path: seq<string>)
    requires Represents(es, tree, cur) && ThroughDirs(tree, path)
    ensures Resolve(es, 0, path) == if path in tree then Hit(tree[path].num) else Miss
  {
    assert [] + path == path;
    ResolveFrom(es, tree, cur, [], path);
  }

  // ---------- creating and writing ----------

  /** The new version of directory e with one more name. */
  function WithName(e: Entry, name: string, num: nat): Entry {
    Entry(e.num, false, e.isDir, e.size + DENTRY, e.dentries + [Dentry(name, num)])
  }

  function NewNode(num: nat, isDir: bool): Entry { Entry(num, false, isDir, 0, []) }

  function Created(es: seq<Entry>, parent: Entry, name: string, num: nat, isDir: bool): seq<Entry> {
    Superseded(Superseded(es, WithName(parent, name, num)), NewNode(num, isDir))
  }

  lemma {:induction false} CreatedLookup(es: seq<Entry>, parent: Entry, name: string, num: nat, isDir: bool, n: nat)
    ensures Lookup(Created(es, parent, name, num, isDir), n)
         == if n == num then Some(NewNode(num, isDir))
            else if n == parent.num then Some(WithName(parent, name, num))
            else Lookup(es, n)
  {
    var es1 := Superseded(es, WithName(parent, name, num));
    SupersededLookup(es, WithName(parent, name, num), n);
    SupersededLookup(es1, NewNode(num, isDir), n);
  }

  /** mknod and mkdir of a new name in the directory at p: the log now stands for the tree with that name. */
  lemma {:induction false} CreateRepresents(es: seq<Entry>, tree: Tree, cur: nat, p: seq<string>, name: string,
                                            isDir: bool)
    requires Represents(es, tree, cur) && DirAt(tree, p) && p + [name] !in tree && Lookup(es, tree[p].num).Some?
    ensures var es2 := Created(es, Lookup(es, tree[p].num).value, name, cur + 1, isDir);
            Represents(es2, tree[p + [name] := Node(cur + 1, isDir)], cur + 1)
  {
    var parent := Lookup(es, tree[p].num).value;
    var es2 := Created(es, parent, name, cur + 1, isDir);
    var tree2 := tree[p + [name] := Node(cur + 1, isDir)];
    forall q | q in tree2 ensures NodeOk(es2, tree2, q) {
      if q == p + [name] {
        CreatedLookup(es, parent, name, cur + 1, isDir, cur + 1);
        forall x: string ensures NameOk([], tree2, q, x) { NewIsEmpty(es, tree, cur, p, name, x); }
      } else {
        CreateNode(es, tree, cur, p, name, isDir, q);
      }
    }
    TreeGrows(es, tree, cur, p, name, isDir);
  }

  lemma {:induction false} TreeGrows(es: seq<Entry>, tree: Tree, cur: nat, p: seq<string>, name: string, isDir: bool)
    requires Represents(es, tree, cur) && DirAt(tree, p) && p + [name] !in tree
    ensures var tree2 := tree[p + [name] := Node(cur + 1, isDir)];
            && [] in tree2 && tree2[[]] == Node(0, true)
            && (forall q {:trigger Numbered(tree2, q, cur + 1)} :: q in tree2 ==> Numbered(tree2, q, cur + 1))
            && (forall q {:trigger ParentOk(tree2, q)} :: q in tree2 ==> ParentOk(tree2, q))
            && (forall q, r :: Apart(tree2, q, r))
  {
    var tree2 := tree[p + [name] := Node(cur + 1, isDir)];
    forall q | q in tree2 ensures Numbered(tree2, q, cur + 1) && ParentOk(tree2, q) {
      if q == p + [name] {
        LastOf(p, name);
      } else {
        assert Numbered(tree, q, cur) && ParentOk(tree, q);
      }
    }
    forall q, r ensures Apart(tree2, q, r) {
      assert Apart(tree, q, r);
      assert q in tree ==> Numbered(tree, q, cur);
      assert r in tree ==> Numbered(tree, r, cur);
    }
  }

  lemma {:induction false} NewIsEmpty(es: seq<Entry>, tree: Tree, cur: nat, p: seq<string>, name: string, x: string)
    requires Represents(es, tree, cur) && p + [name] !in tree
    ensures p + [name] + [x] !in tree && p + [name] + [x] != p + [name]
  {
    NothingBelow(es, tree, cur, p + [name], [x]);
  }

  lemma {:induction false} CreateNode(es: seq<Entry>, tree: Tree, cur: nat, p: seq<string>, name: string, isDir: bool,
                                      q: seq<string>)
    requires Represents(es, tree, cur) && DirAt(tree, p) && p + [name] !in tree && Lookup(es, tree[p].num).Some?
             && q in tree
    ensures var es2 := Created(es, Lookup(es, tree[p].num).value, name, cur + 1, isDir);
            NodeOk(es2, tree[p + [name] := Node(cur + 1, isDir)], q)
  {
    var parent := Lookup(es, tree[p].num).value;
    var es2 := Created(es, parent, name, cur + 1, isDir);
    var tree2 := tree[p + [name] := Node(cur + 1, isDir)];
    CreatedLookup(es, parent, name, cur + 1, isDir, tree[q].num);
    assert NodeOk(es, tree, q) && Numbered(tree, q, cur) && Apart(tree, p, q);
    assert parent.num == tree[p].num;
    var e2 := Lookup(es2, tree[q].num).value;
    if tree[q].isDir {
      var e := Lookup(es, tree[q].num).value;
      forall x: string ensures NameOk(e2.dentries, tree2, q, x) {
        assert NameOk(e.dentries, tree, q, x);
        assert q + [x] == p + [name] <==> q == p && x == name by { LastOf(q, x); LastOf(p, name); }
        if q == p {
          FindAppend(e.dentries, Dentry(name, cur + 1), x);
        }
      }
    }
  }

  lemma {:induction false} LastOf(p: seq<string>, x: string)
    ensures (p + [x])[..|p + [x]| - 1] == p && (p + [x])[|p + [x]| - 1] == x
  {
  }

  lemma {:induction false} RootRepresents(cur: nat)
    ensures var es := [Entry(0, false, true, 0, [])]; Represents(es, map[[] := Node(0, true)], cur) && OneLive(es)
  {
    var es, tree := [Entry(0, false, true, 0, [])], map[[] := Node(0, true)];
    assert IsLast(es, 0, 0);
    LastUnique(es, 0, 0);
    forall name: string ensures NameOk([], tree, [], name) {}
    assert NodeOk(es, tree, []);
  }

  /** A new version of a file changes no name. */
  lemma {:induction false} WriteRepresents(es: seq<Entry>, tree: Tree, cur: nat, p: seq<string>, n: nat)
    requires Represents(es, tree, cur) && p in tree && !tree[p].isDir
    ensures Represents(Superseded(es, Entry(tree[p].num, false, false, n, [])), tree, cur)
  {
    var e := Entry(tree[p].num, false, false, n, []);
    forall q | q in tree ensures NodeOk(Superseded(es, e), tree, q) {
      assert NodeOk(es, tree, q) && Apart(tree, p, q);
      SupersededLookup(es, e, tree[q].num);
    }
  }

  /** The way to an existing path is made of directories. */
  lemma {:induction false} PrefixDirs(es: seq<Entry>, tree: Tree, cur: nat, p: seq<string>, i: nat)
    requires Represents(es, tree, cur) && p in tree && i < |p|
    ensures DirAt(tree, p[..i])
    decreases |p|
  {
    var up := p[..|p| - 1];
    assert ParentOk(tree, p);
    if i < |p| - 1 {
      PrefixDirs(es, tree, cur, up, i);
      assert up[..i] == p[..i];
    }
  }

  lemma {:induction false} ExistingThroughDirs(es: seq<Entry>, tree: Tree, cur: nat, p: seq<string>)
    requires Represents(es, tree, cur) && p in tree
    ensures ThroughDirs(tree, p)
  {
    forall i | 0 <= i < |p| ensures DirAt(tree, p[..i]) {
      PrefixDirs(es, tree, cur, p, i);
    }
  }

  // ---------- path strings ----------

  predicate LegalName(name: string) { name != "" && forall i :: 0 <= i < |name| ==> name[i] != '/' }

  predicate LegalPath(p: seq<string>) { forall i :: 0 <= i < |p| ==> LegalName(p[i]) }

  function Join(p: seq<string>): string {
    if p == [] then "" else "/" + (p[0] + Join(p[1..]))
  }

  /** The string that stands for a path. */
  function PathString(p: seq<string>): string {
    if p == [] then "/" else Join(p)
  }

  /** Where the first '/' of s is, or the end. */
  function Slash(s: string): (n: nat)
    ensures n <= |s| && (n < |s| ==> s[n] == '/') && forall i :: 0 <= i < n ==> s[i] != '/'
  {
    if s == "" || s[0] == '/' then 0 else 1 + Slash(s[1..])
  }

  /** The tokens that strtok(s, "/") gives, one after the other. */
  function Tokens(s: string): seq<string>
    decreases |s|
  {
    if s == "" then [] else if s[0] == '/' then Tokens(s[1..]) else [s[..Slash(s)]] + Tokens(s[Slash(s)..])
  }

  const PATH_COPY := 128

  /** strncpy into path_cpy, and the NUL at its end. */
  function Cut(s: string): string {
    if |s| < PATH_COPY then s else s[..PATH_COPY - 1]
  }

  /** The names that are left of a path when n characters of its string are. */
  function CutNames(p: seq<string>, n: nat): seq<string>
    decreases |p|
  {
    if p == [] || n <= 1 then []
    else if n <= |p[0]| then [p[0][..n - 1]]
    else [p[0]] + CutNames(p[1..], n - 1 - |p[0]|)
  }

  lemma {:induction false} SlashAt(a: string, rest: string)
    requires forall i :: 0 <= i < |a| ==> a[i] != '/'
    requires rest == "" || rest[0] == '/'
    ensures Slash(a + rest) == |a|
  {
    forall i | 0 <= i < |a| ensures (a + rest)[i] != '/' {}
    assert rest != "" ==> (a + rest)[|a|] == '/';
  }

  lemma {:induction false} JoinStarts(p: seq<string>, n: nat)
    requires n <= |Join(p)|
    ensures Join(p)[..n] == "" || Join(p)[..n][0] == '/'
  {
  }

  /** A name and what follows it are a token and the tokens of what follows. */
  lemma {:induction false} TokenFirst(a: string, rest: string)
    requires LegalName(a) && (rest == "" || rest[0] == '/')
    ensures Tokens("/" + (a + rest)) == [a] + Tokens(rest)
  {
    SlashAt(a, rest);
    var s := a + rest;
    assert ("/" + s)[1..] == s && s[0] == a[0];
    assert s[..|a|] == a && s[|a|..] == rest;
  }

  /** The tokens of the first n characters of a path. */
  lemma {:induction false} TokensCut(p: seq<string>, n: nat)
    requires LegalPath(p) && n <= |Join(p)|
    ensures Tokens(Join(p)[..n]) == CutNames(p, n)
    decreases |p|
  {
    if p != [] && n > 0 {
      var a, rest := p[0], Join(p[1..]);
      var s := "/" + (a + rest);
      if n == 1 {
        assert s[..1] == "/";
        assert "/"[1..] == "";
      } else if n <= |a| {
        var b := a[..n - 1];
        assert s[..n] == "/" + (b + "");
        assert LegalName(b);
        TokenFirst(b, "");
      } else {
        var m := n - 1 - |a|;
        assert s[..n] == "/" + (a + rest[..m]);
        JoinStarts(p[1..], m);
        TokenFirst(a, rest[..m]);
        TokensCut(p[1..], m);
      }
    }
  }

  lemma {:induction false} CutAll(p: seq<string>, n: nat)
    requires LegalPath(p)
    ensures n >= |Join(p)| ==> CutNames(p, n) == p
    ensures |Join(CutNames(p, n))| <= n
    decreases |p|
  {
    if p != [] && n > 1 && n > |p[0]| {
      CutAll(p[1..], n - 1 - |p[0]|);
    }
  }

  /** The names path_to_inode walks for path p. */
  function Walked(p: seq<string>): seq<string> { CutNames(p, PATH_COPY - 1) }

  /** It walks p itself exactly when its string fits. */
  lemma {:induction false} WalkedExact(p: seq<string>)
    requires LegalPath(p)
    ensures Tokens(Cut(PathString(p))) == Walked(p)
    ensures Walked(p) == p <==> |PathString(p)| < PATH_COPY
  {
    CutAll(p, PATH_COPY - 1);
    if p == [] {
      assert "/"[1..] == "";
      assert Tokens("/") == [];
    } else if |Join(p)| < PATH_COPY {
      CutAll(p, |Join(p)|);
      TokensCut(p, |Join(p)|);
      assert Join(p)[..|Join(p)|] == Join(p);
    } else {
      TokensCut(p, PATH_COPY - 1);
    }
  }

  /** The cut loses whole names, and part of at most one. */
  lemma {:induction false} CutPrefix(p: seq<string>, n: nat, i: nat)
    requires i < |CutNames(p, n)|
    ensures i < |p| && CutNames(p, n)[..i] == p[..i]
    decreases |p|
  {
    if n > |p[0]| && i > 0 {
      CutPrefix(p[1..], n - 1 - |p[0]|, i - 1);
      assert CutNames(p, n)[..i] == [p[0]] + CutNames(p[1..], n - 1 - |p[0]|)[..i - 1];
      assert p[..i] == [p[0]] + p[1..][..i - 1];
    }
  }

  /** What the tree has at path p. */
  function Answer(tree: Tree, p: seq<string>): Resolved {
    if p in tree then Hit(tree[p].num) else Miss
  }

  /** path_to_inode finds what the tree has at the walked names; so it agrees with the tree at p if and only if the
      string of p is shorter than 128 characters, or neither p nor what is left of it is in the tree. */
  lemma {:induction false} PathExact(es: seq<Entry>, tree: Tree, cur: nat, p: seq<string>)
    requires Represents(es, tree, cur) && LegalPath(p) && ThroughDirs(tree, p)
    ensures Resolve(es, 0, Tokens(Cut(PathString(p)))) == Answer(tree, Walked(p))
    ensures Resolve(es, 0, Tokens(Cut(PathString(p)))) == Answer(tree, p) <==>
            |PathString(p)| < PATH_COPY || (p !in tree && Walked(p) !in tree)
  {
    WalkedExact(p);
    var q := Walked(p);
    forall i | 0 <= i < |q| && q[..i] in tree ensures tree[q[..i]].isDir {
      CutPrefix(p, PATH_COPY - 1, i);
    }
    ResolveExact(es, tree, cur, q);
    assert Apart(tree, p, q);
  }

  /** Where the last '/' of s is. */
  function LastSlash(s: string): (n: nat)
    requires '/' in s
    ensures n < |s| && s[n] == '/' && forall i :: n < i < |s| ==> s[i] != '/'
  {
    if s[|s| - 1] == '/' then |s| - 1 else LastSlash(s[..|s| - 1])
  }

  /** dirname and basename of a path that does not end in '/'. */
  function Dirname(s: string): string
    requires '/' in s
  {
    if LastSlash(s) == 0 then "/" else s[..LastSlash(s)]
  }

  function Basename(s: string): string
    requires '/' in s
  {
    s[LastSlash(s) + 1..]
  }

  lemma {:induction false} JoinAppend(p: seq<string>, name: string)
    ensures Join(p + [name]) == Join(p) + ("/" + name)
  {
    if p == [] {
      assert p + [name] == [name];
      assert [name][1..] == [];
    } else {
      JoinAppend(p[1..], name);
      assert (p + [name])[1..] == p[1..] + [name];
    }
  }

  lemma {:induction false} LastSlashAt(a: string, name: string, s: string)
    requires LegalName(name) && s == a + ("/" + name)
    ensures '/' in s && LastSlash(s) == |a| && s[..|a|] == a && s[|a| + 1..] == name
  {
    assert s[|a|] == '/';
    forall i | |a| < i < |s| ensures s[i] != '/' {
      assert s[i] == name[i - |a| - 1];
    }
  }

  lemma {:induction false} DirAndBase(p: seq<string>, name: string)
    requires LegalPath(p) && LegalName(name)
    ensures var s := PathString(p + [name]); '/' in s && Dirname(s) == PathString(p) && Basename(s) == name
  {
    JoinAppend(p, name);
    LastSlashAt(Join(p), name, PathString(p + [name]));
  }

  /** Deleting the last version of e.num in place and writing e at head. */
  lemma {:induction false} SupersededTiles(disk: map<nat, Entry>, es: seq<Entry>, head: nat, k: nat, e: Entry)
    requires Tiles(disk, es, head) && LastIndex(es, e.num) == Some(k)
    ensures Tiles(disk[OffsetOf(es, k) := Deleted(es[k])][head := e], Superseded(es, e), head + INODE + e.size)
  {
    Rewrite(disk, es, head, k, Deleted(es[k]));
    Append(disk[OffsetOf(es, k) := Deleted(es[k])], es[k := Deleted(es[k])], Superseded(es, e), head, e);
  }

  ghost predicate AllNumbered(es: seq<Entry>, cur: nat) {
    forall i :: 0 <= i < |es| ==> es[i].num <= cur
  }

  /** number_to_inode after i entries: last is the place of entry k, the last one so far with that number. */
  ghost predicate Scanned(es: seq<Entry>, num: nat, i: nat, at: nat, last: Option<nat>, k: nat) {
    && i <= |es| && at == OffsetOf(es, i)
    && (last.None? ==> forall j :: 0 <= j < i ==> es[j].num != num)
    && (last.Some? ==>
           k < i && es[k].num == num && last.value == OffsetOf(es, k) && forall j :: k < j < i ==> es[j].num != num)
  }

  lemma {:induction false} Advance(disk: map<nat, Entry>, es: seq<Entry>, head: nat, num: nat, i: nat, at: nat,
                                   last: Option<nat>, k: nat)
    requires Tiles(disk, es, head) && Scanned(es, num, i, at, last, k) && at < head
    ensures i < |es| && Holds(disk, at, es[i])
    ensures var hit := es[i].num == num;
            Scanned(es, num, i + 1, at + INODE + es[i].size, if hit then Some(at) else last, if hit then i else k)
  {
    assert Tile(disk, es, i);
    assert OffsetOf(es, i + 1) == at + INODE + es[i].size;
  }

  lemma {:induction false} ScanEnd(disk: map<nat, Entry>, es: seq<Entry>, head: nat, num: nat, i: nat, at: nat,
                                   last: Option<nat>, k: nat)
    requires Tiles(disk, es, head) && Scanned(es, num, i, at, last, k) && head <= at
    ensures last.None? ==> LastIndex(es, num).None?
    ensures last.Some? ==>
                LastIndex(es, num) == Some(k) && last.value == OffsetOf(es, k) && Holds(disk, last.value, es[k])
  {
    if i < |es| {
      OffsetsGrow(es, i, |es|);
    }
    if last.Some? {
      LastUnique(es, num, k);
      assert Tile(disk, es, k);
    }
  }

  /** What the disk's own structure keeps, whatever the names. */
  ghost predicate LogOk(disk: map<nat, Entry>, es: seq<Entry>, head: nat, cur: nat) {
    Tiles(disk, es, head) && OneLive(es) && AllNumbered(es, cur)
  }

  lemma {:induction false} SupersededOk(disk: map<nat, Entry>, es: seq<Entry>, head: nat, cur: nat, k: nat, e: Entry)
    requires LogOk(disk, es, head, cur) && LastIndex(es, e.num) == Some(k) && !e.deleted && e.num <= cur
    ensures LogOk(disk[OffsetOf(es, k) := Deleted(es[k])][head := e], Superseded(es, e), head + INODE + e.size, cur)
  {
    SupersededTiles(disk, es, head, k, e);
    SupersededOneLive(es, e);
  }

  lemma {:induction false} NewOk(disk: map<nat, Entry>, es: seq<Entry>, head: nat, cur: nat, e: Entry)
    requires LogOk(disk, es, head, cur) && e.num == cur + 1 && !e.deleted
    ensures LogOk(disk[head := e], Superseded(es, e), head + INODE + e.size, cur + 1)
  {
    assert LastIndex(es, e.num).None?;
    Append(disk, es, Superseded(es, e), head, e);
    SupersededOneLive(es, e);
  }

  datatype Found = Inode(at: nat) | Null | Garbage

  /** A mounted disk; es and tree are the log and the tree it holds. */
  class Mount {
    var disk: map<nat, Entry>
    var head: nat
    var cur: nat  // cur_inode_num
    const len: nat
    ghost var es: seq<Entry>
    ghost var tree: Tree

    ghost predicate Valid() reads this {
      && LogOk(disk, es, head, cur) && head <= len && Represents(es, tree, cur)
      && forall p :: p in tree ==> LegalPath(p)
    }

    /** mkfs: the root directory, empty, right after the superblock. */
    constructor (len: nat)
      requires SB + INODE <= len
      ensures Valid() && this.len == len && tree == map[[] := Node(0, true)]
    {
      var root := Entry(0, false, true, 0, []);
      disk, head, cur, this.len := map[SB := root], SB + INODE, 100, len;
      es, tree := [root], map[[] := Node(0, true)];
      new;
      RootRepresents(cur);
    }

    /** number_to_inode: the place of the last version of num, unless there is none or it is deleted. */
    method NumberToInode(num: nat) returns (r: Option<nat>)
      requires Valid()
      ensures r.None? <==> Lookup(es, num).None?
      ensures r.Some? ==> IsAt(num, r.value)
    {
      var at: nat, last: Option<nat> := SB, None;
      ghost var i, k: nat := 0, 0;
      while at < head
        invariant Scanned(es, num, i, at, last, k)
        decreases |es| - i
      {
        Advance(disk, es, head, num, i, at, last, k);
        if disk[at].num == num {
          last, k := Some(at), i;
        }
        at, i := at + INODE + disk[at].size, i + 1;
      }
      if last.None? {
        ScanEnd(disk, es, head, num, i, at, last, k);
        return None;
      }
      ScanEnd(disk, es, head, num, i, at, last, k);
      return if disk[last.value].deleted then None else last;
    }

    /** The live version of num is at this place. */
    ghost predicate IsAt(num: nat, at: nat)
      reads this
    {
      var k := LastIndex(es, num);
      Lookup(es, num).Some? && k.Some? && at == OffsetOf(es, k.value) && Holds(disk, at, es[k.value])
    }

    method FindName(ds: seq<Dentry>, name: string) returns (r: Option<nat>)
      ensures r == Find(ds, name)
    {
      for i := 0 to |ds|
        invariant Find(ds[i..], name) == Find(ds, name)
      {
        if ds[i].name == name {
          return Some(ds[i].num);
        }
        assert ds[i..][1..] == ds[i + 1..];
      }
      return None;
    }

    /** path_to_inode: the cut copy of the path is walked name by name. */
    method PathToInode(path: string) returns (r: Found)
      requires Valid()
      ensures match Resolve(es, 0, Tokens(Cut(path)))
              case Hit(n) => r.Inode? && IsAt(n, r.at)
              case Miss => r.Null?
              case Junk => r.Garbage?
    {
      if path == "/" {
        assert "/"[1..] == "";
        assert Tokens("/") == [];
        var root := NumberToInode(0);
        return if root.None? then Null else Inode(root.value);
      }
      var tok := Tokens(Cut(path));
      ghost var n: nat := 0;
      var here := NumberToInode(0);
      for i := 0 to |tok|
        invariant Resolve(es, n, tok[i..]) == Resolve(es, 0, tok)
        invariant here.None? <==> Lookup(es, n).None?
        invariant here.Some? ==> IsAt(n, here.value)
      {
        if here.None? || !disk[here.value].isDir {
          return Garbage;
        }
        var j := FindName(disk[here.value].dentries, tok[i]);
        if j.None? {
          return Null;
        }
        assert tok[i..][1..] == tok[i + 1..];
        n := j.value;
        here := NumberToInode(j.value);
      }
      return if here.None? then Null else Inode(here.value);
    }

    /** For the string of a path through directories: what the tree has at the names that the cut leaves. */
    method FindPath(path: string, ghost p: seq<string>) returns (r: Found)
      requires Valid() && LegalPath(p) && ThroughDirs(tree, p) && path == PathString(p)
      ensures Walked(p) in tree ==> r.Inode? && IsAt(tree[Walked(p)].num, r.at)
      ensures Walked(p) !in tree ==> r.Null?
    {
      PathExact(es, tree, cur, p);
      r := PathToInode(path);
    }

    /** The entry at this place is marked deleted, and its new version written at head. */
    method Supersede(at: nat, e: Entry)
      requires LogOk(disk, es, head, cur) && IsAt(e.num, at) && !e.deleted && e.num <= cur
      modifies this`disk, this`head, this`es
      ensures LogOk(disk, es, head, cur) && head == old(head) + INODE + e.size && es == Superseded(old(es), e)
    {
      SupersededOk(disk, es, head, cur, LastIndex(es, e.num).value, e);
      disk := disk[at := Deleted(disk[at])];
      disk := disk[head := e];
      head := head + INODE + e.size;
      es := Superseded(es, e);
    }

    /** The new version of the directory at this place, and the new inode. */
    method AppendPair(at: nat, parent: Entry, name: string, isDir: bool)
      requires LogOk(disk, es, head, cur) && IsAt(parent.num, at) && disk[at] == parent && parent.num <= cur
      modifies this`disk, this`head, this`es, this`cur
      ensures LogOk(disk, es, head, cur) && cur == old(cur) + 1
      ensures head == old(head) + INODE + parent.size + DENTRY + INODE
      ensures es == Created(old(es), parent, name, cur, isDir)
    {
      Supersede(at, WithName(parent, name, cur + 1));
      var node := NewNode(cur + 1, isDir);
      NewOk(disk, es, head, cur, node);
      cur := cur + 1;
      disk := disk[head := node];
      head := head + INODE;
      es := Superseded(es, node);
    }

    /** wfs_mknod and wfs_mkdir of a new name in an existing directory. The name is added to the directory that the
        cut path leads to: the right one exactly when the string of dir is shorter than 128 characters. When the
        cut path leads nowhere the code reads through NULL, and ok is false. */
    method Create(dir: seq<string>, name: string, isDir: bool) returns (ok: bool)
      requires Valid() && DirAt(tree, dir) && LegalName(name) && |name| < MAX_FILE_NAME_LEN
      requires Walked(dir) in tree ==> tree[Walked(dir)].isDir && Walked(dir) + [name] !in tree && Space(Walked(dir))
      modifies this
      ensures Walked(dir) == dir <==> |PathString(dir)| < PATH_COPY
      ensures ok <==> Walked(dir) in old(tree)
      ensures !ok ==> Valid() && tree == old(tree) && es == old(es)
      ensures ok ==> Valid() && cur == old(cur) + 1 && tree == old(tree)[Walked(dir) + [name] := Node(cur, isDir)]
      ensures ok ==> es == Created(old(es), Lookup(old(es), old(tree)[Walked(dir)].num).value, name, cur, isDir)
    {
      DirAndBase(dir, name);
      WalkedExact(dir);
      ExistingThroughDirs(es, tree, cur, dir);
      var path := PathString(dir + [name]);
      var found := FindPath(Dirname(path), dir);
      if !found.Inode? {
        return false;
      }
      AddTo(Walked(dir), found.at, Basename(path), isDir);
      return true;
    }

    /** Room for a new version of the directory at p and for a new inode. */
    ghost predicate Space(p: seq<string>)
      requires p in tree
      reads this
    {
      Lookup(es, tree[p].num).Some? && head + INODE + Lookup(es, tree[p].num).value.size + DENTRY + INODE <= len
    }

    /** The name added to the directory at p, whose inode is at this place. */
    method AddTo(ghost p: seq<string>, at: nat, name: string, isDir: bool)
      requires Valid() && DirAt(tree, p) && LegalPath(p + [name]) && p + [name] !in tree && Space(p)
      requires IsAt(tree[p].num, at)
      modifies this
      ensures Valid() && cur == old(cur) + 1 && tree == old(tree)[p + [name] := Node(cur, isDir)]
      ensures es == Created(old(es), Lookup(old(es), old(tree)[p].num).value, name, cur, isDir)
    {
      CreateRepresents(es, tree, cur, p, name, isDir);
      assert Numbered(tree, p, cur);
      AppendPair(at, disk[at], name, isDir);
      tree := tree[p + [name] := Node(cur, isDir)];
    }

    /** wfs_write to an existing file: a new version, of n bytes, after deleting the old one, of the file that the
        cut path leads to; ok is false when it leads nowhere and the code writes through NULL. */
    method Write(path: seq<string>, n: nat) returns (ok: bool)
      requires Valid() && path in tree && !tree[path].isDir && head + INODE + n <= len
      requires Walked(path) in tree ==> !tree[Walked(path)].isDir
      modifies this`disk, this`head, this`es
      ensures Walked(path) == path <==> |PathString(path)| < PATH_COPY
      ensures ok <==> Walked(path) in tree
      ensures Valid() && (!ok ==> es == old(es))
      ensures ok ==> es == Superseded(old(es), Entry(tree[Walked(path)].num, false, false, n, []))
    {
      WalkedExact(path);
      ExistingThroughDirs(es, tree, cur, path);
      var found := FindPath(PathString(path), path);
      if !found.Inode? {
        return false;
      }
      ghost var q := Walked(path);
      WriteRepresents(es, tree, cur, q, n);
      assert NodeOk(es, tree, q) && Numbered(tree, q, cur);
      var file := disk[found.at];
      Supersede(found.at, Entry(file.num, false, file.isDir, n, []));
      return true;
    }
  }

  // ---------- a path that is too long ----------

  function X31(): (s: string)
    ensures |s| == 31 && forall i :: 0 <= i < 31 ==> s[i] == 'x'
  {
    seq(31, _ => 'x')
  }

  /** k directories of that name, one inside the other. */
  function Deep(k: nat): (p: seq<string>)
    ensures |p| == k && forall i :: 0 <= i < k ==> p[i] == X31()
  {
    if k == 0 then [] else Deep(k - 1) + [X31()]
  }

  lemma {:induction false} DeepLength(k: nat)
    ensures LegalPath(Deep(k)) && |Join(Deep(k))| == 32 * k
  {
    if k > 0 {
      DeepLength(k - 1);
      JoinAppend(Deep(k - 1), X31());
    }
  }

  /** Made one by one from the root: all paths are made of that name. */
  lemma {:induction false} Nested(k: nat) returns (es: seq<Entry>, tree: Tree, cur: nat)
    ensures Represents(es, tree, cur) && DirAt(tree, Deep(k))
    ensures forall q :: q in tree ==> |q| <= k && q == Deep(|q|)
  {
    if k == 0 {
      es, tree, cur := [Entry(0, false, true, 0, [])], map[[] := Node(0, true)], 100;
      RootRepresents(cur);
    } else {
      es, tree, cur := Nested(k - 1);
      var p := Deep(k - 1);
      assert NodeOk(es, tree, p);
      CreateRepresents(es, tree, cur, p, X31(), true);
      es := Created(es, Lookup(es, tree[p].num).value, X31(), cur + 1, true);
      tree := tree[p + [X31()] := Node(cur + 1, true)];
      cur := cur + 1;
    }
  }

  /** Four of them make a path of 128 characters. It is there, and path_to_inode does not find it. */
  lemma {:induction false} LongPathLost() returns (es: seq<Entry>, tree: Tree, cur: nat)
    ensures Represents(es, tree, cur) && DirAt(tree, Deep(4)) && |PathString(Deep(4))| == 128
    ensures Resolve(es, 0, Tokens(Cut(PathString(Deep(4))))) == Miss
  {
    es, tree, cur := Nested(4);
    DeepLength(4);
    ExistingThroughDirs(es, tree, cur, Deep(4));
    PathExact(es, tree, cur, Deep(4));
    WalkedExact(Deep(4));
    DeepCut();
  }

  lemma {:induction false} DeepCut()
    ensures |Walked(Deep(4))| == 4
  {
    assert Deep(4)[1..] == Deep(3) && Deep(3)[1..] == Deep(2) && Deep(2)[1..] == Deep(1);
    assert |CutNames(Deep(1), 31)| == 1;
    assert |CutNames(Deep(2), 63)| == 2;
    assert |CutNames(Deep(3), 95)| == 3;
  }

  // ---------- a name that is too long ----------

  /** The n low bytes of a number, lowest first, and back. */
  function ToBytes(num: nat, n: nat): (bs: seq<Byte>)
    ensures |bs| == n
    decreases n
  {
    if n == 0 then [] else [num % 0x100] + ToBytes(num / 0x100, n - 1)
  }

  function FromBytes(bs: seq<Byte>): nat {
    if bs == [] then 0 else bs[0] + 0x100 * FromBytes(bs[1..])
  }

  function Bound(n: nat): nat { if n == 0 then 1 else 0x100 * Bound(n - 1) }

  lemma {:induction false} BytesRoundTrip(num: nat, n: nat)
    requires num < Bound(n)
    ensures FromBytes(ToBytes(num, n)) == num
    decreases n
  {
    if n > 0 {
      BytesRoundTrip(num / 0x100, n - 1);
      assert ToBytes(num, n)[1..] == ToBytes(num / 0x100, n - 1);
    }
  }

  /** struct wfs_dentry as mknod and mkdir fill it: the number, and then strcpy of the name over what is there, and
      over what follows the entry if the name is that long. */
  function StoredDentry(junk: seq<Byte>, name: seq<Byte>, num: nat): (d: seq<Byte>)
    requires |junk| == MAX_FILE_NAME_LEN
    ensures |d| == DENTRY
  {
    if |name| < DENTRY then name + [0] + (junk + ToBytes(num, 8))[|name| + 1..] else name[..DENTRY]
  }

  function StoredNum(d: seq<Byte>): nat
    requires |d| == DENTRY
  {
    FromBytes(d[MAX_FILE_NAME_LEN..])
  }

  /** What is copied over the front of a buffer leaves the rest. */
  lemma {:induction false} Overlay(name: seq<Byte>, junk: seq<Byte>, bs: seq<Byte>)
    requires |name| < |junk|
    ensures (name + [0] + (junk + bs)[|name| + 1..])[|junk|..] == bs
  {
    var s := name + [0] + (junk + bs)[|name| + 1..];
    forall i | |junk| <= i < |s| ensures s[i] == bs[i - |junk|] {
      assert s[i] == (junk + bs)[i];
    }
  }

  lemma {:induction false} ShortName(junk: seq<Byte>, name: seq<Byte>, num: nat)
    requires |junk| == MAX_FILE_NAME_LEN && |name| < MAX_FILE_NAME_LEN && num < Bound(8)
    ensures StoredNum(StoredDentry(junk, name, num)) == num
  {
    Overlay(name, junk, ToBytes(num, 8));
    BytesRoundTrip(num, 8);
  }

  /** The lowest byte of the stored number is then a byte of the name, or the NUL after it. */
  lemma {:induction false} LongName(junk: seq<Byte>, name: seq<Byte>, num: nat)
    requires |junk| == MAX_FILE_NAME_LEN && MAX_FILE_NAME_LEN <= |name|
    ensures StoredNum(StoredDentry(junk, name, num)) % 0x100 == (name + [0])[MAX_FILE_NAME_LEN]
  {
    var d := StoredDentry(junk, name, num);
    assert d[MAX_FILE_NAME_LEN] == (name + [0])[MAX_FILE_NAME_LEN];
    LowByte(d[MAX_FILE_NAME_LEN..]);
  }

  lemma {:induction false} LowByte(bs: seq<Byte>)
    requires bs != []
    ensures FromBytes(bs) % 0x100 == bs[0]
  {
    var rest := FromBytes(bs[1..]);
    assert (bs[0] + 0x100 * rest) % 0x100 == bs[0];
  }

  ghost predicate Survives(junk: seq<Byte>, name: seq<Byte>, num: nat)
    requires |junk| == MAX_FILE_NAME_LEN
  {
    StoredNum(StoredDentry(junk, name, num)) == num
  }

  /** The number of a new inode survives the copying of its name, whatever the number, if and only if the name is
      shorter than 32 bytes. */
  lemma {:induction false} DentryExact(junk: seq<Byte>, name: seq<Byte>)
    requires |junk| == MAX_FILE_NAME_LEN
    ensures (forall num: nat :: num < Bound(8) ==> Survives(junk, name, num)) <==> |name| < MAX_FILE_NAME_LEN
  {
    if |name| < MAX_FILE_NAME_LEN {
      forall num: nat | num < Bound(8) ensures Survives(junk, name, num) {
        ShortName(junk, name, num);
      }
    } else {
      LongName(junk, name, 0);
      LongName(junk, name, 1);
      BoundPositive(7);
      assert 1 < Bound(8);
      assert !Survives(junk, name, 0) || !Survives(junk, name, 1);
    }
  }

  /** The first inode that is ever created, under a name of 32 bytes: its entry leads to inode 0, the root. */
  lemma {:induction false} LeadsToRoot(junk: seq<Byte>, name: seq<Byte>)
    requires |junk| == |name| == MAX_FILE_NAME_LEN
    ensures StoredNum(StoredDentry(junk, name, 101)) == 0
  {
    var d, t := StoredDentry(junk, name, 101), ToBytes(101, 8);
    ZeroBytes(7);
    assert t[1..] == ToBytes(0, 7);
    var bs := d[MAX_FILE_NAME_LEN..];
    forall i | 0 <= i < |bs| ensures bs[i] == 0 {
      if i > 0 {
        assert bs[i] == (junk + t)[MAX_FILE_NAME_LEN + i] == t[i] == t[1..][i - 1];
      }
    }
    AllZero(bs);
  }

  lemma {:induction false} ZeroBytes(n: nat)
    ensures forall i :: 0 <= i < n ==> ToBytes(0, n)[i] == 0
    decreases n
  {
    if n > 0 {
      ZeroBytes(n - 1);
    }
  }

  lemma {:induction false} AllZero(bs: seq<Byte>)
    requires forall i :: 0 <= i < |bs| ==> bs[i] == 0
    ensures FromBytes(bs) == 0
  {
    if bs != [] {
      AllZero(bs[1..]);
    }
  }

  lemma {:induction false} BoundPositive(n: nat)
    ensures Bound(n) >= 1
  {
    if n > 0 {
      BoundPositive(n - 1);
    }
  }
}
