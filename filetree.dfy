/**
  The sizes `get_size` and `get_directory_size` report, over an abstract file tree: a
  directory maps entry names to nodes; a node that is neither a regular file nor a
  directory (a device, a socket, a dangling link) is `Other`.
 */
module FileTree {
  import opened Wrappers
  import Names

  datatype Node = File(size: nat) | Dir(children: map<string, Node>) | Other

  /** Bytes held by a node: a file's length, the sum below a directory, 0 otherwise. */
  ghost function Size(n: Node): nat
    decreases n, 1
  {
    match n
    case File(s) => s
    case Other => 0
    case Dir(m) => SumEntries(n, m.Keys)
  }

  /** The sizes of the entries `names` of directory `d`, added up in no particular order. */
  ghost function SumEntries(d: Node, names: set<string>): nat
    requires d.Dir? && names <= d.children.Keys
    decreases d, 0, names
  {
    if names == {} then 0
    else
      var x :| x in names;
      Size(d.children[x]) + SumEntries(d, names - {x})
  }

  /** The sum does not depend on which entry is taken out first. */
  lemma {:induction false} SumEntriesRemove(d: Node, names: set<string>, y: string)
    requires d.Dir? && names <= d.children.Keys && y in names
    ensures SumEntries(d, names) == Size(d.children[y]) + SumEntries(d, names - {y})
    decreases names
  {
    var x :| x in names && SumEntries(d, names) == Size(d.children[x]) + SumEntries(d, names - {x});
    if x != y {
      SumEntriesRemove(d, names - {x}, y);
      SumEntriesRemove(d, names - {y}, x);
      assert names - {x} - {y} == names - {y} - {x};
    }
  }

  /** The sizes of the entries `names` of `m`, in the order listed. */
  ghost function SumOver(m: map<string, Node>, names: seq<string>): nat
    requires forall x :: x in names ==> x in m
  {
    if names == [] then 0
    else SumOver(m, names[..|names| - 1]) + Size(m[names[|names| - 1]])
  }

  /** Summing over any listing of a directory gives the directory's size. */
  lemma {:induction false} SumOverListing(m: map<string, Node>, names: seq<string>)
    requires Names.Distinct(names) && forall x :: x in names ==> x in m
    ensures SumOver(m, names) == SumEntries(Dir(m), set x | x in names)
    decreases |names|
  {
    if names != [] {
      var last := names[|names| - 1];
      var init := names[..|names| - 1];
      assert names == init + [last];
      assert multiset(names) == multiset(init) + multiset{last};
      assert Names.Distinct(init) by {
        forall x ensures multiset(init)[x] <= 1 {
          assert multiset(names)[x] <= 1;
        }
      }
      assert last !in init by {
        assert multiset(names)[last] <= 1;
      }
      SumOverListing(m, init);
      var all := set x | x in names;
      SumEntriesRemove(Dir(m), all, last);
      assert all - {last} == set x | x in init;
    }
  }

  /** Adding an entry to a directory grows its size by exactly that entry's size. */
  lemma SizeInsert(m: map<string, Node>, k: string, c: Node)
    requires k !in m
    ensures Size(Dir(m[k := c])) == Size(Dir(m)) + Size(c)
  {
    var m' := m[k := c];
    SumEntriesRemove(Dir(m'), m'.Keys, k);
    assert m'.Keys - {k} == m.Keys;
    SumEntriesSame(m, m', m.Keys);
  }

  /** Two directories that agree on the entries `names` agree on their sum. */
  lemma {:induction false} SumEntriesSame(m: map<string, Node>, m': map<string, Node>, names: set<string>)
    requires names <= m.Keys && names <= m'.Keys
    requires forall x :: x in names ==> m[x] == m'[x]
    ensures SumEntries(Dir(m), names) == SumEntries(Dir(m'), names)
    decreases names
  {
    if names != {} {
      var x :| x in names && SumEntries(Dir(m), names) == Size(m[x]) + SumEntries(Dir(m), names - {x});
      SumEntriesSame(m, m', names - {x});
      SumEntriesRemove(Dir(m'), names, x);
    }
  }

  /** No entry is larger than the directory that holds it. */
  lemma EntryAtMostDirectory(m: map<string, Node>, k: string)
    requires k in m
    ensures Size(m[k]) <= Size(Dir(m))
  {
    SumEntriesRemove(Dir(m), m.Keys, k);
  }

  /** The tree of the size test: a 10-byte file beside a directory holding a 5-byte file. */
  lemma SizeOfSampleTree()
    ensures Size(File(10)) == 10
    ensures Size(Dir(map["f1.txt" := File(10), "sub" := Dir(map["f2.txt" := File(5)])])) == 15
  {
    var sub := map["f2.txt" := File(5)];
    SizeInsert(map[], "f2.txt", File(5));
    assert map[]["f2.txt" := File(5)] == sub;
    SizeInsert(map["f1.txt" := File(10)], "sub", Dir(sub));
    SizeInsert(map[], "f1.txt", File(10));
    assert map[]["f1.txt" := File(10)] == map["f1.txt" := File(10)];
  }

  /**
    One directory as `os.walk` yields it: the entries seen there, the names of the
    subdirectories, and the names of everything else.
   */
  datatype WalkRecord = WalkRecord(entries: map<string, Node>, dirnames: seq<string>, filenames: seq<string>)

  /** `os.path.isfile` and `os.path.getsize` on one name of a walked directory. */
  function FileBytes(entries: map<string, Node>, name: string): nat
  {
    if name in entries && entries[name].File? then entries[name].size else 0
  }

  ghost function FileBytesOver(entries: map<string, Node>, names: seq<string>): nat
  {
    if names == [] then 0
    else FileBytesOver(entries, names[..|names| - 1]) + FileBytes(entries, names[|names| - 1])
  }

  /** The regular-file bytes named by the `filenames` of every walked directory. */
  ghost function WalkTotal(records: seq<WalkRecord>): nat
  {
    if records == [] then 0
    else
      var r := records[|records| - 1];
      WalkTotal(records[..|records| - 1]) + FileBytesOver(r.entries, r.filenames)
  }

  lemma {:induction false} WalkTotalAppend(a: seq<WalkRecord>, b: seq<WalkRecord>)
    ensures WalkTotal(a + b) == WalkTotal(a) + WalkTotal(b)
    decreases |b|
  {
    if b == [] {
      assert a + b == a;
    } else {
      assert (a + b)[..|a + b| - 1] == a + b[..|b| - 1];
      WalkTotalAppend(a, b[..|b| - 1]);
    }
  }

  /**
    The two lists `os.walk` makes of a directory's listing: the names of subdirectories,
    and the names of everything else.
   */
  method SplitEntries(m: map<string, Node>, names: seq<string>) returns (dirnames: seq<string>, filenames: seq<string>)
    requires forall x :: x in names ==> x in m
    ensures forall x :: x in dirnames <==> x in names && m[x].Dir?
    ensures forall x :: x in filenames <==> x in names && !m[x].Dir?
    ensures SumOver(m, dirnames) + FileBytesOver(m, filenames) == SumOver(m, names)
  {
    dirnames, filenames := [], [];
    for i := 0 to |names|
      invariant forall x :: x in dirnames <==> x in names[..i] && m[x].Dir?
      invariant forall x :: x in filenames <==> x in names[..i] && !m[x].Dir?
      invariant SumOver(m, dirnames) + FileBytesOver(m, filenames) == SumOver(m, names[..i])
    {
      var x := names[i];
      assert names[..i + 1] == names[..i] + [x];
      if m[x].Dir? {
        dirnames := dirnames + [x];
      } else {
        filenames := filenames + [x];
      }
    }
    assert names[..|names|] == names;
  }

  /**
    `os.walk` from node `n`, top-down: first the record of `n` itself, then the walks of
    its subdirectories in the order they were listed. A node that is not a directory
    yields nothing.
   */
  method Walk(n: Node) returns (records: seq<WalkRecord>)
    ensures !n.Dir? ==> records == []
    ensures n.Dir? ==> |records| > 0 && records[0].entries == n.children
    ensures n.Dir? ==> forall x :: x in records[0].dirnames <==> x in n.children && n.children[x].Dir?
    ensures n.Dir? ==> forall x :: x in records[0].filenames <==> x in n.children && !n.children[x].Dir?
    ensures WalkTotal(records) == if n.Dir? then Size(n) else 0
    decreases n, 1
  {
    if !n.Dir? {
      return [];
    }
    var m := n.children;
    var names := Names.ListNames(m);
    var dirnames, filenames := SplitEntries(m, names);
    SumOverListing(m, names);
    assert (set x | x in names) == m.Keys;
    var first := [WalkRecord(m, dirnames, filenames)];
    assert first[..0] == [];
    var below := WalkBelow(n, dirnames);
    WalkTotalAppend(first, below);
    records := first + below;
  }

  /** The walks of the subdirectories `dirnames` of `n`, one after another. */
  method WalkBelow(n: Node, dirnames: seq<string>) returns (records: seq<WalkRecord>)
    requires n.Dir? && forall x :: x in dirnames ==> x in n.children && n.children[x].Dir?
    ensures WalkTotal(records) == SumOver(n.children, dirnames)
    decreases n, 0
  {
    records := [];
    for i := 0 to |dirnames|
      invariant WalkTotal(records) == SumOver(n.children, dirnames[..i])
    {
      assert dirnames[i] in n.children;
      var sub := Walk(n.children[dirnames[i]]);
      WalkTotalAppend(records, sub);
      assert dirnames[..i + 1] == dirnames[..i] + [dirnames[i]];
      records := records + sub;
    }
    assert dirnames[..|dirnames|] == dirnames;
  }

  /** `get_directory_size`: the file bytes of every directory `os.walk` visits below `n`. */
  method GetDirectorySize(n: Node) returns (total: nat)
    ensures total == if n.Dir? then Size(n) else 0
  {
    var records := Walk(n);
    total := 0;
    for i := 0 to |records|
      invariant total == WalkTotal(records[..i])
    {
      var r := records[i];
      assert records[..i + 1][..i] == records[..i];
      for j := 0 to |r.filenames|
        invariant total == WalkTotal(records[..i]) + FileBytesOver(r.entries, r.filenames[..j])
      {
        assert r.filenames[..j + 1][..j] == r.filenames[..j];
        var name := r.filenames[j];
        if name in r.entries && r.entries[name].File? {
          total := total + r.entries[name].size;
        }
      }
      assert r.filenames[..|r.filenames|] == r.filenames;
    }
    assert records[..|records|] == records;
  }

  /**
    `get_size` on a path, given the node found there (`None` when nothing exists): a
    file's length, a directory's total, and 0 for anything else. It never fails.
   */
  method GetSize(entry: Option<Node>) returns (size: nat)
    ensures entry.Some? && entry.value.File? ==> size == entry.value.size
    ensures entry.Some? && entry.value.Dir? ==> size == Size(entry.value)
    ensures entry.None? || entry.value.Other? ==> size == 0
  {
    if entry.Some? && entry.value.File? {
      size := entry.value.size;
    } else if entry.Some? && entry.value.Dir? {
      size := GetDirectorySize(entry.value);
    } else {
      size := 0;
    }
  }
}
