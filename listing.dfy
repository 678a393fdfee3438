/**
  `list_directory_with_sizes`: the report on one target directory, a header line with its
  name followed by two lines for every entry, in ascending order of entry name.
 */
module Listing {
  import opened Wrappers
  import Names
  import opened FileTree
  import SizeFormat

  /** The report lines, or why the target could not be listed. */
  datatype ListResult = Listed(lines: seq<string>) | PathNotFound | NotADirectory

  /** The two lines the report holds for entry `name`: its name, then its formatted size. */
  ghost function EntryPair(m: map<string, Node>, name: string): seq<string>
    requires name in m
  {
    [NameLine(name), SizeLine(m, name)]
  }

  function NameLine(name: string): string
  {
    "- " + name
  }

  ghost function SizeLine(m: map<string, Node>, name: string): string
    requires name in m
  {
    "    - " + SizeFormat.FormatSize(Size(m[name]))
  }

  ghost function EntryLines(m: map<string, Node>, names: seq<string>): seq<string>
    requires forall x :: x in names ==> x in m
  {
    if names == [] then []
    else EntryLines(m, names[..|names| - 1]) + EntryPair(m, names[|names| - 1])
  }

  /** The report on a directory called `base` whose entries are `m`. */
  ghost function Report(base: string, m: map<string, Node>): seq<string>
  {
    ["# " + base] + EntryLines(m, Names.SortedNames(m.Keys))
  }

  lemma {:induction false} EntryLinesAt(m: map<string, Node>, names: seq<string>)
    requires forall x :: x in names ==> x in m
    ensures |EntryLines(m, names)| == 2 * |names|
    ensures forall i :: 0 <= i < |names| ==>
      EntryLines(m, names)[2 * i] == NameLine(names[i]) &&
      EntryLines(m, names)[2 * i + 1] == SizeLine(m, names[i])
    decreases |names|
  {
    if names != [] {
      var init := names[..|names| - 1];
      var last := names[|names| - 1];
      var prev := EntryLines(m, init);
      var all := EntryLines(m, names);
      EntryLinesAt(m, init);
      assert all == prev + [NameLine(last), SizeLine(m, last)];
      forall i | 0 <= i < |names|
        ensures all[2 * i] == NameLine(names[i])
        ensures all[2 * i + 1] == SizeLine(m, names[i])
      {
        if i < |init| {
          assert names[i] == init[i];
          assert all[2 * i] == prev[2 * i] && all[2 * i + 1] == prev[2 * i + 1];
        }
      }
    }
  }

  /** A header line followed by the lines of `names`, in the order given. */
  lemma {:induction false} HeaderThenEntries(base: string, m: map<string, Node>, names: seq<string>)
    requires forall x :: x in names ==> x in m
    ensures var r := ["# " + base] + EntryLines(m, names);
      && |r| == 1 + 2 * |names|
      && r[0] == "# " + base
      && forall i :: 0 <= i < |names| ==>
        r[2 * i + 1] == NameLine(names[i]) && r[2 * i + 2] == SizeLine(m, names[i])
  {
    EntryLinesAt(m, names);
  }

  /**
    The report has one line per entry and one more; the first names the directory, and
    entry `i` in ascending order has lines `2i+1` (its name) and `2i+2` (its size).
   */
  lemma ReportShape(base: string, m: map<string, Node>)
    ensures |Report(base, m)| == 1 + 2 * |m|
    ensures Report(base, m)[0] == "# " + base
    ensures var names := Names.SortedNames(m.Keys);
      && Names.StrictlySorted(names)
      && (forall x :: x in names <==> x in m)
      && forall i :: 0 <= i < |m| ==>
        && Report(base, m)[2 * i + 1] == NameLine(names[i])
        && Report(base, m)[2 * i + 2] == SizeLine(m, names[i])
  {
    var names := Names.SortedNames(m.Keys);
    HeaderThenEntries(base, m, names);
    assert |m.Keys| == |m|;
  }

  lemma SampleNamesSorted()
    ensures Names.SortedNames({"b.txt", "a.txt"}) == ["a.txt", "b.txt"]
  {
    var names := ["a.txt", "b.txt"];
    assert Names.Less("a.txt", "b.txt");
    Names.StrictlySortedUnique(names, Names.SortedNames({"b.txt", "a.txt"}));
  }

  lemma SampleSizeLines()
    ensures SizeLine(map["b.txt" := File(4), "a.txt" := File(3)], "a.txt") == "    - 3.00 B"
    ensures SizeLine(map["b.txt" := File(4), "a.txt" := File(3)], "b.txt") == "    - 4.00 B"
  {
    SizeFormat.FormatSizeBytes(3);
    SizeFormat.FormatSizeBytes(4);
  }

  lemma SampleEntryLines(base: string)
    ensures ["# " + base] + EntryLines(map["b.txt" := File(4), "a.txt" := File(3)], ["a.txt", "b.txt"]) ==
      ["# " + base, "- a.txt", "    - 3.00 B", "- b.txt", "    - 4.00 B"]
  {
    var m := map["b.txt" := File(4), "a.txt" := File(3)];
    var r := ["# " + base] + EntryLines(m, ["a.txt", "b.txt"]);
    HeaderThenEntries(base, m, ["a.txt", "b.txt"]);
    SampleSizeLines();
    assert NameLine("a.txt") == "- a.txt" && NameLine("b.txt") == "- b.txt";
    assert r[1] == "- a.txt" && r[2] == "    - 3.00 B" && r[3] == "- b.txt" && r[4] == "    - 4.00 B";
  }

  /** The directory of the listing test: `a.txt` of 3 bytes and `b.txt` of 4. */
  lemma ReportOfSampleDirectory(base: string)
    ensures Report(base, map["b.txt" := File(4), "a.txt" := File(3)]) ==
      ["# " + base, "- a.txt", "    - 3.00 B", "- b.txt", "    - 4.00 B"]
  {
    var m := map["b.txt" := File(4), "a.txt" := File(3)];
    assert m.Keys == {"b.txt", "a.txt"};
    SampleNamesSorted();
    SampleEntryLines(base);
  }

  /** `os.listdir` on the target followed by `entries.sort()`. */
  method SortedEntries(m: map<string, Node>) returns (sorted: seq<string>)
    ensures sorted == Names.SortedNames(m.Keys)
  {
    var listing := Names.ListNames(m);
    var entries := new string[|listing|](i requires 0 <= i < |listing| => listing[i]);
    assert entries[..] == listing;
    Names.SortInPlace(entries);
    assert forall x :: x in entries[..] <==> x in multiset(listing);
    Names.SortedListingIsSortedNames(entries[..], m.Keys);
    sorted := entries[..];
  }

  method RenderEntries(header: seq<string>, m: map<string, Node>, sorted: seq<string>) returns (outputLines: seq<string>)
    requires forall x :: x in sorted ==> x in m
    ensures outputLines == header + EntryLines(m, sorted)
  {
    outputLines := header;
    for i := 0 to |sorted|
      invariant outputLines == header + EntryLines(m, sorted[..i])
    {
      var entry := sorted[i];
      var sizeBytes := GetSize(Some(m[entry]));
      var sizeFormatted := SizeFormat.FormatSizeDynamic(sizeBytes);
      assert sorted[..i + 1] == sorted[..i] + [entry];
      outputLines := outputLines + [NameLine(entry), "    - " + sizeFormatted];
    }
    assert sorted[..|sorted|] == sorted;
  }

  /**
    `list_directory_with_sizes` on the node found at the target (`None` when nothing is
    there). The entries come back from the listing in any order and are sorted in place;
    each gets its name line and its size line. A missing target is the "path not found"
    error; a target that is not a directory cannot be listed either.
   */
  method ListDirectoryWithSizes(baseName: string, target: Option<Node>) returns (r: ListResult)
    ensures target.None? ==> r == PathNotFound
    ensures target.Some? && !target.value.Dir? ==> r == NotADirectory
    ensures target.Some? && target.value.Dir? ==> r == Listed(Report(baseName, target.value.children))
  {
    var outputLines := ["# " + baseName];
    if target.None? {
      return PathNotFound;
    }
    if !target.value.Dir? {
      return NotADirectory;
    }
    var m := target.value.children;
    var sorted := SortedEntries(m);
    outputLines := RenderEntries(outputLines, m, sorted);
    return Listed(outputLines);
  }
}
