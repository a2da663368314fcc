/** The table of stored files (src/FileTable.cpp). */
module Tables {
  import opened Bytes
  import opened Chunks
  import opened Names

  datatype FileEntry = FileEntry(name: string, size: nat, offset: nat, chunks: nat, checksum: string)

  function NamesOf(entries: seq<FileEntry>): set<string> { set i | 0 <= i < |entries| :: entries[i].name }

  function Appended(entries: seq<FileEntry>, path: string, checksum: string, offset: nat,
          size: nat): (r: seq<FileEntry>)
    ensures |r| == |entries| + 1 && r[..|entries|] == entries
    ensures var e := r[|entries|];
      && e.offset == offset && e.size == size && e.chunks == ChunkCount(size) && e.checksum == checksum
      && '/' !in e.name
  {
    entries + [FileEntry(Resolve(NamesOf(entries), path), size, offset, ChunkCount(size), checksum)]
  }

  ghost predicate DistinctNames(entries: seq<FileEntry>) {
    forall i, j :: 0 <= i < j < |entries| ==> entries[i].name != entries[j].name
  }

  /** Adding an entry keeps all names distinct, whatever path it comes from. */
  lemma {:induction false} AppendKeepsDistinct(entries: seq<FileEntry>, path: string, checksum: string, offset: nat,
          size: nat)
    requires DistinctNames(entries)
    ensures DistinctNames(Appended(entries, path, checksum, offset, size))
  {
    var name := Resolve(NamesOf(entries), path);
    assert forall i :: 0 <= i < |entries| ==> entries[i].name in NamesOf(entries);
  }

  /** The search tries at most one name more than there are entries. */
  lemma {:induction false} TriesWithinTable(entries: seq<FileEntry>, stem: string, extension: string)
    ensures FirstFree(NamesOf(entries), stem, 2, extension) <= |entries| + 2
  {
    hide FirstFree, Candidate, NamesOf;
    NamesNoMoreThanEntries(entries);
  }

  lemma {:induction false} NamesNoMoreThanEntries(entries: seq<FileEntry>)
    ensures |NamesOf(entries)| <= |entries|
  {
    if entries == [] {
      assert NamesOf(entries) == {};
    } else {
      var front := entries[..|entries| - 1];
      NamesNoMoreThanEntries(front);
      assert NamesOf(entries) == NamesOf(front) + {entries[|entries| - 1].name};
    }
  }

  /** The recomputed end of data for a table that carries none: it counts full blocks from each
      entry's offset and knows nothing of slots. */
  function EntryEnd(e: FileEntry): nat { e.offset + e.chunks * (BLOCK_SIZE + OVERHEAD) }

  function Recomputed(entries: seq<FileEntry>): nat {
    if entries == [] then 0
    else Max(Recomputed(entries[..|entries| - 1]), EntryEnd(entries[|entries| - 1]))
  }

  function LoadedOffset(next: nat, entries: seq<FileEntry>): nat {
    if next == 0 && entries != [] then Recomputed(entries) else next
  }

  /** `end` is the greatest of the ends the entries would have without slots, each block of 65536 bytes taking
      65564 in the file. */
  ghost predicate GreatestEnd(entries: seq<FileEntry>, end: nat) {
    && (forall i :: 0 <= i < |entries| ==> entries[i].offset + entries[i].chunks * 65564 <= end)
    && (exists i :: 0 <= i < |entries| && entries[i].offset + entries[i].chunks * 65564 == end)
  }

  /** The end of data after a table has been read: the stored one, unless it is missing in a table with
      entries. */
  lemma {:induction false} LoadedEnd(next: nat, entries: seq<FileEntry>)
    ensures next != 0 || entries == [] ==> LoadedOffset(next, entries) == next
    ensures next == 0 && entries != [] ==> GreatestEnd(entries, LoadedOffset(next, entries))
  {
    if next == 0 && entries != [] {
      RecomputedGreatest(entries);
    }
  }

  lemma {:induction false} RecomputedGreatest(entries: seq<FileEntry>)
    requires entries != []
    ensures GreatestEnd(entries, Recomputed(entries))
  {
    var front, last := entries[..|entries| - 1], |entries| - 1;
    assert EntryEnd(entries[last]) == entries[last].offset + entries[last].chunks * 65564;
    if front == [] {
      assert Recomputed(front) == 0;
    } else {
      RecomputedGreatest(front);
      var i :| 0 <= i < |front| && front[i].offset + front[i].chunks * 65564 == Recomputed(front);
      assert entries[i] == front[i];
    }
    assert forall i :: 0 <= i < last ==> entries[i] == front[i];
  }

  ghost predicate FirstOf(entries: seq<FileEntry>, name: string, i: nat)
    requires i < |entries|
  {
    entries[i].name == name && forall j :: 0 <= j < i ==> entries[j].name != name
  }

  /** The first entry of that name, if there is one. */
  function Find(entries: seq<FileEntry>, name: string): (r: Option<FileEntry>)
    ensures r.Some? <==> name in NamesOf(entries)
    ensures r.Some? ==> exists i :: 0 <= i < |entries| && FirstOf(entries, name, i) && entries[i] == r.value
    ensures DistinctNames(entries) && r.Some? ==> forall e :: e in entries && e.name == name ==> e == r.value
  {
    if entries == [] then None
    else if entries[0].name == name then
      assert FirstOf(entries, name, 0);
      Some(entries[0])
    else
      assert forall i :: 0 < i < |entries| ==> entries[i] == entries[1..][i - 1];
      assert forall i :: 0 < i < |entries| && FirstOf(entries[1..], name, i - 1) ==> FirstOf(entries, name, i);
      assert forall n :: n in NamesOf(entries) <==> n == entries[0].name || n in NamesOf(entries[1..]);
      Find(entries[1..], name)
  }

  class FileTable {
    var entries: seq<FileEntry>
    var nextWriteOffset: nat

    constructor ()
      ensures entries == [] && nextWriteOffset == 0
    {
      entries, nextWriteOffset := [], 0;
    }

    method AddFileEntry(path: string, checksum: string, offset: nat, size: nat)
      modifies this`entries
      ensures entries == Appended(old(entries), path, checksum, offset, size)
      ensures old(DistinctNames(entries)) ==> DistinctNames(entries)
    {
      var names := seq(|entries|, i requires 0 <= i < |entries| reads this => entries[i].name);
      assert (set x | x in names) == NamesOf(entries) by {
        assert forall i :: 0 <= i < |entries| ==> names[i] == entries[i].name;
      }
      var name := ResolveName(names, path);
      if DistinctNames(entries) { AppendKeepsDistinct(entries, path, checksum, offset, size); }
      entries := entries + [FileEntry(name, size, offset, ChunkCount(size), checksum)];
    }

    /** None is the exception for an unknown name. */
    method GetFileInfoByName(name: string) returns (r: Option<FileEntry>)
      ensures r == Find(entries, name)
    {
      assert entries[0..] == entries;
      for i := 0 to |entries|
        invariant Find(entries, name) == Find(entries[i..], name)
      {
        assert entries[i..][1..] == entries[i + 1..];
        if entries[i].name == name { return Some(entries[i]); }
      }
      return None;
    }

    /** What deserialize does once the text is parsed. */
    method Load(next: nat, loaded: seq<FileEntry>)
      modifies this
      ensures entries == loaded && nextWriteOffset == LoadedOffset(next, loaded)
      ensures if next != 0 || loaded == [] then nextWriteOffset == next else GreatestEnd(loaded, nextWriteOffset)
    {
      LoadedEnd(next, loaded);
      entries := [];
      nextWriteOffset := next;
      for i := 0 to |loaded|
        invariant entries == loaded[..i] && nextWriteOffset == next
      {
        entries := entries + [loaded[i]];
      }
      assert loaded[..|loaded|] == loaded;
      if nextWriteOffset == 0 && entries != [] {
        var recomputed := 0;
        for i := 0 to |entries|
          invariant recomputed == Recomputed(entries[..i])
          invariant entries == loaded && nextWriteOffset == next
        {
          assert entries[..i + 1][..i] == entries[..i];
          var entryEnd := EntryEnd(entries[i]);
          if entryEnd > recomputed { recomputed := entryEnd; }
        }
        assert entries[..|entries|] == entries;
        if recomputed > 0 { nextWriteOffset := recomputed; }
      }
    }
  }
}
