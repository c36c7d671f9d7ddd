/** The six files of one credential, and why no two credentials share one (src/store/internal.h). */
module StorePaths {
  import opened AtomicFile

  const APP_DATA_DIR := "/ext/apps_data/zerofido"

  /** `zf_storage_build_child_path` for the application directory. */
  function Child(name: string): Path {
    APP_DATA_DIR + "/" + name
  }

  function RecordPath(name: string): Path {
    Child(name)
  }

  function RecordTemp(name: string): Path {
    Child(name + ".tmp")
  }

  function CounterPath(name: string): Path {
    Child(name + ".counter")
  }

  function CounterTemp(name: string): Path {
    Child(name + ".counter.tmp")
  }

  function RecordFiles(name: string): set<Path> {
    Names(RecordPath(name), RecordTemp(name))
  }

  function CounterFiles(name: string): set<Path> {
    Names(CounterPath(name), CounterTemp(name))
  }

  function FilesOf(name: string): set<Path> {
    RecordFiles(name) + CounterFiles(name)
  }

  /** The files that survive the removal of temporaries. */
  function DurableFiles(name: string): set<Path> {
    {RecordPath(name), Backup(RecordPath(name)), CounterPath(name), Backup(CounterPath(name))}
  }

  lemma CounterFilesAreOwn(name: string)
    ensures CounterFiles(name) <= FilesOf(name)
  {
  }

  const SUFFIXES := ["", ".bak", ".tmp", ".counter", ".counter.bak", ".counter.tmp"]

  lemma ChildInjective(a: string, b: string)
    requires Child(a) == Child(b)
    ensures a == b
  {
    var n := |APP_DATA_DIR + "/"|;
    assert Child(a)[n..] == a && Child(b)[n..] == b;
  }

  lemma FilesBySuffix(name: string, p: Path)
    ensures p in FilesOf(name) <==> exists i :: 0 <= i < |SUFFIXES| && p == Child(name + SUFFIXES[i])
  {
    assert name + SUFFIXES[0] == name;
    assert Backup(RecordPath(name)) == Child(name + SUFFIXES[1]);
    assert name + ".counter" + ".bak" == name + SUFFIXES[4];
    assert Backup(CounterPath(name)) == Child(name + ".counter" + ".bak");
    assert RecordTemp(name) == Child(name + SUFFIXES[2]) && CounterPath(name) == Child(name + SUFFIXES[3]);
    assert CounterTemp(name) == Child(name + SUFFIXES[5]);
  }

  /** A file belongs to one credential, under one suffix. */
  lemma FileOwner(a: string, b: string, i: nat, j: nat)
    requires |a| == |b| && i < |SUFFIXES| && j < |SUFFIXES|
    requires Child(a + SUFFIXES[i]) == Child(b + SUFFIXES[j])
    ensures a == b && i == j
  {
    var s, t := a + SUFFIXES[i], b + SUFFIXES[j];
    ChildInjective(s, t);
    assert s[..|a|] == a && t[..|b|] == b;
    assert s[|a|..] == SUFFIXES[i] && t[|b|..] == SUFFIXES[j];
    SuffixesDiffer(i, j);
  }

  lemma SuffixesDiffer(i: nat, j: nat)
    requires i < |SUFFIXES| && j < |SUFFIXES| && SUFFIXES[i] == SUFFIXES[j]
    ensures i == j
  {
  }

  /** The files of one credential are six different files. */
  lemma OwnFilesDiffer(name: string)
    requires |name| == 64
    ensures ProperNames(RecordPath(name), RecordTemp(name)) && ProperNames(CounterPath(name), CounterTemp(name))
    ensures RecordFiles(name) !! CounterFiles(name)
    ensures BackupPathFits(RecordPath(name)) && BackupPathFits(CounterPath(name))
  {
    forall p, q | p in RecordFiles(name) && q in CounterFiles(name)
      ensures p != q
    {
      assert |p| <= |Child(name)| + 4;
      assert |q| >= |Child(name)| + 8;
    }
    var n := |APP_DATA_DIR| + 1 + 64;
    assert RecordTemp(name)[n + 1] == 't' && Backup(RecordPath(name))[n + 1] == 'b';
    assert CounterTemp(name)[n + 9] == 't' && Backup(CounterPath(name))[n + 9] == 'b';
  }

  /** Different record names have no file in common. */
  lemma CredentialsAreApart(a: string, b: string)
    requires |a| == |b| && a != b
    ensures FilesOf(a) !! FilesOf(b)
  {
    forall p | p in FilesOf(a) && p in FilesOf(b)
      ensures false
    {
      FilesBySuffix(a, p);
      FilesBySuffix(b, p);
      var i :| 0 <= i < |SUFFIXES| && p == Child(a + SUFFIXES[i]);
      var j :| 0 <= j < |SUFFIXES| && p == Child(b + SUFFIXES[j]);
      FileOwner(a, b, i, j);
    }
  }
}
