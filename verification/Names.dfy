/** Entry names: the file part of a path, made unique by a numeric suffix
    (FileTable::addFileEntry in src/FileTable.cpp). */
module Names {

  function LastIndex(s: string, c: char): (i: int)
    ensures -1 <= i < |s|
  {
    if s == [] then -1
    else if s[|s| - 1] == c then |s| - 1
    else LastIndex(s[..|s| - 1], c)
  }

  lemma {:induction false} LastIndexIs(s: string, c: char)
    ensures LastIndex(s, c) >= 0 ==> s[LastIndex(s, c)] == c
    ensures forall j :: LastIndex(s, c) < j < |s| ==> s[j] != c
  {
    if s != [] && s[|s| - 1] != c {
      LastIndexIs(s[..|s| - 1], c);
      assert forall j :: 0 <= j < |s| - 1 ==> s[j] == s[..|s| - 1][j];
    }
  }

  /** std::filesystem::path::filename on a POSIX path. */
  function FileName(path: string): (name: string)
    ensures '/' !in name
  {
    LastIndexIs(path, '/');
    path[LastIndex(path, '/') + 1..]
  }

  /** Where the extension of a file name starts: at its last dot, unless that dot comes first. */
  function ExtensionStart(name: string): (i: nat)
    ensures i <= |name|
  {
    var dot := LastIndex(name, '.');
    if name == "." || name == ".." || dot <= 0 then |name| else dot
  }

  function Stem(name: string): (r: string)
    ensures '/' !in name ==> '/' !in r
  {
    name[..ExtensionStart(name)]
  }

  function Extension(name: string): (r: string)
    ensures '/' !in name ==> '/' !in r
  {
    name[ExtensionStart(name)..]
  }

  function Digit(d: nat): char
    requires d < 10
  {
    '0' + d as char
  }

  function Decimal(n: nat): (r: string)
    ensures r != [] && forall i :: 0 <= i < |r| ==> '0' <= r[i] <= '9'
  {
    if n < 10 then [Digit(n)] else Decimal(n / 10) + [Digit(n % 10)]
  }

  /** The name tried at step `n`. */
  function Candidate(stem: string, n: nat, extension: string): (name: string)
    ensures '/' !in stem && '/' !in extension ==> '/' !in name
  {
    stem + " (" + Decimal(n) + ")" + extension
  }

  lemma {:induction false} DecimalInjective(m: nat, n: nat)
    requires Decimal(m) == Decimal(n)
    ensures m == n
  {
    var a, b := Decimal(m), Decimal(n);
    assert a[|a| - 1] == Digit(m % 10) && b[|b| - 1] == Digit(n % 10);
    assert Digit(m % 10) as int == '0' as int + m % 10;
    assert Digit(n % 10) as int == '0' as int + n % 10;
    if m >= 10 && n >= 10 {
      assert a[..|a| - 1] == Decimal(m / 10) && b[..|b| - 1] == Decimal(n / 10);
      DecimalInjective(m / 10, n / 10);
    }
  }

  lemma {:induction false} CandidateInjective(stem: string, m: nat, n: nat, extension: string)
    requires Candidate(stem, m, extension) == Candidate(stem, n, extension)
    ensures m == n
  {
    var a, b := Candidate(stem, m, extension), Candidate(stem, n, extension);
    assert a[|stem| + 2..|a| - |extension| - 1] == Decimal(m);
    assert b[|stem| + 2..|b| - |extension| - 1] == Decimal(n);
    DecimalInjective(m, n);
  }

  /** The candidates 2..n-1, as a set. */
  function Tried(stem: string, n: nat, extension: string): set<string> {
    set k | 2 <= k < n :: Candidate(stem, k, extension)
  }

  lemma {:induction false} TriedSize(stem: string, n: nat, extension: string)
    requires n >= 2
    ensures |Tried(stem, n, extension)| == n - 2
  {
    if n > 2 {
      TriedSize(stem, n - 1, extension);
      var last := Candidate(stem, n - 1, extension);
      if last in Tried(stem, n - 1, extension) {
        var k :| 2 <= k < n - 1 && Candidate(stem, k, extension) == last;
        CandidateInjective(stem, k, n - 1, extension);
      }
      assert Tried(stem, n, extension) == Tried(stem, n - 1, extension) + {last};
    } else {
      assert Tried(stem, 2, extension) == {};
    }
  }

  lemma {:induction false} SubsetSize<T>(a: set<T>, b: set<T>)
    requires a <= b
    ensures |a| <= |b|
  {
    assert b == a + (b - a);
  }

  /** As long as every candidate so far is taken, at most |taken| have been tried. */
  lemma {:induction false} TriesBounded(taken: set<string>, stem: string, n: nat, extension: string)
    requires n >= 2 && forall k :: 2 <= k < n ==> Candidate(stem, k, extension) in taken
    ensures n - 2 <= |taken|
  {
    TriedSize(stem, n, extension);
    SubsetSize(Tried(stem, n, extension), taken);
  }

  /** The suffix search from `n` on. */
  function FirstFree(taken: set<string>, stem: string, n: nat, extension: string): (r: nat)
    requires n >= 2 && forall k :: 2 <= k < n ==> Candidate(stem, k, extension) in taken
    ensures n <= r <= |taken| + 2 && Candidate(stem, r, extension) !in taken
    ensures forall k :: 2 <= k < r ==> Candidate(stem, k, extension) in taken
    decreases |taken| + 2 - n
  {
    TriesBounded(taken, stem, n, extension);
    if Candidate(stem, n, extension) !in taken then n else
      assert n - 2 < |taken| by { TriesBounded(taken, stem, n + 1, extension); }
      FirstFree(taken, stem, n + 1, extension)
  }

  /** The name an entry gets: its own if free, else with the least free number from 2 on. */
  function Resolve(taken: set<string>, path: string): (name: string)
    ensures name !in taken && '/' !in name
    ensures FileName(path) !in taken ==> name == FileName(path)
  {
    var base := FileName(path);
    if base !in taken then base
    else Candidate(Stem(base), FirstFree(taken, Stem(base), 2, Extension(base)), Extension(base))
  }

  lemma {:induction false} StemExtension(name: string)
    ensures Stem(name) + Extension(name) == name
  {
  }

  method ResolveName(names: seq<string>, path: string) returns (fileName: string)
    ensures fileName == Resolve((set x | x in names), path)
  {
    var existing: set<string> := {};
    for i := 0 to |names|
      invariant existing == set x | x in names[..i]
    {
      existing := existing + {names[i]};
    }
    assert names[..|names|] == names;
    var base := FileName(path);
    var stem, extension := Stem(base), Extension(base);
    fileName := stem + extension;
    StemExtension(base);
    if fileName in existing {
      var n := 2;
      while true
        invariant n >= 2 && forall k :: 2 <= k < n ==> Candidate(stem, k, extension) in existing
        invariant FirstFree(existing, stem, 2, extension) == FirstFree(existing, stem, n, extension)
        invariant n - 2 <= |existing|
        decreases |existing| + 2 - n
      {
        var candidate := Candidate(stem, n, extension);
        if candidate !in existing {
          fileName := candidate;
          break;
        }
        TriesBounded(existing, stem, n + 1, extension);
        n := n + 1;
      }
    }
  }

  lemma {:induction false} OwnFileName(name: string)
    requires '/' !in name
    ensures FileName(name) == name
  {
    LastIndexIs(name, '/');
  }

  /** A stored name is its own file part, so extraction writes it under that very name. */
  lemma {:induction false} ResolvedIsFileName(taken: set<string>, path: string)
    ensures FileName(Resolve(taken, path)) == Resolve(taken, path)
  {
    hide Resolve, FileName;
    OwnFileName(Resolve(taken, path));
  }

  // ---- What the parts of a name are ----

  lemma {:induction false} LastIndexIff(s: string, c: char, i: int)
    requires -1 <= i < |s|
    ensures LastIndex(s, c) == i <==> (i >= 0 ==> s[i] == c) && forall j :: i < j < |s| ==> s[j] != c
  {
    hide LastIndex;
    LastIndexIs(s, c);
  }

  /** The file part of a path is what follows its last slash, or all of it. */
  lemma {:induction false} FileNameIff(path: string, folder: string, name: string)
    requires path == folder + name && (folder == "" || folder[|folder| - 1] == '/')
    ensures FileName(path) == name <==> '/' !in name
  {
    if '/' !in name {
      assert path[|folder|..] == name;
      LastIndexIff(path, '/', |folder| - 1);
    }
  }

  /** A name is cut at its last dot, but not in front of it when nothing else is there, and ".." is not cut. */
  lemma {:induction false} PartsIff(stem: string, extension: string)
    ensures var name := stem + extension;
      Stem(name) == stem && Extension(name) == extension <==>
        if extension == "" then name in {"", ".."} || '.' !in name[1..]
        else name != ".." && stem != "" && extension[0] == '.' && '.' !in extension[1..]
  {
    var name := stem + extension;
    assert name[..|stem|] == stem && name[|stem|..] == extension;
    LastIndexIs(name, '.');
    if extension != "" {
      LastIndexIff(name, '.', |stem|);
      assert name[|stem| + 1..] == extension[1..];
    } else if name != "" {
      LastIndexIff(name, '.', 0);
      LastIndexIff(name, '.', -1);
      assert name[0..] == name && name == [name[0]] + name[1..];
    }
  }

  function Value(digits: string): nat
    requires forall i :: 0 <= i < |digits| ==> '0' <= digits[i] <= '9'
  {
    if digits == "" then 0 else 10 * Value(digits[..|digits| - 1]) + (digits[|digits| - 1] as int - '0' as int)
  }

  /** The number in a candidate is written in decimal without leading zeros. */
  lemma {:induction false} DecimalReads(n: nat)
    ensures Value(Decimal(n)) == n && (n > 0 ==> Decimal(n)[0] != '0')
  {
    if n < 10 {
      assert Decimal(n)[..0] == "";
    } else {
      DecimalReads(n / 10);
      assert Decimal(n)[..|Decimal(n)| - 1] == Decimal(n / 10);
    }
  }

  lemma {:induction false} TwoDots(n: nat)
    ensures Stem("..") == ".." && Extension("..") == "" && Extension(Candidate("..", n, "")) != ""
  {
    hide Decimal, LastIndex;
    var name := Candidate("..", n, "");
    assert name[1] == '.' && name[2] == ' ';
    LastIndexIs(name, '.');
  }

  /** A numbered name keeps the extension, and the number follows the stem, exactly if the name is not "..". */
  lemma {:induction false} CandidateKeepsExtension(name: string, n: nat)
    ensures var stem, extension := Stem(name), Extension(name);
      Extension(Candidate(stem, n, extension)) == extension <==> name != ".."
    ensures name != ".." ==> Stem(Candidate(Stem(name), n, Extension(name))) == Stem(name) + " (" + Decimal(n) + ")"
  {
    hide Stem, Extension, Decimal;
    var stem, extension, number := Stem(name), Extension(name), " (" + Decimal(n) + ")";
    StemExtension(name);
    PartsIff(stem, extension);
    assert Candidate(stem, n, extension) == (stem + number) + extension;
    assert '.' !in number;
    PartsIff(stem + number, extension);
    if extension == "" && name != ".." {
      assert stem == name && '.' !in (stem + number)[1..];
    }
    if name == ".." {
      TwoDots(n);
    }
  }

  /** The second file of a name gets the number 2 in front of the extension; its folder does not matter. */
  lemma {:induction false} SecondReport()
    ensures Resolve({"report.txt"}, "docs/report.txt") == "report (2).txt"
  {
    hide FileName, Stem, Extension;
    FileNameIff("docs/report.txt", "docs/", "report.txt");
    PartsIff("report", ".txt");
    assert "report" + ".txt" == "report.txt";
    assert Decimal(2) == "2";
    assert Candidate("report", 2, ".txt") == "report (2).txt";
  }
}
