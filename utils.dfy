/** `utils.ts`: which files are SQL scripts, and how `loadFiles` puts the texts of the
    SQL files of a folder together into one script. */
module Utils {
  import opened Wrappers
  import opened JsStrings

  // ---------------------------------------------------------------------------
  // isSql

  /** The last `.`-separated part of a file name; the whole name when it has no `.`. */
  function Extension(fileName: string): string {
    var parts := Split(fileName, '.');
    parts[|parts| - 1]
  }

  /** `isSql`: the last part of the name, lower-cased, is `sql`. */
  predicate IsSql(fileName: string) {
    ToLowerAscii(Extension(fileName)) == "sql"
  }

  /** The extension is what follows the last `.`. */
  lemma ExtensionAfterDot(stem: string, ext: string)
    requires '.' !in ext
    ensures Extension(stem + "." + ext) == ext
  {
    SplitAt(stem, ext, '.');
    SplitPrefix(ext, [], '.');
    assert ext + [] == ext;
    assert Split(ext, '.') == [ext];
  }

  /** A name without `.` is its own extension. */
  lemma ExtensionWithoutDot(fileName: string)
    requires '.' !in fileName
    ensures Extension(fileName) == fileName
  {
    SplitPrefix(fileName, [], '.');
    assert fileName + [] == fileName;
  }

  /** The last three characters of `s` are `s`, `q` and `l`, each in either case. */
  predicate EndsInSqlLetters(s: string)
    requires |s| >= 3
  {
    var n := |s|;
    (s[n - 3] == 's' || s[n - 3] == 'S') && (s[n - 2] == 'q' || s[n - 2] == 'Q')
    && (s[n - 1] == 'l' || s[n - 1] == 'L')
  }

  /** `toLowerCase()` gives `sql` exactly for the eight spellings of `sql` in upper and
      lower case, and for nothing else. */
  lemma LowerCaseIsSql(t: string)
    ensures ToLowerAscii(t) == "sql"
        <==> |t| == 3 && (t[0] == 's' || t[0] == 'S') && (t[1] == 'q' || t[1] == 'Q')
             && (t[2] == 'l' || t[2] == 'L')
  {
    if |t| == 3 {
      var r := ToLowerAscii(t);
      assert r == "sql" <==> r[0] == 's' && r[1] == 'q' && r[2] == 'l';
    }
  }

  /** No character of a name ending in `sql`, in any case, is a `.` among the last three. */
  lemma NoDotInSqlEnding(fileName: string)
    requires |fileName| >= 3 && ToLowerAscii(fileName[|fileName| - 3..]) == "sql"
    ensures forall i :: |fileName| - 3 <= i < |fileName| ==> fileName[i] != '.'
  {
    var n := |fileName|;
    var t := fileName[n - 3..];
    forall i | n - 3 <= i < n
      ensures fileName[i] != '.'
    {
      assert ToLowerAscii(t)[i - (n - 3)] == LowerChar(fileName[i]);
    }
  }

  /** A file is a SQL file exactly when its name ends in `sql`, in any case, right after
      a `.` or with nothing before it. */
  lemma IsSqlIff(fileName: string)
    ensures IsSql(fileName)
        <==> |fileName| >= 3 && ToLowerAscii(fileName[|fileName| - 3..]) == "sql"
             && (|fileName| == 3 || fileName[|fileName| - 4] == '.')
    ensures IsSql(fileName)
        <==> |fileName| >= 3 && EndsInSqlLetters(fileName)
             && (|fileName| == 3 || fileName[|fileName| - 4] == '.')
  {
    var n := |fileName|;
    if n >= 3 {
      var t := fileName[n - 3..];
      LowerCaseIsSql(t);
      assert t[0] == fileName[n - 3] && t[1] == fileName[n - 2] && t[2] == fileName[n - 1];
    }
    var e := Extension(fileName);
    SplitLast(fileName, '.');
    assert '.' !in e;
    forall i | n - |e| <= i < n
      ensures fileName[i] != '.'
    {
      assert e[i - (n - |e|)] == fileName[i];
    }
    if n >= 3 && ToLowerAscii(fileName[n - 3..]) == "sql" && (n == 3 || fileName[n - 4] == '.') {
      NoDotInSqlEnding(fileName);
      assert |e| == 3;
    }
  }

  /** Names shaped like those of the tests: `file1.sql` and `file3.old.sql` are SQL files,
      in any case, and `file2.sql.old` is not. */
  lemma IsSqlOnTestNames(stem: string)
    ensures IsSql(stem + ".sql") && IsSql(stem + ".SQL") && !IsSql(stem + ".sql.old")
  {
    var sql, upper, other := "sql", "SQL", "old";
    ExtensionAfterDot(stem, sql);
    assert stem + "." + sql == stem + ".sql";
    ExtensionAfterDot(stem, upper);
    assert stem + "." + upper == stem + ".SQL";
    assert ToLowerAscii(upper) == sql;
    ExtensionAfterDot(stem + ".sql", other);
    assert stem + ".sql" + "." + other == stem + ".sql.old";
    assert ToLowerAscii(other)[0] == 'o';
  }

  // ---------------------------------------------------------------------------
  // loadFiles

  /** Why the promise of `loadFiles` is rejected: a file that cannot be read, or no SQL
      file at all (`reduce` of an empty array without an initial value). */
  datatype LoadError = MissingFile(path: string) | NoSqlFile

  /** The names given, or the listing of the folder when none are given. */
  function FilesToRead(fileNames: seq<string>, listing: seq<string>): seq<string> {
    if |fileNames| == 0 then listing else fileNames
  }

  /** The SQL files among `files`, in their order. */
  function SqlFiles(files: seq<string>): (r: seq<string>)
    ensures |r| <= |files|
    decreases |files|
  {
    if |files| == 0 then []
    else
      var init := SqlFiles(files[..|files| - 1]);
      if IsSql(files[|files| - 1]) then init + [files[|files| - 1]] else init
  }

  /** `filesPath.concat("/", fileName)`. */
  function PathOf(filesPath: string, fileName: string): string {
    filesPath + "/" + fileName
  }

  /** Reading the files one after the other, `disk` mapping each readable path to its
      text; the first file that cannot be read rejects. */
  function ReadAll(filesPath: string, names: seq<string>, disk: map<string, string>)
    : Result<seq<string>, LoadError>
    decreases |names|
  {
    if |names| == 0 then Success([])
    else match ReadAll(filesPath, names[..|names| - 1], disk)
      case Failure(e) => Failure(e)
      case Success(texts) =>
        var path := PathOf(filesPath, names[|names| - 1]);
        if path in disk then Success(texts + [disk[path]]) else Failure(MissingFile(path))
  }

  /** What `loadFiles` resolves to or is rejected with. */
  function Load(filesPath: string, fileNames: seq<string>, listing: seq<string>,
                disk: map<string, string>): Result<string, LoadError>
  {
    match ReadAll(filesPath, SqlFiles(FilesToRead(fileNames, listing)), disk)
    case Failure(e) => Failure(e)
    case Success(texts) => if |texts| == 0 then Failure(NoSqlFile) else Success(Join(texts, '\n'))
  }

  /** The SQL files are exactly the files whose names pass `isSql`, in their order. */
  lemma {:induction false} SqlFilesFilter(files: seq<string>)
    ensures forall f :: f in SqlFiles(files) <==> f in files && IsSql(f)
    decreases |files|
  {
    if |files| > 0 {
      var init := files[..|files| - 1];
      SqlFilesFilter(init);
      assert files == init + [files[|files| - 1]];
    }
  }

  /** Selecting from two lists is selecting from each. */
  lemma {:induction false} SqlFilesAppend(a: seq<string>, b: seq<string>)
    ensures SqlFiles(a + b) == SqlFiles(a) + SqlFiles(b)
    decreases |b|
  {
    if |b| == 0 {
      assert a + b == a;
    } else {
      var b' := b[..|b| - 1];
      SqlFilesAppend(a, b');
      assert (a + b)[..|a + b| - 1] == a + b';
    }
  }

  /** Once a read has failed, reading more files does not change the rejection. */
  lemma {:induction false} ReadAllStaysFailed(filesPath: string, names: seq<string>,
                                             more: seq<string>, disk: map<string, string>)
    requires ReadAll(filesPath, names, disk).Failure?
    ensures ReadAll(filesPath, names + more, disk) == ReadAll(filesPath, names, disk)
    decreases |more|
  {
    if |more| == 0 {
      assert names + more == names;
    } else {
      var m := more[..|more| - 1];
      ReadAllStaysFailed(filesPath, names, m, disk);
      assert (names + more)[..|names + more| - 1] == names + m;
    }
  }

  /** Reading one more file: nothing happens unless it is a SQL file, whose text is
      added or whose path rejects. */
  lemma ReadAllStep(filesPath: string, files: seq<string>, i: nat, disk: map<string, string>,
                    texts: seq<string>)
    requires i < |files| && ReadAll(filesPath, SqlFiles(files[..i]), disk) == Success(texts)
    ensures var path := PathOf(filesPath, files[i]);
            ReadAll(filesPath, SqlFiles(files[..i + 1]), disk)
            == if !IsSql(files[i]) then Success(texts)
               else if path in disk then Success(texts + [disk[path]])
               else Failure(MissingFile(path))
  {
    assert files[..i + 1] == files[..i] + [files[i]];
    SqlFilesAppend(files[..i], [files[i]]);
  }

  /** A read that fails among the first `k` files rejects the whole list the same way. */
  lemma ReadAllStopsAt(filesPath: string, files: seq<string>, k: nat, disk: map<string, string>)
    requires k <= |files| && ReadAll(filesPath, SqlFiles(files[..k]), disk).Failure?
    ensures ReadAll(filesPath, SqlFiles(files), disk) == ReadAll(filesPath, SqlFiles(files[..k]), disk)
  {
    TakeDrop(files, k);
    SqlFilesAppend(files[..k], files[k..]);
    ReadAllStaysFailed(filesPath, SqlFiles(files[..k]), SqlFiles(files[k..]), disk);
  }

  /** The reads succeed exactly when every file can be read, and then give the texts of
      the files in their order. */
  lemma {:induction false} ReadAllSucceeds(filesPath: string, names: seq<string>,
                                          disk: map<string, string>)
    ensures ReadAll(filesPath, names, disk).Success?
        <==> forall i :: 0 <= i < |names| ==> PathOf(filesPath, names[i]) in disk
    ensures ReadAll(filesPath, names, disk).Success? ==>
              |ReadAll(filesPath, names, disk).value| == |names|
              && forall i :: 0 <= i < |names| ==>
                   ReadAll(filesPath, names, disk).value[i] == disk[PathOf(filesPath, names[i])]
    decreases |names|
  {
    if |names| > 0 {
      var init := names[..|names| - 1];
      ReadAllSucceeds(filesPath, init, disk);
      assert forall i :: 0 <= i < |init| ==> init[i] == names[i];
    }
  }

  /** `loadFiles` is rejected exactly when no file to read is a SQL file or some SQL file
      cannot be read. */
  lemma LoadFailsIff(filesPath: string, fileNames: seq<string>, listing: seq<string>,
                     disk: map<string, string>)
    ensures var sql := SqlFiles(FilesToRead(fileNames, listing));
            (Load(filesPath, fileNames, listing, disk).Failure?
             <==> |sql| == 0 || exists i :: 0 <= i < |sql| && PathOf(filesPath, sql[i]) !in disk)
  {
    var sql := SqlFiles(FilesToRead(fileNames, listing));
    ReadAllSucceeds(filesPath, sql, disk);
  }

  /** When `loadFiles` resolves, there is at least one SQL file, every one can be read,
      and the script is their texts, in the order of the names, joined by line feeds. */
  lemma LoadJoinsTexts(filesPath: string, fileNames: seq<string>, listing: seq<string>,
                       disk: map<string, string>)
    requires Load(filesPath, fileNames, listing, disk).Success?
    ensures var sql := SqlFiles(FilesToRead(fileNames, listing));
            |sql| > 0 && (forall i :: 0 <= i < |sql| ==> PathOf(filesPath, sql[i]) in disk)
            && Load(filesPath, fileNames, listing, disk).value
               == Join(seq(|sql|, i requires 0 <= i < |sql| && PathOf(filesPath, sql[i]) in disk
                                 => disk[PathOf(filesPath, sql[i])]), '\n')
  {
    var sql := SqlFiles(FilesToRead(fileNames, listing));
    ReadAllSucceeds(filesPath, sql, disk);
    var texts := ReadAll(filesPath, sql, disk).value;
    assert texts == seq(|sql|, i requires 0 <= i < |sql| && PathOf(filesPath, sql[i]) in disk
                                => disk[PathOf(filesPath, sql[i])]);
  }

  /** When every SQL file can be read and none holds a line feed, splitting the script at
      line feeds gives back the texts of the files, in their order. */
  lemma LoadSplitsIntoFiles(filesPath: string, fileNames: seq<string>, listing: seq<string>,
                            disk: map<string, string>)
    requires Load(filesPath, fileNames, listing, disk).Success?
    requires forall p :: p in disk ==> '\n' !in disk[p]
    ensures var sql := SqlFiles(FilesToRead(fileNames, listing));
            var texts := Split(Load(filesPath, fileNames, listing, disk).value, '\n');
            |texts| == |sql|
            && forall i :: 0 <= i < |sql| ==>
                 PathOf(filesPath, sql[i]) in disk && texts[i] == disk[PathOf(filesPath, sql[i])]
  {
    var sql := SqlFiles(FilesToRead(fileNames, listing));
    ReadAllSucceeds(filesPath, sql, disk);
    var texts := ReadAll(filesPath, sql, disk).value;
    SplitJoin(texts, '\n');
  }

  /** Given names, the listing of the folder plays no part. */
  lemma LoadIgnoresListing(filesPath: string, fileNames: seq<string>, listing1: seq<string>,
                           listing2: seq<string>, disk: map<string, string>)
    requires |fileNames| > 0
    ensures Load(filesPath, fileNames, listing1, disk) == Load(filesPath, fileNames, listing2, disk)
  {
  }

  /** `loadFiles`: pick the SQL files, read them, and join their texts with line feeds.
      `listing` is what reading the folder gives, `disk` what reading each file gives. */
  method LoadFiles(filesPath: string, fileNames: seq<string>, listing: seq<string>,
                   disk: map<string, string>) returns (r: Result<string, LoadError>)
    ensures r == Load(filesPath, fileNames, listing, disk)
  {
    var files := if |fileNames| == 0 then listing else fileNames;
    var read := ReadSqlFiles(filesPath, files, disk);
    if read.Failure? {
      return Failure(read.error);
    }
    if |read.value| == 0 {
      return Failure(NoSqlFile);
    }
    var script := JoinLines(read.value);
    return Success(script);
  }

  /** The `map` over the files and `Promise.all`: read every SQL file, in order. */
  method ReadSqlFiles(filesPath: string, files: seq<string>, disk: map<string, string>)
    returns (r: Result<seq<string>, LoadError>)
    ensures r == ReadAll(filesPath, SqlFiles(files), disk)
  {
    var texts: seq<string> := [];
    for i := 0 to |files|
      invariant ReadAll(filesPath, SqlFiles(files[..i]), disk) == Success(texts)
    {
      ReadAllStep(filesPath, files, i, disk, texts);
      if IsSql(files[i]) {
        var path := PathOf(filesPath, files[i]);
        if path !in disk {
          ReadAllStopsAt(filesPath, files, i + 1, disk);
          return Failure(MissingFile(path));
        }
        texts := texts + [disk[path]];
      }
    }
    assert files[..|files|] == files;
    return Success(texts);
  }

  /** The `reduce` without an initial value: the texts joined by line feeds. */
  method JoinLines(texts: seq<string>) returns (acc: string)
    requires |texts| > 0
    ensures acc == Join(texts, '\n')
  {
    acc := texts[0];
    for i := 1 to |texts|
      invariant acc == Join(texts[..i], '\n')
    {
      assert texts[..i + 1] == texts[..i] + [texts[i]];
      JoinSnoc(texts[..i], texts[i], '\n');
      acc := acc + "\n" + texts[i];
    }
    assert texts[..|texts|] == texts;
  }
}
