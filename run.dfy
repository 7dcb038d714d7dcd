/** `replace_translations`: the namespace taken from the catalog's file
    name, the files to process, one shared set of keys in use, and the single
    update of the catalog at the end. */
module Run {
  import opened Strings
  import opened Catalog
  import opened Extraction

  /** `os.path.basename`: what follows the last `/`, or the whole path when
      it has none. */
  function Basename(path: string): (r: string)
    ensures '/' !in r
    ensures EndsWith(path, r)
    ensures |r| < |path| ==> path[|path| - |r| - 1] == '/'
  {
    if path == [] || path[|path| - 1] == '/' then []
    else Basename(path[..|path| - 1]) + [path[|path| - 1]]
  }

  /** The position of the last `.` in `s`, or -1. */
  function LastDot(s: string): (i: int)
    ensures -1 <= i < |s|
    ensures i >= 0 ==> s[i] == '.'
    ensures forall j :: i < j < |s| ==> s[j] != '.'
  {
    if s == [] then -1
    else if s[|s| - 1] == '.' then |s| - 1
    else LastDot(s[..|s| - 1])
  }

  /** `os.path.splitext(name)[0]` for a name without `/`: the name up to its
      last dot, unless everything before that dot is dots (a hidden file such
      as `.php` has no extension). */
  function Root(name: string): string {
    var d := LastDot(name);
    if d > 0 && exists i :: 0 <= i < d && name[i] != '.' then name[..d] else name
  }

  /** A name with an extension loses it. */
  lemma RootDropsExtension(stem: string, ext: string)
    requires stem != [] && stem[0] != '.'
    requires '.' !in ext
    ensures Root(stem + "." + ext) == stem
  {
    var name := stem + "." + ext;
    var d := LastDot(name);
    assert name[|stem|] == '.';
    assert forall j :: |stem| < j < |name| ==> name[j] == ext[j - |stem| - 1];
    assert d == |stem|;
    assert name[0] == stem[0];
    assert name[..d] == stem;
  }

  /** A name without a dot is its own root. */
  lemma RootWithoutDot(name: string)
    requires '.' !in name
    ensures Root(name) == name
  {
  }

  /** `os.path.splitext(os.path.basename(translations_path))[0]`: the prefix
      of every key written into the source files. */
  function Namespace(catalogPath: string): string {
    Root(Basename(catalogPath))
  }

  /** `file.endswith(('.php', '.blade.php'))`. */
  predicate IsSourceFile(name: string) {
    EndsWith(name, ".php") || EndsWith(name, ".blade.php")
  }

  /** The second suffix adds nothing: a Blade template already ends with `.php`. */
  lemma SourceFileIsPhp(name: string)
    ensures IsSourceFile(name) <==> EndsWith(name, ".php")
  {
    if EndsWith(name, ".blade.php") {
      var n := |name|;
      assert name[n - 4..] == name[n - 9..][5..];
    }
  }

  /** A source file as the run sees it: its path, its name in its directory,
      its text, and the `__()` calls the pattern finds in it. */
  datatype SourceFile = SourceFile(path: string, name: string, text: string, matches: seq<Match>)

  /** What `input_path` is: one file, a directory with the files `os.walk`
      lists under it (in the order it lists them), or neither. */
  datatype InputPath = File(file: SourceFile) | Directory(files: seq<SourceFile>) | Neither

  /** The files of a directory whose name ends with `.php`. */
  function PhpFiles(files: seq<SourceFile>): seq<SourceFile> {
    if files == [] then []
    else
      var last := files[|files| - 1];
      PhpFiles(files[..|files| - 1]) + (if IsSourceFile(last.name) then [last] else [])
  }

  lemma {:induction false} PhpFilesMembers(files: seq<SourceFile>, f: SourceFile)
    ensures f in PhpFiles(files) <==> f in files && IsSourceFile(f.name)
  {
    if files != [] {
      PhpFilesMembers(files[..|files| - 1], f);
      assert files == files[..|files| - 1] + [files[|files| - 1]];
    }
  }

  /** The files `process_file` is called on: a single file whatever its
      name, or the `.php` files of a directory. */
  function Selected(input: InputPath): seq<SourceFile> {
    match input
    case File(f) => [f]
    case Directory(fs) => PhpFiles(fs)
    case Neither => []
  }

  /** `process_file` on one file, with the keys in use and the answers
      left when the run reaches it. */
  function FileRun(ns: string, f: SourceFile, used: set<string>, answers: seq<string>): FileState {
    Loop(ns, f.matches, FileState(used, answers, [], f.text))
  }

  /** What the loop of `replace_translations` threads from file to file: the
      files written back so far with their new text, `all_new_entries`, the
      keys in use and the answers still to be typed. */
  datatype RunState = RunState(written: seq<(string, string)>, minted: Dict, used: set<string>, answers: seq<string>)

  /** One file of the loop: an updated file is written back, and its new
      entries go into `all_new_entries`. Their keys are fresh, so `update`
      appends them (`UpdateNeverOverwrites`). */
  function AfterFile(ns: string, st: RunState, f: SourceFile): RunState {
    var fs := FileRun(ns, f, st.used, st.answers);
    RunState(st.written + (if fs.entries != [] then [(f.path, fs.content)] else []),
             st.minted + fs.entries, fs.used, fs.answers)
  }

  /** The loop of `replace_translations` over `files`, in order. */
  function RunFiles(ns: string, files: seq<SourceFile>, st: RunState): RunState {
    if files == [] then st else AfterFile(ns, RunFiles(ns, files[..|files| - 1], st), files[|files| - 1])
  }

  /** The calls of `files` that get a key, file after file. */
  function AllPending(files: seq<SourceFile>): seq<Match> {
    if files == [] then [] else AllPending(files[..|files| - 1]) + Pending(files[|files| - 1].matches)
  }

  /** The files with at least one call that gets a key. */
  function WithCalls(files: seq<SourceFile>): seq<SourceFile> {
    if files == [] then []
    else
      var last := files[|files| - 1];
      WithCalls(files[..|files| - 1]) + (if Pending(last.matches) != [] then [last] else [])
  }

  /** `w` is file `f` written back: its path, and its text with each call
      that gets a key rewritten to use one of the keys `minted`. */
  ghost predicate Rewritten(w: (string, string), f: SourceFile, ns: string, minted: Dict) {
    exists keys: seq<string> ::
      && |keys| == |Pending(f.matches)|
      && (forall j :: 0 <= j < |keys| ==> keys[j] in Keys(minted))
      && w == (f.path, Rewrite(f.text, ns, Pending(f.matches), keys))
  }

  lemma RewrittenMore(w: (string, string), f: SourceFile, ns: string, a: Dict, b: Dict)
    requires Rewritten(w, f, ns, a) && Keys(a) <= Keys(b)
    ensures Rewritten(w, f, ns, b)
  {
    var keys :| && |keys| == |Pending(f.matches)|
                && (forall j :: 0 <= j < |keys| ==> keys[j] in Keys(a))
                && w == (f.path, Rewrite(f.text, ns, Pending(f.matches), keys));
  }

  /** What one file gives, as `process_file` promises it. */
  lemma FileRunProgress(ns: string, f: SourceFile, used: set<string>, answers: seq<string>)
    ensures var fs := FileRun(ns, f, used, answers);
      && DistinctKeys(fs.entries)
      && Keys(fs.entries) !! used
      && fs.used == used + Keys(fs.entries)
      && IsSuffix(fs.answers, answers)
      && |fs.entries| == |Pending(f.matches)|
      && (forall j :: 0 <= j < |fs.entries| ==> fs.entries[j].value == Pending(f.matches)[j].text)
      && fs.content == Rewrite(f.text, ns, Pending(f.matches), KeyList(fs.entries))
  {
    LoopProgress(f.text, ns, f.matches, used, answers);
  }

  /** Across the files of a run, the new entries have distinct keys that
      were not in use, the keys in use grow by exactly those keys, answers
      are only consumed, and a file is written back exactly when there is a
      new entry. */
  lemma {:induction false} RunKeys(ns: string, files: seq<SourceFile>, used0: set<string>, answers0: seq<string>)
    ensures var st := RunFiles(ns, files, RunState([], [], used0, answers0));
      && DistinctKeys(st.minted)
      && Keys(st.minted) !! used0
      && st.used == used0 + Keys(st.minted)
      && IsSuffix(st.answers, answers0)
      && (st.written == [] <==> st.minted == [])
    decreases |files|
  {
    if files == [] {
      assert Keys([]) == {};
    } else {
      var n := |files| - 1;
      RunKeys(ns, files[..n], used0, answers0);
      var st := RunFiles(ns, files[..n], RunState([], [], used0, answers0));
      var fs := FileRun(ns, files[n], st.used, st.answers);
      FileRunProgress(ns, files[n], st.used, st.answers);
      KeysConcat(st.minted, fs.entries);
      DistinctConcat(st.minted, fs.entries);
      SuffixTrans(fs.answers, st.answers, answers0);
    }
  }

  /** `all_new_entries.update(new_entries)` never overwrites an entry: it
      appends the file's new entries. */
  lemma UpdateNeverOverwrites(ns: string, files: seq<SourceFile>, used0: set<string>, answers0: seq<string>, f: SourceFile)
    ensures var st := RunFiles(ns, files, RunState([], [], used0, answers0));
      var fs := FileRun(ns, f, st.used, st.answers);
      DistinctKeys(st.minted) && Update(st.minted, fs.entries) == st.minted + fs.entries
  {
    RunKeys(ns, files, used0, answers0);
    var st := RunFiles(ns, files, RunState([], [], used0, answers0));
    FileRunProgress(ns, f, st.used, st.answers);
    UpdateFresh(st.minted, FileRun(ns, f, st.used, st.answers).entries);
  }

  /** One file's new entries hold the texts of its calls that get a key. */
  lemma FileRunTexts(ns: string, f: SourceFile, used: set<string>, answers: seq<string>)
    ensures var fs := FileRun(ns, f, used, answers);
      && |fs.entries| == |Pending(f.matches)|
      && forall j :: 0 <= j < |fs.entries| ==> fs.entries[j].value == Pending(f.matches)[j].text
  {
    LoopProgress(f.text, ns, f.matches, used, answers);
  }

  lemma ValuesConcat(a: Dict, pa: seq<Match>, b: Dict, pb: seq<Match>)
    requires |a| == |pa| && forall j :: 0 <= j < |a| ==> a[j].value == pa[j].text
    requires |b| == |pb| && forall j :: 0 <= j < |b| ==> b[j].value == pb[j].text
    ensures |a + b| == |pa + pb| && forall j :: 0 <= j < |a + b| ==> (a + b)[j].value == (pa + pb)[j].text
  {
  }

  /** The new entries of a run are the calls that get a key, file after file
      and call after call, each holding its call's text. */
  lemma {:induction false} RunTexts(ns: string, files: seq<SourceFile>, used0: set<string>, answers0: seq<string>)
    ensures var st := RunFiles(ns, files, RunState([], [], used0, answers0));
      && |st.minted| == |AllPending(files)|
      && forall j :: 0 <= j < |st.minted| ==> st.minted[j].value == AllPending(files)[j].text
    decreases |files|
  {
    if files != [] {
      var n := |files| - 1;
      RunTexts(ns, files[..n], used0, answers0);
      var st := RunFiles(ns, files[..n], RunState([], [], used0, answers0));
      var fs := FileRun(ns, files[n], st.used, st.answers);
      FileRunTexts(ns, files[n], st.used, st.answers);
      ValuesConcat(st.minted, AllPending(files[..n]), fs.entries, Pending(files[n].matches));
    }
  }

  /** The files a run writes back are exactly the files with a call that
      gets a key, in order, each with those calls rewritten to use keys the
      run minted. */
  lemma {:induction false} RunWritten(ns: string, files: seq<SourceFile>, used0: set<string>, answers0: seq<string>)
    ensures var st := RunFiles(ns, files, RunState([], [], used0, answers0));
      && |st.written| == |WithCalls(files)|
      && forall k :: 0 <= k < |st.written| ==> Rewritten(st.written[k], WithCalls(files)[k], ns, st.minted)
    decreases |files|
  {
    if files != [] {
      var n := |files| - 1;
      var f := files[n];
      RunWritten(ns, files[..n], used0, answers0);
      var st := RunFiles(ns, files[..n], RunState([], [], used0, answers0));
      var fs := FileRun(ns, f, st.used, st.answers);
      var st' := RunFiles(ns, files, RunState([], [], used0, answers0));
      FileRunProgress(ns, f, st.used, st.answers);
      KeysConcat(st.minted, fs.entries);
      forall k | 0 <= k < |st.written|
        ensures Rewritten(st'.written[k], WithCalls(files)[k], ns, st'.minted)
      {
        RewrittenMore(st.written[k], WithCalls(files[..n])[k], ns, st.minted, st'.minted);
      }
      if fs.entries != [] {
        var keys := KeyList(fs.entries);
        forall j | 0 <= j < |keys| ensures keys[j] in Keys(st'.minted) {
          assert fs.entries[j] in fs.entries;
        }
        assert Rewritten(st'.written[|st.written|], f, ns, st'.minted);
      }
    }
  }


  /** What a run leaves behind: the source files it rewrote with their new
      text, the entries it minted (`all_new_entries`), and the catalog text
      it wrote, if any. */
  datatype Outcome = Outcome(written: seq<(string, string)>, minted: Dict, catalog: Option<string>)

  /** `process_file` as the run uses it: the entries it minted (none when
      the file has no call) and the new file text when it was updated. */
  method ProcessOne(migration: Migration, f: SourceFile, ns: string) returns (minted: Dict, rewritten: Option<string>)
    modifies migration
    ensures var fs := FileRun(ns, f, old(migration.used), old(migration.answers));
      && minted == fs.entries
      && rewritten == (if fs.entries != [] then Some(fs.content) else None)
      && migration.used == fs.used
      && migration.answers == fs.answers
  {
    var result := migration.ProcessFile(f.text, ns, f.matches);
    minted, rewritten := [], None;
    if result.Some? {
      minted := result.value.newEntries;
      if result.value.updated {
        rewritten := Some(result.value.content);
      }
    }
  }

  /** Minted keys never clash with the catalog, so the catalog is written
      with the minted entries first, in the order they were minted, followed
      by the existing entries unchanged. */
  lemma CatalogAfterRun(minted: Dict, onDisk: seq<Entry>)
    requires DistinctKeys(minted)
    requires Keys(minted) !! Keys(onDisk)
    ensures Merge(minted, FromPairs(onDisk)) == minted + FromPairs(onDisk)
  {
    FromPairsMap(onDisk);
    UpdateFresh(minted, FromPairs(onDisk));
  }

  /** The loop of `replace_translations` over the selected files: every file
      goes through `process_file` with the shared keys in use, its new
      entries are added to `all_new_entries`, and a file that was updated is
      written back. */
  method ProcessFiles(migration: Migration, files: seq<SourceFile>, ns: string)
    returns (written: seq<(string, string)>, allNew: Dict)
    modifies migration
    ensures RunState(written, allNew, migration.used, migration.answers)
         == RunFiles(ns, files, RunState([], [], old(migration.used), old(migration.answers)))
  {
    allNew, written := [], [];
    var i := 0;
    while i < |files|
      invariant 0 <= i <= |files|
      invariant RunState(written, allNew, migration.used, migration.answers)
             == RunFiles(ns, files[..i], RunState([], [], old(migration.used), old(migration.answers)))
    {
      var f := files[i];
      UpdateNeverOverwrites(ns, files[..i], old(migration.used), old(migration.answers), f);
      var minted, rewritten := ProcessOne(migration, f, ns);
      if rewritten.Some? {
        written := written + [(f.path, rewritten.value)];
      }
      if minted != [] {
        allNew := Update(allNew, minted);
      }
      assert files[..i + 1][..i] == files[..i];
      i := i + 1;
    }
    assert files[..i] == files;
  }

  /** `replace_translations` as a function of its inputs: the files it writes
      back, the entries it mints and the catalog text it writes, if any. */
  function Replace(input: InputPath, catalogPath: string, onDisk: seq<Entry>, answers: seq<string>): Outcome {
    if input.Neither? then Outcome([], [], None)
    else
      var ns := Namespace(catalogPath);
      var st := RunFiles(ns, Selected(input), RunState([], [], Keys(onDisk), answers));
      RunKeys(ns, Selected(input), Keys(onDisk), answers);
      Outcome(st.written, st.minted,
              if st.minted == [] then None else Some(Render(Merge(st.minted, FromPairs(onDisk)))))
  }

  /** What a run promises: the new entries are the texts of the calls that
      get a key, in order, under distinct keys none of which was in the
      catalog; the files written back are exactly those with such a call,
      each with its calls rewritten to minted keys; and the catalog, written
      exactly when there is a new entry, lists the new entries followed by
      the old ones. */
  lemma ReplaceMeaning(input: InputPath, catalogPath: string, onDisk: seq<Entry>, answers: seq<string>)
    ensures var out := Replace(input, catalogPath, onDisk, answers);
      var files := Selected(input);
      && DistinctKeys(out.minted)
      && Keys(out.minted) !! Keys(onDisk)
      && |out.minted| == |AllPending(files)|
      && (forall j :: 0 <= j < |out.minted| ==> out.minted[j].value == AllPending(files)[j].text)
      && |out.written| == |WithCalls(files)|
      && (forall k :: 0 <= k < |out.written| ==>
            Rewritten(out.written[k], WithCalls(files)[k], Namespace(catalogPath), out.minted))
      && out.catalog == if out.minted == [] then None else Some(Render(out.minted + FromPairs(onDisk)))
  {
    if !input.Neither? {
      var ns := Namespace(catalogPath);
      RunKeys(ns, Selected(input), Keys(onDisk), answers);
      RunTexts(ns, Selected(input), Keys(onDisk), answers);
      RunWritten(ns, Selected(input), Keys(onDisk), answers);
      var st := RunFiles(ns, Selected(input), RunState([], [], Keys(onDisk), answers));
      CatalogAfterRun(st.minted, onDisk);
    }
  }

  /** `replace_translations(input_path, translations_path)`. The pairs found
      in the catalog file and the answers typed at the prompts are parameters;
      the files written are the result. */
  method ReplaceTranslations(input: InputPath, catalogPath: string, onDisk: seq<Entry>, answers: seq<string>)
    returns (out: Outcome)
    ensures out == Replace(input, catalogPath, onDisk, answers)
    ensures input.Neither? ==> out == Outcome([], [], None)
    ensures DistinctKeys(out.minted)
    ensures Keys(out.minted) !! Keys(onDisk)
    ensures out.written == [] <==> out.minted == []
  {
    var ns := Namespace(catalogPath);
    var existing := FromPairs(onDisk);
    FromPairsMap(onDisk);
    var migration := new Migration(existing, answers);
    if input.Neither? {
      return Outcome([], [], None);
    }
    var written, allNew := ProcessFiles(migration, Selected(input), ns);
    RunKeys(ns, Selected(input), Keys(onDisk), answers);
    var catalog: Option<string> := None;
    if allNew != [] {
      var text := UpdateTranslationFile(allNew, onDisk);
      catalog := Some(text);
    }
    out := Outcome(written, allNew, catalog);
  }
}
