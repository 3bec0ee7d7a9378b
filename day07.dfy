/** No space left on device (day_07/src/main.rs): a terminal transcript of
    `cd` and `ls` commands is replayed into a map from displayed paths to
    items, and directory sizes are read off the map by key prefix. */
module Day07 {
  import opened Text

  /** A path as the names pushed below the root, `.` entries included. */
  type Path = seq<string>

  /** `Item`: a directory (with its path) or a file (with its size). */
  datatype Item = Dir(path: Path) | File(size: nat)

  type Fs = map<string, Item>

  datatype State = State(fs: Fs, current: Path)

  datatype BuildError = ShortCd | NotCharBoundary | UnknownDirectory | EmptyListing | MissingName | BadSize

  // ---------------------------------------------------------------------
  // Paths
  // ---------------------------------------------------------------------

  /** `PathBuf::display`: the components joined by `/`, after a leading `/`. */
  function Display(path: Path): (s: string)
    ensures |s| > 0 && s[0] == '/'
  {
    if path == [] then "/"
    else if |path| == 1 then "/" + path[0]
    else Display(path[..|path| - 1]) + "/" + path[|path| - 1]
  }

  /** `PathBuf::push`: pushing the absolute path `/` resets to the root;
      any other name becomes a new last component. */
  function Push(path: Path, name: string): (r: Path)
    ensures name == "/" ==> r == []
    ensures name != "/" ==> r == path + [name]
  {
    if name == "/" then [] else path + [name]
  }

  /** An entry `Path::components` does not yield below the root: `.`, and
      the empty entry a trailing `/` leaves. */
  predicate Unnamed(c: string) {
    c == "." || c == ""
  }

  /** The components `Path::components` yields below the root. */
  function Components(path: Path): (r: seq<string>)
    ensures |r| <= |path|
  {
    if path == [] then []
    else
      var last := path[|path| - 1];
      Components(path[..|path| - 1]) + (if Unnamed(last) then [] else [last])
  }

  /** The path with its trailing unnamed entries dropped, as
      `Components::as_path` trims them; it has the same components. */
  function TrimUnnamed(path: Path): (r: Path)
    ensures r <= path && Components(r) == Components(path)
    ensures r == [] || !Unnamed(r[|r| - 1])
  {
    if path != [] && Unnamed(path[|path| - 1]) then TrimUnnamed(path[..|path| - 1]) else path
  }

  /** `PathBuf::pop`, which truncates the path to its `parent()`: the last
      component goes, together with the unnamed entries after it and those
      before it. A path with no component below the root is the root, which
      has no parent, and stays as it is. */
  function Pop(path: Path): (r: Path)
    ensures Components(path) == [] ==> r == path
    ensures Components(path) != [] ==>
              && r <= path && (r == [] || !Unnamed(r[|r| - 1]))
              && Components(r) + [Components(path)[|Components(path)| - 1]] == Components(path)
  {
    var t := TrimUnnamed(path);
    if t == [] then path
    else
      assert t == t[..|t| - 1] + [t[|t| - 1]];
      TrimUnnamed(t[..|t| - 1])
  }

  /** A trailing `.` or empty entry changes neither the components nor the
      parent: `$ cd ..` from `/a/.` goes where it goes from `/a`. */
  lemma PopSkipsUnnamed(path: Path, c: string)
    requires Unnamed(c)
    ensures Components(path + [c]) == Components(path)
    ensures Components(path) != [] ==> Pop(path + [c]) == Pop(path)
  {
    assert (path + [c])[..|path|] == path;
    assert TrimUnnamed(path + [c]) == TrimUnnamed(path);
  }

  /** `$ cd ..` from `/a/.` is the root, where dropping the last entry would give `/a`. */
  lemma PopDot()
    ensures Components(["a", "."]) == ["a"] && Pop(["a", "."]) == []
  {
    assert ["a", "."][..1] == ["a"];
    assert ["a"][..0] == [];
  }

  /** In the directory `/a/.`, `$ cd ..` moves to the root, so a file listed
      next lands at `/x` and not at `/a/x`. */
  lemma CdUpFromDot(fs: Fs)
    requires "/" in fs && fs["/"] == Dir([])
    ensures Apply(State(fs, ["a", "."]), "$ cd ..") == Ok(State(fs, []))
    ensures Perform(State(fs, []), Listing("5", "x")) == Ok(State(fs["/x" := File(5)], []))
  {
    assert ParseNat("5") == Some(5) by { assert AllDigits("5") && DigitsValue("5") == 5; }
    PopDot();
    var line := "$ cd ..";
    assert line[..4] == "$ cd" && line[5..] == "..";
    assert Display(["x"]) == "/x";
  }

  /** A non-empty last component makes the display strictly longer. */
  lemma DisplayGrows(path: Path, name: string)
    requires name != []
    ensures |Display(path + [name])| > |Display(path)|
  {
    var p := path + [name];
    assert p[..|p| - 1] == path;
  }

  // ---------------------------------------------------------------------
  // Replaying the transcript
  // ---------------------------------------------------------------------

  function Initial(): State {
    State(map["/" := Dir([])], [])
  }

  /** A transcript line split into what it asks for. */
  datatype Command = Cd(arg: string) | Ls | Listing(kind: string, name: string)

  /** How `build_filesystem_view` reads a line: `$ cd` with the rest of the
      line after the space as its argument, `$ ls`, or a listing whose first
      two words are a size (or `dir`) and a name. The argument is the byte
      slice `&line[5..]`: the four characters of `$ cd` are one byte each, so
      it fails on a line of four characters and on one whose fifth character
      takes more than one byte, where byte 5 is no character boundary. */
  function Parse(line: string): (r: Result<Command, BuildError>)
    ensures r.Ok? && r.value.Listing? ==> r.value.kind != [] && r.value.name != []
  {
    if StartsWith(line, "$ cd") then
      if |line| < 5 then Err(ShortCd)
      else if Utf8Width(line[4]) != 1 then Err(NotCharBoundary)
      else Ok(Cd(line[5..]))
    else if StartsWith(line, "$ ls") then Ok(Ls)
    else
      var listing := Words(line);
      if |listing| == 0 then Err(EmptyListing)
      else if |listing| == 1 then Err(MissingName)
      else Ok(Listing(listing[0], listing[1]))
  }

  /** What a command does to the state. */
  function Perform(st: State, cmd: Command): Result<State, BuildError> {
    match cmd
    case Cd(arg) =>
      var key := Display(if arg == ".." then Pop(st.current) else Push(st.current, arg));
      if key in st.fs && st.fs[key].Dir? then Ok(State(st.fs, st.fs[key].path))
      else Err(UnknownDirectory)
    case Ls => Ok(st)
    case Listing(kind, name) =>
      var path := Push(st.current, name);
      if kind == "dir" then Ok(State(st.fs[Display(path) := Dir(path)], st.current))
      else
        match ParseNat(kind)
        case None => Err(BadSize)
        case Some(n) => Ok(State(st.fs[Display(path) := File(n)], st.current))
  }

  /** The result of one transcript line on the state of `build_filesystem_view`. */
  function Apply(st: State, line: string): Result<State, BuildError> {
    match Parse(line)
    case Err(e) => Err(e)
    case Ok(cmd) => Perform(st, cmd)
  }

  /** The lines replayed in order from `st`, stopping at the first error. */
  function RunFrom(lines: seq<string>, st: State): Result<State, BuildError> {
    if lines == [] then Ok(st)
    else
      match Apply(st, lines[0])
      case Err(e) => Err(e)
      case Ok(st') => RunFrom(lines[1..], st')
  }

  function Replay(lines: seq<string>): Result<Fs, BuildError> {
    match RunFrom(lines, Initial())
    case Err(e) => Err(e)
    case Ok(st) => Ok(st.fs)
  }

  /** `build_filesystem_view`: the transcript replayed line by line. */
  method Build(lines: seq<string>) returns (r: Result<Fs, BuildError>)
    ensures r == Replay(lines)
  {
    var fs: Fs := map["/" := Dir([])];
    var current: Path := [];
    for i := 0 to |lines|
      invariant RunFrom(lines, Initial()) == RunFrom(lines[i..], State(fs, current))
    {
      assert lines[i..][1..] == lines[i + 1..];
      var line := lines[i];
      if StartsWith(line, "$ cd") {
        if |line| < 5 {
          return Err(ShortCd);
        }
        if Utf8Width(line[4]) != 1 {
          return Err(NotCharBoundary);
        }
        var arg := line[5..];
        var path := if arg == ".." then Pop(current) else Push(current, arg);
        var key := Display(path);
        if key in fs && fs[key].Dir? {
          current := fs[key].path;
        } else {
          return Err(UnknownDirectory);
        }
      } else if StartsWith(line, "$ ls") {
      } else {
        var listing := Words(line);
        if |listing| == 0 {
          return Err(EmptyListing);
        }
        if |listing| == 1 {
          return Err(MissingName);
        }
        var path := Push(current, listing[1]);
        if listing[0] == "dir" {
          fs := fs[Display(path) := Dir(path)];
        } else {
          var size := ParseNat(listing[0]);
          if size.None? {
            return Err(BadSize);
          }
          fs := fs[Display(path) := File(size.value)];
        }
      }
    }
    return Ok(fs);
  }

  // ---------------------------------------------------------------------
  // What the replay keeps
  // ---------------------------------------------------------------------

  /** Every directory entry sits at the display of its own path. */
  ghost predicate DirsAtOwnKeys(fs: Fs) {
    forall k :: k in fs && fs[k].Dir? ==> Display(fs[k].path) == k
  }

  /** A listing line naming a file `/`, the one line that can overwrite the root entry. */
  predicate NamesRootFile(line: string) {
    Parse(line).Ok? && Parse(line).value.Listing? && Parse(line).value.kind != "dir" && Parse(line).value.name == "/"
  }

  ghost predicate RootIsDir(fs: Fs) {
    "/" in fs && fs["/"] == Dir([])
  }

  /** `$ ls` changes nothing. */
  lemma LsChangesNothing(st: State, line: string)
    requires StartsWith(line, "$ ls")
    ensures Apply(st, line) == Ok(st)
  {
    assert line[..4] == "$ ls";
    assert !StartsWith(line, "$ cd") by {
      assert line[..4][3] == 's';
    }
  }

  /** `$ cd x` succeeds exactly when the target path is recorded as a
      directory, moves there, and leaves the map alone. The target is the
      parent for `..` (the root for the root), the root for `/`, and the
      child `x` otherwise. A fifth character of more than one byte leaves
      byte 5 inside it, and the slice fails. */
  lemma CdMovesToRecordedDir(st: State, line: string)
    requires DirsAtOwnKeys(st.fs) && StartsWith(line, "$ cd") && |line| >= 5
    ensures Utf8Width(line[4]) != 1 ==> Apply(st, line) == Err(NotCharBoundary)
    ensures Utf8Width(line[4]) == 1 ==>
            var arg := line[5..];
            var key := Display(if arg == ".." then Pop(st.current) else Push(st.current, arg));
            && (Apply(st, line).Ok? <==> key in st.fs && st.fs[key].Dir?)
            && (Apply(st, line).Ok? ==> Apply(st, line).value.fs == st.fs
                                        && Display(Apply(st, line).value.current) == key)
  {
  }

  /** A line that is neither `$ cd` nor `$ ls` is a listing of its first two
      words, and needs both. */
  lemma ParseListing(line: string)
    requires !StartsWith(line, "$ cd") && !StartsWith(line, "$ ls")
    ensures |Words(line)| == 0 ==> Parse(line) == Err(EmptyListing)
    ensures |Words(line)| == 1 ==> Parse(line) == Err(MissingName)
    ensures |Words(line)| >= 2 ==> Parse(line) == Ok(Listing(Words(line)[0], Words(line)[1]))
  {
  }

  /** A listing records its name under the current directory: a directory
      for `dir`, a file for a size, and an error for anything that does not
      parse as a size. */
  lemma ListingRecordsEntry(st: State, kind: string, name: string)
    ensures var path := Push(st.current, name);
            && (kind == "dir" ==> Perform(st, Listing(kind, name)) == Ok(State(st.fs[Display(path) := Dir(path)], st.current)))
            && (kind != "dir" && ParseNat(kind).Some? ==>
                  Perform(st, Listing(kind, name)) == Ok(State(st.fs[Display(path) := File(ParseNat(kind).value)], st.current)))
            && (kind != "dir" && ParseNat(kind).None? ==> Perform(st, Listing(kind, name)) == Err(BadSize))
  {
  }

  lemma PerformKeepsDirsAtOwnKeys(st: State, cmd: Command)
    requires DirsAtOwnKeys(st.fs)
    ensures Perform(st, cmd).Ok? ==> DirsAtOwnKeys(Perform(st, cmd).value.fs)
  {
  }

  lemma ApplyKeepsDirsAtOwnKeys(st: State, line: string)
    requires DirsAtOwnKeys(st.fs)
    ensures Apply(st, line).Ok? ==> DirsAtOwnKeys(Apply(st, line).value.fs)
  {
    if Parse(line).Ok? {
      PerformKeepsDirsAtOwnKeys(st, Parse(line).value);
    }
  }

  /** Only a file named `/` can displace the root directory entry. */
  lemma PerformKeepsRoot(st: State, cmd: Command)
    requires RootIsDir(st.fs) && !(cmd.Listing? && cmd.kind != "dir" && cmd.name == "/")
    requires cmd.Listing? ==> cmd.name != []
    ensures Perform(st, cmd).Ok? ==> RootIsDir(Perform(st, cmd).value.fs)
  {
    if cmd.Listing? && cmd.name != "/" {
      DisplayGrows(st.current, cmd.name);
    }
  }

  lemma ApplyKeepsRoot(st: State, line: string)
    requires RootIsDir(st.fs) && !NamesRootFile(line)
    ensures Apply(st, line).Ok? ==> RootIsDir(Apply(st, line).value.fs)
  {
    if Parse(line).Ok? {
      PerformKeepsRoot(st, Parse(line).value);
    }
  }

  lemma {:induction false} RunFromKeeps(lines: seq<string>, st: State)
    requires DirsAtOwnKeys(st.fs)
    ensures RunFrom(lines, st).Ok? ==> DirsAtOwnKeys(RunFrom(lines, st).value.fs)
    ensures RootIsDir(st.fs) && (forall i :: 0 <= i < |lines| ==> !NamesRootFile(lines[i])) ==>
              RunFrom(lines, st).Ok? ==> RootIsDir(RunFrom(lines, st).value.fs)
  {
    if lines != [] {
      ApplyKeepsDirsAtOwnKeys(st, lines[0]);
      if RootIsDir(st.fs) && !NamesRootFile(lines[0]) {
        ApplyKeepsRoot(st, lines[0]);
      }
      match Apply(st, lines[0])
      case Err(_) =>
      case Ok(st') =>
        RunFromKeeps(lines[1..], st');
        if forall i :: 0 <= i < |lines| ==> !NamesRootFile(lines[i]) {
          assert forall i :: 0 <= i < |lines[1..]| ==> !NamesRootFile(lines[1..][i]) by {
            forall i | 0 <= i < |lines[1..]| ensures !NamesRootFile(lines[1..][i]) {
              assert lines[1..][i] == lines[i + 1];
            }
          }
        }
    }
  }

  /** The map built from a transcript keeps every directory at its own
      displayed path, and keeps the root directory unless a listing line
      names a file `/`. */
  lemma ReplayKeepsRoot(lines: seq<string>)
    ensures Replay(lines).Ok? ==> DirsAtOwnKeys(Replay(lines).value)
    ensures (forall i :: 0 <= i < |lines| ==> !NamesRootFile(lines[i])) ==>
              Replay(lines).Ok? ==> RootIsDir(Replay(lines).value)
  {
    RunFromKeeps(lines, Initial());
  }

  // ---------------------------------------------------------------------
  // Sums over sets of keys
  // ---------------------------------------------------------------------

  ghost function SumOver(keys: set<string>, f: string -> nat): nat {
    if keys == {} then 0
    else
      var k :| k in keys;
      f(k) + SumOver(keys - {k}, f)
  }

  /** The sum does not depend on the order in which keys are taken. */
  lemma {:induction false} SumOverRemove(keys: set<string>, f: string -> nat, x: string)
    requires x in keys
    ensures SumOver(keys, f) == f(x) + SumOver(keys - {x}, f)
    decreases |keys|
  {
    var k :| k in keys && SumOver(keys, f) == f(k) + SumOver(keys - {k}, f);
    if k != x {
      SumOverRemove(keys - {k}, f, x);
      SumOverRemove(keys - {x}, f, k);
      assert keys - {k} - {x} == keys - {x} - {k};
    }
  }

  lemma {:induction false} SumOverSubset(a: set<string>, b: set<string>, f: string -> nat)
    requires a <= b
    ensures SumOver(a, f) <= SumOver(b, f)
    decreases |b|
  {
    if b != {} {
      var x :| x in b;
      SumOverRemove(b, f, x);
      if x in a {
        SumOverRemove(a, f, x);
        SumOverSubset(a - {x}, b - {x}, f);
      } else {
        SumOverSubset(a, b - {x}, f);
      }
    }
  }

  lemma {:induction false} SumOverSame(keys: set<string>, f: string -> nat, g: string -> nat)
    requires forall k :: k in keys ==> f(k) == g(k)
    ensures SumOver(keys, f) == SumOver(keys, g)
    decreases |keys|
  {
    if keys != {} {
      var x :| x in keys;
      SumOverRemove(keys, f, x);
      SumOverRemove(keys, g, x);
      SumOverSame(keys - {x}, f, g);
    }
  }

  // ---------------------------------------------------------------------
  // Directory sizes
  // ---------------------------------------------------------------------

  function FileSize(fs: Fs, k: string): nat {
    if k in fs && fs[k].File? then fs[k].size else 0
  }

  /** The keys of the files whose key starts with `prefix`. */
  ghost function FilesUnder(fs: Fs, prefix: string): set<string> {
    set k | k in fs && fs[k].File? && StartsWith(k, prefix)
  }

  /** `get_dir_size`: the total size of the files whose key starts with `dir`. */
  ghost function DirSize(dir: string, fs: Fs): nat {
    SumOver(FilesUnder(fs, dir), k => FileSize(fs, k))
  }

  lemma StartsWithTransitive(s: string, p: string, q: string)
    requires StartsWith(s, p) && StartsWith(p, q)
    ensures StartsWith(s, q)
  {
    assert s[..|q|] == s[..|p|][..|q|];
  }

  /** A longer prefix selects fewer files, so a nested directory is never
      larger than the one it is nested in, and no directory is larger than the
      whole map (every key starts with `/`). */
  lemma DirSizeNested(fs: Fs, outer: string, inner: string)
    requires StartsWith(inner, outer)
    ensures DirSize(inner, fs) <= DirSize(outer, fs)
  {
    forall k | k in FilesUnder(fs, inner)
      ensures k in FilesUnder(fs, outer)
    {
      StartsWithTransitive(k, inner, outer);
    }
    SumOverSubset(FilesUnder(fs, inner), FilesUnder(fs, outer), k => FileSize(fs, k));
  }

  /** Recording a directory changes no size: directory entries weigh nothing. */
  lemma InsertDirKeepsSizes(fs: Fs, key: string, p: Path, dir: string)
    requires !(key in fs && fs[key].File?)
    ensures DirSize(dir, fs[key := Dir(p)]) == DirSize(dir, fs)
  {
    var fs' := fs[key := Dir(p)];
    assert FilesUnder(fs', dir) == FilesUnder(fs, dir);
    SumOverSame(FilesUnder(fs, dir), k => FileSize(fs', k), k => FileSize(fs, k));
  }

  /** Recording a new file adds its size to every directory whose prefix its key starts with. */
  lemma InsertFileAddsSize(fs: Fs, key: string, n: nat, dir: string)
    requires !(key in fs && fs[key].File?)
    ensures DirSize(dir, fs[key := File(n)]) == DirSize(dir, fs) + (if StartsWith(key, dir) then n else 0)
  {
    var fs' := fs[key := File(n)];
    var f, f' := k => FileSize(fs, k), k => FileSize(fs', k);
    if StartsWith(key, dir) {
      assert FilesUnder(fs', dir) - {key} == FilesUnder(fs, dir);
      SumOverRemove(FilesUnder(fs', dir), f', key);
    } else {
      assert FilesUnder(fs', dir) == FilesUnder(fs, dir);
    }
    SumOverSame(FilesUnder(fs, dir), f', f);
  }

  // ---------------------------------------------------------------------
  // The two parts
  // ---------------------------------------------------------------------

  ghost function DirKeys(fs: Fs): set<string> {
    set k | k in fs && fs[k].Dir?
  }

  /** `get_dir_sizes`: one size per directory entry, read with the key plus
      `/` as the prefix. */
  ghost function ListedSize(fs: Fs, k: string): nat {
    DirSize(k + "/", fs)
  }

  const SmallLimit: nat := 100000
  const DiskSize: nat := 70000000
  const NeededSpace: nat := 30000000

  /** `part1`: the sum of the listed sizes that are at most 100000. */
  ghost function SmallDirsTotal(fs: Fs): nat {
    SumOver(DirKeys(fs), k => if ListedSize(fs, k) <= SmallLimit then ListedSize(fs, k) else 0)
  }

  /** Every counted directory adds its whole size, and only small ones count. */
  lemma SmallDirsTotalBounds(fs: Fs, k: string)
    requires k in DirKeys(fs)
    ensures ListedSize(fs, k) <= SmallLimit ==> ListedSize(fs, k) <= SmallDirsTotal(fs)
  {
    var f := k => if ListedSize(fs, k) <= SmallLimit then ListedSize(fs, k) else 0;
    SumOverRemove(DirKeys(fs), f, k);
  }

  /** The directories whose deletion frees enough space. */
  ghost function Candidates(fs: Fs): set<string> {
    set k | k in DirKeys(fs) && (DiskSize as int - DirSize("/", fs)) + ListedSize(fs, k) >= NeededSpace
  }

  datatype PartError = NoSolution

  /** `part2`: the least listed size among the candidates, or an error if there is none. */
  ghost function SmallestFreeingDir(fs: Fs): (r: Result<nat, PartError>)
    ensures r.Err? <==> Candidates(fs) == {}
    ensures r.Ok? ==> exists k :: k in Candidates(fs) && ListedSize(fs, k) == r.value
    ensures r.Ok? ==> forall k :: k in Candidates(fs) ==> r.value <= ListedSize(fs, k)
  {
    if Candidates(fs) == {} then Err(NoSolution)
    else
      LeastExists(Candidates(fs), k => ListedSize(fs, k));
      var k :| k in Candidates(fs) && forall j :: j in Candidates(fs) ==> ListedSize(fs, k) <= ListedSize(fs, j);
      Ok(ListedSize(fs, k))
  }

  lemma {:induction false} LeastExists(keys: set<string>, f: string -> nat)
    requires keys != {}
    ensures exists k :: k in keys && forall j :: j in keys ==> f(k) <= f(j)
    decreases |keys|
  {
    var x :| x in keys;
    if keys - {x} != {} {
      LeastExists(keys - {x}, f);
      var y :| y in keys - {x} && forall j :: j in keys - {x} ==> f(y) <= f(j);
      if f(x) <= f(y) {
        assert forall j :: j in keys ==> f(x) <= f(j);
      } else {
        assert forall j :: j in keys ==> f(y) <= f(j);
      }
    } else {
      assert keys == {x};
    }
  }

  ghost function Part1(lines: seq<string>): Result<nat, BuildError> {
    match Replay(lines)
    case Err(e) => Err(e)
    case Ok(fs) => Ok(SmallDirsTotal(fs))
  }

  ghost function Part2(lines: seq<string>): Result<Result<nat, PartError>, BuildError> {
    match Replay(lines)
    case Err(e) => Err(e)
    case Ok(fs) => Ok(SmallestFreeingDir(fs))
  }

  // ---------------------------------------------------------------------
  // The root's listed size
  // ---------------------------------------------------------------------

  /** The root entry `/` is listed under the prefix `//`. */
  lemma RootListedUnderDoubleSlash(fs: Fs)
    ensures ListedSize(fs, "/") == DirSize("//", fs)
  {
    assert "/" + "/" == "//";
  }

  /** A transcript whose only file sits in the root. */
  const RootOnly: seq<string> := ["$ cd /", "$ ls", "50000000 a"]

  const RootOnlyFs: Fs := map["/" := Dir([]), "/a" := File(50000000)]

  lemma RootOnlyReplay()
    ensures Replay(RootOnly) == Ok(RootOnlyFs)
  {
    var st0 := Initial();
    CdRootAtRoot();
    LsChangesNothing(st0, RootOnly[1]);
    ListRootFile();
    assert RootOnly[1..][1..] == [RootOnly[2]];
    assert RootOnly[1..][1..][1..] == [];
  }

  lemma CdRootAtRoot()
    ensures Apply(Initial(), "$ cd /") == Ok(Initial())
  {
    var line := "$ cd /";
    assert StartsWith(line, "$ cd");
    assert line[5..] == "/";
  }

  /** `$ cd` followed by `é` (two bytes) puts byte 5 inside the `é`, so the
      slice fails rather than naming the directory `""`. */
  lemma CdInsideChar()
    ensures Apply(Initial(), "$ cd\U{00E9}") == Err(NotCharBoundary)
  {
    var line := "$ cd\U{00E9}";
    assert StartsWith(line, "$ cd");
    assert Utf8Width(line[4]) == 2;
  }

  lemma ListRootFile()
    ensures Apply(Initial(), "50000000 a") == Ok(State(RootOnlyFs, []))
  {
    RootFileNotCommand();
    RootFileWords();
    FiftyMillion();
    ListingOfFile(Initial(), "50000000 a", "50000000", "a", 50000000);
    RootFileKey();
  }

  lemma RootFileNotCommand()
    ensures !StartsWith("50000000 a", "$ cd") && !StartsWith("50000000 a", "$ ls")
  {
    var line := "50000000 a";
    assert line[..4][0] == '5';
  }

  lemma RootFileKey()
    ensures Initial().fs[Display(Push([], "a")) := File(50000000)] == RootOnlyFs
  {
    assert Push([], "a") == ["a"];
    assert Display(["a"]) == "/a";
  }

  lemma RootFileWords()
    ensures Words("50000000 a") == ["50000000", "a"]
  {
    assert "50000000 a" == "50000000" + " " + "a";
    assert NoSpace("50000000") && NoSpace("a");
    WordsOfTwo("50000000", "a");
  }

  /** A listing line naming a file with a size records that file. */
  lemma ListingOfFile(st: State, line: string, size: string, name: string, n: nat)
    requires !StartsWith(line, "$ cd") && !StartsWith(line, "$ ls")
    requires Words(line) == [size, name] && size != "dir" && ParseNat(size) == Some(n)
    ensures Apply(st, line) == Ok(State(st.fs[Display(Push(st.current, name)) := File(n)], st.current))
  {
    ParseListing(line);
    ListingRecordsEntry(st, size, name);
  }

  lemma FiftyMillion()
    ensures ParseNat("50000000") == Some(50000000)
  {
    var s := "5";
    assert AllDigits(s) && DigitsValue(s) == 5;
    DigitsValueAppend(s, '0');
    s := s + "0";
    DigitsValueAppend(s, '0');
    s := s + "0";
    DigitsValueAppend(s, '0');
    s := s + "0";
    DigitsValueAppend(s, '0');
    s := s + "0";
    DigitsValueAppend(s, '0');
    s := s + "0";
    DigitsValueAppend(s, '0');
    s := s + "0";
    DigitsValueAppend(s, '0');
    s := s + "0";
    assert s == "50000000";
  }

  /** In that map the root is listed at size 0 although its files total 50000000. */
  lemma RootListedAsEmpty()
    ensures DirSize("/", RootOnlyFs) == 50000000
    ensures ListedSize(RootOnlyFs, "/") == 0
  {
    assert FilesUnder(RootOnlyFs, "/") == {"/a"} by {
      assert StartsWith("/a", "/");
    }
    SumOverRemove({"/a"}, k => FileSize(RootOnlyFs, k), "/a");
    assert FilesUnder(RootOnlyFs, "//") == {} by {
      assert !StartsWith("/a", "//") by { assert "/a"[1] != '/'; }
    }
  }

  /** As written, part 2 finds no directory to delete for that transcript. */
  lemma RootOnlyHasNoSolution()
    ensures Part2(RootOnly) == Ok(Err(NoSolution))
  {
    RootOnlyReplay();
    RootOnlyNoCandidates();
  }

  lemma RootOnlyNoCandidates()
    ensures SmallestFreeingDir(RootOnlyFs) == Err(NoSolution)
  {
    RootListedAsEmpty();
    assert DirKeys(RootOnlyFs) == {"/"};
    assert Candidates(RootOnlyFs) == {};
  }

  /** The listed size with the root read under its own key `/`. */
  ghost function ListedSizeFixed(fs: Fs, k: string): nat {
    DirSize(if k == "/" then "/" else k + "/", fs)
  }

  ghost function CandidatesFixed(fs: Fs): set<string> {
    set k | k in DirKeys(fs) && (DiskSize as int - DirSize("/", fs)) + ListedSizeFixed(fs, k) >= NeededSpace
  }

  ghost function SmallestFreeingDirFixed(fs: Fs): (r: Result<nat, PartError>)
    ensures r.Err? <==> CandidatesFixed(fs) == {}
    ensures r.Ok? ==> exists k :: k in CandidatesFixed(fs) && ListedSizeFixed(fs, k) == r.value
    ensures r.Ok? ==> forall k :: k in CandidatesFixed(fs) ==> r.value <= ListedSizeFixed(fs, k)
  {
    if CandidatesFixed(fs) == {} then Err(NoSolution)
    else
      LeastExists(CandidatesFixed(fs), k => ListedSizeFixed(fs, k));
      var k :| k in CandidatesFixed(fs) && forall j :: j in CandidatesFixed(fs) ==> ListedSizeFixed(fs, k) <= ListedSizeFixed(fs, j);
      Ok(ListedSizeFixed(fs, k))
  }

  /** With the root listed at its true size, part 2 always has an answer
      once the root is a directory and the files fit on the disk: deleting
      everything frees the whole disk. */
  lemma FixedAlwaysSolves(fs: Fs)
    requires RootIsDir(fs) && DirSize("/", fs) <= DiskSize
    ensures SmallestFreeingDirFixed(fs).Ok?
    ensures SmallestFreeingDirFixed(fs).value <= DirSize("/", fs)
  {
    assert "/" in CandidatesFixed(fs);
  }

  /** The fixed reading answers the root-only transcript with the root's size. */
  lemma RootOnlyFixed()
    ensures SmallestFreeingDirFixed(RootOnlyFs) == Ok(50000000)
  {
    RootListedAsEmpty();
    assert DirKeys(RootOnlyFs) == {"/"};
    assert CandidatesFixed(RootOnlyFs) == {"/"};
  }

  /** `part2` with the root listed under its own key. */
  ghost function Part2Fixed(lines: seq<string>): Result<Result<nat, PartError>, BuildError> {
    match Replay(lines)
    case Err(e) => Err(e)
    case Ok(fs) => Ok(SmallestFreeingDirFixed(fs))
  }

  /** The corrected part 2 answers every transcript that builds, lists no
      file named `/`, and whose files fit on the disk. */
  lemma Part2FixedSolves(lines: seq<string>)
    requires forall i :: 0 <= i < |lines| ==> !NamesRootFile(lines[i])
    requires Replay(lines).Ok? && DirSize("/", Replay(lines).value) <= DiskSize
    ensures Part2Fixed(lines).Ok? && Part2Fixed(lines).value.Ok?
  {
    ReplayKeepsRoot(lines);
    FixedAlwaysSolves(Replay(lines).value);
  }
}
