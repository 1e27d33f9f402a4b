/** `getSafeFilePath` and the parts of Node's POSIX `path` module it and the
    static file server use: `join`, `normalize` and `extname`. */
module Paths {
  import opened Options
  import opened JsText

  predicate IsAbsolute(path: string) {
    path != [] && path[0] == '/'
  }

  /** A name that `normalize` keeps as it is: not empty, not `.`, not `..`
      and without `/`. */
  predicate IsName(seg: string) {
    seg != [] && seg != "." && seg != ".." && '/' !in seg
  }

  predicate AllNames(names: seq<string>) {
    forall i :: 0 <= i < |names| ==> IsName(names[i])
  }

  /** One segment of a path read by `normalize`: empty segments and `.` are
      dropped, `..` removes the last name (and is dropped at the root),
      anything else is appended. */
  function Step(names: seq<string>, seg: string): seq<string> {
    if seg == [] || seg == "." then names
    else if seg == ".." then (if names == [] then [] else names[..|names| - 1])
    else names + [seg]
  }

  /** The names left after reading `segs` in order, from `names`. */
  function Resolve(names: seq<string>, segs: seq<string>): seq<string>
    decreases |segs|
  {
    if segs == [] then names else Resolve(Step(names, segs[0]), segs[1..])
  }

  /** The names as a path: `/` followed by the names joined by `/`, and a
      trailing `/` when asked for. */
  function PathOf(names: seq<string>, trailing: bool): string {
    if names == [] then "/"
    else "/" + Join(names, '/') + (if trailing then "/" else "")
  }

  /** `path.normalize(path)` for an absolute path: `.` and empty segments
      dropped, `..` resolved without climbing above `/`, a trailing `/`
      kept, and `/` when nothing is left. */
  function Normalize(path: string): string
    requires IsAbsolute(path)
  {
    PathOf(Resolve([], Split(path, '/')), path[|path| - 1] == '/')
  }

  /** `path.join(root, p)`: the non-empty arguments joined by `/`, then
      normalized. */
  function PathJoin(root: string, p: string): string
    requires IsAbsolute(root)
  {
    Normalize(if p == [] then root else root + "/" + p)
  }

  /** `getSafeFilePath` after `decodeURIComponent`: `/` stands for
      `/index.html`; the joined and normalized path is served only when it
      starts with `root` as a string. `None` is `null`. */
  function GetSafeFilePath(root: string, decodedPath: string): Option<string>
    requires IsAbsolute(root)
  {
    var cleanPath := if decodedPath == "/" then "/index.html" else decodedPath;
    var joined := PathJoin(root, cleanPath);
    var fullPath := Normalize(joined);
    if StartsWith(fullPath, root) then Some(fullPath) else None
  }

  // ---------------------------------------------------------------------
  // normalize

  /** Reading names appends them. */
  lemma {:induction false} ResolveNames(names: seq<string>, segs: seq<string>)
    requires AllNames(segs)
    ensures Resolve(names, segs) == names + segs
    decreases |segs|
  {
    if segs != [] {
      ResolveNames(names + [segs[0]], segs[1..]);
      assert names + [segs[0]] + segs[1..] == names + segs;
    }
  }

  /** Reading segments in two runs is reading them all. */
  lemma {:induction false} ResolveAppend(names: seq<string>, a: seq<string>, b: seq<string>)
    ensures Resolve(names, a + b) == Resolve(Resolve(names, a), b)
    decreases |a|
  {
    if a != [] {
      ResolveAppend(Step(names, a[0]), a[1..], b);
      assert (a + b)[1..] == a[1..] + b;
    } else {
      assert a + b == b;
    }
  }

  /** Only names are ever left. */
  lemma {:induction false} ResolveGivesNames(names: seq<string>, segs: seq<string>)
    requires AllNames(names)
    requires forall i :: 0 <= i < |segs| ==> '/' !in segs[i]
    ensures AllNames(Resolve(names, segs))
    decreases |segs|
  {
    if segs != [] {
      ResolveGivesNames(Step(names, segs[0]), segs[1..]);
    }
  }

  /** The segments of a path built from names. */
  lemma SplitPathOf(names: seq<string>, trailing: bool)
    requires names != [] && AllNames(names)
    ensures Split(PathOf(names, trailing), '/')
      == [[]] + names + (if trailing then [[]] else [])
  {
    var parts := [[]] + names + (if trailing then [[]] else []);
    forall i | 0 <= i < |parts| ensures '/' !in parts[i] {
      if 0 < i <= |names| {
        assert parts[i] == names[i - 1];
      }
    }
    JoinAppend([[]], names, '/');
    assert Join([[]], '/') == [];
    if trailing {
      JoinAppend([[]] + names, [[]], '/');
      var front := Join([[]] + names, '/');
      assert front == [] + ['/'] + Join(names, '/');
      assert Join(parts, '/') == front + ['/'] + [];
      assert Join(parts, '/') == PathOf(names, trailing);
    } else {
      assert parts == [[]] + names;
      assert Join(parts, '/') == [] + ['/'] + Join(names, '/');
      assert PathOf(names, trailing) == "/" + Join(names, '/') + "";
      assert Join(parts, '/') == PathOf(names, trailing);
    }
    SplitOfJoin(parts, '/');
  }

  /** A path built from names reads back as those names. */
  lemma NamesOfPathOf(names: seq<string>, trailing: bool)
    requires AllNames(names)
    ensures IsAbsolute(PathOf(names, trailing))
    ensures Resolve([], Split(PathOf(names, trailing), '/')) == names
  {
    if names == [] {
      assert Split("/", '/') == [[]] + Split([], '/');
    } else {
      SplitPathOf(names, trailing);
      var tail: seq<string> := if trailing then [[]] else [];
      ResolveAppend([], [[]] + names, tail);
      ResolveAppend([], [[]], names);
      ResolveNames([], names);
    }
  }

  /** `normalize` is idempotent. */
  lemma NormalizeIdempotent(path: string)
    requires IsAbsolute(path)
    ensures IsAbsolute(Normalize(path))
    ensures Normalize(Normalize(path)) == Normalize(path)
  {
    var names := Resolve([], Split(path, '/'));
    var trailing := path[|path| - 1] == '/';
    SplitPiecesPlain(path, '/');
    ResolveGivesNames([], Split(path, '/'));
    NamesOfPathOf(names, trailing);
    var p := PathOf(names, trailing);
    if names != [] {
      assert p[|p| - 1] == '/' <==> trailing by {
        if !trailing {
          assert p[|p| - 1] == names[|names| - 1][|names[|names| - 1]| - 1] by {
            LastOfJoin(names, '/');
          }
        }
      }
    }
  }

  /** The last character of joined names is the last character of the last
      name. */
  lemma {:induction false} LastOfJoin(names: seq<string>, sep: char)
    requires names != [] && names[|names| - 1] != []
    ensures var j := Join(names, sep); var l := names[|names| - 1];
      j != [] && j[|j| - 1] == l[|l| - 1]
  {
    if |names| > 1 {
      LastOfJoin(names[1..], sep);
      assert names[1..][|names[1..]| - 1] == names[|names| - 1];
    }
  }

  /** The segments `normalize` leaves are names: never `..`. */
  lemma NormalizedSegments(path: string)
    requires IsAbsolute(path)
    ensures forall seg :: seg in Split(Normalize(path), '/') ==> seg == [] || IsName(seg)
  {
    var names := Resolve([], Split(path, '/'));
    SplitPiecesPlain(path, '/');
    ResolveGivesNames([], Split(path, '/'));
    if names == [] {
      assert Split("/", '/') == [[]] + Split([], '/');
    } else {
      SplitPathOf(names, path[|path| - 1] == '/');
    }
  }

  /** What `getSafeFilePath` returns: the joined path, normalized once (the
      second `normalize` changes nothing), when it starts with `root`;
      otherwise `null`. A returned path is normalized and has no `..`
      segment. */
  lemma SafeFilePath(root: string, decodedPath: string)
    requires IsAbsolute(root)
    ensures var cleanPath := if decodedPath == "/" then "/index.html" else decodedPath;
      var joined := PathJoin(root, cleanPath);
      GetSafeFilePath(root, decodedPath)
        == if StartsWith(joined, root) then Some(joined) else None
    ensures var r := GetSafeFilePath(root, decodedPath);
      r.Some? ==> && IsAbsolute(r.value) && Normalize(r.value) == r.value
                  && StartsWith(r.value, root)
                  && forall seg :: seg in Split(r.value, '/') ==> seg != ".."
  {
    var cleanPath := if decodedPath == "/" then "/index.html" else decodedPath;
    var raw := if cleanPath == [] then root else root + "/" + cleanPath;
    NormalizeIdempotent(raw);
    NormalizedSegments(raw);
  }

  /** Reading the segments of a path built from names, after other
      segments, appends the names. */
  lemma ResolveAfter(names: seq<string>, pathNames: seq<string>)
    requires pathNames != [] && AllNames(pathNames)
    ensures Resolve(names, Split(PathOf(pathNames, false), '/')) == names + pathNames
  {
    SplitPathOf(pathNames, false);
    assert Split(PathOf(pathNames, false), '/') == [[]] + pathNames + [];
    assert [[]] + pathNames + [] == [[]] + pathNames;
    ResolveAppend(names, [[]], pathNames);
    ResolveNames(names, pathNames);
  }

  /** The segments of a directory path: none for `/`. */
  lemma DirectorySegments(rootNames: seq<string>)
    requires AllNames(rootNames)
    ensures Resolve([], Split(PathOf(rootNames, false), '/')) == rootNames
  {
    NamesOfPathOf(rootNames, false);
  }

  /** Joining a path made of names onto a directory appends the names. */
  lemma JoinNames(rootNames: seq<string>, names: seq<string>)
    requires AllNames(rootNames) && names != [] && AllNames(names)
    ensures PathJoin(PathOf(rootNames, false), PathOf(names, false))
      == PathOf(rootNames + names, false)
  {
    var root := PathOf(rootNames, false);
    var p := PathOf(names, false);
    var raw := root + "/" + p;
    SplitAtSeparator(root, p, '/');
    DirectorySegments(rootNames);
    ResolveAppend([], Split(root, '/'), Split(p, '/'));
    ResolveAfter(rootNames, names);
    LastOfJoin(names, '/');
    assert raw[|raw| - 1] == p[|p| - 1];
  }

  /** A directory path is a prefix of every path below it. */
  lemma PrefixOfBelow(rootNames: seq<string>, names: seq<string>)
    requires AllNames(rootNames) && names != [] && AllNames(names)
    ensures StartsWith(PathOf(rootNames + names, false), PathOf(rootNames, false))
  {
    var root := PathOf(rootNames, false);
    var below := PathOf(rootNames + names, false);
    if rootNames == [] {
      assert rootNames + names == names;
      assert below[..1] == "/";
    } else {
      JoinAppend(rootNames, names, '/');
      assert below == root + ("/" + Join(names, '/'));
      assert below[..|root|] == root;
    }
  }

  /** A request for a path made of plain names is served from below the
      root directory. */
  lemma ServesNamesBelowRoot(rootNames: seq<string>, names: seq<string>)
    requires AllNames(rootNames) && names != [] && AllNames(names)
    ensures GetSafeFilePath(PathOf(rootNames, false), PathOf(names, false))
      == Some(PathOf(rootNames + names, false))
  {
    JoinNames(rootNames, names);
    PrefixOfBelow(rootNames, names);
    SafeFilePath(PathOf(rootNames, false), PathOf(names, false));
  }

  /** `/` is served as `index.html` in the root directory. */
  lemma IndexForSlash(rootNames: seq<string>)
    requires AllNames(rootNames)
    ensures GetSafeFilePath(PathOf(rootNames, false), "/")
      == Some(PathOf(rootNames + ["index.html"], false))
  {
    assert PathOf(["index.html"], false) == "/index.html";
    JoinNames(rootNames, ["index.html"]);
    PrefixOfBelow(rootNames, ["index.html"]);
    SafeFilePath(PathOf(rootNames, false), "/");
  }

  /** The segments of `/..`. */
  lemma ParentSegments()
    ensures Split("/..", '/') == [[], ".."]
  {
    SplitWithoutSeparator("..", '/');
    assert "/.." == [] + ['/'] + "..";
    SplitAtSeparator([], "..", '/');
  }

  /** A directory path without its last name. */
  lemma DropLastName(rootNames: seq<string>)
    requires rootNames != [] && AllNames(rootNames)
    ensures var init := rootNames[..|rootNames| - 1];
      var last := rootNames[|rootNames| - 1];
      PathOf(rootNames, false)
        == (if init == [] then [] else PathOf(init, false)) + "/" + last
  {
    var init := rootNames[..|rootNames| - 1];
    var last := rootNames[|rootNames| - 1];
    if init != [] {
      assert rootNames == init + [last];
      JoinAppend(init, [last], '/');
    } else {
      assert rootNames == [last];
    }
  }

  /** The root directory with `..` and then `rest` read after it. */
  lemma ClimbThenDescend(rootNames: seq<string>, rest: seq<string>)
    requires rootNames != [] && AllNames(rootNames) && rest != [] && AllNames(rest)
    ensures var root := PathOf(rootNames, false);
      Resolve([], Split(root + "/" + ("/.." + "/" + Join(rest, '/')), '/'))
        == rootNames[..|rootNames| - 1] + rest
  {
    var root := PathOf(rootNames, false);
    var tail := Join(rest, '/');
    SplitAtSeparator(root, "/.." + "/" + tail, '/');
    SplitAtSeparator("/..", tail, '/');
    ParentSegments();
    SplitOfJoin(rest, '/');
    DirectorySegments(rootNames);
    ResolveAppend([], Split(root, '/'), [[], ".."] + rest);
    ResolveAppend(rootNames, [[], ".."], rest);
    ResolveNames(rootNames[..|rootNames| - 1], rest);
  }

  /** Climbing out of the root directory with `..` is refused. */
  lemma ParentRefused(rootNames: seq<string>)
    requires rootNames != [] && AllNames(rootNames)
    ensures GetSafeFilePath(PathOf(rootNames, false), "/..") == None
  {
    var root := PathOf(rootNames, false);
    var init := rootNames[..|rootNames| - 1];
    var raw := root + "/" + "/..";
    ParentSegments();
    SplitAtSeparator(root, "/..", '/');
    DirectorySegments(rootNames);
    ResolveAppend([], Split(root, '/'), [[], ".."]);
    assert Resolve(rootNames, [[], ".."]) == init;
    assert raw[|raw| - 1] == '.';
    SafeFilePath(root, "/..");
    DropLastName(rootNames);
    assert |PathOf(init, false)| < |root|;
  }

  /** `/../`, the decoded form of `/..%2F`, climbs out of the root
      directory as well and is refused. */
  lemma ParentDirRefused(rootNames: seq<string>)
    requires rootNames != [] && AllNames(rootNames)
    ensures GetSafeFilePath(PathOf(rootNames, false), "/../") == None
  {
    var root := PathOf(rootNames, false);
    var init := rootNames[..|rootNames| - 1];
    var raw := root + "/" + "/../";
    ParentDirSegments();
    SplitAtSeparator(root, "/../", '/');
    DirectorySegments(rootNames);
    ResolveAppend([], Split(root, '/'), [[], "..", []]);
    assert Resolve(rootNames, [[], "..", []]) == init;
    assert raw[|raw| - 1] == '/';
    SafeFilePath(root, "/../");
    DropLastName(rootNames);
    assert |PathOf(init, true)| < |root|;
  }

  lemma ParentDirSegments()
    ensures Split("/../", '/') == [[], "..", []]
  {
    ParentSegments();
    assert "/../" == "/.." + ['/'] + [];
    SplitAtSeparator("/..", [], '/');
  }

  /** The path of a sibling of the last name, with `secret` below it. */
  lemma SiblingPath(init: seq<string>, last: string)
    requires AllNames(init) && IsName(last)
    ensures PathOf(init + [last + "-x", "secret"], false)
      == PathOf(init + [last], false) + "-x/secret"
  {
    var names := [last + "-x", "secret"];
    assert Join(names, '/') == last + "-x" + "/" + "secret";
    assert Join([last], '/') == last;
    var dir := if init == [] then "" else PathOf(init, false);
    if init == [] {
      assert init + names == names;
      assert init + [last] == [last];
    } else {
      AppendUnder(init, names);
      AppendUnder(init, [last]);
    }
    SiblingText(dir, last);
  }

  /** The text of the sibling path, regrouped. */
  lemma SiblingText(dir: string, last: string)
    ensures dir + "/" + (last + "-x" + "/" + "secret") == dir + "/" + last + "-x/secret"
  {
  }

  /** A path below a non-empty directory path. */
  lemma AppendUnder(init: seq<string>, names: seq<string>)
    requires init != [] && names != []
    ensures PathOf(init + names, false) == PathOf(init, false) + "/" + Join(names, '/')
  {
    JoinAppend(init, names, '/');
  }

  /** The test is on strings, not on directories: a sibling directory whose
      name extends the root's last name passes it. */
  lemma SiblingPasses(rootNames: seq<string>)
    requires rootNames != [] && AllNames(rootNames)
    ensures var root := PathOf(rootNames, false);
      var last := rootNames[|rootNames| - 1];
      && GetSafeFilePath(root, "/../" + last + "-x/secret") == Some(root + "-x/secret")
      && !StartsWith(root + "-x/secret", root + "/")
  {
    var root := PathOf(rootNames, false);
    var last := rootNames[|rootNames| - 1];
    SiblingJoin(rootNames);
    SiblingPrefix(root);
    SafeFilePath(root, "/../" + last + "-x/secret");
  }

  /** Joining `/../<last>-x/secret` onto the root directory climbs to its
      parent and descends into the sibling. */
  lemma SiblingJoin(rootNames: seq<string>)
    requires rootNames != [] && AllNames(rootNames)
    ensures var root := PathOf(rootNames, false);
      var last := rootNames[|rootNames| - 1];
      PathJoin(root, "/../" + last + "-x/secret") == root + "-x/secret"
  {
    var root := PathOf(rootNames, false);
    var init := rootNames[..|rootNames| - 1];
    var last := rootNames[|rootNames| - 1];
    var request := "/../" + last + "-x/secret";
    var rest := [last + "-x", "secret"];
    var raw := root + "/" + request;
    calc {
      PathJoin(root, request);
    ==
      Normalize(raw);
    == { assert raw[|raw| - 1] == 't'; }
      PathOf(Resolve([], Split(raw, '/')), false);
    == { SiblingRequest(last); ClimbThenDescend(rootNames, rest); }
      PathOf(init + rest, false);
    == { assert rootNames == init + [last]; SiblingPath(init, last); }
      root + "-x/secret";
    }
  }

  /** The request `/../<last>-x/secret` climbs once and then names two
      segments. */
  lemma SiblingRequest(last: string)
    requires IsName(last)
    ensures IsName(last + "-x") && IsName("secret")
    ensures "/../" + last + "-x/secret" == "/.." + "/" + Join([last + "-x", "secret"], '/')
  {
    var sibling := last + "-x";
    assert sibling[|sibling| - 1] == 'x';
    assert Join([sibling, "secret"], '/') == sibling + "/" + "secret";
  }

  /** A path extending `root` by `-x/secret` starts with `root` but not with
      `root + "/"`. */
  lemma SiblingPrefix(root: string)
    ensures StartsWith(root + "-x/secret", root)
    ensures !StartsWith(root + "-x/secret", root + "/")
  {
    assert (root + "-x/secret")[..|root|] == root;
    assert (root + "-x/secret")[|root|] == '-';
  }

  // ---------------------------------------------------------------------
  // extname

  /** The path without its trailing `/` characters. */
  function StripTrailingSlashes(path: string): (r: string)
    ensures r == [] || r[|r| - 1] != '/'
    ensures |r| <= |path| && r == path[..|r|]
    ensures forall i :: |r| <= i < |path| ==> path[i] == '/'
  {
    if path != [] && path[|path| - 1] == '/' then
      var r := StripTrailingSlashes(path[..|path| - 1]);
      assert path[..|path| - 1][..|r|] == path[..|r|];
      r
    else path
  }

  /** The last name of a path, trailing `/` characters ignored. */
  function LastName(path: string): string {
    var parts := Split(StripTrailingSlashes(path), '/');
    parts[|parts| - 1]
  }

  /** The index of the last `.` in `name`. */
  function LastDot(name: string): (k: Option<nat>)
    ensures k.None? ==> forall j :: 0 <= j < |name| ==> name[j] != '.'
    ensures k.Some? ==>
      && k.value < |name| && name[k.value] == '.'
      && forall j :: k.value < j < |name| ==> name[j] != '.'
  {
    if name == [] then None
    else if name[|name| - 1] == '.' then Some(|name| - 1)
    else LastDot(name[..|name| - 1])
  }

  /** `path.extname(path)`: the last name from its last `.` on; empty when
      the name has no `.`, starts with its only `.` (a dot file) or is
      `..`. */
  function ExtName(path: string): string {
    var name := LastName(path);
    match LastDot(name)
    case None => ""
    case Some(k) => if k == 0 || name == ".." then "" else name[k..]
  }

  /** An extension is empty or a `.` followed by text without `.` and
      without `/`. */
  lemma ExtNameShape(path: string)
    ensures var e := ExtName(path);
      e == [] || (e[0] == '.' && '.' !in e[1..] && '/' !in e)
  {
    var name := LastName(path);
    var parts := Split(StripTrailingSlashes(path), '/');
    SplitPiecesPlain(StripTrailingSlashes(path), '/');
    assert '/' !in parts[|parts| - 1];
    var k := LastDot(name);
    if k.Some? && k.value != 0 && name != ".." {
      var e := name[k.value..];
      assert forall i :: 0 <= i < |e| ==> e[i] == name[k.value + i];
      assert forall i :: 0 <= i < |e[1..]| ==> e[1..][i] == name[k.value + 1 + i];
    }
  }

  /** The extension of a file `stem + ext` in any directory is `ext`, when
      `ext` is a `.` followed by text without `.` and the stem is not
      empty. */
  lemma ExtNameOfFile(dir: string, stem: string, ext: string)
    requires stem != [] && '/' !in stem
    requires ext != [] && ext[0] == '.' && '.' !in ext[1..] && '/' !in ext[1..]
    requires stem + ext != ".."
    ensures ExtName(dir + "/" + stem + ext) == ext
  {
    var name := stem + ext;
    assert dir + "/" + stem + ext == dir + "/" + name;
    FileNameShape(stem, ext);
    LastNameAfterDir(dir, name);
  }

  /** The name `stem + ext` has no `/`, and its last `.` is where `ext`
      begins. */
  lemma FileNameShape(stem: string, ext: string)
    requires stem != [] && '/' !in stem
    requires ext != [] && ext[0] == '.' && '.' !in ext[1..] && '/' !in ext[1..]
    ensures var name := stem + ext;
      && '/' !in name && name[|name| - 1] != '/'
      && LastDot(name) == Some(|stem|) && name[|stem|..] == ext
  {
    var name := stem + ext;
    assert forall i :: |stem| < i < |name| ==> name[i] == ext[1..][i - |stem| - 1];
    assert '/' !in name by {
      forall i | 0 <= i < |name| ensures name[i] != '/' {
        if i < |stem| {
          assert name[i] == stem[i];
        }
      }
    }
    assert name[|stem|] == '.';
    LastDotAt(name, |stem|);
    assert name[|stem|..] == ext;
  }

  /** The last name of `dir + "/" + name` is `name`, when `name` is not
      empty and has no `/`. */
  lemma LastNameAfterDir(dir: string, name: string)
    requires name != [] && '/' !in name
    ensures LastName(dir + "/" + name) == name
  {
    var path := dir + "/" + name;
    assert path == dir + ['/'] + name;
    assert path[|path| - 1] == name[|name| - 1];
    assert StripTrailingSlashes(path) == path;
    SplitAtSeparator(dir, name, '/');
    SplitWithoutSeparator(name, '/');
  }

  /** A `.` after which no `.` follows is the last one. */
  lemma {:induction false} LastDotAt(name: string, k: nat)
    requires k < |name| && name[k] == '.'
    requires forall j :: k < j < |name| ==> name[j] != '.'
    ensures LastDot(name) == Some(k)
  {
    if k < |name| - 1 {
      LastDotAt(name[..|name| - 1], k);
    }
  }

  /** A name without `.` has no extension; neither has a dot file. */
  lemma NoExtension(dir: string, name: string)
    requires name != [] && '/' !in name && name[|name| - 1] != '.'
    requires '.' !in name || (name[0] == '.' && '.' !in name[1..])
    ensures ExtName(dir + "/" + name) == ""
  {
    LastNameAfterDir(dir, name);
    if '.' in name {
      assert forall j :: 0 < j < |name| ==> name[j] == name[1..][j - 1];
      LastDotAt(name, 0);
    }
  }
}
