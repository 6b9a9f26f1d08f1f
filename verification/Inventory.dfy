/** The closed-inventory validator of the freeze (`check_inventory` with `require_record`, in
    mainwork-freeze-20261103/verify.py) and the archive loop of `check_frontend`
    (completion-evidence-20261029/verify.py): they accept exactly the recorded tree. */
module Inventory {
  import opened Bytes

  type Content = seq<byte>

  datatype Entry = Entry(path: string, size: nat, sha: string, class_: string)

  // ---------------------------------------------------------------- the tree

  const PLAN := "Plans/mainwork-freeze-20261103/"
  const OUT := ".golden-build/mainwork-freeze-20261103/"

  predicate Under(path: string, directory: string) {
    |directory| <= |path| && path[..|directory|] == directory
  }

  /** The part of `path` after its last slash. */
  function BaseName(path: string): string {
    if path == "" || path[|path| - 1] == '/' then "" else BaseName(path[..|path| - 1]) + [path[|path| - 1]]
  }

  /** The part of `path` before its first slash. */
  function FirstPart(path: string): string {
    if path == "" || path[0] == '/' then "" else [path[0]] + FirstPart(path[1..])
  }

  /** The files by their names relative to the root, and what `rglob` lists below the two directories
      (directories too). */
  datatype Tree = Tree(files: map<string, Content>, plan: seq<string>, out: seq<string>) {
    predicate Valid() {
      forall p | p in files :: (p in plan <==> Under(p, PLAN)) && (p in out <==> Under(p, OUT))
    }
  }

  /** What has to be inventoried: the plan directory without any `inventory.json`, and the output
      directory without its scratch directory. */
  predicate Retains(path: string) {
    || (Under(path, PLAN) && BaseName(path) != "inventory.json")
    || (Under(path, OUT) && FirstPart(path[|OUT|..]) != "tmp")
  }

  function Retained(t: Tree): map<string, Content> {
    map p | p in t.files && Retains(p) :: t.files[p]
  }

  // ---------------------------------------------------------------- the validator

  datatype Error =
    | RepeatsPath | ClaimsItself | MissingFile(path: string) | StaleFile(path: string) | UnknownClass(path: string)
    | Open(missing: set<string>, extra: set<string>)

  /** How a recorded path, canonical or not, is looked up below the root. */
  type Lookup = string -> Option<Content>

  /** A lookup finds the files of the tree under their own names. */
  predicate Finds(resolve: Lookup, t: Tree) {
    forall p | p in t.files :: resolve(p) == Some(t.files[p])
  }

  function CheckEntry(e: Entry, resolve: Lookup, digest: Content -> string): Option<Error> {
    var found := resolve(e.path);
    if found.None? then Some(MissingFile(e.path))
    else if |found.value| != e.size || digest(found.value) != e.sha then Some(StaleFile(e.path))
    else if e.class_ != "git-payload" && e.class_ != "ignored-raw" then Some(UnknownClass(e.path))
    else None
  }

  function CheckEntries(entries: seq<Entry>, resolve: Lookup, digest: Content -> string): Option<Error> {
    if entries == [] then None
    else
      var first := CheckEntry(entries[0], resolve, digest);
      if first.Some? then first else CheckEntries(entries[1..], resolve, digest)
  }

  function Paths(entries: seq<Entry>): set<string> {
    set i | 0 <= i < |entries| :: entries[i].path
  }

  predicate Distinct(entries: seq<Entry>) {
    forall i, j | 0 <= i < j < |entries| :: entries[i].path != entries[j].path
  }

  /** The verdict: the first failing condition, or nothing. */
  function Check(entries: seq<Entry>, t: Tree, resolve: Lookup, digest: Content -> string): Option<Error> {
    if !Distinct(entries) then Some(RepeatsPath)
    else if PLAN + "inventory.json" in Paths(entries) then Some(ClaimsItself)
    else
      var first := CheckEntries(entries, resolve, digest);
      if first.Some? then first
      else if Retained(t).Keys != Paths(entries) then
        Some(Open(Paths(entries) - Retained(t).Keys, Retained(t).Keys - Paths(entries)))
      else None
  }

  /** `len(paths) != len(set(paths))` says that a path repeats. */
  lemma {:induction false} SizeTellsDistinct(entries: seq<Entry>)
    ensures |Paths(entries)| <= |entries|
    ensures |Paths(entries)| == |entries| <==> Distinct(entries)
  {
    if entries == [] {
      assert Paths(entries) == {};
    } else {
      hide Paths, Distinct;
      var n := |entries| - 1;
      SizeTellsDistinct(entries[..n]);
      PathsGrow(entries, n);
      DistinctGrow(entries, n);
      if entries[n].path in Paths(entries[..n]) {
        assert Paths(entries[..n]) + {entries[n].path} == Paths(entries[..n]);
      }
    }
  }

  lemma {:induction false} DistinctGrow(entries: seq<Entry>, n: nat)
    requires n + 1 == |entries|
    ensures Distinct(entries) <==> Distinct(entries[..n]) && entries[n].path !in Paths(entries[..n])
  {
    var front := entries[..n];
    assert forall i | 0 <= i < n :: front[i] == entries[i];
    if entries[n].path in Paths(front) {
      var i :| 0 <= i < n && front[i].path == entries[n].path;
      assert entries[i].path == entries[n].path;
    } else {
      assert forall i | 0 <= i < n :: front[i].path in Paths(front);
    }
  }

  lemma {:induction false} PathsGrow(entries: seq<Entry>, n: nat)
    requires n < |entries|
    ensures Paths(entries[..n + 1]) == Paths(entries[..n]) + {entries[n].path}
    ensures n + 1 == |entries| ==> Paths(entries) == Paths(entries[..n]) + {entries[n].path}
  {
    var more := entries[..n + 1];
    assert forall i | 0 <= i < n :: more[i] == entries[..n][i];
    assert more[n] == entries[n];
    assert n + 1 == |entries| ==> more == entries;
  }

  /** `check_inventory`, with its sets built by loops and its first failure raised. */
  method CheckInventory(entries: seq<Entry>, t: Tree, resolve: Lookup, digest: Content -> string)
    returns (error: Option<Error>)
    requires t.Valid()
    ensures error == Check(entries, t, resolve, digest)
  {
    var paths: set<string> := {};
    for i := 0 to |entries|
      invariant paths == Paths(entries[..i])
    {
      PathsGrow(entries, i);
      paths := paths + {entries[i].path};
    }
    assert entries[..|entries|] == entries;
    SizeTellsDistinct(entries);
    if |entries| != |paths| {
      return Some(RepeatsPath);
    }
    if PLAN + "inventory.json" in paths {
      return Some(ClaimsItself);
    }
    for i := 0 to |entries|
      invariant CheckEntries(entries, resolve, digest) == CheckEntries(entries[i..], resolve, digest)
    {
      assert entries[i..][1..] == entries[i + 1..];
      error := CheckEntry(entries[i], resolve, digest);
      if error.Some? {
        return;
      }
    }
    var actual := CollectRetained(t);
    if actual != paths {
      return Some(Open(paths - actual, actual - paths));
    }
    return None;
  }

  method CollectRetained(t: Tree) returns (actual: set<string>)
    requires t.Valid()
    ensures actual == Retained(t).Keys
  {
    hide BaseName, FirstPart, Retained, Retains;
    actual := {};
    for i := 0 to |t.plan|
      invariant actual == set p | p in t.plan[..i] && p in t.files && BaseName(p) != "inventory.json"
    {
      assert t.plan[..i + 1] == t.plan[..i] + [t.plan[i]];
      if t.plan[i] in t.files && BaseName(t.plan[i]) != "inventory.json" {
        actual := actual + {t.plan[i]};
      }
    }
    ghost var first := actual;
    assert first == set p | p in t.plan && p in t.files && BaseName(p) != "inventory.json" by {
      assert t.plan[..|t.plan|] == t.plan;
    }
    for i := 0 to |t.out|
      invariant actual == first + set p | p in t.out[..i] && p in t.files && FirstPart(p[|OUT|..]) != "tmp"
    {
      assert t.out[..i + 1] == t.out[..i] + [t.out[i]];
      if t.out[i] in t.files && FirstPart(t.out[i][|OUT|..]) != "tmp" {
        actual := actual + {t.out[i]};
      }
    }
    assert t.out[..|t.out|] == t.out;
    RetainedKeys(t);
  }

  lemma {:induction false} RetainedKeys(t: Tree)
    requires t.Valid()
    ensures Retained(t).Keys
         == (set p | p in t.plan && p in t.files && BaseName(p) != "inventory.json")
            + set p | p in t.out && p in t.files && FirstPart(p[|OUT|..]) != "tmp"
  {
    hide BaseName, FirstPart;
  }

  // ---------------------------------------------------------------- paths

  lemma {:induction false} UnderExactly(path: string, directory: string)
    ensures Under(path, directory) <==> exists rest :: path == directory + rest
  {
    if Under(path, directory) {
      assert path == directory + path[|directory|..];
    }
    if rest :| path == directory + rest {
      assert path[..|directory|] == directory;
    }
  }

  lemma {:induction false} FirstPartOf(part: string, rest: string)
    requires '/' !in part
    ensures FirstPart(part) == FirstPart(part + "/" + rest) == part
  {
    if part == "" {
      assert part + "/" + rest == "/" + rest;
    } else {
      FirstPartOf(part[1..], rest);
      assert (part + "/" + rest)[1..] == part[1..] + "/" + rest;
    }
  }

  /** What is inventoried, by the parts of its path: in the plan directory everything whose own name is
      not `inventory.json`, in the output directory everything not below `tmp`, and nothing elsewhere. */
  lemma {:induction false} RetainsExactly(directory: string, name: string, part: string, rest: string, path: string)
    requires '/' !in name && '/' !in part
    requires directory == "" || directory[|directory| - 1] == '/'
    ensures Retains("Plans/mainwork-freeze-20261103/" + directory + name) <==> name != "inventory.json"
    ensures Retains(".golden-build/mainwork-freeze-20261103/" + part + "/" + rest) <==> part != "tmp"
    ensures Retains(".golden-build/mainwork-freeze-20261103/" + part) <==> part != "tmp"
    ensures !Under(path, "Plans/mainwork-freeze-20261103/") && !Under(path, ".golden-build/mainwork-freeze-20261103/") ==>
              !Retains(path)
  {
    hide BaseName, FirstPart;
    InPlan(directory, name);
    InOut(part + "/" + rest);
    InOut(part);
    FirstPartOf(part, rest);
    assert OUT + (part + "/" + rest) == OUT + part + "/" + rest;
  }

  lemma {:induction false} InPlan(directory: string, name: string)
    requires '/' !in name && (directory == "" || directory[|directory| - 1] == '/')
    ensures var p := PLAN + directory + name;
            Under(p, PLAN) && !Under(p, OUT) && BaseName(p) == name
  {
    var p := PLAN + directory + name;
    BaseNameOf(PLAN + directory, name);
    assert p == PLAN + (directory + name) && p[..|PLAN|] == PLAN;
    assert p[0] == 'P' && OUT[0] == '.';
  }

  lemma {:induction false} InOut(rest: string)
    ensures Under(OUT + rest, OUT) && !Under(OUT + rest, PLAN) && (OUT + rest)[|OUT|..] == rest
  {
    assert (OUT + rest)[0] == '.' && PLAN[0] == 'P';
  }

  // ---------------------------------------------------------------- what it accepts

  /** The inventory records the file: its class is known and its size and digest are the file's. */
  predicate Records(e: Entry, content: Content, digest: Content -> string) {
    && (e.class_ == "git-payload" || e.class_ == "ignored-raw")
    && e.size == |content| && e.sha == digest(content)
  }

  /** A duplicate-free one-to-one listing of the retained files, each recorded as it is. */
  predicate Lists(entries: seq<Entry>, files: map<string, Content>, digest: Content -> string) {
    && Distinct(entries) && Paths(entries) == files.Keys
    && forall i | 0 <= i < |entries| :: entries[i].path in files && Records(entries[i], files[entries[i].path], digest)
  }

  lemma {:induction false} EntriesPassExactly(entries: seq<Entry>, resolve: Lookup, digest: Content -> string)
    ensures CheckEntries(entries, resolve, digest).None?
       <==> forall i | 0 <= i < |entries| :: CheckEntry(entries[i], resolve, digest).None?
  {
    hide CheckEntry;
    if entries != [] {
      EntriesPassExactly(entries[1..], resolve, digest);
      assert forall i | 1 <= i < |entries| :: entries[i] == entries[1..][i - 1];
    }
  }

  /** MAIN RESULT. The validator accepts exactly the inventories that list the retained tree. */
  lemma {:induction false} AcceptsExactly(entries: seq<Entry>, t: Tree, resolve: Lookup, digest: Content -> string)
    requires Finds(resolve, t)
    ensures Check(entries, t, resolve, digest).None? <==> Lists(entries, Retained(t), digest)
  {
    hide Paths, Retains, CheckEntries;
    EntriesPassExactly(entries, resolve, digest);
    ItselfIsNotRetained(t);
    if Paths(entries) == Retained(t).Keys {
      forall i | 0 <= i < |entries|
        ensures entries[i].path in Retained(t)
        ensures CheckEntry(entries[i], resolve, digest).None? <==> Records(entries[i], Retained(t)[entries[i].path], digest)
      {
        PathIn(entries, i);
      }
    }
  }

  /** What is wrong with one entry, most severe first: no such file, another content, an unknown class. */
  predicate Fails(e: Entry, resolve: Lookup, digest: Content -> string, error: Error) {
    var found := resolve(e.path);
    match error
    case MissingFile(p) => p == e.path && found.None?
    case StaleFile(p) => p == e.path && found.Some? && (|found.value| != e.size || digest(found.value) != e.sha)
    case UnknownClass(p) =>
      p == e.path && found.Some? && |found.value| == e.size && digest(found.value) == e.sha
      && e.class_ !in {"git-payload", "ignored-raw"}
    case _ => false
  }

  predicate Sound(e: Entry, resolve: Lookup, digest: Content -> string) {
    resolve(e.path).Some? && Records(e, resolve(e.path).value, digest)
  }

  /** The verdict is the first failure: a repeated path, an inventory that lists itself, the first entry
      that fails, or the paths missing from the tree and from the inventory. */
  lemma {:induction false} FirstFailure(entries: seq<Entry>, t: Tree, resolve: Lookup, digest: Content -> string, i: nat, e: Error)
    ensures !Distinct(entries) ==> Check(entries, t, resolve, digest) == Some(RepeatsPath)
    ensures Distinct(entries) && "Plans/mainwork-freeze-20261103/" + "inventory.json" in Paths(entries) ==>
              Check(entries, t, resolve, digest) == Some(ClaimsItself)
    ensures && Distinct(entries) && "Plans/mainwork-freeze-20261103/" + "inventory.json" !in Paths(entries)
            && i < |entries| && Fails(entries[i], resolve, digest, e)
            && (forall j | 0 <= j < i :: Sound(entries[j], resolve, digest)) ==>
              Check(entries, t, resolve, digest) == Some(e)
    ensures && Distinct(entries) && "Plans/mainwork-freeze-20261103/" + "inventory.json" !in Paths(entries)
            && (forall j | 0 <= j < |entries| :: Sound(entries[j], resolve, digest))
            && Retained(t).Keys != Paths(entries) ==>
              Check(entries, t, resolve, digest) == Some(Open(Paths(entries) - Retained(t).Keys, Retained(t).Keys - Paths(entries)))
  {
    hide Retains, Paths, Distinct;
    if i < |entries| && Fails(entries[i], resolve, digest, e)
       && forall j | 0 <= j < i :: Sound(entries[j], resolve, digest) {
      FirstEntryFails(entries, resolve, digest, i, e);
    }
    EntriesPassExactly(entries, resolve, digest);
  }

  lemma {:induction false} FirstEntryFails(entries: seq<Entry>, resolve: Lookup, digest: Content -> string, i: nat, e: Error)
    requires i < |entries| && Fails(entries[i], resolve, digest, e)
    requires forall j | 0 <= j < i :: Sound(entries[j], resolve, digest)
    ensures CheckEntries(entries, resolve, digest) == Some(e)
    decreases entries
  {
    if i > 0 {
      assert forall j | 0 <= j < i - 1 :: entries[1..][j] == entries[j + 1];
      FirstEntryFails(entries[1..], resolve, digest, i - 1, e);
    }
  }

  lemma {:induction false} PathIn(entries: seq<Entry>, i: nat)
    requires i < |entries|
    ensures entries[i].path in Paths(entries)
  {
  }

  lemma {:induction false} BaseNameOf(directory: string, name: string)
    requires directory != "" && directory[|directory| - 1] == '/' && '/' !in name
    ensures BaseName(directory + name) == name
  {
    if name == "" {
      assert directory + name == directory;
    } else {
      var n := |name| - 1;
      BaseNameOf(directory, name[..n]);
      assert (directory + name)[..|directory + name| - 1] == directory + name[..n];
    }
  }

  lemma {:induction false} ItselfIsNotRetained(t: Tree)
    ensures PLAN + "inventory.json" !in Retained(t)
  {
    BaseNameOf(PLAN, "inventory.json");
    assert (PLAN + "inventory.json")[0] == 'P' && OUT[0] == '.';
  }

  ghost predicate Injective(digest: Content -> string) {
    forall a, b | digest(a) == digest(b) :: a == b
  }

  /** MAIN RESULT, tamper evidence. With a digest that distinguishes contents, an inventory accepted for
      one tree is accepted for another exactly when the retained files are the same: any addition,
      removal or edit of one is refused, and nothing outside them matters. */
  lemma {:induction false} OneInventoryOneTree(
    entries: seq<Entry>, t: Tree, u: Tree, resolveT: Lookup, resolveU: Lookup, digest: Content -> string)
    requires Finds(resolveT, t) && Finds(resolveU, u) && Injective(digest)
    requires Check(entries, t, resolveT, digest).None?
    ensures Check(entries, u, resolveU, digest).None? <==> Retained(u) == Retained(t)
  {
    hide Check, Retained, Paths;
    AcceptsExactly(entries, t, resolveT, digest);
    AcceptsExactly(entries, u, resolveU, digest);
    if Lists(entries, Retained(u), digest) {
      forall p | p in Retained(t) ensures Retained(u)[p] == Retained(t)[p] {
        var i := EntryFor(entries, p);
        assert Records(entries[i], Retained(t)[p], digest) && Records(entries[i], Retained(u)[p], digest);
      }
    }
  }

  lemma {:induction false} EntryFor(entries: seq<Entry>, p: string) returns (i: nat)
    requires p in Paths(entries)
    ensures i < |entries| && entries[i].path == p
  {
    i :| 0 <= i < |entries| && entries[i].path == p;
  }

  // ---------------------------------------------------------------- the archive loop

  datatype MemberKind = Directory | File | Special

  /** A tar member. */
  datatype Member = Member(kind: MemberKind, name: string, content: Content)

  datatype Indexed = Indexed(size: nat, sha: string)

  datatype ArchiveError = Escapes(name: string) | Unexpected(name: string) | Differs(name: string) | Incomplete

  /** `'..' in Path(name).parts`. */
  predicate HasDotDot(name: string) {
    var part := FirstPart(name);
    part == ".." || (|part| < |name| && HasDotDot(name[|part| + 1..]))
  }

  function JoinedParts(parts: seq<string>): string
    requires parts != []
  {
    if |parts| == 1 then parts[0] else parts[0] + "/" + JoinedParts(parts[1..])
  }

  /** A path of parts without slashes goes up exactly when one of them is `..`. */
  lemma {:induction false} HasDotDotExactly(parts: seq<string>)
    requires parts != [] && forall i | 0 <= i < |parts| :: '/' !in parts[i]
    ensures HasDotDot(JoinedParts(parts)) <==> ".." in parts
    decreases |parts|
  {
    hide FirstPart;
    var name := JoinedParts(parts);
    if |parts| == 1 {
      FirstPartOf(parts[0], "");
    } else {
      var rest := JoinedParts(parts[1..]);
      FirstPartOf(parts[0], rest);
      HasDotDotExactly(parts[1..]);
      assert name[|parts[0]| + 1..] == rest;
      assert parts == [parts[0]] + parts[1..];
    }
  }

  lemma {:induction false} ShortOf(m: Member, prefix: string, name: string)
    requires m.name == prefix + name
    ensures Under(m.name, prefix) && Short(m, prefix) == name
  {
  }

  /** A member's name below the archive's own directory. */
  function Short(m: Member, prefix: string): string {
    if Under(m.name, prefix) then m.name[|prefix|..] else m.name
  }

  predicate Identical(content: Content, r: Indexed, digest: Content -> string) {
    digest(content) == r.sha && |content| == r.size
  }

  type Contents = map<string, Content>

  function LoadMember(m: Member, index: map<string, Indexed>, prefix: string, digest: Content -> string, got: Contents)
    : Result<Contents, ArchiveError>
  {
    if m.kind.Directory? then Success(got)
    else if !m.kind.File? || !Under(m.name, prefix) then Failure(Escapes(m.name))
    else
      var name := Short(m, prefix);
      if name !in index || name in got || HasDotDot(name) then Failure(Unexpected(name))
      else if !Identical(m.content, index[name], digest) then Failure(Differs(name))
      else Success(got[name := m.content])
  }

  function LoadMembers(
    members: seq<Member>, index: map<string, Indexed>, prefix: string, digest: Content -> string, got: Contents)
    : Result<Contents, ArchiveError>
    decreases members
  {
    if members == [] then Success(got)
    else
      var r := LoadMember(members[0], index, prefix, digest, got);
      if r.Failure? then r else LoadMembers(members[1..], index, prefix, digest, r.value)
  }

  function Load(members: seq<Member>, index: map<string, Indexed>, prefix: string, digest: Content -> string)
    : Result<Contents, ArchiveError>
  {
    var r := LoadMembers(members, index, prefix, digest, map[]);
    if r.Success? && r.value.Keys != index.Keys then Failure(Incomplete) else r
  }

  /** The loop over the members, with its dictionary. */
  method LoadArchive(members: seq<Member>, index: map<string, Indexed>, prefix: string, digest: Content -> string)
    returns (r: Result<Contents, ArchiveError>)
    ensures r == Load(members, index, prefix, digest)
  {
    var contents: Contents := map[];
    for i := 0 to |members|
      invariant LoadMembers(members, index, prefix, digest, map[])
             == LoadMembers(members[i..], index, prefix, digest, contents)
    {
      var m := members[i];
      assert members[i..][0] == m && members[i..][1..] == members[i + 1..];
      if m.kind.Directory? {
        continue;
      }
      if !m.kind.File? || !Under(m.name, prefix) {
        return Failure(Escapes(m.name));
      }
      var name := Short(m, prefix);
      if name !in index || name in contents || HasDotDot(name) {
        return Failure(Unexpected(name));
      }
      if !Identical(m.content, index[name], digest) {
        return Failure(Differs(name));
      }
      contents := contents[name := m.content];
    }
    if contents.Keys != index.Keys {
      return Failure(Incomplete);
    }
    return Success(contents);
  }

  /** A member that is a directory, or a file below the prefix that the index records as it is. */
  predicate MemberOk(m: Member, index: map<string, Indexed>, prefix: string, digest: Content -> string) {
    m.kind.Directory?
    || (&& m.kind.File? && Under(m.name, prefix) && Short(m, prefix) in index && !HasDotDot(Short(m, prefix))
        && digest(m.content) == index[Short(m, prefix)].sha && |m.content| == index[Short(m, prefix)].size)
  }

  /** The names of the members that are not directories, in archive order. */
  function FileNames(members: seq<Member>, prefix: string): multiset<string> {
    if members == [] then multiset{}
    else (if members[0].kind.Directory? then multiset{} else multiset{Short(members[0], prefix)})
         + FileNames(members[1..], prefix)
  }

  /** No name twice, and none that is already there. */
  predicate Unseen(names: multiset<string>, got: Contents) {
    forall n | n in names :: names[n] == 1 && n !in got
  }

  function Domain(names: multiset<string>): set<string> {
    set n | n in names
  }

  lemma {:induction false} OneMore(name: string, more: multiset<string>, got: Contents, content: Content)
    ensures Unseen(multiset{name} + more, got) <==> name !in got && Unseen(more, got[name := content])
    ensures got.Keys + Domain(multiset{name} + more) == got[name := content].Keys + Domain(more)
  {
    var names := multiset{name} + more;
    assert name in names && names[name] == 1 + more[name];
    assert forall n | n in more :: n in names;
  }

  predicate AllOk(members: seq<Member>, index: map<string, Indexed>, prefix: string, digest: Content -> string) {
    forall i | 0 <= i < |members| :: MemberOk(members[i], index, prefix, digest)
  }

  lemma {:induction false} AllOkHead(
    members: seq<Member>, index: map<string, Indexed>, prefix: string, digest: Content -> string)
    requires members != []
    ensures AllOk(members, index, prefix, digest)
       <==> MemberOk(members[0], index, prefix, digest) && AllOk(members[1..], index, prefix, digest)
  {
    hide MemberOk;
    assert forall i | 1 <= i < |members| :: members[i] == members[1..][i - 1];
  }

  lemma {:induction false} LoadsExactly(
    members: seq<Member>, index: map<string, Indexed>, prefix: string, digest: Content -> string, got: Contents)
    ensures var r := LoadMembers(members, index, prefix, digest, got);
            && (r.Success? <==> AllOk(members, index, prefix, digest) && Unseen(FileNames(members, prefix), got))
            && (r.Success? ==> r.value.Keys == got.Keys + Domain(FileNames(members, prefix)))
    decreases members
  {
    if members == [] {
      assert got.Keys + Domain(multiset{}) == got.Keys;
    } else {
      hide AllOk, MemberOk, Unseen, LoadMember, Short, Domain;
      var m, rest := members[0], members[1..];
      var name, more := Short(m, prefix), FileNames(rest, prefix);
      MemberLoads(m, index, prefix, digest, got);
      AllOkHead(members, index, prefix, digest);
      var first := LoadMember(m, index, prefix, digest, got);
      if m.kind.Directory? {
        assert FileNames(members, prefix) == more;
      } else {
        OneMore(name, more, got, m.content);
      }
      if first.Success? {
        LoadsExactly(rest, index, prefix, digest, first.value);
      }
    }
  }

  lemma {:induction false} MemberLoads(
    m: Member, index: map<string, Indexed>, prefix: string, digest: Content -> string, got: Contents)
    ensures var r := LoadMember(m, index, prefix, digest, got);
            && (r.Success? <==> MemberOk(m, index, prefix, digest) && (m.kind.Directory? || Short(m, prefix) !in got))
            && (r.Success? ==> r.value == if m.kind.Directory? then got else got[Short(m, prefix) := m.content])
  {
  }

  /** Why a member is refused: it is not a file below the prefix, its name is unknown, repeated or goes
      up, or its content is not the recorded one. */
  lemma {:induction false} MemberRefused(
    m: Member, name: string, index: map<string, Indexed>, prefix: string, digest: Content -> string, got: Contents)
    requires m.name == prefix + name
    ensures m.kind.Special? ==> LoadMember(m, index, prefix, digest, got) == Failure(Escapes(m.name))
    ensures m.kind.File? && (name !in index || name in got || HasDotDot(name)) ==>
              LoadMember(m, index, prefix, digest, got) == Failure(Unexpected(name))
    ensures && m.kind.File? && name in index && name !in got && !HasDotDot(name)
            && (digest(m.content) != index[name].sha || |m.content| != index[name].size) ==>
              LoadMember(m, index, prefix, digest, got) == Failure(Differs(name))
  {
    ShortOf(m, prefix, name);
  }

  /** MAIN RESULT. The archive is accepted exactly when its files are a permutation of the index, each
      once and as recorded, whatever the order and the directories between them. */
  lemma {:induction false} ArchiveIsPermutation(
    members: seq<Member>, index: map<string, Indexed>, prefix: string, digest: Content -> string)
    ensures Load(members, index, prefix, digest).Success?
       <==> && (forall i | 0 <= i < |members| :: MemberOk(members[i], index, prefix, digest))
            && FileNames(members, prefix) == multiset(index.Keys)
  {
    hide MemberOk, LoadMembers, FileNames, Domain, Unseen;
    var none: Contents := map[];
    LoadsExactly(members, index, prefix, digest, none);
    OnceEach(FileNames(members, prefix), index.Keys);
    assert none.Keys + Domain(FileNames(members, prefix)) == Domain(FileNames(members, prefix));
  }

  lemma {:induction false} OnceEach(names: multiset<string>, keys: set<string>)
    ensures names == multiset(keys) <==> Unseen(names, map[]) && Domain(names) == keys
  {
    if Unseen(names, map[]) && Domain(names) == keys {
      assert forall n :: n in names <==> n in Domain(names);
      assert forall n :: names[n] == multiset(keys)[n];
    }
    assert names == multiset(keys) ==> Domain(names) == keys;
  }

  /** The file's own bytes are there under its own name. */
  predicate Delivers(c: Contents, m: Member, prefix: string) {
    m.kind.Directory? || (Short(m, prefix) in c && c[Short(m, prefix)] == m.content)
  }

  predicate Extends(c: Contents, got: Contents) {
    forall n | n in got :: n in c && c[n] == got[n]
  }

  /** What an accepted archive delivers: each file's own bytes under its own name. */
  lemma {:induction false} ContentsAreTheMembers(
    members: seq<Member>, index: map<string, Indexed>, prefix: string, digest: Content -> string, got: Contents)
    requires LoadMembers(members, index, prefix, digest, got).Success?
    ensures var c := LoadMembers(members, index, prefix, digest, got).value;
            Extends(c, got) && forall i | 0 <= i < |members| :: Delivers(c, members[i], prefix)
    decreases members
  {
    if members != [] {
      hide MemberOk, LoadMember, Short;
      var m, rest := members[0], members[1..];
      var first := LoadMember(m, index, prefix, digest, got).value;
      var c := LoadMembers(members, index, prefix, digest, got).value;
      MemberLoads(m, index, prefix, digest, got);
      ContentsAreTheMembers(rest, index, prefix, digest, first);
      assert Delivers(first, m, prefix) && Delivers(c, m, prefix);
      forall i | 0 <= i < |members| ensures Delivers(c, members[i], prefix) {
        assert i > 0 ==> members[i] == rest[i - 1];
      }
    }
  }
}
