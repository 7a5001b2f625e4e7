/** The bundle swap of internal/speech/install.go: publish, retire, carry and recover, as
    filesystem primitives each of which may fail or be the last before a crash. */
module BundleSwap {
  import opened Wrappers

  type Name = string

  /** Where a file is inside its entry: nowhere further for an entry that is a file. */
  type Path = seq<string>

  /** An entry of the models directory: the files below it with their contents. */
  type Entry = map<Path, nat>

  datatype File = File(name: Name, path: Path, content: nat)

  /** A bundle directory: its runtime files, and its models directory, if there is one. */
  datatype Tree = Tree(runtime: set<Name>, models: Option<map<Name, Entry>>)

  /** The live directory and the retired one. */
  datatype Trees = Trees(bundle: Option<Tree>, retired: Option<Tree>)

  predicate Empty(tree: Option<Tree>) { tree == None || tree.value == Tree({}, None) }

  function Models(tree: Option<Tree>): map<Name, Entry> {
    if tree.Some? && tree.value.models.Some? then tree.value.models.value else map[]
  }

  function Runtime(tree: Option<Tree>): set<Name> { if tree.Some? then tree.value.runtime else {} }

  function Names(d: Trees): set<Name> { Models(d.bundle).Keys + Models(d.retired).Keys }

  predicate Holds(models: map<Name, Entry>, name: Name, path: Path) { name in models && path in models[name] }

  predicate HasPath(d: Trees, name: Name, path: Path) {
    Holds(Models(d.bundle), name, path) || Holds(Models(d.retired), name, path)
  }

  predicate FileIn(models: map<Name, Entry>, f: File) {
    Holds(models, f.name, f.path) && models[f.name][f.path] == f.content
  }

  predicate HasFile(d: Trees, f: File) { FileIn(Models(d.bundle), f) || FileIn(Models(d.retired), f) }

  /** No entry name is lost, and every file was there before or was staged. */
  ghost predicate Kept(before: Trees, after: Trees, staged: set<File>) {
    && (forall name: Name :: name in Names(before) ==> name in Names(after))
    && forall f: File :: HasFile(after, f) ==> HasFile(before, f) || f in staged
  }

  /** No file is lost; its content may have been replaced. */
  ghost predicate PathsKept(before: Trees, after: Trees) {
    forall name: Name, path: Path :: HasPath(before, name, path) ==> HasPath(after, name, path)
  }

  /** Where the live models directory has an entry that the retired one has too, it has all
      of its files. */
  ghost predicate Covered(d: Trees) {
    forall name: Name, path: Path ::
      Holds(Models(d.retired), name, path) && name in Models(d.bundle) ==> Holds(Models(d.bundle), name, path)
  }

  /** The stage's own entries have every file of theirs that is on disk. */
  ghost predicate StageCovers(stage: Tree, d: Trees) {
    Covered(Trees(Some(stage), d.bundle)) && Covered(Trees(Some(stage), d.retired))
  }

  ghost function StagedIn(stage: Tree): set<File> {
    set name, path | name in Models(Some(stage)) && path in Models(Some(stage))[name] ::
      File(name, path, Models(Some(stage))[name][path])
  }

  lemma KeptTrans(a: Trees, b: Trees, c: Trees, s: set<File>, t: set<File>)
    requires Kept(a, b, s) && Kept(b, c, t)
    ensures Kept(a, c, s + t)
  {
  }

  lemma PathsKeptTrans(a: Trees, b: Trees, c: Trees)
    requires PathsKept(a, b) && PathsKept(b, c)
    ensures PathsKept(a, c)
  {
  }

  lemma KeptMeansNames(a: Trees, b: Trees, s: set<File>)
    requires Kept(a, b, s)
    ensures Names(a) <= Names(b)
    ensures forall f: File :: HasFile(b, f) ==> HasFile(a, f) || f in s
  {
  }

  lemma RetireKept(d: Trees)
    requires d.bundle.Some? && Empty(d.retired)
    ensures Kept(d, Trees(None, d.bundle), {}) && PathsKept(d, Trees(None, d.bundle)) && Covered(Trees(None, d.bundle))
  {
  }

  lemma PublishKept(d: Trees, stage: Tree)
    requires Empty(d.bundle)
    ensures Kept(d, Trees(Some(stage), d.retired), StagedIn(stage)) && PathsKept(d, Trees(Some(stage), d.retired))
  {
    var after := Trees(Some(stage), d.retired);
    forall f: File | HasFile(after, f) ensures HasFile(d, f) || f in StagedIn(stage) {
      if FileIn(Models(Some(stage)), f) { assert Models(Some(stage))[f.name][f.path] == f.content; }
    }
  }

  /** Rename replaces a file by a file and an empty directory by a directory. */
  predicate Replaces(moved: Entry, there: Entry) {
    || (moved.Keys == {[]} && there.Keys == {[]})
    || ([] !in moved && there == map[])
  }

  predicate Carries(d: Trees, name: Name)
    requires name in Models(d.retired)
  {
    name in Models(d.bundle) ==> Replaces(Models(d.retired)[name], Models(d.bundle)[name])
  }

  /** What one rename of carryModels leaves. */
  function Carried(d: Trees, name: Name): Trees
    requires d.bundle.Some? && d.retired.Some? && name in Models(d.retired)
  {
    Trees(Some(d.bundle.value.(models := Some(Models(d.bundle)[name := Models(d.retired)[name]]))),
          Some(d.retired.value.(models := Some(Models(d.retired) - {name}))))
  }

  lemma CarryKept(d: Trees, name: Name)
    requires d.bundle.Some? && d.retired.Some? && name in Models(d.retired) && Carries(d, name)
    ensures Kept(d, Carried(d, name), {}) && PathsKept(d, Carried(d, name))
    ensures Covered(d) ==> Covered(Carried(d, name))
  {
    var after := Carried(d, name);
    forall n: Name, p: Path | HasPath(d, n, p) ensures HasPath(after, n, p) {
      if n == name && Holds(Models(d.bundle), n, p) {
        assert p in Models(d.bundle)[n].Keys;
        assert Holds(Models(d.retired), n, p);
      }
    }
    forall n: Name, p: Path | Covered(d) && Holds(Models(after.retired), n, p) && n in Models(after.bundle)
      ensures Holds(Models(after.bundle), n, p)
    {
      assert n != name;
      assert Holds(Models(d.retired), n, p) && n in Models(d.bundle);
    }
  }

  /** A part of the retired tree, as an interrupted removal leaves it. */
  ghost predicate PartOf(part: Option<Tree>, whole: Option<Tree>) {
    && Models(part).Keys <= Models(whole).Keys
    && forall f: File :: FileIn(Models(part), f) ==> FileIn(Models(whole), f)
  }

  lemma RemoveKept(d: Trees, part: Option<Tree>)
    requires PartOf(part, d.retired) && Models(d.retired).Keys <= Models(d.bundle).Keys
    ensures Kept(d, Trees(d.bundle, part), {})
    ensures Covered(d) ==> PathsKept(d, Trees(d.bundle, part)) && Covered(Trees(d.bundle, part))
  {
    var after := Trees(d.bundle, part);
    forall name: Name, path: Path | Holds(Models(part), name, path) ensures Holds(Models(d.retired), name, path) {
      assert FileIn(Models(part), File(name, path, Models(part)[name][path]));
    }
  }

  /** A recovery that runs to its end loses no file exactly when the live entries cover the
      retired ones. */
  lemma MergeKeepsIff(a: Trees, b: Trees)
    requires b.retired == None && Models(b.bundle) == Models(a.retired) + Models(a.bundle)
    ensures PathsKept(a, b) <==> Covered(a)
  {
    if PathsKept(a, b) {
      forall name: Name, path: Path | Holds(Models(a.retired), name, path) && name in Models(a.bundle)
        ensures Holds(Models(a.bundle), name, path)
      {
        assert HasPath(a, name, path);
        assert Holds(Models(b.bundle), name, path);
      }
    }
    if Covered(a) {
      forall name: Name, path: Path | HasPath(a, name, path) ensures HasPath(b, name, path) {
        assert Holds(Models(b.bundle), name, path);
      }
    }
  }

  /** How carrying moves the trees: nothing is lost, names only go from the retired tree to
      the live one, whose runtime files stay. */
  ghost predicate Advanced(a: Trees, b: Trees) {
    && Kept(a, b, {})
    && Models(a.bundle).Keys <= Models(b.bundle).Keys
    && Models(b.retired).Keys <= Models(a.retired).Keys
    && (a.bundle.Some? ==> b.bundle.Some? && b.bundle.value.runtime == a.bundle.value.runtime)
    && PathsKept(a, b) && (Covered(a) ==> Covered(b))
  }

  lemma AdvancedTrans(a: Trees, b: Trees, c: Trees)
    requires Advanced(a, b) && Advanced(b, c)
    ensures Advanced(a, c)
  {
    hide Kept, PathsKept, Covered;
    var nothing: set<File> := {};
    KeptTrans(a, b, c, nothing, nothing);
    assert nothing + nothing == nothing;
    PathsKeptTrans(a, b, c);
  }

  lemma AdvancedRefl(d: Trees)
    ensures Advanced(d, d)
  {
  }

  lemma AdvancedNames(a: Trees, b: Trees)
    requires Advanced(a, b)
    ensures Models(a.bundle).Keys <= Models(b.bundle).Keys && Models(b.retired).Keys <= Models(a.retired).Keys
  {
  }

  lemma CarryAdvances(d: Trees, name: Name)
    requires d.bundle.Some? && d.retired.Some? && name in Models(d.retired) && Carries(d, name)
    ensures Advanced(d, Carried(d, name))
  {
    CarryKept(d, name);
  }

  lemma SwapKept(a: Trees, retired: Trees, published: Trees, carried: Trees, stage: Tree)
    requires Kept(a, retired, {}) && Kept(retired, published, StagedIn(stage)) && Advanced(published, carried)
    requires PathsKept(a, retired) && PathsKept(retired, published)
    requires published.bundle == Some(stage) && published.retired in {a.bundle, a.retired}
    ensures Kept(a, carried, StagedIn(stage)) && PathsKept(a, carried)
    ensures StageCovers(stage, a) ==> Covered(carried)
  {
    hide Kept, PathsKept, Covered;
    KeptTrans(a, retired, published, {}, StagedIn(stage));
    KeptTrans(a, published, carried, {} + StagedIn(stage), {});
    assert {} + StagedIn(stage) + {} == StagedIn(stage);
    PathsKeptTrans(a, retired, published);
    PathsKeptTrans(a, published, carried);
  }

  lemma SwapDone(a: Trees, carried: Trees, part: Option<Tree>, stage: Tree)
    requires Kept(a, carried, StagedIn(stage)) && PathsKept(a, carried)
    requires PartOf(part, carried.retired) && Models(carried.retired).Keys <= Models(carried.bundle).Keys
    ensures Kept(a, Trees(carried.bundle, part), StagedIn(stage))
    ensures Covered(carried) ==> PathsKept(a, Trees(carried.bundle, part)) && Covered(Trees(carried.bundle, part))
  {
    hide Kept, PathsKept, Covered, PartOf;
    var d := Trees(carried.bundle, part);
    RemoveKept(carried, part);
    KeptTrans(a, carried, d, StagedIn(stage), {});
    assert StagedIn(stage) + {} == StagedIn(stage);
    if PathsKept(carried, d) { PathsKeptTrans(a, carried, d); }
  }

  /** The models after a file of a pack has landed in its entry. */
  function Put(models: map<Name, Entry>, f: File): map<Name, Entry> {
    models[f.name := (if f.name in models then models[f.name] else map[])[f.path := f.content]]
  }

  /** No file is where a directory is needed and the other way round. */
  predicate Fits(models: map<Name, Entry>, f: File) {
    f.name in models ==>
      && (f.path == [] ==> [] in models[f.name])
      && forall p :: p in models[f.name] ==> p == f.path || !(p <= f.path || f.path <= p)
  }

  /** The models after each file of a pack has landed. */
  function Published(models: map<Name, Entry>, files: seq<File>): map<Name, Entry> {
    if files == [] then models else Put(Published(models, files[..|files| - 1]), files[|files| - 1])
  }

  predicate SamePlace(f: File, g: File) { f.name == g.name && f.path == g.path }

  /** A pack brings this file, and no later one to the same place. */
  ghost predicate Lands(files: seq<File>, f: File) {
    exists k :: 0 <= k < |files| && files[k] == f && forall j :: k < j < |files| ==> !SamePlace(files[j], f)
  }

  /** A pack brings a file to this place. */
  ghost predicate Touched(files: seq<File>, f: File) {
    exists k :: 0 <= k < |files| && SamePlace(files[k], f)
  }

  /** One file is where it belongs, and every other is as it was. */
  lemma PutMeans(models: map<Name, Entry>, f: File)
    ensures forall g: File :: FileIn(Put(models, f), g) <==> g == f || (FileIn(models, g) && !SamePlace(f, g))
    ensures Put(models, f).Keys == models.Keys + {f.name}
  {
    forall g: File ensures FileIn(Put(models, f), g) <==> g == f || (FileIn(models, g) && !SamePlace(f, g)) {
      if g.name == f.name && g.path == f.path && g.content == f.content { assert g == f; }
    }
  }

  /** The last file brought to each place is there, and where none was brought what was
      there before. */
  lemma {:induction false} PublishedMeans(models: map<Name, Entry>, files: seq<File>)
    ensures forall f: File :: FileIn(Published(models, files), f) <==>
              Lands(files, f) || (FileIn(models, f) && !Touched(files, f))
    ensures Published(models, files).Keys == models.Keys + set f | f in files :: f.name
    decreases |files|
  {
    if files != [] {
      var before, last := files[..|files| - 1], files[|files| - 1];
      PublishedMeans(models, before);
      PutMeans(Published(models, before), last);
      assert files == before + [last];
      hide Put, Published;
      assert (set f | f in files :: f.name) == (set f | f in before :: f.name) + {last.name};
      forall f: File ensures FileIn(Put(Published(models, before), last), f) <==>
                               Lands(files, f) || (FileIn(models, f) && !Touched(files, f))
      {
        LandsSnoc(before, last, f);
      }
    }
  }

  lemma LandsSnoc(before: seq<File>, last: File, f: File)
    ensures Lands(before + [last], f) <==> f == last || (Lands(before, f) && !SamePlace(last, f))
    ensures Touched(before + [last], f) <==> SamePlace(last, f) || Touched(before, f)
  {
    var all := before + [last];
    assert all[|before|] == last;
    if Lands(before, f) && !SamePlace(last, f) {
      var k :| 0 <= k < |before| && before[k] == f && forall j :: k < j < |before| ==> !SamePlace(before[j], f);
      assert all[k] == f;
    }
    if Lands(all, f) {
      var k :| 0 <= k < |all| && all[k] == f && forall j :: k < j < |all| ==> !SamePlace(all[j], f);
      if k < |before| {
        assert before[k] == f && !SamePlace(all[|before|], f);
        forall j | k < j < |before| ensures !SamePlace(before[j], f) { assert all[j] == before[j]; }
      }
    }
    if k :| 0 <= k < |before| && SamePlace(before[k], f) { assert all[k] == before[k]; }
    if k :| 0 <= k < |all| && SamePlace(all[k], f) { assert k < |before| ==> before[k] == all[k]; }
  }

  /** None of the first files of a pack meets an obstacle when its turn comes. */
  predicate Fit(models: map<Name, Entry>, files: seq<File>, count: nat)
    requires count <= |files|
  {
    forall k: nat :: k < count ==> Fits(Published(models, files[..k]), files[k])
  }

  predicate AllFit(models: map<Name, Entry>, files: seq<File>) { Fit(models, files, |files|) }

  /** No file brought is to be where a directory is or will be, nor the other way round. */
  ghost predicate Room(models: map<Name, Entry>, files: seq<File>) {
    forall k :: 0 <= k < |files| ==>
      && files[k].path != []
      && (forall f: File :: FileIn(models, f) && f.name == files[k].name ==> !Nested(f.path, files[k].path))
      && (forall j :: 0 <= j < |files| && files[j].name == files[k].name ==> !Nested(files[j].path, files[k].path))
  }

  lemma RoomIsEnough(models: map<Name, Entry>, files: seq<File>)
    requires Room(models, files)
    ensures AllFit(models, files)
  {
    forall k: nat | k < |files| ensures Fits(Published(models, files[..k]), files[k]) {
      var f, there := files[k], Published(models, files[..k]);
      PublishedMeans(models, files[..k]);
      hide Published, Put, Touched;
      if f.name in there {
        forall p | p in there[f.name] ensures !Nested(p, f.path) {
          var g := File(f.name, p, there[f.name][p]);
          assert FileIn(there, g);
          if Lands(files[..k], g) {
            var j :| 0 <= j < k && files[..k][j] == g;
            assert files[j] == g;
          }
        }
      }
    }
  }

  function WithModels(d: Trees, models: map<Name, Entry>): Trees
    requires d.bundle.Some?
  {
    d.(bundle := Some(d.bundle.value.(models := Some(models))))
  }

  ghost function All(files: seq<File>): set<File> { set f | f in files }

  ghost predicate Apart(d: Trees, files: seq<File>) { forall f :: f in files ==> f.name !in Models(d.retired) }

  predicate Nested(p: Path, q: Path) { p != q && (p <= q || q <= p) }

  /** No file is also a directory. */
  ghost predicate Laid(models: map<Name, Entry>) {
    forall name: Name, p: Path, q: Path :: Holds(models, name, p) && Holds(models, name, q) ==> !Nested(p, q)
  }

  /** How a pack moves the trees: nothing is lost, the runtime files and the retired tree
      stay, and entries that the retired tree has are not touched if no file is for one of
      them. */
  ghost predicate Grown(a: Trees, b: Trees, files: seq<File>) {
    && Kept(a, b, All(files)) && PathsKept(a, b)
    && b.retired == a.retired && Runtime(b.bundle) == Runtime(a.bundle)
    && (Covered(a) && Apart(a, files) ==> Covered(b))
    && (Laid(Models(a.bundle)) ==> Laid(Models(b.bundle)))
  }

  lemma GrownRefl(d: Trees, files: seq<File>)
    ensures Grown(d, d, files)
  {
  }

  lemma GrownTrans(a: Trees, b: Trees, c: Trees, files: seq<File>)
    requires Grown(a, b, files) && Grown(b, c, files)
    ensures Grown(a, c, files)
  {
    hide Kept, PathsKept, Covered;
    var s := All(files);
    KeptTrans(a, b, c, s, s);
    assert s + s == s;
    PathsKeptTrans(a, b, c);
  }

  lemma PutGrows(d: Trees, f: File, files: seq<File>)
    requires f in files && d.bundle.Some? && Fits(Models(d.bundle), f)
    ensures Grown(d, WithModels(d, Put(Models(d.bundle), f)), files)
    ensures Models(WithModels(d, Put(Models(d.bundle), f)).bundle) == Put(Models(d.bundle), f)
  {
    var after := WithModels(d, Put(Models(d.bundle), f));
    PutLaid(Models(d.bundle), f);
    hide Laid;
    forall g: File | HasFile(after, g) ensures HasFile(d, g) || g in files {
      if g.name == f.name && g.path == f.path { assert FileIn(Models(d.retired), g) || g == f; }
    }
  }

  lemma DirGrows(d: Trees, f: File, files: seq<File>)
    requires d.bundle.Some? && f in files && f.name !in Models(d.bundle)
    ensures Grown(d, WithModels(d, Models(d.bundle)[f.name := map[]]), files)
    ensures WithModels(d, Models(d.bundle)[f.name := map[]]).bundle.Some?
    ensures var models := Models(WithModels(d, Models(d.bundle)[f.name := map[]]).bundle);
            && Put(models, f) == Put(Models(d.bundle), f)
            && (f.path != [] ==> Fits(models, f) && Fits(Models(d.bundle), f))
  {
    DirLaid(Models(d.bundle), f.name);
    hide Laid;
    assert Models(WithModels(d, Models(d.bundle)[f.name := map[]]).bundle) == Models(d.bundle)[f.name := map[]];
  }

  lemma PutLaid(models: map<Name, Entry>, f: File)
    requires Fits(models, f)
    ensures Laid(models) ==> Laid(Put(models, f))
  {
    var after := Put(models, f);
    forall name: Name, p: Path | name != f.name || p != f.path
      ensures Holds(after, name, p) <==> Holds(models, name, p)
    {
    }
    forall p: Path | Holds(models, f.name, p) ensures !Nested(p, f.path) && !Nested(f.path, p) {}
  }

  lemma DirLaid(models: map<Name, Entry>, name: Name)
    requires name !in models
    ensures Laid(models) ==> Laid(models[name := map[]])
  {
    var after := models[name := map[]];
    forall n: Name, p: Path, q: Path | Laid(models) && Holds(after, n, p) && Holds(after, n, q) ensures !Nested(p, q) {
      assert Holds(models, n, p) && Holds(models, n, q);
    }
  }

  lemma FitsMeans(models: map<Name, Entry>, f: File)
    requires Fits(models, f) && f.path == [] && f.name in models
    ensures [] in models[f.name]
  {
  }

  lemma MadeGrows(a: Trees, b: Trees, files: seq<File>)
    requires Advanced(a, b) && b.retired == a.retired && Runtime(b.bundle) == Runtime(a.bundle)
    requires Models(b.bundle) == Models(a.bundle)
    ensures Grown(a, b, files)
  {
  }

  lemma GrownMeans(a: Trees, b: Trees, files: seq<File>)
    requires Grown(a, b, files)
    ensures Kept(a, b, All(files)) && PathsKept(a, b)
    ensures b.retired == a.retired && Runtime(b.bundle) == Runtime(a.bundle)
    ensures Covered(a) && Apart(a, files) ==> Covered(b)
    ensures Laid(Models(a.bundle)) ==> Laid(Models(b.bundle))
  {
  }

  /** The first files of a pack have landed. */
  ghost predicate Landed(a: Trees, b: Trees, files: seq<File>, count: nat)
    requires count <= |files|
  {
    Grown(a, b, files) && Models(b.bundle) == Published(Models(a.bundle), files[..count])
  }

  lemma NoneLanded(d: Trees, files: seq<File>)
    ensures Landed(d, d, files, 0) && Fit(Models(d.bundle), files, 0)
  {
    GrownRefl(d, files);
  }

  lemma NextLanded(a: Trees, b: Trees, c: Trees, files: seq<File>, k: nat)
    requires k < |files| && Landed(a, b, files, k) && Grown(b, c, files)
    ensures Grown(a, c, files)
    ensures Models(c.bundle) == Put(Models(b.bundle), files[k]) ==> Landed(a, c, files, k + 1)
    ensures Fit(Models(a.bundle), files, k + 1)
            <==> Fit(Models(a.bundle), files, k) && Fits(Models(b.bundle), files[k])
    ensures AllFit(Models(a.bundle), files) ==> Fit(Models(a.bundle), files, k + 1)
  {
    hide Fits, Put, Grown;
    GrownTrans(a, b, c, files);
    assert files[..k + 1][..k] == files[..k];
  }

  lemma AllLanded(a: Trees, b: Trees, files: seq<File>)
    requires Landed(a, b, files, |files|)
    ensures Grown(a, b, files) && Models(b.bundle) == Published(Models(a.bundle), files)
    ensures AllFit(Models(a.bundle), files) <==> Fit(Models(a.bundle), files, |files|)
  {
    assert files[..|files|] == files;
  }

  lemma PackThenMerge(a: Trees, packed: Trees, b: Trees)
    requires PathsKept(a, packed) && packed.retired == a.retired
    requires PathsKept(packed, b) <==> Covered(packed)
    requires Models(b.bundle) == Models(packed.retired) + Models(packed.bundle) && b.retired == None
    ensures PathsKept(a, b) <==> Covered(packed)
  {
    if PathsKept(a, b) {
      forall name: Name, path: Path | Holds(Models(packed.retired), name, path) && name in Models(packed.bundle)
        ensures Holds(Models(packed.bundle), name, path)
      {
        assert HasPath(a, name, path);
        assert Holds(Models(b.bundle), name, path);
      }
    }
  }

  lemma SwapKeepsIff(a: Trees, b: Trees, stage: Tree)
    requires a.bundle.None? || Empty(a.retired)
    requires b.retired == None
    requires Models(b.bundle) == Models(a.retired) + Models(a.bundle) + Models(Some(stage))
    ensures PathsKept(a, b) <==> StageCovers(stage, a)
  {
    var previous := if a.bundle.None? then a.retired else a.bundle;
    var between := Trees(Some(stage), previous);
    MergeKeepsIff(between, b);
    assert StageCovers(stage, a) <==> Covered(between);
    forall name: Name, path: Path ensures HasPath(a, name, path) <==> Holds(Models(previous), name, path) {}
  }

  lemma KeptRefl(d: Trees)
    ensures Kept(d, d, {}) && PathsKept(d, d)
  {
  }

  /** A locked operation: any of them heals first, EnsureRuntime upgrades, InstallPack
      publishes files. */
  datatype Op = Heal | Upgrade(stage: Tree) | InstallPack(files: seq<File>)

  /** An operation on these trees that no failure can make drop a file: a runtime whose own
      entries cover what is there, or a pack that shares no entry with the retired tree,
      unless nothing fails. */
  ghost predicate Modest(op: Op, d: Trees, quiet: bool) {
    match op
    case Heal => true
    case Upgrade(stage) => StageCovers(stage, d)
    case InstallPack(files) => quiet || Apart(d, files)
  }

  /** The recovery that comes first leaves it so. */
  lemma ModestStays(op: Op, before: Trees, recovered: Trees, quiet: bool)
    requires Modest(op, before, quiet) ==> Kept(before, recovered, {})
    requires Models(recovered.retired).Keys <= Models(before.retired).Keys
    requires quiet ==> recovered.retired == None
    ensures Modest(op, before, quiet) && op.Upgrade? ==> StageCovers(op.stage, recovered)
    ensures Modest(op, before, quiet) && op.InstallPack? ==> Apart(recovered, op.files)
  {
    if Modest(op, before, quiet) && op.Upgrade? {
      StageStillCovers(op.stage, before, recovered);
    }
  }

  lemma StageStillCovers(stage: Tree, before: Trees, after: Trees)
    requires StageCovers(stage, before) && Kept(before, after, {})
    ensures StageCovers(stage, after)
  {
    forall name: Name, path: Path | HasPath(after, name, path) ensures HasPath(before, name, path) {
      var models := if Holds(Models(after.bundle), name, path) then Models(after.bundle) else Models(after.retired);
      var f := File(name, path, models[name][path]);
      assert FileIn(models, f);
      assert HasFile(after, f) && HasFile(before, f);
    }
    forall name: Name, path: Path | HasPath(after, name, path) && name in Models(Some(stage))
      ensures Holds(Models(Some(stage)), name, path)
    {
      assert HasPath(before, name, path);
    }
  }

  /** From each of these trees to the next, one of the operations. */
  ghost predicate Trail(trail: seq<Trees>, ops: seq<Op>) {
    |trail| == |ops| + 1 && forall k: nat :: k < |ops| ==> Kept(trail[k], trail[k + 1], Staged(ops[k]))
  }

  /** The first of the operations are modest on the trees they find. */
  ghost predicate Meek(ops: seq<Op>, trail: seq<Trees>, count: nat, quiet: bool) {
    count <= |ops| && count <= |trail| && forall k: nat :: k < count ==> Modest(ops[k], trail[k], quiet)
  }

  lemma TrailStarts(d: Trees, ops: seq<Op>)
    ensures Trail([d], ops[..0])
  {
  }

  lemma TrailNext(trail: seq<Trees>, ops: seq<Op>, k: nat, d: Trees, quiet: bool)
    requires k < |ops| && |trail| == k + 1 && Trail(trail, ops[..k]) && Kept(trail[k], d, Staged(ops[k]))
    ensures Trail(trail + [d], ops[..k + 1])
    ensures Meek(ops, trail + [d], k + 1, quiet) ==> Meek(ops, trail, k, quiet) && Modest(ops[k], trail[k], quiet)
  {
    hide Kept, Modest;
    var longer := trail + [d];
    forall i: nat | i < k + 1 ensures Kept(longer[i], longer[i + 1], Staged(ops[..k + 1][i])) {
      assert i < k ==> ops[..k][i] == ops[..k + 1][i] && longer[i] == trail[i] && longer[i + 1] == trail[i + 1];
    }
    if Meek(ops, longer, k + 1, quiet) {
      forall i: nat | i < k + 1 ensures Modest(ops[i], trail[i], quiet) {
        assert longer[i] == trail[i];
      }
    }
  }

  lemma TrailMeans(trail: seq<Trees>, ops: seq<Op>)
    requires Trail(trail, ops)
    ensures |trail| == |ops| + 1
  {
  }

  ghost function Staged(op: Op): set<File> {
    match op
    case Heal => {}
    case Upgrade(stage) => StagedIn(stage)
    case InstallPack(files) => All(files)
  }

  ghost function StagedBy(ops: seq<Op>): set<File> {
    if ops == [] then {} else StagedBy(ops[..|ops| - 1]) + Staged(ops[|ops| - 1])
  }

  function In(models: map<Name, Entry>, name: Name): set<Entry> {
    if name in models then {models[name]} else {}
  }

  /** The live models once the retired names outside todo have been carried over: the live
      tree keeps its own entries. */
  ghost predicate Merged(live: map<Name, Entry>, before: Trees, todo: set<Name>) {
    forall name: Name ::
      In(live, name) == if name in Models(before.bundle) then In(Models(before.bundle), name)
                        else if name in todo then {} else In(Models(before.retired), name)
  }

  lemma NothingMerged(before: Trees)
    ensures Merged(Models(before.bundle), before, Models(before.retired).Keys)
  {
  }

  lemma MergedNext(live: map<Name, Entry>, next: map<Name, Entry>, before: Trees, todo: set<Name>, name: Name)
    requires name in Models(before.retired) && name !in todo && Merged(live, before, todo + {name})
    requires next == if name in live then live else live[name := Models(before.retired)[name]]
    ensures Merged(next, before, todo)
  {
    assert In(live, name) == if name in Models(before.bundle) then In(Models(before.bundle), name) else {};
    forall n: Name
      ensures In(next, n) == if n in Models(before.bundle) then In(Models(before.bundle), n)
                             else if n in todo then {} else In(Models(before.retired), n)
    {
      assert In(live, n) == if n in Models(before.bundle) then In(Models(before.bundle), n)
                            else if n in todo + {name} then {} else In(Models(before.retired), n);
    }
  }

  /** How far the loop of carryModels has come with the names listed. */
  ghost predicate Carrying(a: Trees, b: Trees, names: set<Name>, todo: set<Name>) {
    && todo <= names && todo <= Models(b.retired).Keys && names <= Models(b.bundle).Keys + todo
    && names <= Models(a.retired).Keys && Advanced(a, b)
    && forall n :: n in todo ==> Models(b.retired)[n] == Models(a.retired)[n]
  }

  lemma CarryingStarts(d: Trees)
    ensures Carrying(d, d, Models(d.retired).Keys, Models(d.retired).Keys)
  {
    AdvancedRefl(d);
  }

  lemma CarryingMeans(a: Trees, b: Trees, names: set<Name>, todo: set<Name>)
    requires Carrying(a, b, names, todo)
    ensures Advanced(a, b) && todo <= Models(b.retired).Keys && names <= Models(b.bundle).Keys + todo
    ensures forall n :: n in todo ==> n in Models(a.retired) && Models(b.retired)[n] == Models(a.retired)[n]
  {
  }

  lemma CarryingNext(a: Trees, b: Trees, c: Trees, names: set<Name>, todo: set<Name>, name: Name)
    requires Carrying(a, b, names, todo) && name in todo && Advanced(b, c) && name in Models(c.bundle)
    requires forall n :: n in Models(b.retired) && n != name ==>
               n in Models(c.retired) && Models(c.retired)[n] == Models(b.retired)[n]
    ensures Carrying(a, c, names, todo - {name}) && todo == (todo - {name}) + {name}
  {
    AdvancedTrans(a, b, c);
    AdvancedNames(b, c);
    hide Advanced;
  }

  lemma MergedAll(live: map<Name, Entry>, before: Trees)
    requires Merged(live, before, {})
    ensures live == Models(before.retired) + Models(before.bundle)
  {
    var all := Models(before.retired) + Models(before.bundle);
    forall name: Name ensures In(live, name) == In(all, name) {}
    forall name: Name ensures name in live <==> name in all
      ensures name in all ==> live[name] == all[name]
    {
      assert In(live, name) == In(all, name);
      assert name in live ==> live[name] in In(live, name);
      assert name in all ==> all[name] in In(all, name);
    }
  }

  /** What a removal cut short leaves of the entries. */
  function Remainder(models: map<Name, Entry>, keep: set<(Name, Path)>, names: set<Name>): (r: map<Name, Entry>)
    ensures r.Keys <= models.Keys && forall f: File :: FileIn(r, f) ==> FileIn(models, f)
  {
    map name | name in models && name in names ::
      map path | path in models[name] && (name, path) in keep :: models[name][path]
  }

  // ---- the filesystem -----------------------------------------------------------------

  /** What happens to one primitive. Partly is for the removal of a tree: what of it stays,
      and whether the process died. */
  datatype Outcome =
    | Ok
    | Fail
    | Crash
    | Partly(keep: set<(Name, Path)>, names: set<Name>, models: bool, runtime: set<Name>, crash: bool)

  datatype Stat = Exists | Missing | Unknown

  class Disk {
    var d: Trees
    var crashed: bool
    var plan: seq<Outcome>

    constructor (d: Trees, plan: seq<Outcome>)
      ensures this.d == d && !crashed && this.plan == plan
    {
      this.d, crashed, this.plan := d, false, plan;
    }

    /** Nothing goes wrong from here on. */
    predicate Quiet()
      reads this
    {
      !crashed && forall k :: 0 <= k < |plan| ==> plan[k] == Ok
    }

    /** The fate of the next primitive; a dead process performs none. */
    method Draw() returns (o: Outcome)
      modifies this`crashed, this`plan
      ensures old(Quiet()) ==> o == Ok && Quiet()
      ensures old(crashed) ==> o == Crash && crashed
    {
      o := if crashed then Crash else if plan == [] then Ok else plan[0];
      plan := if crashed || plan == [] then plan else plan[1..];
      crashed := crashed || o == Crash || (o.Partly? && o.crash);
    }

    method StatTree(tree: Option<Tree>) returns (r: Stat)
      modifies this`crashed, this`plan
      ensures r == Exists ==> tree.Some?
      ensures r == Missing ==> tree.None?
      ensures old(Quiet()) ==> r != Unknown && Quiet()
    {
      var o := Draw();
      r := if o != Ok then Unknown else if tree.Some? then Exists else Missing;
    }

    /** Rename of the live directory over the retired one, which must not hold anything. */
    method RenameBundleToOld() returns (ok: bool)
      modifies this
      ensures ok ==> old(d.bundle).Some? && Empty(old(d.retired)) && d == Trees(None, old(d.bundle))
      ensures !ok ==> d == old(d)
      ensures old(Quiet()) ==> ok == (old(d.bundle).Some? && Empty(old(d.retired))) && Quiet()
    {
      var o := Draw();
      ok := o == Ok && d.bundle.Some? && Empty(d.retired);
      if ok { d := Trees(None, d.bundle); }
    }

    method RenameOldToBundle() returns (ok: bool)
      modifies this
      ensures ok ==> old(d.retired).Some? && Empty(old(d.bundle)) && d == Trees(old(d.retired), None)
      ensures !ok ==> d == old(d)
      ensures old(Quiet()) ==> ok == (old(d.retired).Some? && Empty(old(d.bundle))) && Quiet()
    {
      var o := Draw();
      ok := o == Ok && d.retired.Some? && Empty(d.bundle);
      if ok { d := Trees(d.retired, None); }
    }

    method RenameStageToBundle(stage: Tree) returns (ok: bool)
      modifies this
      ensures ok ==> Empty(old(d.bundle)) && d == Trees(Some(stage), old(d.retired))
      ensures !ok ==> d == old(d)
      ensures old(Quiet()) ==> ok == Empty(old(d.bundle)) && Quiet()
    {
      var o := Draw();
      ok := o == Ok && Empty(d.bundle);
      if ok { d := Trees(Some(stage), d.retired); }
    }

    /** MkdirAll of bundle/models, which makes the bundle directory too. */
    method MakeModels() returns (ok: bool)
      modifies this
      ensures Advanced(old(d), d) && d.retired == old(d.retired)
      ensures Models(d.bundle) == Models(old(d.bundle)) && Runtime(d.bundle) == Runtime(old(d.bundle))
      ensures ok ==> d.bundle.Some? && d.bundle.value.models.Some?
      ensures old(Quiet()) ==> ok && Quiet()
    {
      var o := Draw();
      ok := o == Ok;
      if ok {
        var runtime := if d.bundle.Some? then d.bundle.value.runtime else {};
        d := Trees(Some(Tree(runtime, Some(Models(d.bundle)))), d.retired);
      }
    }

    /** Rename of one retired models entry into the live models directory. */
    method RenameEntry(name: Name) returns (ok: bool)
      requires name in Models(d.retired) && d.bundle.Some?
      modifies this
      ensures d == if ok then Carried(old(d), name) else old(d)
      ensures ok ==> Carries(old(d), name)
      ensures old(Quiet()) ==> ok == Carries(old(d), name) && Quiet()
    {
      var o := Draw();
      ok := o == Ok && Carries(d, name);
      if ok { d := Carried(d, name); }
    }

    /** removeTreeQuietly of the retired directory, called only when the live one holds
        every name that is left in it. */
    method RemoveOld()
      requires Models(d.retired).Keys <= Models(d.bundle).Keys
      modifies this
      ensures d.bundle == old(d.bundle) && PartOf(d.retired, old(d.retired))
      ensures old(Quiet()) ==> d.retired == None && Quiet()
    {
      var o := Draw();
      match o
      case Ok => d := Trees(d.bundle, None);
      case Partly(keep, names, models, runtime, _) =>
        if d.retired.Some? {
          var left := Remainder(Models(d.retired), keep, names);
          d := Trees(d.bundle, Some(Tree(d.retired.value.runtime * runtime,
                                         if models && d.retired.value.models.Some? then Some(left) else None)));
        }
      case _ =>
    }

    // ---- the installer ----------------------------------------------------------------

    /** One turn of the loop of carryModels. */
    method CarryEntry(name: Name) returns (ok: bool)
      requires name in Models(d.retired)
      modifies this
      ensures Advanced(old(d), d)
      ensures ok ==> name in Models(d.bundle)
      ensures Models(old(d.retired)).Keys - {name} <= Models(d.retired).Keys
      ensures forall n :: n in Models(old(d.retired)) && n != name ==>
                n in Models(d.retired) && Models(d.retired)[n] == Models(old(d.retired))[n]
      ensures old(Quiet()) ==>
                && ok && Quiet()
                && Models(d.bundle) == if name in Models(old(d.bundle)) then Models(old(d.bundle))
                                       else Models(old(d.bundle))[name := Models(old(d.retired))[name]]
    {
      var looked := Draw();
      if looked == Ok && name in Models(d.bundle) { return true; }
      ok := MakeModels();
      if !ok { return; }
      ghost var before := d;
      ok := RenameEntry(name);
      if ok {
        CarryAdvances(before, name);
        AdvancedTrans(old(d), before, d);
      }
    }

    /** The loop of carryModels over the listed names, in any order. */
    method CarryListed(names: set<Name>) returns (ok: bool)
      requires names == Models(d.retired).Keys
      modifies this
      ensures Advanced(old(d), d)
      ensures ok ==> names <= Models(d.bundle).Keys
      ensures old(Quiet()) ==> ok && Quiet() && Merged(Models(d.bundle), old(d), {})
    {
      hide *;
      AdvancedRefl(d);
      NothingMerged(d);
      CarryingStarts(d);
      ghost var first := d;
      var todo := names;
      while todo != {}
        invariant Carrying(first, d, names, todo)
        invariant old(Quiet()) ==> Quiet() && Merged(Models(d.bundle), first, todo)
        decreases |todo|
      {
        var name :| name in todo;
        ghost var before := d;
        CarryingMeans(first, d, names, todo);
        ok := CarryEntry(name);
        AdvancedTrans(first, before, d);
        if !ok { return; }
        CarryingNext(first, before, d, names, todo, name);
        if old(Quiet()) { MergedNext(Models(before.bundle), Models(d.bundle), first, todo - {name}, name); }
        todo := todo - {name};
      }
      CarryingMeans(first, d, names, todo);
      return true;
    }

    /** carryModels: every entry of the retired models directory that the live one lacks is
        moved over. */
    method CarryModels() returns (ok: bool)
      modifies this
      ensures Advanced(old(d), d)
      ensures ok ==> Models(old(d.retired)).Keys <= Models(d.bundle).Keys
      ensures old(Quiet()) ==>
                ok && Quiet() && Models(d.bundle) == Models(old(d.retired)) + Models(old(d.bundle))
    {
      AdvancedRefl(d);
      hide Advanced, Merged;
      var rooted := Draw();
      if rooted != Ok { return false; }
      if d.retired.None? || d.retired.value.models.None? {
        assert Models(d.retired) + Models(d.bundle) == Models(d.bundle);
        return true;
      }
      var listed := Draw();
      if listed != Ok { return false; }
      ok := CarryListed(Models(d.retired).Keys);
      if old(Quiet()) { MergedAll(Models(d.bundle), old(d)); }
    }

    /** recoverBundle, at the start of every locked operation. */
    method RecoverBundle()
      modifies this
      ensures Kept(old(d), d, {}) && Models(d.retired).Keys <= Models(old(d.retired)).Keys
      ensures old(Covered(d)) ==> PathsKept(old(d), d) && Covered(d)
      ensures old(d.bundle).Some? ==> d.bundle.Some? && d.bundle.value.runtime == old(d.bundle).value.runtime
      ensures old(Quiet()) ==>
                && Quiet() && d.retired == None
                && (old(d.retired) == None ==> d == old(d))
                && (old(d.retired).Some? && old(d.bundle) == None ==> d.bundle == old(d.retired))
                && Models(d.bundle) == Models(old(d.retired)) + Models(old(d.bundle))
                && (PathsKept(old(d), d) <==> old(Covered(d)))
    {
      var retired := StatTree(d.retired);
      if retired == Missing { return; }
      var live := StatTree(d.bundle);
      if live == Missing {
        var restored := RenameOldToBundle();
        return;
      }
      var ok := CarryModels();
      if !ok { return; }
      ghost var carried := d;
      RemoveOld();
      RemoveKept(carried, d.retired);
      KeptTrans(old(d), carried, d, {}, {});
      if old(Quiet()) { MergeKeepsIff(old(d), d); }
    }

    /** swapBundle: retire the live bundle, publish the staged one, carry the models over and
        drop the retired one. Whatever fails, and wherever the process dies, no models entry
        is lost; success means that the live bundle is the staged runtime with every name. */
    method SwapBundle(stage: Tree) returns (ok: bool)
      modifies this
      ensures Kept(old(d), d, StagedIn(stage))
      ensures ok ==> d.bundle.Some? && d.bundle.value.runtime == stage.runtime
      ensures ok ==> Names(old(d)) + Models(Some(stage)).Keys <= Models(d.bundle).Keys
      ensures old(Covered(d)) && StageCovers(stage, old(d)) ==> PathsKept(old(d), d) && Covered(d)
      ensures old(Quiet()) ==>
                && Quiet() && ok == (old(d.bundle).None? || Empty(old(d.retired)))
                && (ok ==> && d.retired == None
                           && Models(d.bundle) == Models(old(d.retired)) + Models(old(d.bundle)) + Models(Some(stage))
                           && (PathsKept(old(d), d) <==> StageCovers(stage, old(d))))
    {
      ghost var before := d;
      KeptRefl(before);
      if before.bundle.Some? && Empty(before.retired) { RetireKept(before); }
      hide Kept, PathsKept, Covered, StageCovers, Advanced, PartOf, StagedIn;
      var live := StatTree(d.bundle);
      if live == Exists {
        ok := RenameBundleToOld();
        if !ok { return; }
      }
      ghost var retired := d;
      ok := RenameStageToBundle(stage);
      if !ok { return; }
      ghost var published := d;
      PublishKept(retired, stage);
      ok := CarryModels();
      ghost var carried := d;
      SwapKept(before, retired, published, carried, stage);
      if !ok { return; }
      AdvancedNames(published, carried);
      RemoveOld();
      SwapDone(before, carried, d.retired, stage);
      if old(Quiet()) { SwapKeepsIff(before, d, stage); }
    }

    /** One turn of the loop of publishPackFiles: the file's directory is made, with its
        entry, and the file renamed into it. */
    method PublishFile(f: File, ghost files: seq<File>) returns (ok: bool)
      requires f in files
      modifies this
      ensures Grown(old(d), d, files)
      ensures ok ==> Models(d.bundle) == Put(Models(old(d.bundle)), f)
      ensures ok ==> FileIn(Models(d.bundle), f) && forall g: File :: !SamePlace(f, g) ==>
                (FileIn(Models(d.bundle), g) <==> FileIn(Models(old(d.bundle)), g))
      ensures ok ==> Models(d.bundle).Keys == Models(old(d.bundle)).Keys + {f.name}
      ensures ok && f.path == [] && f.name in Models(old(d.bundle)) ==> [] in Models(old(d.bundle))[f.name]
      ensures old(Quiet()) ==> ok == Fits(Models(old(d.bundle)), f) && Quiet()
    {
      hide Fits, Put, Grown, Advanced, Models, WithModels;
      ghost var first := d;
      ok := MakeModels();
      MadeGrows(first, d, files);
      if !ok { return; }
      ghost var made := d;
      if f.path != [] && f.name !in Models(d.bundle) {
        var o := Draw();
        if o != Ok { return false; }
        DirGrows(made, f, files);
        d := WithModels(d, Models(d.bundle)[f.name := map[]]);
        GrownTrans(first, made, d, files);
      }
      ghost var there := d;
      var o := Draw();
      ok := o == Ok && Fits(Models(d.bundle), f);
      if ok {
        PutGrows(there, f, files);
        PutMeans(Models(first.bundle), f);
        if f.path == [] && f.name in Models(there.bundle) { FitsMeans(Models(there.bundle), f); }
        d := WithModels(d, Put(Models(d.bundle), f));
        GrownTrans(first, there, d, files);
      }
    }

    /** publishPackFiles. It stops at the first file that fails. */
    method PublishPack(files: seq<File>) returns (ok: bool)
      modifies this
      ensures Kept(old(d), d, All(files)) && PathsKept(old(d), d)
      ensures d.retired == old(d.retired) && Runtime(d.bundle) == Runtime(old(d.bundle))
      ensures old(Covered(d)) && Apart(old(d), files) ==> Covered(d)
      ensures Laid(Models(old(d.bundle))) ==> Laid(Models(d.bundle))
      ensures ok ==> Models(d.bundle) == Published(Models(old(d.bundle)), files)
      ensures ok ==> forall f: File :: FileIn(Models(d.bundle), f) <==>
                Lands(files, f) || (FileIn(Models(old(d.bundle)), f) && !Touched(files, f))
      ensures ok ==> Models(d.bundle).Keys == Models(old(d.bundle)).Keys + set f | f in files :: f.name
      ensures old(Quiet()) ==> Quiet() && ok == AllFit(Models(old(d.bundle)), files)
      ensures old(Quiet()) && Room(Models(old(d.bundle)), files) ==> ok
    {
      GrownRefl(d, files);
      GrownMeans(d, d, files);
      hide *;
      ghost var first := d;
      NoneLanded(first, files);
      if Room(Models(first.bundle), files) { RoomIsEnough(Models(first.bundle), files); }
      for k := 0 to |files|
        invariant Landed(first, d, files, k)
        invariant old(Quiet()) ==> Quiet() && Fit(Models(first.bundle), files, k)
      {
        ghost var before := d;
        ok := PublishFile(files[k], files);
        NextLanded(first, before, d, files, k);
        if !ok {
          GrownMeans(first, d, files);
          return;
        }
      }
      AllLanded(first, d, files);
      PublishedMeans(Models(first.bundle), files);
      GrownMeans(first, d, files);
      ok := true;
    }

    /** A pack installed while the retired tree is still there, as after a recovery that
        failed, and then a recovery: no file is lost exactly when the live entries cover the
        retired ones once its files are in. */
    method PackThenHeal(files: seq<File>)
      requires Quiet() && d.bundle.Some? && AllFit(Models(d.bundle), files)
      modifies this
      ensures d.retired == None && Models(d.bundle) == Models(old(d.retired)) + Published(Models(old(d.bundle)), files)
      ensures PathsKept(old(d), d) <==> Covered(WithModels(old(d), Published(Models(old(d.bundle)), files)))
    {
      ghost var before := d;
      var ok := PublishPack(files);
      ghost var packed := d;
      RecoverBundle();
      PackThenMerge(before, packed, d);
    }

    /** Any number of locked operations, each in a process that may die at any primitive,
        each recovering first: what the first one found is still there. trail lists the trees
        that each operation found and the last one left. */
    method Lifetime(ops: seq<Op>) returns (ghost trail: seq<Trees>)
      modifies this
      ensures Kept(old(d), d, StagedBy(ops))
      ensures Names(old(d)) <= Names(d)
      ensures Trail(trail, ops) && trail[0] == old(d) && trail[|ops|] == d
      ensures old(Covered(d)) && Meek(ops, trail, |ops|, old(Quiet())) ==> PathsKept(old(d), d)
    {
      hide Covered, PathsKept, Kept, Quiet, Trail, Meek;
      KeptRefl(d);
      trail := [d];
      TrailStarts(d, ops);
      for k := 0 to |ops|
        invariant Kept(old(d), d, StagedBy(ops[..k]))
        invariant old(Quiet()) ==> Quiet()
        invariant |trail| == k + 1 && trail[0] == old(d) && trail[k] == d && Trail(trail, ops[..k])
        invariant old(Covered(d)) && Meek(ops, trail, k, old(Quiet())) ==> PathsKept(old(d), d) && Covered(d)
      {
        ghost var before, so := d, trail;
        Operate(ops[k]);
        trail := trail + [d];
        TrailNext(so, ops, k, d, old(Quiet()));
        assert ops[..k + 1][..k] == ops[..k];
        KeptTrans(old(d), before, d, StagedBy(ops[..k]), Staged(ops[k]));
        if PathsKept(old(d), before) && PathsKept(before, d) { PathsKeptTrans(old(d), before, d); }
      }
      assert ops[..|ops|] == ops;
      TrailMeans(trail, ops);
      KeptMeansNames(old(d), d, StagedBy(ops));
    }

    /** One of them. */
    method Operate(op: Op)
      modifies this
      ensures Kept(old(d), d, Staged(op))
      ensures old(Quiet()) ==> Quiet()
      ensures old(Covered(d)) && Modest(op, old(d), old(Quiet())) ==> PathsKept(old(d), d) && Covered(d)
    {
      ghost var before := d;
      crashed := false;
      RecoverBundle();
      ghost var recovered := d;
      ModestStays(op, before, recovered, old(Quiet()));
      hide Kept, PathsKept, Covered, StageCovers, Apart, StagedIn, All;
      match op {
        case Heal => KeptRefl(d);
        case Upgrade(stage) => var ok := SwapBundle(stage);
        case InstallPack(files) => var ok := PublishPack(files);
      }
      KeptTrans(before, recovered, d, {}, Staged(op));
      assert {} + Staged(op) == Staged(op);
      if PathsKept(before, recovered) && PathsKept(recovered, d) { PathsKeptTrans(before, recovered, d); }
    }
  }

  /** The retired tree still has the first of two voices, which share the entry tts. */
  const LEFT_BEHIND := Trees(Some(Tree({}, None)), Some(Tree({}, Some(map["tts" := map[["a.onnx"] := 1]]))))

  const SECOND_VOICE := File("tts", ["b.onnx"], 2)

  /** A pack brings the second voice: the next recovery takes the entry for carried and drops
      the first. */
  method LostVoice(disk: Disk)
    requires disk.Quiet() && disk.d == LEFT_BEHIND
    modifies disk
    ensures disk.d.retired == None && Models(disk.d.bundle) == map["tts" := map[["b.onnx"] := 2]]
    ensures HasPath(old(disk.d), "tts", ["a.onnx"]) && !HasPath(disk.d, "tts", ["a.onnx"])
  {
    OneFile(SECOND_VOICE);
    disk.PackThenHeal([SECOND_VOICE]);
  }

  /** As the condition says: with the second voice in, the live entry does not cover the retired one. */
  lemma VoiceIsNotCovered()
    ensures Covered(LEFT_BEHIND) && AllFit(Models(LEFT_BEHIND.bundle), [SECOND_VOICE])
    ensures !Apart(LEFT_BEHIND, [SECOND_VOICE])
    ensures !Covered(WithModels(LEFT_BEHIND, Published(Models(LEFT_BEHIND.bundle), [SECOND_VOICE])))
  {
    OneFile(SECOND_VOICE);
    var packed := WithModels(LEFT_BEHIND, Published(Models(LEFT_BEHIND.bundle), [SECOND_VOICE]));
    assert Models(packed.bundle) == map["tts" := map[["b.onnx"] := 2]];
    assert Holds(Models(packed.retired), "tts", ["a.onnx"]) && !Holds(Models(packed.bundle), "tts", ["a.onnx"]);
    assert SECOND_VOICE in [SECOND_VOICE] && "tts" in Models(LEFT_BEHIND.retired);
  }

  lemma OneFile(f: File)
    ensures Published(map[], [f]) == map[f.name := map[f.path := f.content]] && AllFit(map[], [f])
  {
    var none: map<Name, Entry> := map[];
    assert [f][..0] == [];
    assert Published(none, [f][..0]) == none;
    assert Put(none, f) == map[f.name := map[f.path := f.content]];
  }
}
