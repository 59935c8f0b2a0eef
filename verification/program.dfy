/** The start of a session (`main`, gopher-tidy.go:15-42, and the search
    roots of `findAssociatedFiles`, gopher-tidy.go:45-66): read the
    application name, refuse a blank one, resolve the home directory,
    search, and hand a non-empty list to the menu. */
module Program {
  import opened Common
  import opened Text
  import opened Paths
  import opened Locator

  /** The directories under `~/Library` that are searched. */
  const UserDirs: seq<string> :=
    ["Application Support", "Caches", "Preferences", "Logs", "Saved Application State"]

  /** The per-user directories searched, under `home`
      (gopher-tidy.go:57-61). */
  function UserRoots(home: string): (roots: seq<string>)
    ensures |roots| == |UserDirs|
    ensures forall k :: 0 <= k < |roots| ==> roots[k] == home + "/Library/" + UserDirs[k]
  {
    seq(|UserDirs|, k requires 0 <= k < |UserDirs| => UserRoot(home, UserDirs[k]))
  }

  function UserRoot(home: string, dir: string): (r: string)
    ensures r == home + "/Library/" + dir
  {
    JoinPair(home, "Library", dir);
    Join(home, ["Library", dir])
  }

  /** The system-wide directories searched (gopher-tidy.go:62-65). */
  const SystemRoots: seq<string> :=
    [ "/Library/Application Support",
      "/Library/Caches",
      "/Library/LaunchAgents",
      "/Library/LaunchDaemons" ]

  /** Every directory searched, per-user ones first (gopher-tidy.go:56-66). */
  function DefaultRoots(home: string): (roots: seq<string>)
    ensures |roots| == 9
    ensures forall root :: root in roots <==> root in UserRoots(home) || root in SystemRoots
  {
    UserRoots(home) + SystemRoots
  }

  /** How the start of a session ends: the name was blank, the current
      user could not be resolved, nothing was found, or a list of paths
      goes on to the menu. Warnings are the roots whose walk stopped. */
  datatype Startup =
    | EmptyName
    | NoCurrentUser
    | NothingFound(warnings: seq<Warning>)
    | Listed(files: seq<string>, warnings: seq<Warning>)

  /** The name line as typed, the home directory if the current user could
      be resolved, and the walks the file system would produce. */
  function Start(nameLine: string, home: Option<string>, fs: FileSystem): (r: Startup)
    ensures r.EmptyName? <==> AllSpace(nameLine)
    ensures r.NoCurrentUser? <==> !AllSpace(nameLine) && home.None?
    ensures r.NothingFound? ==>
      forall p :: !FoundUnder(DefaultRoots(home.value), fs, Keyword(TrimSpace(nameLine)), p)
    ensures r.Listed? ==> r.files != [] && NoDup(r.files)
    ensures r.Listed? ==>
      forall p :: p in r.files <==> FoundUnder(DefaultRoots(home.value), fs, Keyword(TrimSpace(nameLine)), p)
    ensures r.NothingFound? || r.Listed? ==>
      forall w :: w in r.warnings ==> w.root in DefaultRoots(home.value) && StoppedWith(WalkOf(fs, w.root), w.err)
  {
    TrimSpaceSpec(nameLine);
    var name := TrimSpace(nameLine);
    if name == [] then EmptyName
    else
      match home
      case None => NoCurrentUser
      case Some(h) =>
        var scan := FindAssociated(name, DefaultRoots(h), fs);
        if scan.found == [] then NothingFound(scan.warnings)
        else Listed(scan.found, scan.warnings)
  }

  // ------------------------------------------------------------------ lemmas

  /** With a well-formed home directory every search root is well formed. */
  lemma DefaultRootsWellFormed(home: string)
    requires WellFormedRoot(home)
    ensures forall root :: root in DefaultRoots(home) ==> WellFormedRoot(root)
  {
    UserRootsWellFormed(home);
    SystemRootsWellFormed();
  }

  lemma UserRootsWellFormed(home: string)
    requires WellFormedRoot(home)
    ensures forall root :: root in UserRoots(home) ==> WellFormedRoot(root)
  {
    UserDirsAreComponents();
    forall k | 0 <= k < |UserDirs|
      ensures WellFormedRoot(UserRoots(home)[k])
    {
      JoinWellFormed(home, ["Library", UserDirs[k]]);
    }
  }

  lemma UserDirsAreComponents()
    ensures forall k :: 0 <= k < |UserDirs| ==> Component(UserDirs[k])
  {
  }

  lemma SystemRootsWellFormed()
    ensures forall root :: root in SystemRoots ==> WellFormedRoot(root)
  {
  }

  /** The blank-name guard (gopher-tidy.go:23-26) means the search never
      runs with an empty keyword, which every name would contain. */
  lemma SearchKeywordNonEmpty(nameLine: string)
    requires !AllSpace(nameLine)
    ensures Keyword(TrimSpace(nameLine)) != []
  {
    TrimSpaceSpec(nameLine);
    NonBlankKeyword(nameLine);
  }

  /** What the menu is offered, in the tool's terms: `root/c` for every
      search root and every direct child `c` its walk reached whose
      normalised name contains the keyword. */
  lemma ListedAreMatchingChildren(nameLine: string, home: string, fs: FileSystem, p: string)
    requires WellFormedRoot(home)
    requires forall root :: root in fs ==> WellFormedWalk(fs[root])
    requires Start(nameLine, Some(home), fs).Listed?
    ensures p in Start(nameLine, Some(home), fs).files <==>
      exists root, c ::
        && root in DefaultRoots(home)
        && Visit([c]) in Reached(WalkOf(fs, root))
        && p == root + "/" + c
        && Contains(Normalize(c), Keyword(TrimSpace(nameLine)))
  {
    var roots := DefaultRoots(home);
    DefaultRootsWellFormed(home);
    FoundUnderIff(roots, fs, Keyword(TrimSpace(nameLine)), p);
  }
}
