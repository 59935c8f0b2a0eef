/** The search for an application's leftovers (`findAssociatedFiles`,
    gopher-tidy.go:45-106).

    The directory traversal itself is not modelled: each search root comes
    with the sequence of callback invocations `filepath.WalkDir` would make
    for it. What is modelled is what the callback and the loop around it do
    with those invocations. */
module Locator {
  import opened Common
  import opened Text
  import opened Paths
  import opened Fs

  /** One invocation of the walk callback: an entry the walk reached, or an
      error it reported for an entry. An entry is named by its components
      below the root; the root itself has none. */
  datatype WalkEvent =
    | Visit(rel: seq<string>)
    | Fail(rel: seq<string>, err: FsError)

  /** For each existing search root, the callback invocations of its walk
      in walk order. */
  type FileSystem = map<string, seq<WalkEvent>>

  /** A root whose walk stopped on an error. */
  datatype Warning = Warning(root: string, err: FsError)

  datatype Scan = Scan(found: seq<string>, warnings: seq<Warning>)

  /** The walk of `root`; a root that does not exist makes the walk report
      that at the root itself. */
  function WalkOf(fs: FileSystem, root: string): seq<WalkEvent> {
    if root in fs then fs[root] else [Fail([], NotFound("no such file or directory"))]
  }

  /** An error the callback does not swallow: it ends the walk of its root. */
  predicate Fatal(e: WalkEvent) {
    e.Fail? && !e.err.Permission?
  }

  predicate Aborts(events: seq<WalkEvent>) {
    exists e :: e in events && Fatal(e)
  }

  /** The invocations that happen: everything before the first fatal error. */
  function Reached(events: seq<WalkEvent>): (r: seq<WalkEvent>)
    ensures |r| <= |events| && r == events[..|r|]
    ensures forall e :: e in r ==> !Fatal(e)
    ensures |r| < |events| ==> Fatal(events[|r|])
  {
    if events == [] then []
    else if Fatal(events[0]) then []
    else [events[0]] + Reached(events[1..])
  }

  /** The walk was cut off by `err`: the first invocation that did not
      happen reported it. */
  predicate StoppedWith(events: seq<WalkEvent>, err: FsError) {
    |Reached(events)| < |events| && events[|Reached(events)|].err == err
  }

  /** The search keyword for an application name (gopher-tidy.go:71). */
  function Keyword(appName: string): string {
    Normalize(appName)
  }

  /** The test the callback applies to a reached path (gopher-tidy.go:86-88). */
  predicate Accepts(root: string, path: string, keyword: string) {
    Dir(path) == root && Contains(Normalize(Base(path)), keyword)
  }

  /** The paths one root contributes: every reached entry that passes the
      test. */
  function Matches(root: string, events: seq<WalkEvent>, keyword: string): set<string> {
    set e | e in Reached(events) && e.Visit? && Accepts(root, Join(root, e.rel), keyword) :: Join(root, e.rel)
  }

  /** Adding a key to the set of unique paths, kept in first-seen order. */
  function Insert(seen: seq<string>, p: string): (r: seq<string>)
    ensures Elems(r) == Elems(seen) + {p}
    ensures NoDup(seen) ==> NoDup(r)
  {
    if p in seen then seen else seen + [p]
  }

  datatype RootWalk = RootWalk(seen: seq<string>, abort: Option<FsError>)

  lemma MatchesStep(root: string, events: seq<WalkEvent>, keyword: string)
    requires events != []
    ensures Fatal(events[0]) ==> Matches(root, events, keyword) == {}
    ensures !Fatal(events[0]) ==>
      Matches(root, events, keyword) ==
        Matches(root, events[1..], keyword) +
        (if events[0].Visit? && Accepts(root, Join(root, events[0].rel), keyword)
         then {Join(root, events[0].rel)} else {})
  {
    if !Fatal(events[0]) {
      assert Reached(events) == [events[0]] + Reached(events[1..]);
    }
  }

  /** A walk that did not stop at its first event stops where the rest
      of it stops. */
  lemma ReachedStep(events: seq<WalkEvent>)
    requires events != [] && !Fatal(events[0])
    ensures forall err :: StoppedWith(events[1..], err) ==> StoppedWith(events, err)
  {
    assert Reached(events) == [events[0]] + Reached(events[1..]);
  }

  /** The callback applied to one root's walk (gopher-tidy.go:75-94): paths
      that pass the test join `seen`, permission errors are swallowed, and
      any other error ends the walk and is handed back. */
  function WalkRoot(root: string, keyword: string, events: seq<WalkEvent>, seen: seq<string>): (r: RootWalk)
    ensures Elems(r.seen) == Elems(seen) + Matches(root, events, keyword)
    ensures NoDup(seen) ==> NoDup(r.seen)
    ensures r.abort.Some? <==> Aborts(events)
    ensures r.abort.Some? ==> !r.abort.value.Permission? && StoppedWith(events, r.abort.value)
    decreases |events|
  {
    if events == [] then RootWalk(seen, None)
    else
      MatchesStep(root, events, keyword);
      assert Aborts(events) <==> Fatal(events[0]) || Aborts(events[1..]) by {
        assert forall e :: e in events <==> e == events[0] || e in events[1..];
      }
      match events[0]
      case Fail(_, err) =>
        if err.Permission? then
          ReachedStep(events);
          WalkRoot(root, keyword, events[1..], seen)
        else RootWalk(seen, Some(err))
      case Visit(rel) =>
        ReachedStep(events);
        var p := Join(root, rel);
        var seen' := if Accepts(root, p, keyword) then Insert(seen, p) else seen;
        WalkRoot(root, keyword, events[1..], seen')
  }

  /** Some root of `roots` contributes `p`. */
  predicate FoundUnder(roots: seq<string>, fs: FileSystem, keyword: string, p: string) {
    exists root :: root in roots && p in Matches(root, WalkOf(fs, root), keyword)
  }

  /** Some warning is about `root`. */
  predicate Warned(warnings: seq<Warning>, root: string) {
    exists w :: w in warnings && w.root == root
  }

  lemma FoundUnderStep(roots: seq<string>, fs: FileSystem, keyword: string)
    requires roots != []
    ensures forall p :: FoundUnder(roots, fs, keyword, p) <==>
      p in Matches(roots[0], WalkOf(fs, roots[0]), keyword) || FoundUnder(roots[1..], fs, keyword, p)
  {
    assert forall x :: x in roots <==> x == roots[0] || x in roots[1..] by {
      assert roots == [roots[0]] + roots[1..];
    }
  }

  lemma WarnedAppend(warnings: seq<Warning>, w: Warning)
    ensures Warned(warnings + [w], w.root)
    ensures forall root :: Warned(warnings, root) ==> Warned(warnings + [w], root)
    ensures forall x :: x in warnings + [w] <==> x in warnings || x == w
  {
    assert (warnings + [w])[|warnings|] == w;
  }

  /** The loop over the search roots (gopher-tidy.go:73-99). */
  function SearchFrom(roots: seq<string>, fs: FileSystem, keyword: string,
                      seen: seq<string>, warnings: seq<Warning>): (r: Scan)
    ensures forall p :: p in r.found <==> p in seen || FoundUnder(roots, fs, keyword, p)
    ensures NoDup(seen) ==> NoDup(r.found)
    ensures forall w :: w in r.warnings ==> w in warnings || (w.root in roots && !w.err.Permission?)
    ensures forall w :: w in r.warnings ==>
      w in warnings || (w.root in roots && StoppedWith(WalkOf(fs, w.root), w.err))
    ensures forall root :: root in roots && Aborts(WalkOf(fs, root)) ==> Warned(r.warnings, root)
    ensures forall root :: Warned(warnings, root) ==> Warned(r.warnings, root)
    decreases |roots|
  {
    if roots == [] then Scan(seen, warnings)
    else
      var root := roots[0];
      var walk := WalkRoot(root, keyword, WalkOf(fs, root), seen);
      FoundUnderStep(roots, fs, keyword);
      assert forall x :: x in roots <==> x == root || x in roots[1..] by {
        assert roots == [root] + roots[1..];
      }
      var warnings' := if walk.abort.Some? then warnings + [Warning(root, walk.abort.value)] else warnings;
      var r := SearchFrom(roots[1..], fs, keyword, walk.seen, warnings');
      assert forall p :: p in r.found <==> p in seen || FoundUnder(roots, fs, keyword, p) by {
        forall p
          ensures p in r.found <==> p in seen || FoundUnder(roots, fs, keyword, p)
        {
          assert p in walk.seen <==> p in Elems(walk.seen);
          assert p in seen <==> p in Elems(seen);
        }
      }
      if walk.abort.Some? then
        WarnedAppend(warnings, Warning(root, walk.abort.value));
        r
      else
        r
  }

  /** `findAssociatedFiles` once the home directory is known: every root
      is searched, each found path is listed once, and the roots whose walk
      stopped on an error other than a permission error are reported. */
  function FindAssociated(appName: string, roots: seq<string>, fs: FileSystem): (r: Scan)
    ensures NoDup(r.found)
    ensures forall p :: p in r.found <==> FoundUnder(roots, fs, Keyword(appName), p)
    ensures forall w :: w in r.warnings ==> w.root in roots && !w.err.Permission?
    ensures forall w :: w in r.warnings ==> StoppedWith(WalkOf(fs, w.root), w.err)
    ensures forall root :: root in roots && Aborts(WalkOf(fs, root)) ==> Warned(r.warnings, root)
  {
    SearchFrom(roots, fs, Keyword(appName), [], [])
  }

  // ------------------------------------------------------------------ lemmas

  /** Every component of every reached entry is a proper path component. */
  predicate WellFormedWalk(events: seq<WalkEvent>) {
    forall e :: e in events ==> AllComponents(e.rel)
  }

  /** Only direct children of the root are ever accepted: the root itself
      and entries two or more levels down fail the parent test whatever
      their name. */
  lemma OnlyDirectChildren(root: string, rel: seq<string>, keyword: string)
    requires WellFormedRoot(root) && AllComponents(rel)
    ensures Accepts(root, Join(root, rel), keyword) <==>
      |rel| == 1 && Contains(Normalize(rel[0]), keyword)
  {
    DirOfJoin(root, rel);
  }

  /** What a root contributes, in the tool's terms: `root/c` for each
      reached direct child `c` whose normalised name contains the keyword. */
  lemma MatchesAreMatchingChildren(root: string, events: seq<WalkEvent>, keyword: string, p: string)
    requires WellFormedRoot(root) && WellFormedWalk(events)
    ensures p in Matches(root, events, keyword) <==>
      exists c :: Visit([c]) in Reached(events) && p == root + "/" + c && Contains(Normalize(c), keyword)
  {
    if p in Matches(root, events, keyword) {
      MatchIsMatchingChild(root, events, keyword, p);
    }
    if c :| Visit([c]) in Reached(events) && p == root + "/" + c && Contains(Normalize(c), keyword) {
      MatchingChildMatches(root, events, keyword, c);
    }
  }

  lemma MatchIsMatchingChild(root: string, events: seq<WalkEvent>, keyword: string, p: string)
    requires WellFormedRoot(root) && WellFormedWalk(events)
    requires p in Matches(root, events, keyword)
    ensures exists c :: Visit([c]) in Reached(events) && p == root + "/" + c && Contains(Normalize(c), keyword)
  {
    var e :| e in Reached(events) && e.Visit? && Accepts(root, Join(root, e.rel), keyword) && p == Join(root, e.rel);
    assert e in events;
    OnlyDirectChildren(root, e.rel, keyword);
    DirOfJoin(root, e.rel);
    assert e == Visit([e.rel[0]]);
  }

  lemma MatchingChildMatches(root: string, events: seq<WalkEvent>, keyword: string, c: string)
    requires WellFormedRoot(root) && WellFormedWalk(events)
    requires Visit([c]) in Reached(events) && Contains(Normalize(c), keyword)
    ensures root + "/" + c in Matches(root, events, keyword)
  {
    var e := Visit([c]);
    assert e in events;
    assert AllComponents(e.rel);
    OnlyDirectChildren(root, e.rel, keyword);
    DirOfJoin(root, e.rel);
  }

  /** A path is found under a list of well-formed roots exactly when it
      is `root/c` for one of the roots and a reached direct child `c` whose
      normalised name contains the keyword. */
  lemma FoundUnderIff(roots: seq<string>, fs: FileSystem, keyword: string, p: string)
    requires forall root :: root in roots ==> WellFormedRoot(root)
    requires forall root :: root in fs ==> WellFormedWalk(fs[root])
    ensures FoundUnder(roots, fs, keyword, p) <==>
      exists root, c ::
        && root in roots
        && Visit([c]) in Reached(WalkOf(fs, root))
        && p == root + "/" + c
        && Contains(Normalize(c), keyword)
  {
    if FoundUnder(roots, fs, keyword, p) {
      var root :| root in roots && p in Matches(root, WalkOf(fs, root), keyword);
      FoundIsMatchingChild(root, fs, keyword, p);
    }
    if root, c :|
        && root in roots
        && Visit([c]) in Reached(WalkOf(fs, root))
        && p == root + "/" + c
        && Contains(Normalize(c), keyword) {
      MatchingChildFound(roots, fs, keyword, root, c);
    }
  }

  lemma MatchingChildFound(roots: seq<string>, fs: FileSystem, keyword: string, root: string, c: string)
    requires root in roots && WellFormedRoot(root)
    requires forall root :: root in fs ==> WellFormedWalk(fs[root])
    requires Visit([c]) in Reached(WalkOf(fs, root)) && Contains(Normalize(c), keyword)
    ensures FoundUnder(roots, fs, keyword, root + "/" + c)
  {
    MatchingChildMatches(root, WalkOf(fs, root), keyword, c);
  }

  lemma FoundIsMatchingChild(root: string, fs: FileSystem, keyword: string, p: string)
    requires WellFormedRoot(root)
    requires forall root :: root in fs ==> WellFormedWalk(fs[root])
    requires p in Matches(root, WalkOf(fs, root), keyword)
    ensures exists c :: Visit([c]) in Reached(WalkOf(fs, root)) && p == root + "/" + c && Contains(Normalize(c), keyword)
  {
    MatchesAreMatchingChildren(root, WalkOf(fs, root), keyword, p);
  }

  /** The matching rule for one reached direct child: it is found exactly
      when its normalised name contains the keyword. */
  lemma ChildFoundIff(root: string, events: seq<WalkEvent>, keyword: string, c: string)
    requires WellFormedRoot(root) && WellFormedWalk(events)
    requires Visit([c]) in Reached(events)
    ensures root + "/" + c in Matches(root, events, keyword) <==> Contains(Normalize(c), keyword)
  {
    var p := root + "/" + c;
    MatchesAreMatchingChildren(root, events, keyword, p);
    if c' :| Visit([c']) in Reached(events) && p == root + "/" + c' && Contains(Normalize(c'), keyword) {
      assert c' == p[|root| + 1..];
      assert c == p[|root| + 1..];
    }
  }
}
