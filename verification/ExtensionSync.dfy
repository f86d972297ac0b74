/**
 Syncing an extension checkout with its configured tag and patch files.

 A commit is its whole history, oldest change first, so that `tag..HEAD` is what HEAD has beyond the common
 prefix.  Git commands are transitions on that chain, the clean bit and the locally known refs.
 */
module ExtensionSync {
  import opened Wrappers
  import opened Text

  /** One commit's message line and its diff. */
  datatype Change = Change(subject: string, diff: int)

  type Commit = seq<Change>

  datatype Repo = Repo(head: Commit, clean: bool, known: map<string, Commit>)

  /** The files of the patch directory and their contents. */
  type PatchDir = map<string, int>

  /**
   The world outside: the remote and whether it can be reached, whether a patch applies to a checkout and
   changes it, and whether a patch that fails leaves the tree clean.
   */
  datatype World = World(
    online: bool,
    remote: map<string, Commit>,
    remoteHead: Commit,
    applies: (Commit, int) -> bool,
    leavesClean: (Commit, int) -> bool)

  datatype Extension = Extension(tag: string, applyPatches: bool)

  datatype Flags = Flags(skipPatches: bool, force: bool, exportPatches: bool)

  datatype Reason =
    | UncommittedChanges | UnresolvedRef | UnexpectedCommits(exportable: bool) | NotExportable(problem: ExportProblem)

  datatype ExportProblem =
    | NotAWord(message: string) | NotAPatch(message: string) | Repeated(message: string) | OutOfOrder(message: string)

  datatype Outcome =
    | Cloned | Skipped | NothingToExport | Exported | ForceReset | AlreadyCurrent | Updated
    | NotClean(reason: Reason)
    | CommandFailed

  predicate IsPatch(name: string) {
    EndsWith(name, ".patch")
  }

  /** get_patch_files: the patch files in sorted order. */
  ghost function PatchFiles(dir: PatchDir): (names: seq<string>)
    ensures Ascending(names) && forall f :: f in names <==> f in dir && IsPatch(f)
  {
    Sorted(set f <- dir | IsPatch(f))
  }

  ghost function Patches(ext: Extension, dir: PatchDir): seq<string> {
    if ext.applyPatches then PatchFiles(dir) else []
  }

  // ---------------------------------------------------------------------------
  // Git
  // ---------------------------------------------------------------------------

  function Common(a: Commit, b: Commit): (n: nat)
    ensures n <= |a| && n <= |b| && a[..n] == b[..n]
  {
    if a == [] || b == [] || a[0] != b[0] then 0
    else
      var n := 1 + Common(a[1..], b[1..]);
      assert a[..n] == [a[0]] + a[1..][..n - 1] && b[..n] == [b[0]] + b[1..][..n - 1];
      n
  }

  /** git log tag..HEAD, oldest first. */
  function Log(tag: Commit, head: Commit): (cs: seq<Change>)
    ensures |cs| <= |head|
  {
    head[Common(tag, head)..]
  }

  /** The message lines that check_extension_clean sees: stripped, blank ones dropped. */
  function Subjects(cs: seq<Change>): (r: seq<string>)
    ensures |r| <= |cs|
  {
    if cs == [] then []
    else
      var subject := Strip(cs[0].subject);
      (if subject == "" then [] else [subject]) + Subjects(cs[1..])
  }

  /** The messages that the export sees: a log line is stripped behind, where the hash is not in front. */
  function Messages(cs: seq<Change>): (r: seq<string>)
    ensures |r| == |cs| && forall i :: 0 <= i < |r| ==> r[i] == RightStrip(cs[i].subject)
  {
    seq(|cs|, i requires 0 <= i < |cs| => RightStrip(cs[i].subject))
  }

  function Fetch(w: World, r: Repo): Repo {
    r.(known := w.remote + r.known)
  }

  datatype Resolution = Resolved(commit: Commit) | Unresolved | FetchFailed

  /** The ref if it is known locally, otherwise after a fetch. */
  function Resolve(w: World, r: Repo, tag: string): (Repo, Resolution) {
    if tag in r.known then (r, Resolved(r.known[tag]))
    else if !w.online then (r, FetchFailed)
    else
      var fetched := Fetch(w, r);
      (fetched, if tag in fetched.known then Resolved(fetched.known[tag]) else Unresolved)
  }

  /** The commits that applying the listed patches makes. */
  function PatchCommits(dir: PatchDir, patches: seq<string>): (cs: seq<Change>)
    requires forall p <- patches :: p in dir
    ensures |cs| == |patches| && forall i :: 0 <= i < |cs| ==> cs[i] == Change(patches[i], dir[patches[i]])
  {
    seq(|patches|, i requires 0 <= i < |patches| => Change(patches[i], dir[patches[i]]))
  }

  /** apply_patches_as_commits; the second part is false if a command failed. */
  function ApplyPatches(w: World, dir: PatchDir, r: Repo, patches: seq<string>): (Repo, bool)
    requires forall p <- patches :: p in dir
    decreases |patches|
  {
    if patches == [] then (r, true)
    else
      var diff := dir[patches[0]];
      if !w.applies(r.head, diff) then (r.(clean := r.clean && w.leavesClean(r.head, diff)), false)
      else ApplyPatches(w, dir, r.(head := r.head + [Change(patches[0], diff)]), patches[1..])
  }

  // ---------------------------------------------------------------------------
  // Export
  // ---------------------------------------------------------------------------

  /** Every message is a single word ending in .patch, and they ascend strictly. */
  predicate Exportable(messages: seq<string>) {
    && (forall i :: 0 <= i < |messages| ==> WordCount(messages[i]) == 1 && IsPatch(messages[i]))
    && Ascending(messages)
  }

  /** Writing the files one after the other; a name with a slash is not a file of the directory. */
  function WritePatches(dir: PatchDir, cs: seq<Change>): (PatchDir, bool)
    decreases |cs|
  {
    if cs == [] then (dir, true)
    else
      var name := RightStrip(cs[0].subject);
      if '/' in name then (dir, false)
      else WritePatches(dir[name := cs[0].diff], cs[1..])
  }

  // ---------------------------------------------------------------------------
  // Sync
  // ---------------------------------------------------------------------------

  datatype Verdict = Current | Behind | Refused(reason: Reason) | Failed

  /** check_extension_clean, with the checkout it leaves. */
  ghost function CheckClean(w: World, tag: string, r: Repo, patches: seq<string>): (Repo, Verdict) {
    if !r.clean then (r, Refused(UncommittedChanges))
    else
      var (r1, resolution) := Resolve(w, r, tag);
      match resolution
      case FetchFailed => (r1, Failed)
      case Unresolved => (r1, Refused(UnresolvedRef))
      case Resolved(c) =>
        var local := Subjects(Log(c, r1.head));
        if local != patches then (r1, Refused(UnexpectedCommits(Exportable(local))))
        else (r1, if r1.head[..|r1.head| - |patches|] == c then Current else Behind)
  }

  datatype Synced = Synced(repo: Option<Repo>, dir: PatchDir, outcome: Outcome)

  ghost function Finish(w: World, ext: Extension, dir: PatchDir, r: Repo, outcome: Outcome): Synced {
    var (r1, ok) := ApplyPatches(w, dir, r, Patches(ext, dir));
    Synced(Some(r1), dir, if ok then outcome else CommandFailed)
  }

  ghost function Clone(w: World, ext: Extension, dir: PatchDir, skipPatches: bool): Synced {
    if !w.online then Synced(None, dir, CommandFailed)
    else if ext.tag !in w.remote then Synced(Some(Repo(w.remoteHead, true, w.remote)), dir, CommandFailed)
    else
      var r := Repo(w.remote[ext.tag], true, w.remote);
      if skipPatches then Synced(Some(r), dir, Cloned) else Finish(w, ext, dir, r, Cloned)
  }

  ghost function ExportMode(w: World, ext: Extension, dir: PatchDir, r: Repo): Synced {
    var (r1, resolution) := Resolve(w, r, ext.tag);
    match resolution
    case FetchFailed => Synced(Some(r1), dir, CommandFailed)
    case Unresolved => Synced(Some(r1), dir, NotClean(UnresolvedRef))
    case Resolved(c) =>
      if !r1.clean then Synced(Some(r1), dir, NotClean(UncommittedChanges))
      else
        var cs := Log(c, r1.head);
        if cs == [] then Synced(Some(r1), dir, NothingToExport)
        else if Problem(Messages(cs)).Some? then Synced(Some(r1), dir, NotClean(NotExportable(Problem(Messages(cs)).value)))
        else
          var (dir1, ok) := WritePatches(dir, cs);
          Synced(Some(r1), dir1, if ok then Exported else CommandFailed)
  }

  ghost function ForceMode(w: World, ext: Extension, dir: PatchDir, r: Repo): Synced {
    var (r1, resolution) := Resolve(w, r, ext.tag);
    match resolution
    case FetchFailed => Synced(Some(r1), dir, CommandFailed)
    case Unresolved => Synced(Some(r1), dir, NotClean(UnresolvedRef))
    case Resolved(c) => Finish(w, ext, dir, r1.(head := c, clean := true), ForceReset)
  }

  ghost function DefaultMode(w: World, ext: Extension, dir: PatchDir, r: Repo): Synced {
    var patches := Patches(ext, dir);
    var (r1, verdict) := CheckClean(w, ext.tag, r, patches);
    match verdict
    case Failed => Synced(Some(r1), dir, CommandFailed)
    case Refused(reason) => Synced(Some(r1), dir, NotClean(reason))
    case Current => Synced(Some(r1), dir, AlreadyCurrent)
    case Behind => Update(w, ext, dir, r1)
  }

  /** The patch commits are stripped before the remote is asked, and the checkout moves to the tag after it. */
  ghost function Update(w: World, ext: Extension, dir: PatchDir, r: Repo): Synced
    requires |Patches(ext, dir)| <= |r.head| && ext.tag in r.known
  {
    var stripped := r.(head := r.head[..|r.head| - |Patches(ext, dir)|]);
    if !w.online then Synced(Some(stripped), dir, CommandFailed)
    else
      var fetched := Fetch(w, stripped);
      Finish(w, ext, dir, fetched.(head := fetched.known[ext.tag]), Updated)
  }

  /** sync_extension: a missing checkout is cloned, then skipping wins over exporting over forcing. */
  ghost function Sync(w: World, ext: Extension, flags: Flags, repo: Option<Repo>, dir: PatchDir): Synced {
    match repo
    case None => Clone(w, ext, dir, flags.skipPatches)
    case Some(r) =>
      if flags.skipPatches then Synced(repo, dir, Skipped)
      else if flags.exportPatches then ExportMode(w, ext, dir, r)
      else if flags.force then ForceMode(w, ext, dir, r)
      else DefaultMode(w, ext, dir, r)
  }

  const DEFAULT := Flags(false, false, false)

  /** The first reason why the messages cannot be exported. */
  function Problem(messages: seq<string>): Option<ExportProblem> {
    ProblemFrom(messages, 0)
  }

  function ProblemFrom(messages: seq<string>, i: nat): Option<ExportProblem>
    requires i <= |messages|
    decreases |messages| - i
  {
    if i == |messages| then None
    else if WordCount(messages[i]) != 1 then Some(NotAWord(messages[i]))
    else if !IsPatch(messages[i]) then Some(NotAPatch(messages[i]))
    else if messages[i] in messages[..i] then Some(Repeated(messages[i]))
    else if i > 0 && !Less(messages[i - 1], messages[i]) then Some(OutOfOrder(messages[i]))
    else ProblemFrom(messages, i + 1)
  }

  lemma {:induction false} ProblemFromMeaning(messages: seq<string>, i: nat)
    requires i <= |messages|
    requires Exportable(messages[..i])
    ensures ProblemFrom(messages, i).None? <==> Exportable(messages)
    decreases |messages| - i
  {
    hide Less, WordCount, IsPatch;
    if i == |messages| {
      assert messages[..i] == messages;
    } else {
      var m := messages[i];
      if WordCount(m) == 1 && IsPatch(m) && m !in messages[..i] && (i > 0 ==> Less(messages[i - 1], m)) {
        forall k | 0 <= k < i ensures Less(messages[k], m) {
          if k < i - 1 {
            assert Less(messages[..i][k], messages[..i][i - 1]);
            LessTransitive(messages[k], messages[i - 1], m);
          }
        }
        assert messages[..i + 1] == messages[..i] + [m];
        ProblemFromMeaning(messages, i + 1);
      } else if m in messages[..i] {
        var k :| 0 <= k < i && messages[..i][k] == m;
        LessIrreflexive(m);
        assert !Less(messages[k], messages[i]);
      }
    }
  }

  /** Export refuses a list of messages exactly when it is not exportable. */
  lemma ProblemMeaning(messages: seq<string>)
    ensures Problem(messages).None? <==> Exportable(messages)
  {
    ProblemFromMeaning(messages, 0);
  }

  // ---------------------------------------------------------------------------
  // After a successful sync
  // ---------------------------------------------------------------------------

  lemma PatchCommitsFirst(dir: PatchDir, patches: seq<string>)
    requires patches != [] && forall p <- patches :: p in dir
    ensures PatchCommits(dir, patches) == [Change(patches[0], dir[patches[0]])] + PatchCommits(dir, patches[1..])
  {}

  lemma {:induction false} ApplyPatchesMakesCommits(w: World, dir: PatchDir, r: Repo, patches: seq<string>)
    requires forall p <- patches :: p in dir
    ensures var (r1, ok) := ApplyPatches(w, dir, r, patches);
      r1.known == r.known && (ok ==> r1 == r.(head := r.head + PatchCommits(dir, patches)))
    decreases |patches|
  {
    if patches == [] {
      assert r.head + PatchCommits(dir, patches) == r.head;
    } else {
      var first := [Change(patches[0], dir[patches[0]])];
      ApplyPatchesMakesCommits(w, dir, r.(head := r.head + first), patches[1..]);
      PatchCommitsFirst(dir, patches);
      hide PatchCommits;
      HistoryAssoc(r.head, first, PatchCommits(dir, patches[1..]));
    }
  }

  lemma HistoryAssoc(a: Commit, b: Commit, c: Commit)
    ensures (a + b) + c == a + (b + c)
  {}

  /** HEAD is the tag followed by one commit for each patch file, in sorted order, and the tree is clean. */
  ghost predicate InSync(ext: Extension, dir: PatchDir, r: Repo) {
    && r.clean && ext.tag in r.known
    && r.head == r.known[ext.tag] + PatchCommits(dir, Patches(ext, dir))
  }

  lemma FinishInSync(w: World, ext: Extension, dir: PatchDir, r: Repo, outcome: Outcome)
    requires r.clean && ext.tag in r.known && r.head == r.known[ext.tag] && outcome != CommandFailed
    ensures var s := Finish(w, ext, dir, r, outcome);
      s.dir == dir && s.repo.Some? && (s.outcome == outcome ==> InSync(ext, dir, s.repo.value))
  {
    ApplyPatchesMakesCommits(w, dir, r, Patches(ext, dir));
    hide ApplyPatches, PatchFiles, PatchCommits;
  }

  lemma ForceInSync(w: World, ext: Extension, dir: PatchDir, r: Repo)
    ensures var s := ForceMode(w, ext, dir, r);
      s.outcome.ForceReset? ==> s.dir == dir && s.repo.Some? && InSync(ext, dir, s.repo.value)
  {
    var (r1, resolution) := Resolve(w, r, ext.tag);
    if resolution.Resolved? {
      FinishInSync(w, ext, dir, r1.(head := resolution.commit, clean := true), ForceReset);
    }
    hide Finish, InSync;
  }

  lemma CheckKeeps(w: World, tag: string, r: Repo, patches: seq<string>)
    ensures var (r1, verdict) := CheckClean(w, tag, r, patches);
      && Untouched(r, r1)
      && (verdict.Behind? ==>
            && r.clean && tag in r1.known && |patches| <= |r.head|
            && Subjects(Log(r1.known[tag], r.head)) == patches)
  {
    hide Subjects, Exportable, Log;
  }

  lemma DefaultInSync(w: World, ext: Extension, dir: PatchDir, r: Repo)
    ensures var s := DefaultMode(w, ext, dir, r);
      s.outcome.Updated? ==> s.dir == dir && s.repo.Some? && InSync(ext, dir, s.repo.value)
  {
    var patches := Patches(ext, dir);
    CheckKeeps(w, ext.tag, r, patches);
    var (r1, verdict) := CheckClean(w, ext.tag, r, patches);
    if verdict.Behind? && w.online {
      var fetched := Fetch(w, r1.(head := r1.head[..|r1.head| - |patches|]));
      FinishInSync(w, ext, dir, fetched.(head := fetched.known[ext.tag]), Updated);
    }
    hide Finish, InSync, CheckClean, PatchFiles;
  }

  lemma CloneInSync(w: World, ext: Extension, dir: PatchDir)
    ensures var s := Clone(w, ext, dir, false);
      s.outcome.Cloned? ==> s.dir == dir && s.repo.Some? && InSync(ext, dir, s.repo.value)
  {
    if w.online && ext.tag in w.remote {
      FinishInSync(w, ext, dir, Repo(w.remote[ext.tag], true, w.remote), Cloned);
    }
    hide Finish, InSync;
  }

  predicate Installs(outcome: Outcome) {
    outcome.Cloned? || outcome.Updated? || outcome.ForceReset?
  }

  /** A successful clone, update or force reset leaves the checkout in sync, whatever it was before. */
  lemma SyncPostcondition(w: World, ext: Extension, flags: Flags, repo: Option<Repo>, dir: PatchDir)
    requires !(repo.None? && flags.skipPatches)
    ensures var s := Sync(w, ext, flags, repo, dir);
      Installs(s.outcome) ==> s.dir == dir && s.repo.Some? && InSync(ext, dir, s.repo.value)
  {
    hide InSync, Finish, CheckClean, WritePatches, Problem, PatchFiles, Log;
    if repo.None? {
      CloneInSync(w, ext, dir);
    } else {
      ForceInSync(w, ext, dir, repo.value);
      DefaultInSync(w, ext, dir, repo.value);
    }
    OutcomeOf(w, ext, flags, repo, dir);
    hide Clone, ForceMode, DefaultMode, ExportMode;
  }

  /** Which outcomes each mode can have. */
  lemma OutcomeOf(w: World, ext: Extension, flags: Flags, repo: Option<Repo>, dir: PatchDir)
    ensures repo.Some? ==> !Installs(ExportMode(w, ext, dir, repo.value).outcome)
    ensures repo.Some? ==> Installs(ForceMode(w, ext, dir, repo.value).outcome) ==>
      ForceMode(w, ext, dir, repo.value).outcome.ForceReset?
    ensures repo.Some? ==> Installs(DefaultMode(w, ext, dir, repo.value).outcome) ==>
      DefaultMode(w, ext, dir, repo.value).outcome.Updated?
    ensures Installs(Clone(w, ext, dir, false).outcome) ==> Clone(w, ext, dir, false).outcome.Cloned?
  {
    hide ApplyPatches, CheckClean, WritePatches, Problem, PatchFiles, Log;
  }

  lemma {:induction false} CommonWithPrefix(a: Commit, b: Commit)
    ensures Common(a, a + b) == |a|
  {
    if a != [] {
      assert (a + b)[1..] == a[1..] + b;
      CommonWithPrefix(a[1..], b);
    }
  }

  lemma LogOnTag(tag: Commit, work: seq<Change>)
    ensures Log(tag, tag + work) == work
  {
    CommonWithPrefix(tag, work);
    hide Common;
  }

  lemma PatchNameIsSolid(name: string)
    requires IsPatch(name)
    ensures Strip(name) == LeftStrip(name) != "" && RightStrip(name) == name
  {
    assert name[|name| - 1] == ".patch"[5] by {
      assert name[|name| - 6..][5] == name[|name| - 1];
    }
    StripKeepsSolidEnd(name);
  }

  lemma {:induction false} SubjectsOfPatches(cs: seq<Change>)
    requires forall c <- cs :: IsPatch(c.subject)
    ensures |Subjects(cs)| == |cs| && forall i :: 0 <= i < |cs| ==> Subjects(cs)[i] == LeftStrip(cs[i].subject)
  {
    hide LeftStrip, RightStrip, IsPatch, Strip;
    if cs != [] {
      PatchNameIsSolid(cs[0].subject);
      SubjectsOfPatches(cs[1..]);
    }
  }

  /** No name starts with white space. */
  predicate NoLeadingSpace(names: seq<string>) {
    forall i :: 0 <= i < |names| ==> LeftStrip(names[i]) == names[i]
  }

  /** The check of a clean checkout that is built directly on the tag. */
  lemma CheckOnTag(w: World, tag: string, r: Repo, patches: seq<string>, work: seq<Change>)
    requires tag in r.known && r.clean && r.head == r.known[tag] + work && |patches| == |work|
    ensures CheckClean(w, tag, r, patches) ==
      (r, if Subjects(work) == patches then Current else Refused(UnexpectedCommits(Exportable(Subjects(work)))))
  {
    var c := r.known[tag];
    LogOnTag(c, work);
    assert r.head[..|r.head| - |work|] == c;
    hide Log, Subjects, Exportable;
  }

  lemma SameNames(stripped: seq<string>, names: seq<string>)
    requires |stripped| == |names| && forall i :: 0 <= i < |names| ==> stripped[i] == LeftStrip(names[i])
    ensures stripped == names <==> NoLeadingSpace(names)
  {
    hide LeftStrip;
    assert stripped == names ==> forall i :: 0 <= i < |names| ==> stripped[i] == names[i];
  }

  /** The check accepts a checkout that is in sync exactly if no patch name starts with white space. */
  lemma InSyncIsCurrent(w: World, ext: Extension, dir: PatchDir, r: Repo)
    requires InSync(ext, dir, r)
    ensures var (r1, verdict) := CheckClean(w, ext.tag, r, Patches(ext, dir));
      r1 == r && if NoLeadingSpace(Patches(ext, dir)) then verdict == Current else verdict.Refused?
  {
    var patches := Patches(ext, dir);
    var cs := PatchCommits(dir, patches);
    hide LeftStrip, Subjects, Exportable, CheckClean, PatchFiles, IsPatch, NoLeadingSpace;
    SubjectsOfPatches(cs);
    CheckOnTag(w, ext.tag, r, patches, cs);
    hide Patches, PatchCommits;
    SameNames(Subjects(cs), patches);
  }

  /**
   After a successful clone, update or force reset, the next default sync changes nothing if no patch name
   starts with white space; otherwise it refuses the checkout it made itself.
   */
  lemma SyncIsIdempotent(w: World, later: World, ext: Extension, flags: Flags, repo: Option<Repo>, dir: PatchDir)
    requires !(repo.None? && flags.skipPatches)
    requires Installs(Sync(w, ext, flags, repo, dir).outcome)
    ensures
      var s := Sync(w, ext, flags, repo, dir);
      var again := Sync(later, ext, DEFAULT, s.repo, s.dir);
      && again.repo == s.repo && again.dir == s.dir
      && (again.outcome == AlreadyCurrent <==> NoLeadingSpace(Patches(ext, dir)))
  {
    SyncPostcondition(w, ext, flags, repo, dir);
    var s := Sync(w, ext, flags, repo, dir);
    InSyncIsCurrent(later, ext, dir, s.repo.value);
    DefaultFollowsCheck(later, ext, s.repo.value, dir);
    hide CheckClean, InSync, Patches, DefaultMode, Clone, ExportMode, ForceMode, NoLeadingSpace;
  }

  // ---------------------------------------------------------------------------
  // Local work
  // ---------------------------------------------------------------------------

  /** Nothing of the checkout but its known refs has changed. */
  predicate Untouched(before: Repo, after: Repo) {
    after.head == before.head && after.clean == before.clean
  }

  /**
   Without force, a checkout is left as it is if it has uncommitted changes, the tag cannot be found, the subjects on
   top of the tag are not the patch names in order, or it is built on the tag already.
   */
  lemma OnlyForceDiscards(w: World, ext: Extension, flags: Flags, r: Repo, dir: PatchDir)
    requires !flags.force || flags.skipPatches || flags.exportPatches
    requires var (r1, resolution) := Resolve(w, r, ext.tag);
      !GoesAhead(ext, dir, r, resolution) || flags.skipPatches || flags.exportPatches
    ensures var s := Sync(w, ext, flags, Some(r), dir); s.repo.Some? && Untouched(r, s.repo.value)
  {
    hide Subjects, Exportable, Problem, WritePatches, PatchFiles, ApplyPatches, Log;
  }

  /** The subjects on top of the tag are the patch names, and what lies under as many commits is not the tag. */
  ghost predicate GoesAhead(ext: Extension, dir: PatchDir, r: Repo, resolution: Resolution) {
    && r.clean && resolution.Resolved?
    && Subjects(Log(resolution.commit, r.head)) == Patches(ext, dir)
    && r.head[..|r.head| - |Patches(ext, dir)|] != resolution.commit
  }

  /** The commits on top of the tag whose subject line is blank. */
  predicate NoBlankSubject(cs: seq<Change>) {
    forall i :: 0 <= i < |cs| ==> Strip(cs[i].subject) != ""
  }

  lemma {:induction false} SubjectsCount(cs: seq<Change>)
    ensures |Subjects(cs)| == |cs| <==> NoBlankSubject(cs)
  {
    hide Strip;
    if cs != [] {
      SubjectsCount(cs[1..]);
      assert forall i :: 0 <= i < |cs[1..]| ==> cs[1..][i] == cs[i + 1];
      assert forall i :: 0 < i < |cs| ==> cs[i] == cs[1..][i - 1];
    }
  }

  lemma {:induction false} SubjectsAt(cs: seq<Change>, i: nat)
    requires NoBlankSubject(cs) && i < |cs|
    ensures |Subjects(cs)| == |cs| && Subjects(cs)[i] == Strip(cs[i].subject)
  {
    hide Strip;
    SubjectsCount(cs);
    assert Strip(cs[0].subject) != "";
    if i > 0 {
      forall j | 0 <= j < |cs[1..]| ensures Strip(cs[1..][j].subject) != "" {
        assert cs[1..][j] == cs[j + 1];
      }
      SubjectsAt(cs[1..], i - 1);
    }
  }

  /** Each commit says what the patch commit in its place says, up to white space around the subject. */
  predicate SameWork(cs: seq<Change>, patchCommits: seq<Change>) {
    && |cs| == |patchCommits|
    && forall i :: 0 <= i < |cs| ==>
         Strip(cs[i].subject) == patchCommits[i].subject && cs[i].diff == patchCommits[i].diff
  }

  /** The file that a commit is named after has its diff. */
  predicate OnFile(dir: PatchDir, c: Change) {
    Strip(c.subject) in dir && dir[Strip(c.subject)] == c.diff
  }

  predicate AllOnFile(dir: PatchDir, cs: seq<Change>) {
    forall i :: 0 <= i < |cs| ==> OnFile(dir, cs[i])
  }

  /** Commits that pass for the patch commits are the patch commits if none is blank and all are on file. */
  lemma PassingCommits(dir: PatchDir, patches: seq<string>, cs: seq<Change>)
    requires (forall p <- patches :: p in dir) && Subjects(cs) == patches
    ensures SameWork(cs, PatchCommits(dir, patches)) <==> NoBlankSubject(cs) && AllOnFile(dir, cs)
  {
    hide Strip, Subjects;
    var patchCommits := PatchCommits(dir, patches);
    SubjectsCount(cs);
    if NoBlankSubject(cs) {
      forall i | 0 <= i < |cs|
        ensures Strip(cs[i].subject) == patches[i] == patchCommits[i].subject
        ensures OnFile(dir, cs[i]) <==> cs[i].diff == patchCommits[i].diff
      {
        SubjectsAt(cs, i);
      }
      hide NoBlankSubject, PatchCommits;
    }
  }

  /**
   A default update replaces the commits on top of the tag by the patch commits.  It drops as many as there are
   patches, with the patches' names, if and only if none has a blank subject; and it puts back the work that it drops if
   and only if moreover every one of them still has the diff of its patch file.
   */
  lemma UpdateKeepsWork(w: World, ext: Extension, r: Repo, dir: PatchDir)
    requires Sync(w, ext, DEFAULT, Some(r), dir).outcome.Updated?
    ensures
      var s := Sync(w, ext, DEFAULT, Some(r), dir);
      var (r1, resolution) := Resolve(w, r, ext.tag);
      && GoesAhead(ext, dir, r, resolution)
      && s.dir == dir && s.repo.Some? && s.repo.value.head != r.head
      && s.repo.value.head == resolution.commit + PatchCommits(dir, Patches(ext, dir))
      && var dropped := Log(resolution.commit, r.head);
      && (|dropped| == |Patches(ext, dir)| <==> NoBlankSubject(dropped))
      && (SameWork(dropped, PatchCommits(dir, Patches(ext, dir))) <==> NoBlankSubject(dropped) && AllOnFile(dir, dropped))
  {
    UpdatedWentAhead(w, ext, r, dir);
    var (r1, resolution) := Resolve(w, r, ext.tag);
    var dropped := Log(resolution.commit, r.head);
    hide Sync, Resolve, Log, Subjects, NoBlankSubject, SameWork, AllOnFile, PatchCommits, PatchFiles;
    SubjectsCount(dropped);
    PassingCommits(dir, Patches(ext, dir), dropped);
    Unpatched(resolution.commit, PatchCommits(dir, Patches(ext, dir)));
  }

  lemma Unpatched(tag: Commit, work: seq<Change>)
    ensures (tag + work)[..|tag + work| - |work|] == tag
  {}

  lemma UpdatedWentAhead(w: World, ext: Extension, r: Repo, dir: PatchDir)
    requires Sync(w, ext, DEFAULT, Some(r), dir).outcome.Updated?
    ensures
      var s := Sync(w, ext, DEFAULT, Some(r), dir);
      var (r1, resolution) := Resolve(w, r, ext.tag);
      && GoesAhead(ext, dir, r, resolution) && s.dir == dir && s.repo.Some?
      && s.repo.value.head == resolution.commit + PatchCommits(dir, Patches(ext, dir))
  {
    var patches := Patches(ext, dir);
    var (r1, resolution) := Resolve(w, r, ext.tag);
    hide Subjects, Log, Exportable, PatchFiles;
    var r2 := Fetch(w, r1).(head := r1.known[ext.tag]);
    ApplyPatchesMakesCommits(w, dir, r2, patches);
    hide ApplyPatches;
  }

  /** A commit without a message on top of the tag is invisible to the check, and lost by the update. */
  lemma BlankCommitIsLost(w: World, ext: Extension, r: Repo, dir: PatchDir, base: Commit, work: int)
    requires w.online && !ext.applyPatches && r.clean
    requires ext.tag in r.known && r.known[ext.tag] == base && r.head == base + [Change("", work)]
    ensures var s := Sync(w, ext, DEFAULT, Some(r), dir);
      s.outcome == Updated && s.repo.Some? && s.repo.value.head == base
  {
    hide CheckClean, PatchFiles, Sync;
    BlankPassesCheck(w, ext.tag, r, base, work);
    OnlineUpdate(w, ext, r, dir);
  }

  /**
   A patch commit that was amended under its own subject passes for the patch commit: when the tag has moved, the
   update replaces it by what the patch file says, and its work is in neither the checkout nor the patch directory.
   */
  lemma AmendedCommitIsLost(w: World, ext: Extension, r: Repo, dir: PatchDir, base: Commit, up: Change, name: string, mine: int)
    requires IsPatch(name) && LeftStrip(name) == name && dir.Keys == {name} && dir[name] != mine
    requires w.online && ext.applyPatches && r.clean && r.head == base + [Change(name, mine)]
    requires ext.tag in r.known && r.known[ext.tag] == base + [up] && up != Change(name, mine)
    requires w.applies(base + [up], dir[name])
    ensures
      var s := Sync(w, ext, DEFAULT, Some(r), dir);
      && NoBlankSubject(Log(base + [up], r.head))
      && s.outcome == Updated && s.dir == dir
      && s.repo.Some? && s.repo.value.head == base + [up] + [Change(name, dir[name])]
  {
    OnlyPatchFile(dir, name);
    AmendedPassesCheck(w, ext.tag, r, base, up, name, mine);
    hide CheckClean, PatchFiles, Log, NoBlankSubject, LeftStrip, IsPatch, Sync;
    OnlineUpdate(w, ext, r, dir);
    ApplyOne(w, dir, Fetch(w, r).(head := base + [up]), name);
    hide ApplyPatches;
  }

  lemma ApplyOne(w: World, dir: PatchDir, r: Repo, name: string)
    requires name in dir && w.applies(r.head, dir[name])
    ensures ApplyPatches(w, dir, r, [name]) == (r.(head := r.head + [Change(name, dir[name])]), true)
  {
    assert [name][1..] == [];
  }

  lemma OnlineUpdate(w: World, ext: Extension, r: Repo, dir: PatchDir)
    requires w.online && ext.tag in r.known && CheckClean(w, ext.tag, r, Patches(ext, dir)) == (r, Behind)
    ensures Sync(w, ext, DEFAULT, Some(r), dir) ==
      Finish(w, ext, dir, Fetch(w, r).(head := r.known[ext.tag]), Updated)
  {
    CheckKeeps(w, ext.tag, r, Patches(ext, dir));
    hide CheckClean, Patches, Finish;
  }

  lemma SyncByDefault(w: World, ext: Extension, r: Repo, dir: PatchDir)
    ensures Sync(w, ext, DEFAULT, Some(r), dir) == DefaultMode(w, ext, dir, r)
  {
    hide DefaultMode;
  }

  lemma OnlyPatchFile(dir: PatchDir, name: string)
    requires dir.Keys == {name} && IsPatch(name)
    ensures PatchFiles(dir) == [name]
  {
    assert forall f :: f in dir <==> f == name;
    hide IsPatch;
    AscendingIsUnique(PatchFiles(dir), [name]);
  }

  lemma AmendedPassesCheck(w: World, tag: string, r: Repo, base: Commit, up: Change, name: string, mine: int)
    requires IsPatch(name) && LeftStrip(name) == name && up != Change(name, mine)
    requires r.clean && tag in r.known && r.known[tag] == base + [up] && r.head == base + [Change(name, mine)]
    ensures CheckClean(w, tag, r, [name]) == (r, Behind)
    ensures NoBlankSubject(Log(base + [up], r.head))
  {
    var amended := [Change(name, mine)];
    LogAfterFork(base, [up], amended);
    SubjectsOfPatches(amended);
    PatchNameIsSolid(name);
    hide Log, Subjects, CheckClean, IsPatch, LeftStrip;
    Unpatched(base, amended);
    assert Subjects(amended) == [name];
    CheckOfLog(w, tag, r, [name], amended);
  }

  lemma {:induction false} LogAfterFork(base: Commit, up: seq<Change>, work: seq<Change>)
    requires up == [] || work == [] || up[0] != work[0]
    ensures Log(base + up, base + work) == work
  {
    if base == [] {
      assert base + up == up && base + work == work;
    } else {
      assert (base + up)[1..] == base[1..] + up && (base + work)[1..] == base[1..] + work;
      LogAfterFork(base[1..], up, work);
    }
  }

  lemma {:induction false} SubjectsConcat(a: seq<Change>, b: seq<Change>)
    ensures Subjects(a + b) == Subjects(a) + Subjects(b)
  {
    hide Strip;
    if a == [] {
      assert a + b == b;
    } else {
      assert (a + b)[1..] == a[1..] + b;
      SubjectsConcat(a[1..], b);
    }
  }

  /**
   An update strips the patch commits before it asks the remote.  If the remote cannot be reached, the command fails
   with the commits gone, and every later default sync refuses the checkout, unless all that was stripped was blank.
   */
  lemma OfflineUpdateIsRefused(w: World, later: World, ext: Extension, r: Repo, dir: PatchDir)
    requires !w.online && ext.tag in r.known && GoesAhead(ext, dir, r, Resolved(r.known[ext.tag]))
    ensures
      var s := Sync(w, ext, DEFAULT, Some(r), dir);
      var n := |r.head| - |Patches(ext, dir)|;
      && s == Synced(Some(r.(head := r.head[..n])), dir, CommandFailed)
      && (Sync(later, ext, DEFAULT, s.repo, dir).outcome.NotClean? <==> Subjects(r.head[n..]) != [])
  {
    hide CheckClean, Patches, Log, Subjects, DefaultMode, Sync;
    OfflineUpdate(w, ext, r, dir);
    StrippedSubjects(r.known[ext.tag], r.head, Patches(ext, dir));
    RefusedForSubjects(later, ext, r.(head := r.head[..|r.head| - |Patches(ext, dir)|]), dir);
  }

  lemma OfflineUpdate(w: World, ext: Extension, r: Repo, dir: PatchDir)
    requires !w.online && ext.tag in r.known && GoesAhead(ext, dir, r, Resolved(r.known[ext.tag]))
    ensures |Patches(ext, dir)| <= |r.head|
    ensures Sync(w, ext, DEFAULT, Some(r), dir) ==
      Synced(Some(r.(head := r.head[..|r.head| - |Patches(ext, dir)|])), dir, CommandFailed)
  {
    hide CheckClean, Patches, Log, Subjects, DefaultMode, Sync;
    CheckOfLog(w, ext.tag, r, Patches(ext, dir), Log(r.known[ext.tag], r.head));
    UpdateOutcomes(w, ext, r, dir);
    SyncByDefault(w, ext, r, dir);
  }

  lemma RefusedForSubjects(w: World, ext: Extension, r: Repo, dir: PatchDir)
    requires r.clean && ext.tag in r.known
    ensures Sync(w, ext, DEFAULT, Some(r), dir).outcome.NotClean? <==>
      Subjects(Log(r.known[ext.tag], r.head)) != Patches(ext, dir)
  {
    hide CheckClean, Patches, Log, Subjects, DefaultMode, Sync;
    CheckRefuses(w, ext.tag, r, Patches(ext, dir));
    UpdateOutcomes(w, ext, r, dir);
    SyncByDefault(w, ext, r, dir);
  }

  lemma CheckRefuses(w: World, tag: string, r: Repo, patches: seq<string>)
    requires r.clean && tag in r.known
    ensures var (r1, verdict) := CheckClean(w, tag, r, patches);
      r1 == r && (verdict.Refused? <==> Subjects(Log(r.known[tag], r.head)) != patches) && !verdict.Failed?
  {
    hide Subjects, Log, Exportable;
  }

  /** What the verdict of the check leads to. */
  lemma UpdateOutcomes(w: World, ext: Extension, r: Repo, dir: PatchDir)
    ensures var (r1, verdict) := CheckClean(w, ext.tag, r, Patches(ext, dir));
      var s := DefaultMode(w, ext, dir, r);
      && (s.outcome.NotClean? <==> verdict.Refused?)
      && (verdict.Behind? && !w.online ==>
            |Patches(ext, dir)| <= |r1.head| &&
            s == Synced(Some(r1.(head := r1.head[..|r1.head| - |Patches(ext, dir)|])), dir, CommandFailed))
  {
    CheckKeeps(w, ext.tag, r, Patches(ext, dir));
    hide CheckClean, Patches, ApplyPatches, Fetch, Log, Subjects;
  }

  lemma {:induction false} CommonOfPrefix(a: Commit, b: Commit, m: nat)
    requires Common(a, b) <= m <= |b|
    ensures Common(a, b[..m]) == Common(a, b)
  {
    if a != [] && b != [] && a[0] == b[0] {
      assert b[..m][1..] == b[1..][..m - 1];
      CommonOfPrefix(a[1..], b[1..], m - 1);
    }
  }

  /** Stripping the last commits leaves the other subjects. */
  lemma StrippedSubjects(tag: Commit, head: Commit, patches: seq<string>)
    requires Subjects(Log(tag, head)) == patches
    ensures |patches| <= |head|
    ensures var n := |head| - |patches|; Subjects(Log(tag, head[..n])) == patches <==> Subjects(head[n..]) == []
  {
    hide Subjects, Log;
    LogSplit(tag, head, |patches|);
    var n := |head| - |patches|;
    SubjectsConcat(Log(tag, head[..n]), head[n..]);
    assert Subjects(head[n..]) == [] ==> Subjects(Log(tag, head[..n])) == patches;
  }

  lemma LogSplit(tag: Commit, head: Commit, n: nat)
    requires n <= |Log(tag, head)|
    ensures Log(tag, head) == Log(tag, head[..|head| - n]) + head[|head| - n..]
  {
    CommonOfPrefix(tag, head, |head| - n);
    hide Common;
    var c, left := Common(tag, head), head[..|head| - n];
    assert left[c..] == head[c..|head| - n];
  }

  lemma BlankPassesCheck(w: World, tag: string, r: Repo, base: Commit, work: int)
    requires r.clean && tag in r.known && r.known[tag] == base && r.head == base + [Change("", work)]
    ensures CheckClean(w, tag, r, []) == (r, Behind)
  {
    hide Log, Subjects, CheckClean;
    var blank := [Change("", work)];
    LogOnTag(base, blank);
    BlankSubject(blank);
    assert r.head[..|r.head| - 0] == r.head && |r.head| == |base| + 1;
    CheckOfLog(w, tag, r, [], blank);
  }

  lemma CheckOfLog(w: World, tag: string, r: Repo, patches: seq<string>, work: seq<Change>)
    requires r.clean && tag in r.known && Log(r.known[tag], r.head) == work && Subjects(work) == patches
    requires |patches| <= |r.head|
    ensures CheckClean(w, tag, r, patches) == (r, if r.head[..|r.head| - |patches|] == r.known[tag] then Current else Behind)
  {
    hide Log, Subjects, Exportable;
  }

  lemma BlankSubject(cs: seq<Change>)
    requires |cs| == 1 && cs[0].subject == ""
    ensures Subjects(cs) == []
  {
    EmptyStrips(cs[0].subject);
    hide Strip;
  }

  lemma EmptyStrips(s: string)
    requires s == ""
    ensures Strip(s) == ""
  {
    hide IsSpace;
  }

  // ---------------------------------------------------------------------------
  // Export, then check
  // ---------------------------------------------------------------------------

  lemma MessagesFirst(cs: seq<Change>)
    requires cs != []
    ensures Messages(cs) == [RightStrip(cs[0].subject)] + Messages(cs[1..])
  {
    hide RightStrip;
  }

  lemma {:induction false} WritePatchesFiles(dir: PatchDir, cs: seq<Change>)
    requires WritePatches(dir, cs).1
    ensures forall f :: f in WritePatches(dir, cs).0 <==> f in dir || f in Messages(cs)
    decreases |cs|
  {
    hide RightStrip;
    if cs != [] {
      WritePatchesFiles(dir[RightStrip(cs[0].subject) := cs[0].diff], cs[1..]);
      MessagesFirst(cs);
      hide Messages;
    }
  }

  lemma {:induction false} WritePatchesContents(dir: PatchDir, cs: seq<Change>, k: nat)
    requires WritePatches(dir, cs).1 && Ascending(Messages(cs)) && k < |cs|
    ensures Messages(cs)[k] in WritePatches(dir, cs).0 && WritePatches(dir, cs).0[Messages(cs)[k]] == cs[k].diff
    decreases |cs|
  {
    hide RightStrip, Less;
    var name := RightStrip(cs[0].subject);
    var next := dir[name := cs[0].diff];
    if k > 0 {
      AscendingTail(cs);
      WritePatchesContents(next, cs[1..], k - 1);
      assert Messages(cs[1..])[k - 1] == Messages(cs)[k];
    } else {
      assert forall i :: 0 <= i < |cs[1..]| ==> Messages(cs[1..])[i] == Messages(cs)[i + 1];
      forall i | 0 <= i < |cs[1..]| ensures Messages(cs[1..])[i] != name {
        assert Less(Messages(cs)[0], Messages(cs)[i + 1]);
        LessIrreflexive(name);
      }
      UnwrittenStays(next, cs[1..], name);
    }
  }

  lemma AscendingTail(cs: seq<Change>)
    requires cs != [] && Ascending(Messages(cs))
    ensures Ascending(Messages(cs[1..]))
  {
    assert Messages(cs[1..]) == Messages(cs)[1..];
  }

  lemma {:induction false} UnwrittenStays(dir: PatchDir, cs: seq<Change>, name: string)
    requires WritePatches(dir, cs).1 && name in dir
    requires forall i :: 0 <= i < |cs| ==> Messages(cs)[i] != name
    ensures name in WritePatches(dir, cs).0 && WritePatches(dir, cs).0[name] == dir[name]
    decreases |cs|
  {
    hide RightStrip;
    if cs != [] {
      assert Messages(cs)[0] != name;
      assert forall i :: 0 <= i < |cs[1..]| ==> Messages(cs[1..])[i] == Messages(cs)[i + 1];
      UnwrittenStays(dir[RightStrip(cs[0].subject) := cs[0].diff], cs[1..], name);
    }
  }

  /** The only patch files in the directory are those that the export writes. */
  predicate NoOtherPatches(dir: PatchDir, messages: seq<string>) {
    forall f <- dir :: IsPatch(f) ==> f in messages
  }

  /**
   After an export the sorted patch files are the exported commits in commit order, each with its diff, exactly
   if the directory held no other patch file.
   */
  lemma ExportListsCommits(dir: PatchDir, cs: seq<Change>)
    requires Exportable(Messages(cs)) && WritePatches(dir, cs).1
    ensures PatchFiles(WritePatches(dir, cs).0) == Messages(cs) <==> NoOtherPatches(dir, Messages(cs))
    ensures forall k :: 0 <= k < |cs| ==>
      Messages(cs)[k] in WritePatches(dir, cs).0 && WritePatches(dir, cs).0[Messages(cs)[k]] == cs[k].diff
  {
    var dir1, messages := WritePatches(dir, cs).0, Messages(cs);
    WritePatchesFiles(dir, cs);
    forall k | 0 <= k < |cs| ensures messages[k] in dir1 && dir1[messages[k]] == cs[k].diff {
      WritePatchesContents(dir, cs, k);
    }
    hide WritePatches, RightStrip, Less, WordCount;
    if NoOtherPatches(dir, messages) {
      forall f ensures f in PatchFiles(dir1) <==> f in messages {
        if f in messages {
          var i :| 0 <= i < |messages| && messages[i] == f;
          assert IsPatch(messages[i]);
        }
      }
      AscendingIsUnique(PatchFiles(dir1), messages);
    } else {
      var f :| f in dir && IsPatch(f) && f !in messages;
      assert f in PatchFiles(dir1);
    }
  }

  /**
   A checkout built directly on the tag and exported into a directory with no other patch files is accepted by
   the next default sync with APPLY_PATCHES, exactly if no subject starts with white space.
   */
  lemma ExportedIsAccepted(w: World, later: World, ext: Extension, r: Repo, dir: PatchDir, work: seq<Change>)
    requires ext.applyPatches && ext.tag in r.known && r.head == r.known[ext.tag] + work
    requires NoOtherPatches(dir, Messages(work))
    requires Sync(w, ext, Flags(false, false, true), Some(r), dir).outcome == Exported
    ensures
      var s := Sync(w, ext, Flags(false, false, true), Some(r), dir);
      var again := Sync(later, ext, DEFAULT, s.repo, s.dir);
      && s.repo == Some(r) && again.repo == Some(r) && again.dir == s.dir
      && (again.outcome == AlreadyCurrent <==> NoLeadingSpace(Messages(work)))
  {
    ExportWrites(w, ext, r, dir, work);
    var s := Sync(w, ext, Flags(false, false, true), Some(r), dir);
    ExportListsCommits(dir, work);
    ExportedSubjects(work);
    SameNames(Subjects(work), Messages(work));
    hide Sync, WritePatches, Exportable, Messages, PatchFiles, Subjects;
    AcceptedIfEqual(later, ext, r, s.dir, work);
  }

  lemma ExportWrites(w: World, ext: Extension, r: Repo, dir: PatchDir, work: seq<Change>)
    requires ext.tag in r.known && r.head == r.known[ext.tag] + work
    requires Sync(w, ext, Flags(false, false, true), Some(r), dir).outcome == Exported
    ensures r.clean && Exportable(Messages(work)) && WritePatches(dir, work).1
    ensures Sync(w, ext, Flags(false, false, true), Some(r), dir) == Synced(Some(r), WritePatches(dir, work).0, Exported)
  {
    var c := r.known[ext.tag];
    LogOnTag(c, work);
    ProblemMeaning(Messages(work));
    hide Log, Exportable, Messages, WritePatches, Problem;
  }

  lemma {:induction false} ExportedSubjects(work: seq<Change>)
    requires forall i :: 0 <= i < |work| ==> IsPatch(Messages(work)[i])
    ensures |Subjects(work)| == |work|
    ensures forall i :: 0 <= i < |work| ==> Subjects(work)[i] == LeftStrip(Messages(work)[i])
  {
    hide LeftStrip, RightStrip, Strip, IsPatch, Subjects;
    SubjectsFirst(work);
    if work != [] {
      assert Messages(work)[0] == RightStrip(work[0].subject);
      MessageStripped(work[0].subject);
      assert forall i :: 0 <= i < |work[1..]| ==> Messages(work[1..])[i] == Messages(work)[i + 1];
      ExportedSubjects(work[1..]);
    }
  }

  lemma SubjectsFirst(cs: seq<Change>)
    ensures cs == [] ==> Subjects(cs) == []
    ensures cs != [] && Strip(cs[0].subject) != "" ==> Subjects(cs) == [Strip(cs[0].subject)] + Subjects(cs[1..])
  {
    hide Strip;
  }

  lemma MessageStripped(subject: string)
    requires IsPatch(RightStrip(subject))
    ensures Strip(subject) == LeftStrip(RightStrip(subject)) != ""
  {
    StripBothWays(subject);
    PatchNameIsSolid(RightStrip(subject));
  }

  /** Stripping in front and behind can be done in either order. */
  lemma {:induction false} StripBothWays(s: string)
    ensures RightStrip(LeftStrip(s)) == LeftStrip(RightStrip(s))
  {
    if s != "" && IsSpace(s[0]) {
      StripBothWays(s[1..]);
      RightStripTail(s);
    } else if s != "" {
      RightStripHead(s);
    }
  }

  lemma {:induction false} RightStripTail(s: string)
    requires s != "" && IsSpace(s[0])
    ensures RightStrip(s) == if RightStrip(s[1..]) == "" then "" else [s[0]] + RightStrip(s[1..])
  {
    if IsSpace(s[|s| - 1]) && |s| > 1 {
      RightStripTail(s[..|s| - 1]);
      assert s[..|s| - 1][1..] == s[1..][..|s[1..]| - 1];
    }
  }

  lemma {:induction false} RightStripHead(s: string)
    requires s != "" && !IsSpace(s[0])
    ensures RightStrip(s) != "" && RightStrip(s)[0] == s[0]
  {
    if IsSpace(s[|s| - 1]) {
      RightStripHead(s[..|s| - 1]);
    }
  }

  lemma DefaultFollowsCheck(w: World, ext: Extension, r: Repo, dir: PatchDir)
    ensures var (r1, verdict) := CheckClean(w, ext.tag, r, Patches(ext, dir));
      var s := DefaultMode(w, ext, dir, r);
      && (verdict.Current? ==> s == Synced(Some(r1), dir, AlreadyCurrent))
      && (verdict.Refused? ==> s == Synced(Some(r1), dir, NotClean(verdict.reason)))
  {
    hide CheckClean, Patches, Finish, Fetch;
  }

  lemma AcceptedIfEqual(w: World, ext: Extension, r: Repo, dir: PatchDir, work: seq<Change>)
    requires ext.applyPatches && ext.tag in r.known && r.clean && r.head == r.known[ext.tag] + work
    requires |PatchFiles(dir)| == |work|
    ensures var s := Sync(w, ext, DEFAULT, Some(r), dir);
      && s.repo == Some(r) && s.dir == dir
      && (s.outcome == AlreadyCurrent <==> Subjects(work) == PatchFiles(dir))
  {
    CheckOnTag(w, ext.tag, r, PatchFiles(dir), work);
    hide CheckClean, PatchFiles, Subjects, Finish, Exportable, Fetch;
    DefaultFollowsCheck(w, ext, r, dir);
    hide DefaultMode;
  }

  // ---------------------------------------------------------------------------
  // The script
  // ---------------------------------------------------------------------------

  /** Listing the directory in any order and sorting the patch files. */
  method GetPatchFiles(dir: PatchDir) returns (names: seq<string>)
    ensures names == PatchFiles(dir)
  {
    names := [];
    var rest := dir.Keys;
    while rest != {}
      invariant rest <= dir.Keys && Ascending(names)
      invariant forall f :: f in names <==> f in dir && IsPatch(f) && f !in rest
      decreases |rest|
    {
      var f :| f in rest;
      rest := rest - {f};
      if IsPatch(f) {
        InsertAscending(names, f);
        names := Insert(names, f);
      }
    }
    AscendingIsUnique(names, PatchFiles(dir));
  }

  /** _exportable_reason, with its set of messages seen so far. */
  method ExportableReason(messages: seq<string>) returns (problem: Option<ExportProblem>)
    ensures problem == Problem(messages)
    ensures problem.None? <==> Exportable(messages)
  {
    ProblemMeaning(messages);
    hide Exportable, Less, WordCount, IsPatch;
    var seen: set<string> := {};
    for i := 0 to |messages|
      invariant seen == set m <- messages[..i]
      invariant ProblemFrom(messages, i) == Problem(messages)
    {
      var m := messages[i];
      if WordCount(m) != 1 {
        return Some(NotAWord(m));
      }
      if !IsPatch(m) {
        return Some(NotAPatch(m));
      }
      if m in seen {
        return Some(Repeated(m));
      }
      seen := seen + {m};
      if i > 0 && !Less(messages[i - 1], m) {
        return Some(OutOfOrder(m));
      }
      assert messages[..i + 1] == messages[..i] + [m];
    }
    return None;
  }

  /** An extension directory and the patch directory of its extension. */
  class Checkout {
    var repo: Option<Repo>
    var dir: PatchDir

    constructor (repo: Option<Repo>, dir: PatchDir)
      ensures this.repo == repo && this.dir == dir
    {
      this.repo, this.dir := repo, dir;
    }

    method ResolveRefOrFetch(w: World, tag: string) returns (resolution: Resolution)
      requires repo.Some?
      modifies this`repo
      ensures repo.Some? && (repo.value, resolution) == Resolve(w, old(repo.value), tag)
    {
      if tag in repo.value.known {
        return Resolved(repo.value.known[tag]);
      }
      if !w.online {
        return FetchFailed;
      }
      repo := Some(Fetch(w, repo.value));
      if tag in repo.value.known {
        return Resolved(repo.value.known[tag]);
      }
      return Unresolved;
    }

    method ApplyPatchesAsCommits(w: World, names: seq<string>) returns (ok: bool)
      requires repo.Some? && forall p <- names :: p in dir
      modifies this`repo
      ensures repo.Some? && (repo.value, ok) == ApplyPatches(w, dir, old(repo.value), names)
    {
      for i := 0 to |names|
        invariant repo.Some? && ApplyPatches(w, dir, repo.value, names[i..]) == ApplyPatches(w, dir, old(repo.value), names)
      {
        var r, diff := repo.value, dir[names[i]];
        assert names[i..][1..] == names[i + 1..];
        if !w.applies(r.head, diff) {
          repo := Some(r.(clean := r.clean && w.leavesClean(r.head, diff)));
          return false;
        }
        repo := Some(r.(head := r.head + [Change(names[i], diff)]));
      }
      return true;
    }

    method CheckExtensionClean(w: World, tag: string, names: seq<string>) returns (verdict: Verdict)
      requires repo.Some?
      modifies this`repo
      ensures repo.Some? && (repo.value, verdict) == CheckClean(w, tag, old(repo.value), names)
    {
      hide Subjects, Log, Exportable, Resolve;
      if !repo.value.clean {
        return Refused(UncommittedChanges);
      }
      var resolution := ResolveRefOrFetch(w, tag);
      match resolution
      case FetchFailed => return Failed;
      case Unresolved => return Refused(UnresolvedRef);
      case Resolved(c) =>
        var head := repo.value.head;
        var local := Subjects(Log(c, head));
        if local != names {
          var problem := ExportableReason(local);
          return Refused(UnexpectedCommits(problem.None?));
        }
        return if head[..|head| - |names|] == c then Current else Behind;
    }

    method ExportCommitsAsPatches(w: World, ext: Extension) returns (outcome: Outcome)
      requires repo.Some?
      modifies this
      ensures Synced(repo, dir, outcome) == ExportMode(w, ext, old(dir), old(repo.value))
    {
      hide WritePatches, Log, Messages, Exportable;
      var resolution := ResolveRefOrFetch(w, ext.tag);
      match resolution
      case FetchFailed => return CommandFailed;
      case Unresolved => return NotClean(UnresolvedRef);
      case Resolved(c) =>
        if !repo.value.clean {
          return NotClean(UncommittedChanges);
        }
        var commits := Log(c, repo.value.head);
        if commits == [] {
          return NothingToExport;
        }
        var problem := ExportableReason(Messages(commits));
        if problem.Some? {
          return NotClean(NotExportable(problem.value));
        }
        var ok := WriteCommits(commits);
        return if ok then Exported else CommandFailed;
    }

    method WriteCommits(commits: seq<Change>) returns (ok: bool)
      modifies this`dir
      ensures (dir, ok) == WritePatches(old(dir), commits)
    {
      for i := 0 to |commits|
        invariant WritePatches(dir, commits[i..]) == WritePatches(old(dir), commits)
      {
        assert commits[i..][1..] == commits[i + 1..];
        var name := RightStrip(commits[i].subject);
        if '/' in name {
          return false;
        }
        dir := dir[name := commits[i].diff];
      }
      return true;
    }

    method SyncExtension(w: World, ext: Extension, flags: Flags) returns (outcome: Outcome)
      modifies this
      ensures Synced(repo, dir, outcome) == Sync(w, ext, flags, old(repo), old(dir))
    {
      hide ApplyPatches, CheckClean, ExportMode, PatchFiles, Resolve;
      var names := [];
      if ext.applyPatches {
        names := GetPatchFiles(dir);
      }
      if repo.None? {
        if !w.online {
          return CommandFailed;
        }
        repo := Some(Repo(w.remoteHead, true, w.remote));
        if ext.tag !in w.remote {
          return CommandFailed;
        }
        repo := Some(repo.value.(head := w.remote[ext.tag]));
        if flags.skipPatches {
          return Cloned;
        }
        var ok := ApplyPatchesAsCommits(w, names);
        return if ok then Cloned else CommandFailed;
      }
      if flags.skipPatches {
        return Skipped;
      }
      if flags.exportPatches {
        outcome := ExportCommitsAsPatches(w, ext);
      } else if flags.force {
        outcome := ForceSync(w, ext, names);
      } else {
        outcome := DefaultSync(w, ext, names);
      }
    }

    method ForceSync(w: World, ext: Extension, names: seq<string>) returns (outcome: Outcome)
      requires repo.Some? && names == Patches(ext, dir)
      modifies this`repo
      ensures Synced(repo, dir, outcome) == ForceMode(w, ext, dir, old(repo.value))
    {
      hide ApplyPatches, PatchFiles;
      var resolution := ResolveRefOrFetch(w, ext.tag);
      match resolution
      case FetchFailed => return CommandFailed;
      case Unresolved => return NotClean(UnresolvedRef);
      case Resolved(c) =>
        repo := Some(repo.value.(head := c, clean := true));
        var ok := ApplyPatchesAsCommits(w, names);
        return if ok then ForceReset else CommandFailed;
    }

    method DefaultSync(w: World, ext: Extension, names: seq<string>) returns (outcome: Outcome)
      requires repo.Some? && names == Patches(ext, dir)
      modifies this`repo
      ensures Synced(repo, dir, outcome) == DefaultMode(w, ext, dir, old(repo.value))
    {
      CheckKeeps(w, ext.tag, repo.value, names);
      hide ApplyPatches, PatchFiles, CheckClean, Update;
      var verdict := CheckExtensionClean(w, ext.tag, names);
      match verdict
      case Failed => return CommandFailed;
      case Refused(reason) => return NotClean(reason);
      case Current => return AlreadyCurrent;
      case Behind =>
        outcome := UpdateCheckout(w, ext, names);
    }

    /** Strips the patch commits, moves to the tag and applies the patches again. */
    method UpdateCheckout(w: World, ext: Extension, names: seq<string>) returns (outcome: Outcome)
      requires repo.Some? && names == Patches(ext, dir) && |names| <= |repo.value.head| && ext.tag in repo.value.known
      modifies this`repo
      ensures Synced(repo, dir, outcome) == Update(w, ext, dir, old(repo.value))
    {
      hide ApplyPatches, PatchFiles;
      var r := repo.value;
      repo := Some(r.(head := r.head[..|r.head| - |names|]));
      if !w.online {
        return CommandFailed;
      }
      var fetched := Fetch(w, repo.value);
      repo := Some(fetched.(head := fetched.known[ext.tag]));
      var ok := ApplyPatchesAsCommits(w, names);
      return if ok then Updated else CommandFailed;
    }
  }
}
