/** The order of the patch commits and the precedence of the modes, said of file names and flags themselves. */
module ExtensionSyncMeaning {
  import opened Wrappers
  import opened Text
  import opened ExtensionSync

  /** The name of a patch file. */
  predicate HasPatchSuffix(name: string) {
    |name| >= 6 && name[|name| - 6..] == ".patch"
  }

  /** The commits of the patch files, one for each, in dictionary order of their names. */
  ghost predicate CommitsOf(dir: PatchDir, work: seq<Change>) {
    && (forall i :: 0 <= i < |work| ==>
          HasPatchSuffix(work[i].subject) && work[i].subject in dir && work[i].diff == dir[work[i].subject])
    && (forall f <- dir :: HasPatchSuffix(f) ==> Change(f, dir[f]) in work)
    && (forall i, j :: 0 <= i < j < |work| ==> Precedes(work[i].subject, work[j].subject))
  }

  lemma PatchCommitsMeaning(ext: Extension, dir: PatchDir)
    ensures var work := PatchCommits(dir, Patches(ext, dir)); if ext.applyPatches then CommitsOf(dir, work) else work == []
  {
    if ext.applyPatches {
      NamesMeaning(dir);
      hide PatchFiles, HasPatchSuffix, IsPatch;
      CommitOfEach(dir, PatchFiles(dir));
      forall i, j | 0 <= i < j < |PatchFiles(dir)| ensures Precedes(PatchFiles(dir)[i], PatchFiles(dir)[j]) {
        LessMeaning(PatchFiles(dir)[i], PatchFiles(dir)[j]);
      }
      hide Precedes, Less;
    }
  }

  lemma NamesMeaning(dir: PatchDir)
    ensures forall i :: 0 <= i < |PatchFiles(dir)| ==> PatchFiles(dir)[i] in dir && HasPatchSuffix(PatchFiles(dir)[i])
    ensures forall f <- dir :: HasPatchSuffix(f) ==> f in PatchFiles(dir)
  {
    hide Ascending;
    forall i | 0 <= i < |PatchFiles(dir)| ensures PatchFiles(dir)[i] in dir && HasPatchSuffix(PatchFiles(dir)[i]) {
      assert PatchFiles(dir)[i] in PatchFiles(dir);
    }
  }

  lemma CommitOfEach(dir: PatchDir, patches: seq<string>)
    requires forall p <- patches :: p in dir
    ensures forall f <- patches :: Change(f, dir[f]) in PatchCommits(dir, patches)
  {
    forall f <- patches ensures Change(f, dir[f]) in PatchCommits(dir, patches) {
      var i :| 0 <= i < |patches| && patches[i] == f;
      assert PatchCommits(dir, patches)[i] == Change(f, dir[f]);
    }
  }

  /**
   A successful clone, update or force reset leaves HEAD at the tag followed by one commit for each patch file, with its
   name and its diff, in dictionary order of the names; none without APPLY_PATCHES.
   */
  lemma PatchesInOrder(w: World, ext: Extension, flags: Flags, repo: Option<Repo>, dir: PatchDir)
    requires !(repo.None? && flags.skipPatches) && Installs(Sync(w, ext, flags, repo, dir).outcome)
    ensures
      var s := Sync(w, ext, flags, repo, dir);
      && s.dir == dir && s.repo.Some? && s.repo.value.clean && ext.tag in s.repo.value.known
      && var tag, head := s.repo.value.known[ext.tag], s.repo.value.head;
      && |tag| <= |head| && head[..|tag|] == tag
      && if ext.applyPatches then CommitsOf(dir, head[|tag|..]) else head == tag
  {
    hide Sync, PatchCommits, PatchFiles, CommitsOf;
    SyncPostcondition(w, ext, flags, repo, dir);
    PatchCommitsMeaning(ext, dir);
    var s := Sync(w, ext, flags, repo, dir);
    var tag, work := s.repo.value.known[ext.tag], PatchCommits(dir, Patches(ext, dir));
    assert (tag + work)[..|tag|] == tag && (tag + work)[|tag|..] == work;
  }

  /** Export refuses anything but single words that end in .patch and stand in dictionary order, each once. */
  lemma ExportableMeaning(messages: seq<string>)
    ensures Exportable(messages) <==>
      && (forall i :: 0 <= i < |messages| ==> IsWord(messages[i]) && HasPatchSuffix(messages[i]))
      && (forall i, j :: 0 <= i < j < |messages| ==> Precedes(messages[i], messages[j]))
  {
    hide Precedes, Less, IsWord, WordCount;
    forall i | 0 <= i < |messages| ensures WordCount(messages[i]) == 1 <==> IsWord(messages[i]) {
      OneWord(messages[i]);
    }
    forall i, j | 0 <= i < j < |messages| ensures Less(messages[i], messages[j]) <==> Precedes(messages[i], messages[j]) {
      LessMeaning(messages[i], messages[j]);
    }
  }

  /**
   Skipping leaves an existing checkout alone whatever else is set; exporting writes patch files at most, never touches
   the checkout's commits, and wins over force; force goes to the tag whatever was there.
   */
  lemma ModePrecedence(w: World, ext: Extension, flags: Flags, r: Repo, dir: PatchDir)
    ensures var s := Sync(w, ext, flags, Some(r), dir);
      && s.repo.Some?
      && (flags.skipPatches ==> s == Synced(Some(r), dir, Skipped))
      && (!flags.skipPatches && flags.exportPatches ==> s.repo.value.head == r.head && s.repo.value.clean == r.clean)
      && (!flags.exportPatches ==> s.dir == dir)
      && (!flags.skipPatches && !flags.exportPatches && flags.force && ext.tag in r.known && !ext.applyPatches ==>
            s == Synced(Some(r.(head := r.known[ext.tag], clean := true)), dir, ForceReset))
  {
    hide WritePatches, Problem, PatchFiles, CheckClean, Log;
    if !flags.exportPatches {
      KeepsDir(w, ext, r, dir);
    }
  }

  lemma KeepsDir(w: World, ext: Extension, r: Repo, dir: PatchDir)
    ensures DefaultMode(w, ext, dir, r).dir == dir && DefaultMode(w, ext, dir, r).repo.Some?
    ensures ForceMode(w, ext, dir, r).dir == dir && ForceMode(w, ext, dir, r).repo.Some?
  {
    hide ApplyPatches, CheckClean, PatchFiles;
  }

  /**
   A tag that is not known locally is fetched: without the remote the command fails and nothing has changed, and a
   remote without the tag gives its refs and no more.  Uncommitted changes are refused before that by default.
   */
  lemma UnknownTag(w: World, ext: Extension, flags: Flags, r: Repo, dir: PatchDir)
    requires !flags.skipPatches && ext.tag !in r.known
    ensures var s := Sync(w, ext, flags, Some(r), dir);
      if !flags.exportPatches && !flags.force && !r.clean then s == Synced(Some(r), dir, NotClean(UncommittedChanges))
      else if !w.online then s == Synced(Some(r), dir, CommandFailed)
      else if ext.tag !in w.remote then
        s == Synced(Some(r.(known := w.remote + r.known)), dir, NotClean(UnresolvedRef))
      else s.repo.Some? && s.repo.value.known == w.remote + r.known
  {
    hide WritePatches, Problem, PatchFiles, Log, Subjects, Exportable, ApplyPatches;
    if w.online && ext.tag in w.remote {
      FinishKeepsRefs(w, ext, dir);
    }
  }

  predicate KeepsRefs(before: Repo, s: Synced) {
    s.repo.Some? && s.repo.value.known == before.known
  }

  lemma FinishKeepsRefs(w: World, ext: Extension, dir: PatchDir)
    ensures forall r, outcome :: KeepsRefs(r, Finish(w, ext, dir, r, outcome))
  {
    hide PatchFiles;
    forall r, outcome ensures KeepsRefs(r, Finish(w, ext, dir, r, outcome)) {
      ApplyPatchesMakesCommits(w, dir, r, Patches(ext, dir));
    }
  }

  /** A patch that does not apply stops the sync after the patches before it, and it alone can leave changes behind. */
  lemma {:induction false} FailedPatch(w: World, dir: PatchDir, r: Repo, patches: seq<string>) returns (k: nat)
    requires (forall p <- patches :: p in dir) && !ApplyPatches(w, dir, r, patches).1
    ensures k < |patches|
    ensures
      var (r1, ok) := ApplyPatches(w, dir, r, patches);
      && r1.known == r.known && r1.head == r.head + PatchCommits(dir, patches[..k])
      && !w.applies(r1.head, dir[patches[k]])
      && r1.clean == (r.clean && w.leavesClean(r1.head, dir[patches[k]]))
    decreases |patches|
  {
    var diff := dir[patches[0]];
    if !w.applies(r.head, diff) {
      k := 0;
      assert r.head + PatchCommits(dir, patches[..0]) == r.head;
    } else {
      var first := [Change(patches[0], diff)];
      var rest := FailedPatch(w, dir, r.(head := r.head + first), patches[1..]);
      k := rest + 1;
      PatchCommitsFirst(dir, patches[..k]);
      assert patches[..k][1..] == patches[1..][..rest];
      HistoryAssoc(r.head, first, PatchCommits(dir, patches[1..][..rest]));
    }
  }
}
