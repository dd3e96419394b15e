/** Which runs of starts, extractions, new snapshots and crashes are safe. */
module SnapshotSafety {
  import opened Common
  import opened SnapshotImages
  import opened Snapshot

  // ---------------------------------------------------------------- what can go wrong

  /** Each file is overwritten by some entry. */
  predicate Covered(files: Files, entries: seq<Entry>) {
    forall path :: path in files ==> exists k :: 0 <= k < |entries| && entries[k].path == path
  }

  /** The steps of a new snapshot that do harm. A file of the old data is removed while the marker is there; or the
      removal fails, with the marker still there and something to write, or with old data that will not be
      overwritten. */
  predicate Troubles(s: State, e: Event) {
    && s.phase.Removing? && s.phase.job.isNew
    && var files, ready := Dir(s, s.phase.images), Ready(Dir(s, s.phase.images), Display(s.phase.images));
       || (e.Remove? && ready && e.path in Data(files))
       || (e.RemovalFails? && ((ready && s.phase.job.entries != []) || !Covered(Data(files), s.phase.job.entries)))
  }

  ghost predicate Untroubled(archive: seq<Entry>, s: State, events: seq<Event>) {
    forall k :: 0 <= k < |events| ==> !Troubles(Run(archive, s, events[..k]), events[k])
  }

  /** The data that the snapshot completed last for these images was to consist of. */
  function Promised(s: State, images: Images): Option<Files> {
    if Display(images) in s.built then Some(s.built[Display(images)]) else None
  }

  /** A start now would use other data than that. */
  predicate Misleads(s: State, images: Images) {
    Uses(s, Start(images)) == Some(images) && Some(Data(Dir(s, images))) != Promised(s, images)
  }

  // ---------------------------------------------------------------- the invariant

  /** A directory that is ready has the data that was promised. */
  ghost predicate Intact(s: State) {
    forall text :: text in s.disk && Ready(s.disk[text], text) ==>
        text in s.built && Data(s.disk[text]) == s.built[text]
  }

  predicate SkipMarker(entries: seq<Entry>) {
    forall k :: 0 <= k < |entries| ==> entries[k].path != READY
  }

  predicate OnlyData(entries: seq<Entry>) {
    forall k :: 0 <= k < |entries| ==> IsData(entries[k].path)
  }

  /** Nothing is written to a directory that is ready, and what is written amounts to the job's data. */
  ghost predicate InProgress(s: State) {
    match s.phase
    case Idle => true
    case Removing(images, job) =>
      && SkipMarker(job.entries)
      && (if job.isNew then OnlyData(job.entries) else !Ready(Dir(s, images), Display(images)))
    case Filling(images, job, rest) =>
      && (Ready(Dir(s, images), Display(images)) ==> rest == []) && SkipMarker(rest)
      && Data(Written(Dir(s, images), rest)) == Data(Written(map[], job.entries))
    case Finishing(images, job, copied) =>
      copied ==> Data(Dir(s, images)) == Data(Written(map[], job.entries))
  }

  ghost predicate Sound(s: State) {
    Intact(s) && InProgress(s)
  }

  lemma {:induction false} WrittenAt(files: Files, entries: seq<Entry>, path: Path)
    ensures (forall k :: 0 <= k < |entries| ==> entries[k].path != path) ==>
              (path in Written(files, entries) <==> path in files) &&
              (path in files ==> Written(files, entries)[path] == files[path])
    ensures (exists k :: 0 <= k < |entries| && entries[k].path == path) ==>
              && path in Written(files, entries) && path in Written(map[], entries)
              && Written(files, entries)[path] == Written(map[], entries)[path]
    decreases |entries|
  {
    if entries != [] {
      var init, last := entries[..|entries| - 1], entries[|entries| - 1];
      assert entries == init + [last];
      WrittenSnoc(files, init, last);
      WrittenSnoc(map[], init, last);
      WrittenAt(files, init, path);
    }
  }

  /** Entries written over leftover files give exactly their own data if and only if all leftover data is
      overwritten. */
  lemma LeftoversIff(left: Files, entries: seq<Entry>)
    ensures Data(Written(left, entries)) == Data(Written(map[], entries)) <==> Covered(Data(left), entries)
  {
    var over, alone := Written(left, entries), Written(map[], entries);
    if Covered(Data(left), entries) {
      forall path | IsData(path)
        ensures (path in over <==> path in alone) && (path in over ==> over[path] == alone[path])
      {
        WrittenAt(left, entries, path);
        WrittenAt(map[], entries, path);
        assert path in left ==> path in Data(left);
      }
    } else {
      var path :| path in Data(left) && !exists k :: 0 <= k < |entries| && entries[k].path == path;
      WrittenAt(left, entries, path);
      WrittenAt(map[], entries, path);
      assert path in Data(over) && path !in Data(alone);
    }
  }

  // ---------------------------------------------------------------- each step keeps the invariant

  lemma PutUnready(s: State, images: Images, files: Files)
    requires Intact(s) && !Ready(files, Display(images))
    ensures Intact(Put(s, images, files))
  {
  }

  lemma PutSameData(s: State, images: Images, files: Files)
    requires Intact(s) && Ready(Dir(s, images), Display(images)) && Data(files) == Data(Dir(s, images))
    ensures Intact(Put(s, images, files))
  {
  }

  lemma IdleKeeps(archive: seq<Entry>, s: State, e: Event)
    requires s.phase.Idle? && Sound(s)
    ensures Sound(Step(archive, s, e))
  {
    if e.Create? {
      CopyableIsData(e.project);
    } else if e.Start? {
      UnpackableSkipsTheMarker(archive);
    }
  }

  lemma RemovingKeeps(archive: seq<Entry>, s: State, e: Event)
    requires s.phase.Removing? && Sound(s) && !Troubles(s, e)
    ensures Sound(Step(archive, s, e))
  {
    var images, job, files := s.phase.images, s.phase.job, Dir(s, s.phase.images);
    if e.Remove? && e.path in files {
      if Ready(files, Display(images)) {
        assert Data(files - {e.path}) == Data(files);
        PutSameData(s, images, files - {e.path});
      } else {
        PutUnready(s, images, files - {e.path});
      }
    } else if e.RemovalFails? && job.isNew && files != map[] {
      LeftoversIff(files, job.entries);
    }
  }

  lemma FillingKeeps(archive: seq<Entry>, s: State, e: Event)
    requires s.phase.Filling? && Sound(s)
    ensures Sound(Step(archive, s, e))
  {
    var images, rest, files := s.phase.images, s.phase.rest, Dir(s, s.phase.images);
    if e.WritePart? && rest != [] {
      PutUnready(s, images, files[rest[0].path := e.part]);
      PartIsOverwritten(files, rest, e.part);
    } else if e.WriteEntry? && rest != [] {
      PutUnready(s, images, files[rest[0].path := rest[0].content]);
    }
  }

  lemma FinishingKeeps(archive: seq<Entry>, s: State, e: Event)
    requires s.phase.Finishing? && Sound(s)
    ensures Sound(Step(archive, s, e))
  {
    var images, job, files := s.phase.images, s.phase.job, Dir(s, s.phase.images);
    if e.Export? && job.isNew {
      EventsAreNoData(files, e.events);
      if Ready(files, Display(images)) {
        PutSameData(s, images, files[["events_export", "events_cache.tsv"] := e.events]);
      } else {
        PutUnready(s, images, files[["events_export", "events_cache.tsv"] := e.events]);
      }
    } else if e.MarkerPart? && s.phase.copied && e.length < |Display(images)| {
      PutUnready(s, images, files[READY := Display(images)[..e.length]]);
      MarkerIsNoData(files, Display(images)[..e.length]);
    } else if e.MarkerWritten? && s.phase.copied {
      MarkerIsNoData(files, Display(images));
    }
  }

  lemma StepKeepsSound(archive: seq<Entry>, s: State, e: Event)
    requires Sound(s) && !Troubles(s, e)
    ensures Sound(Step(archive, s, e))
  {
    match s.phase
    case Idle => IdleKeeps(archive, s, e);
    case Removing(_, _) => RemovingKeeps(archive, s, e);
    case Filling(_, _, _) => FillingKeeps(archive, s, e);
    case Finishing(_, _, _) => FinishingKeeps(archive, s, e);
  }

  lemma {:induction false} RunKeepsSound(archive: seq<Entry>, s: State, events: seq<Event>)
    requires Sound(s) && Untroubled(archive, s, events)
    ensures Sound(Run(archive, s, events))
  {
    if events != [] {
      UntroubledBefore(archive, s, events);
      RunKeepsSound(archive, s, events[..|events| - 1]);
      StepKeepsSound(archive, Run(archive, s, events[..|events| - 1]), events[|events| - 1]);
    }
  }

  lemma UntroubledBefore(archive: seq<Entry>, s: State, events: seq<Event>)
    requires events != [] && Untroubled(archive, s, events)
    ensures Untroubled(archive, s, events[..|events| - 1])
    ensures !Troubles(Run(archive, s, events[..|events| - 1]), events[|events| - 1])
  {
    var init := events[..|events| - 1];
    forall k | 0 <= k < |init| ensures !Troubles(Run(archive, s, init[..k]), init[k]) {
      assert init[k] == events[k] && init[..k] == events[..k];
    }
  }

  lemma UntroubledOneMore(archive: seq<Entry>, s: State, events: seq<Event>)
    requires events != [] && Untroubled(archive, s, events[..|events| - 1])
    requires !Troubles(Run(archive, s, events[..|events| - 1]), events[|events| - 1])
    ensures Untroubled(archive, s, events)
  {
    var n := |events| - 1;
    var init := events[..n];
    forall k | 0 <= k < |events| ensures !Troubles(Run(archive, s, events[..k]), events[k]) {
      if k < n {
        assert init[k] == events[k] && init[..k] == events[..k];
      }
    }
  }

  // ---------------------------------------------------------------- harm, exactly

  /** Events that cannot trouble. */
  predicate Calm(events: seq<Event>) {
    forall k :: 0 <= k < |events| ==> !events[k].Remove? && !events[k].RemovalFails?
  }

  lemma CalmIsUntroubled(archive: seq<Entry>, s: State, events: seq<Event>)
    requires Calm(events)
    ensures Untroubled(archive, s, events)
  {
  }

  /** Some further steps, none of which troubles, bring it about that a start uses other data than was promised. */
  ghost predicate CanMislead(archive: seq<Entry>, s: State) {
    exists more, images :: Untroubled(archive, s, more) && Misleads(Run(archive, s, more), images)
  }

  /** A step troubles if and only if it can come to that after it. */
  lemma TroubleIff(archive: seq<Entry>, s: State, e: Event)
    requires Sound(s)
    ensures Troubles(s, e) <==> CanMislead(archive, Step(archive, s, e))
  {
    var after := Step(archive, s, e);
    if !Troubles(s, e) {
      StepKeepsSound(archive, s, e);
      forall more, images | Untroubled(archive, after, more) ensures !Misleads(Run(archive, after, more), images) {
        RunKeepsSound(archive, after, more);
        IntactDoesNotMislead(Run(archive, after, more), images);
      }
    } else {
      var images, entries, files := s.phase.images, s.phase.job.entries, Dir(s, s.phase.images);
      if e.Remove? {
        RemovedDataMisleads(archive, s, e.path);
        CalmIsUntroubled(archive, after, [Crash]);
      } else if Ready(files, Display(images)) && entries != [] {
        var part := OtherContent(files, entries[0].path);
        PartMisleadsIff(archive, s, part);
        CalmIsUntroubled(archive, after, [WritePart(part), Crash]);
      } else {
        LeftoversMislead(archive, s);
        CalmIsUntroubled(archive, after, FillAll(|entries|));
      }
    }
  }

  lemma IntactDoesNotMislead(s: State, images: Images)
    requires Intact(s)
    ensures !Misleads(s, images)
  {
  }

  function OtherContent(files: Files, path: Path): (content: string)
    ensures path in files ==> files[path] != content
  {
    if path in files && files[path] == "" then "x" else ""
  }

  lemma RunOne(archive: seq<Entry>, s: State, e: Event)
    ensures Run(archive, s, [e]) == Step(archive, s, e)
  {
    assert [e][..0] == [];
  }

  lemma RunTwo(archive: seq<Entry>, s: State, a: Event, b: Event)
    ensures Run(archive, s, [a, b]) == Step(archive, Step(archive, s, a), b)
  {
    RunOne(archive, s, a);
    assert [a, b][..1] == [a];
  }

  lemma RemovedDataMisleads(archive: seq<Entry>, s: State, path: Path)
    requires Sound(s) && Troubles(s, Remove(path))
    ensures Misleads(Run(archive, Step(archive, s, Remove(path)), [Crash]), s.phase.images)
  {
    var files := Dir(s, s.phase.images);
    RunOne(archive, Step(archive, s, Remove(path)), Crash);
    assert path in Data(files) && path !in Data(files - {path});
  }

  /** When the removal fails and a crash interrupts the first file, the next start uses other data than was promised if
      and only if the marker was left and the file's content changes. */
  lemma PartMisleadsIff(archive: seq<Entry>, s: State, part: string)
    requires Sound(s) && s.phase.Removing? && s.phase.job.isNew && Dir(s, s.phase.images) != map[] &&
               s.phase.job.entries != []
    ensures var images, files, path := s.phase.images, Dir(s, s.phase.images), s.phase.job.entries[0].path;
            Misleads(Run(archive, Step(archive, s, RemovalFails), [WritePart(part), Crash]), images)
            <==> Ready(files, Display(images)) && (path in files ==> files[path] != part)
  {
    var files, path := Dir(s, s.phase.images), s.phase.job.entries[0].path;
    RunTwo(archive, Step(archive, s, RemovalFails), WritePart(part), Crash);
    assert IsData(path) && Data(files[path := part])[path] == part;
    assert path in Data(files) <==> path in files;
    if path in files && files[path] == part {
      assert files[path := part] == files;
    }
  }

  /** Writes all the entries and the marker. */
  function FillAll(n: nat): seq<Event> {
    WriteAll(n) + [FillingEnds] + [MarkerWritten]
  }

  lemma {:induction false} WriteAllIsCalm(n: nat)
    ensures Calm(WriteAll(n))
  {
    if n > 0 {
      WriteAllIsCalm(n - 1);
    }
  }

  lemma FillAllIsCalm(n: nat)
    ensures Calm(FillAll(n))
  {
    WriteAllIsCalm(n);
  }

  lemma FillAllFills(archive: seq<Entry>, s: State)
    requires s.phase.Filling? && s.phase.rest == s.phase.job.entries
    ensures var images, entries := s.phase.images, s.phase.job.entries;
            var after := Run(archive, s, FillAll(|entries|));
            && after.phase == Idle
            && Dir(after, images) == Written(Dir(s, images), entries)[READY := Display(images)]
            && Promised(after, images) == Some(Data(Written(map[], entries)))
  {
    var entries := s.phase.job.entries;
    var n := |entries|;
    WriteAllWrites(archive, s, n);
    assert entries[n..] == [] && entries[..n] == entries;
    Ending(archive, Run(archive, s, WriteAll(n)));
    RunOneMore(archive, s, WriteAll(n), FillingEnds);
    RunOneMore(archive, s, WriteAll(n) + [FillingEnds], MarkerWritten);
  }

  /** A new snapshot that goes on after a failed removal promises its own data and has other data if and only if some
      leftover data is not overwritten. */
  lemma LeftoversMisleadIff(archive: seq<Entry>, s: State)
    requires s.phase.Removing? && s.phase.job.isNew && Dir(s, s.phase.images) != map[]
    ensures var images, entries := s.phase.images, s.phase.job.entries;
            Misleads(Run(archive, Step(archive, s, RemovalFails), FillAll(|entries|)), images)
            <==> !Covered(Data(Dir(s, images)), entries)
  {
    var images, entries, files := s.phase.images, s.phase.job.entries, Dir(s, s.phase.images);
    FillAllFills(archive, Step(archive, s, RemovalFails));
    MarkerIsNoData(Written(files, entries), Display(images));
    LeftoversIff(files, entries);
  }

  lemma LeftoversMislead(archive: seq<Entry>, s: State)
    requires Troubles(s, RemovalFails) && !Covered(Data(Dir(s, s.phase.images)), s.phase.job.entries)
    ensures Misleads(Run(archive, Step(archive, s, RemovalFails), FillAll(|s.phase.job.entries|)), s.phase.images)
    ensures Calm(FillAll(|s.phase.job.entries|))
  {
    assert Dir(s, s.phase.images) != map[];
    LeftoversMisleadIff(archive, s);
    FillAllIsCalm(|s.phase.job.entries|);
  }

  function RemoveAll(paths: seq<Path>): seq<Event> {
    if paths == [] then [] else RemoveAll(paths[..|paths| - 1]) + [Remove(paths[|paths| - 1])]
  }

  lemma {:induction false} RemoveAllRemoves(archive: seq<Entry>, s: State, paths: seq<Path>)
    requires s.phase.Removing?
    ensures var after := Run(archive, s, RemoveAll(paths));
            && after.phase == s.phase && after.built == s.built
            && Dir(after, s.phase.images) == Dir(s, s.phase.images) - Elements(paths)
  {
    var images := s.phase.images;
    if paths != [] {
      var init, last := paths[..|paths| - 1], paths[|paths| - 1];
      RemoveAllRemoves(archive, s, init);
      RunOneMore(archive, s, RemoveAll(init), Remove(last));
      OneRemoval(archive, Run(archive, s, RemoveAll(init)), last);
      RemovedOneMore(Dir(s, images), init, last);
      assert paths == init + [last];
    } else {
      assert Dir(s, images) - Elements(paths) == Dir(s, images);
    }
  }

  lemma OneRemoval(archive: seq<Entry>, s: State, path: Path)
    requires s.phase.Removing?
    ensures var after := Step(archive, s, Remove(path));
            && after.phase == s.phase && after.built == s.built
            && Dir(after, s.phase.images) == Dir(s, s.phase.images) - {path}
  {
    if path !in Dir(s, s.phase.images) {
      assert Dir(s, s.phase.images) - {path} == Dir(s, s.phase.images);
    }
  }

  lemma RemovedOneMore(files: Files, paths: seq<Path>, path: Path)
    ensures files - Elements(paths + [path]) == files - Elements(paths) - {path}
  {
    assert Elements(paths + [path]) == Elements(paths) + {path};
  }

  lemma RemovedDataIff(files: Files, removed: seq<Path>)
    ensures Data(files - Elements(removed)) == Data(files) <==> !exists path :: path in removed && path in Data(files)
  {
    if path :| path in removed && path in Data(files) {
      assert path !in Data(files - Elements(removed));
    } else {
      assert forall path :: path in Data(files) ==> path !in Elements(removed);
    }
  }

  /** When a new snapshot begins and a crash interrupts the removal, the next start uses other data than was
      promised if and only if the directory was ready, the marker was not among the removed files, and some data
      was. */
  lemma RemovedMisleadsIff(archive: seq<Entry>, s: State, images: Images, project: seq<Entry>, removed: seq<Path>)
    requires Sound(s) && s.phase.Idle?
    ensures Misleads(Run(archive, s, [Create(images, project)] + RemoveAll(removed) + [Crash]), images)
            <==> Ready(Dir(s, images), Display(images)) && READY !in removed
                 && exists path :: path in removed && path in Data(Dir(s, images))
  {
    var removing := Step(archive, s, Create(images, project));
    RunOne(archive, s, Create(images, project));
    RunConcat(archive, s, [Create(images, project)], RemoveAll(removed));
    RunOneMore(archive, s, [Create(images, project)] + RemoveAll(removed), Crash);
    RemoveAllRemoves(archive, removing, removed);
    RemovedDataIff(Dir(s, images), removed);
    CrashedMisleadsIff(archive, s, Run(archive, removing, RemoveAll(removed)), images, removed);
  }

  lemma CrashedMisleadsIff(archive: seq<Entry>, s: State, removing: State, images: Images, removed: seq<Path>)
    requires Sound(s) && !removing.phase.Idle? && removing.built == s.built
    requires Dir(removing, images) == Dir(s, images) - Elements(removed)
    ensures Misleads(Step(archive, removing, Crash), images)
            <==> Ready(Dir(s, images), Display(images)) && READY !in removed
                 && Data(Dir(s, images) - Elements(removed)) != Data(Dir(s, images))
  {
    assert Dir(Step(archive, removing, Crash), images) == Dir(removing, images);
    assert READY in Elements(removed) <==> READY in removed;
  }

  lemma {:induction false} RunConcat(archive: seq<Entry>, s: State, a: seq<Event>, b: seq<Event>)
    ensures Run(archive, s, a + b) == Run(archive, Run(archive, s, a), b)
  {
    if b == [] {
      AppendNothing(a);
    } else {
      InitOfConcat(a, b);
      RunConcat(archive, s, a, b[..|b| - 1]);
    }
  }

  // ---------------------------------------------------------------- harm is reached

  /** A new snapshot that nothing interrupts. */
  function NewSnapshot(images: Images, project: seq<Entry>): seq<Event> {
    [Create(images, project), RemovalEnds] + FillAll(|Copyable(project)|)
  }

  lemma NewSnapshotIsReady(archive: seq<Entry>, images: Images, project: seq<Entry>)
    ensures Untroubled(archive, EMPTY, NewSnapshot(images, project))
    ensures var s, data := Run(archive, EMPTY, NewSnapshot(images, project)), Data(Written(map[], Copyable(project)));
            && s.phase == Idle && Ready(Dir(s, images), Display(images))
            && Data(Dir(s, images)) == data && Promised(s, images) == Some(data)
  {
    var job := Job(Copyable(project), true);
    var filling := Run(archive, EMPTY, [Create(images, project), RemovalEnds]);
    RunTwo(archive, EMPTY, Create(images, project), RemovalEnds);
    assert filling.phase == Filling(images, job, job.entries) && Dir(filling, images) == map[];
    FillAllFills(archive, filling);
    FillAllIsCalm(|Copyable(project)|);
    RunConcat(archive, EMPTY, [Create(images, project), RemovalEnds], FillAll(|Copyable(project)|));
    MarkerIsNoData(Written(map[], Copyable(project)), Display(images));
    CalmIsUntroubled(archive, EMPTY, NewSnapshot(images, project));
  }

  /** Every way to trouble is reached from an empty cache: after one snapshot of a project with some file, a second
      one is begun, and the file is removed; or the removal fails, at once or when the marker is gone. */
  lemma TroubleIsReached(archive: seq<Entry>, images: Images, project: seq<Entry>, other: seq<Entry>, path: Path)
    requires path in Data(Written(map[], Copyable(project)))
    ensures var events := NewSnapshot(images, project) + [Create(images, other)];
            var s := Run(archive, EMPTY, events);
            && Untroubled(archive, EMPTY, events)
            && Troubles(s, Remove(path))
            && (Copyable(other) != [] ==> Troubles(s, RemovalFails))
            && !Troubles(s, Remove(READY))
            && ((forall k :: 0 <= k < |Copyable(other)| ==> Copyable(other)[k].path != path) ==>
                  Troubles(Step(archive, s, Remove(READY)), RemovalFails))
  {
    var first, events := NewSnapshot(images, project), NewSnapshot(images, project) + [Create(images, other)];
    NewSnapshotIsReady(archive, images, project);
    RunOneMore(archive, EMPTY, first, Create(images, other));
    forall k | 0 <= k < |events| ensures !Troubles(Run(archive, EMPTY, events[..k]), events[k]) {
      if k < |first| {
        assert events[..k] == first[..k] && events[k] == first[k];
      } else {
        assert events[..k] == first;
      }
    }
    var s := Run(archive, EMPTY, events);
    var files := Dir(s, images);
    assert Data(files - {READY}) == Data(files);
    assert path in Data(files);
  }

  // ---------------------------------------------------------------- whose data it is

  /** The data is that of a snapshot built with these images: of the embedded one, or of one begun in this history. */
  ghost predicate DataFor(archive: seq<Entry>, events: seq<Event>, images: Images, data: Files) {
    || (images == DEFAULT && data == Data(Written(map[], Unpackable(archive))))
    || exists j :: 0 <= j < |events| && Built(events[j], images, data)
  }

  predicate Built(e: Event, images: Images, data: Files) {
    e.Create? && e.newImages == images && data == Data(Written(map[], Copyable(e.project)))
  }

  /** The job in progress builds a snapshot with these images. */
  ghost predicate JobFor(archive: seq<Entry>, events: seq<Event>, images: Images, job: Job) {
    if job.isNew then exists j :: 0 <= j < |events| && Begins(events[j], images, job)
    else images == DEFAULT && job.entries == Unpackable(archive)
  }

  predicate Begins(e: Event, images: Images, job: Job) {
    e.Create? && e.newImages == images && job.entries == Copyable(e.project)
  }

  ghost predicate PromisedFor(archive: seq<Entry>, events: seq<Event>, text: string, data: Files) {
    exists images :: Display(images) == text && DataFor(archive, events, images, data)
  }

  /** What is promised is the data of snapshots built with images that display so. */
  ghost predicate Recorded(archive: seq<Entry>, events: seq<Event>, s: State) {
    && (forall text :: text in s.built ==> PromisedFor(archive, events, text, s.built[text]))
    && (!s.phase.Idle? ==> JobFor(archive, events, s.phase.images, s.phase.job))
  }

  lemma MoreHistory(archive: seq<Entry>, events: seq<Event>, e: Event, s: State)
    requires Recorded(archive, events, s)
    ensures Recorded(archive, events + [e], s)
  {
    var more := events + [e];
    forall text | text in s.built ensures PromisedFor(archive, more, text, s.built[text]) {
      var images :| Display(images) == text && DataFor(archive, events, images, s.built[text]);
      if j :| 0 <= j < |events| && Built(events[j], images, s.built[text]) {
        assert Built(more[j], images, s.built[text]);
      }
      assert DataFor(archive, more, images, s.built[text]);
    }
    if !s.phase.Idle? && s.phase.job.isNew {
      var j :| 0 <= j < |events| && Begins(events[j], s.phase.images, s.phase.job);
      assert Begins(more[j], s.phase.images, s.phase.job);
    }
  }

  lemma JobIsData(archive: seq<Entry>, events: seq<Event>, images: Images, job: Job)
    requires JobFor(archive, events, images, job)
    ensures DataFor(archive, events, images, Data(Written(map[], job.entries)))
  {
    if job.isNew {
      var j :| 0 <= j < |events| && Begins(events[j], images, job);
      assert Built(events[j], images, Data(Written(map[], job.entries)));
    }
  }

  lemma StepKeepsRecorded(archive: seq<Entry>, events: seq<Event>, s: State, e: Event)
    requires Recorded(archive, events, s)
    ensures Recorded(archive, events + [e], Step(archive, s, e))
  {
    MoreHistory(archive, events, e, s);
    if s.phase.Idle? {
      BeginIsRecorded(archive, events, s, e);
    } else if s.phase.Finishing? && e.MarkerWritten? && s.phase.copied {
      CompletionIsRecorded(archive, events + [e], s);
    }
  }

  lemma BeginIsRecorded(archive: seq<Entry>, events: seq<Event>, s: State, e: Event)
    requires s.phase.Idle? && Recorded(archive, events + [e], s)
    ensures Recorded(archive, events + [e], Step(archive, s, e))
  {
    if e.Create? {
      assert Begins((events + [e])[|events|], e.newImages, Job(Copyable(e.project), true));
    }
  }

  lemma CompletionIsRecorded(archive: seq<Entry>, events: seq<Event>, s: State)
    requires s.phase.Finishing? && s.phase.copied && Recorded(archive, events, s)
    ensures Recorded(archive, events, Step(archive, s, MarkerWritten))
  {
    JobIsData(archive, events, s.phase.images, s.phase.job);
    assert PromisedFor(archive, events, Display(s.phase.images), Data(Written(map[], s.phase.job.entries)));
  }

  lemma {:induction false} RunIsRecorded(archive: seq<Entry>, events: seq<Event>)
    ensures Recorded(archive, events, Run(archive, EMPTY, events))
  {
    if events != [] {
      var init, last := events[..|events| - 1], events[|events| - 1];
      RunIsRecorded(archive, init);
      StepKeepsRecorded(archive, init, Run(archive, EMPTY, init), last);
      assert events == init + [last];
    }
  }

  /** The directory is ready, and has exactly the data of a snapshot built with these images. */
  ghost predicate CompleteFor(archive: seq<Entry>, events: seq<Event>, images: Images, files: Files) {
    Ready(files, Display(images)) && DataFor(archive, events, images, Data(files))
  }

  /** Over any sequence of starts, extractions, new snapshots and crashes at any point, none of which troubles, a
      step that decides to use a snapshot finds the directory ready and its data complete for its own images. */
  lemma UsedSnapshotIsComplete(archive: seq<Entry>, events: seq<Event>, e: Event, images: Images)
    requires Untroubled(archive, EMPTY, events) && !Ambiguous(images)
    requires Uses(Run(archive, EMPTY, events), e) == Some(images)
    ensures CompleteFor(archive, events, images, Dir(Step(archive, Run(archive, EMPTY, events), e), images))
  {
    var s := Run(archive, EMPTY, events);
    RunKeepsSound(archive, EMPTY, events);
    RunIsRecorded(archive, events);
    if s.phase.Idle? {
      var other :| Display(other) == Display(images) && DataFor(archive, events, other, s.built[Display(images)]);
      SharedIff(images);
      assert other == images;
    } else {
      MarkerIsNoData(Dir(s, images), Display(images));
      JobIsData(archive, events, images, s.phase.job);
    }
  }

  /** Whatever untroubled run precedes it, a step that uses a snapshot for these images finds one built with them. */
  ghost predicate IsSafe(images: Images) {
    forall archive, events, e ::
      Untroubled(archive, EMPTY, events) && Uses(Run(archive, EMPTY, events), e) == Some(images) ==>
        CompleteFor(archive, events, images, Dir(Step(archive, Run(archive, EMPTY, events), e), images))
  }

  /** That is so exactly for images that are not ambiguous. */
  lemma SafeIff(images: Images)
    ensures IsSafe(images) <==> !Ambiguous(images)
  {
    if !Ambiguous(images) {
      forall archive, events, e | Untroubled(archive, EMPTY, events) &&
          Uses(Run(archive, EMPTY, events), e) == Some(images)
        ensures CompleteFor(archive, events, images, Dir(Step(archive, Run(archive, EMPTY, events), e), images))
      {
        UsedSnapshotIsComplete(archive, events, e, images);
      }
    } else {
      var other := AmbiguousHasOther(images);
      BuiltWithOther(images, other);
    }
  }

  /** An archive with one file. */
  const ARCHIVE: seq<Entry> := [Entry(["devnet", "file"], "")]

  lemma ArchiveHasData()
    ensures Data(Written(map[], Unpackable(ARCHIVE))) != map[]
  {
    assert ARCHIVE[1..] == [] && ARCHIVE[0].path[1..] == ["file"];
    var entries := Unpackable(ARCHIVE);
    assert entries == [Entry(["file"], "")] + [];
    assert entries[1..] == [];
    assert ["file"] != READY by {
      assert |"file"| != |MARKER|;
    }
    assert "file" != "events_export" by {
      assert |"file"| != |"events_export"|;
    }
    assert ["file"] in Data(Written(map[], entries));
  }

  /** A new snapshot built with other images that display alike is used for these. */
  lemma BuiltWithOther(images: Images, other: Images)
    requires images != other && Display(images) == Display(other)
    ensures Untroubled(ARCHIVE, EMPTY, NewSnapshot(other, []))
    ensures var s := Run(ARCHIVE, EMPTY, NewSnapshot(other, []));
            && Uses(s, Start(images)) == Some(images)
            && !CompleteFor(ARCHIVE, NewSnapshot(other, []), images, Dir(Step(ARCHIVE, s, Start(images)), images))
  {
    NewSnapshotIsReady(ARCHIVE, other, []);
    ArchiveHasData();
    assert Copyable([]) == [];
    assert forall k :: 0 <= k < |NewSnapshot(other, [])| ==> !NewSnapshot(other, [])[k].Create? || k == 0;
    assert Data(map[]) == map[];
  }

  // ---------------------------------------------------------------- without new snapshots

  predicate IsOld(phase: Phase) {
    phase.Idle? || !phase.job.isNew
  }

  lemma OldStaysOld(archive: seq<Entry>, s: State, e: Event)
    requires IsOld(s.phase) && !e.Create?
    ensures IsOld(Step(archive, s, e).phase) && !Troubles(s, e)
  {
  }

  /** Without new snapshots nothing can trouble: extraction alone is safe whatever happens to it. */
  lemma {:induction false} ExtractionIsNeverTroubled(archive: seq<Entry>, events: seq<Event>)
    requires forall k :: 0 <= k < |events| ==> !events[k].Create?
    ensures Untroubled(archive, EMPTY, events)
    ensures IsOld(Run(archive, EMPTY, events).phase)
  {
    if events != [] {
      var n := |events| - 1;
      var init := events[..n];
      ExtractionIsNeverTroubled(archive, init);
      OldStaysOld(archive, Run(archive, EMPTY, init), events[n]);
      UntroubledOneMore(archive, EMPTY, events);
    }
  }
}
