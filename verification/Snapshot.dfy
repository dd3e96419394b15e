/** The devnet snapshots in the cache: one directory for each set of images, ready when its marker says so. */
module Snapshot {
  import opened Common
  import opened SnapshotImages

  type Path = seq<string>

  type Files = map<Path, string>

  datatype Entry = Entry(path: Path, content: string)

  const MARKER: string := "epoch_4_ready"
  const READY: Path := [MARKER]

  // ---------------------------------------------------------------- what a snapshot is made of

  /** What unpacking writes: the entries under `devnet`, their own marker aside. */
  function Unpackable(archive: seq<Entry>): seq<Entry> {
    if archive == [] then []
    else
      var path := archive[0].path;
      (if path == [] || path[0] != "devnet" || path[1..] == READY then [] else [Entry(path[1..], archive[0].content)])
      + Unpackable(archive[1..])
  }

  const EXCLUDED: seq<string> := ["event_observers.sqlite", "event_observers.sqlite-journal"]

  predicate Excluded(path: Path) {
    exists i :: 1 <= i < |path| && path[i] in EXCLUDED
  }

  /** The files of one top directory of a project. */
  function Under(project: seq<Entry>, name: string, excluding: bool): seq<Entry> {
    if project == [] then []
    else
      var path := project[0].path;
      (if path == [] || path[0] != name || (excluding && Excluded(path)) then [] else [project[0]])
      + Under(project[1..], name, excluding)
  }

  /** What a project's chain data contributes to a snapshot. */
  function Copyable(project: seq<Entry>): seq<Entry> {
    Under(project, "bitcoin", false) + Under(project, "stacks", true)
  }

  /** The entries written one after the other. */
  function Written(files: Files, entries: seq<Entry>): Files
    decreases |entries|
  {
    if entries == [] then files else Written(files[entries[0].path := entries[0].content], entries[1..])
  }

  /** The files of a snapshot: neither the marker nor the exported events, which are optional. */
  function Data(files: Files): Files {
    map path | path in files && IsData(path) :: files[path]
  }

  predicate IsData(path: Path) {
    path != READY && (path == [] || path[0] != "events_export")
  }

  predicate Ready(files: Files, text: string) {
    READY in files && files[READY] == text
  }

  // ---------------------------------------------------------------- the plan

  datatype Plan = UseCached | ExtractEmbedded | RunFromGenesis

  function PlanFor(marker: Option<string>, images: Images): Plan {
    if marker == Some(Display(images)) then UseCached
    else if images == DEFAULT then ExtractEmbedded
    else RunFromGenesis
  }

  function MarkerOf(files: Files): Option<string> {
    if READY in files then Some(files[READY]) else None
  }

  // ---------------------------------------------------------------- steps on the disk

  /** What fills a directory: entries in order. A new snapshot goes on when the old one cannot be removed. */
  datatype Job = Job(entries: seq<Entry>, isNew: bool)

  datatype Phase =
    | Idle
    | Removing(images: Images, job: Job)
    | Filling(images: Images, job: Job, rest: seq<Entry>)
    | Finishing(images: Images, job: Job, copied: bool)

  /** Directories by the display of their images, whose hash is their name; and for each display, the data that the
      snapshot completed last was to consist of. */
  datatype State = State(disk: map<string, Files>, built: map<string, Files>, phase: Phase)

  const EMPTY: State := State(map[], map[], Idle)

  function Dir(s: State, images: Images): Files {
    if Display(images) in s.disk then s.disk[Display(images)] else map[]
  }

  function Put(s: State, images: Images, files: Files): State {
    s.(disk := s.disk[Display(images) := files])
  }

  function Complete(s: State, images: Images, job: Job): State {
    s.(built := s.built[Display(images) := Data(Written(map[], job.entries))], phase := Idle)
  }

  datatype Event =
    | Start(images: Images)
    | Create(newImages: Images, project: seq<Entry>)
    | Remove(path: Path)
    | RemovalEnds
    | RemovalFails
    | WritePart(part: string)
    | WriteEntry
    | FillingEnds
    | FillingFails
    | Export(events: string)
    | MarkerPart(length: nat)
    | MarkerWritten
    | Crash

  /** One step of the program; an event that cannot happen now changes nothing. */
  function Step(archive: seq<Entry>, s: State, e: Event): State {
    match (s.phase, e)
    case (Idle, Start(images)) =>
      if PlanFor(MarkerOf(Dir(s, images)), images) == ExtractEmbedded
      then s.(phase := Removing(images, Job(Unpackable(archive), false)))
      else s
    case (Idle, Create(images, project)) => s.(phase := Removing(images, Job(Copyable(project), true)))
    case (Removing(images, job), Remove(path)) =>
      if path in Dir(s, images) then Put(s, images, Dir(s, images) - {path}) else s
    case (Removing(images, job), RemovalEnds) =>
      if Dir(s, images) == map[] then s.(phase := Filling(images, job, job.entries)) else s
    case (Removing(images, job), RemovalFails) =>
      if Dir(s, images) == map[] then s
      else s.(phase := if job.isNew then Filling(images, job, job.entries) else Idle)
    case (Filling(images, job, rest), WritePart(part)) =>
      if rest == [] then s else Put(s, images, Dir(s, images)[rest[0].path := part])
    case (Filling(images, job, rest), WriteEntry) =>
      if rest == [] then s
      else Put(s, images, Dir(s, images)[rest[0].path := rest[0].content]).(phase := Filling(images, job, rest[1..]))
    case (Filling(images, job, rest), FillingEnds) =>
      if rest == [] then s.(phase := Finishing(images, job, true)) else s
    case (Filling(images, job, rest), FillingFails) =>
      s.(phase := if job.isNew then Finishing(images, job, false) else Idle)
    case (Finishing(images, job, copied), Export(events)) =>
      if job.isNew then Put(s, images, Dir(s, images)[["events_export", "events_cache.tsv"] := events]) else s
    case (Finishing(images, job, copied), MarkerPart(length)) =>
      if copied && length < |Display(images)|
      then Put(s, images, Dir(s, images)[READY := Display(images)[..length]]) else s
    case (Finishing(images, job, copied), MarkerWritten) =>
      if copied then Complete(Put(s, images, Dir(s, images)[READY := Display(images)]), images, job) else s
    case (_, Crash) => s.(phase := Idle)
    case _ => s
  }

  function Run(archive: seq<Entry>, s: State, events: seq<Event>): State {
    if events == [] then s
    else Step(archive, Run(archive, s, events[..|events| - 1]), events[|events| - 1])
  }

  /** The images for which this step decides to use a snapshot. */
  function Uses(s: State, e: Event): Option<Images> {
    match (s.phase, e)
    case (Idle, Start(images)) =>
      if PlanFor(MarkerOf(Dir(s, images)), images) == UseCached then Some(images) else None
    case (Finishing(images, job, copied), MarkerWritten) => if copied && !job.isNew then Some(images) else None
    case _ => None
  }

  // ---------------------------------------------------------------- what is copied and unpacked

  lemma {:induction false} UnderIff(project: seq<Entry>, name: string, excluding: bool, e: Entry)
    ensures e in Under(project, name, excluding) <==>
              && e in project && e.path != [] && e.path[0] == name
              && (excluding ==> forall i :: 1 <= i < |e.path| ==>
                    e.path[i] != "event_observers.sqlite" && e.path[i] != "event_observers.sqlite-journal")
  {
    ExcludedIff(e.path);
    if project != [] {
      UnderIff(project[1..], name, excluding, e);
    }
  }

  lemma ExcludedIff(path: Path)
    ensures Excluded(path) <==>
              exists i :: && 1 <= i < |path|
                          && (path[i] == "event_observers.sqlite" || path[i] == "event_observers.sqlite-journal")
  {
    assert EXCLUDED[0] == "event_observers.sqlite" && EXCLUDED[1] == "event_observers.sqlite-journal";
  }

  /** A new snapshot takes all of a project's Bitcoin data, and of its Stacks data everything but the event observer's
      database and its journal, at any depth. */
  lemma CopyableIff(project: seq<Entry>, e: Entry)
    ensures e in Copyable(project) <==>
              && e in project && e.path != []
              && (|| e.path[0] == "bitcoin"
                  || (e.path[0] == "stacks" && forall i :: 1 <= i < |e.path| ==>
                        e.path[i] != "event_observers.sqlite" && e.path[i] != "event_observers.sqlite-journal"))
  {
    UnderIff(project, "bitcoin", false, e);
    UnderIff(project, "stacks", true, e);
  }

  /** Unpacking keeps what the archive has below `devnet`, by its path from there, but no marker. */
  lemma {:induction false} UnpackableIff(archive: seq<Entry>, e: Entry)
    ensures e in Unpackable(archive) <==>
              e.path != ["epoch_4_ready"] && Entry(["devnet"] + e.path, e.content) in archive
  {
    if archive != [] {
      UnpackableIff(archive[1..], e);
      var path := archive[0].path;
      assert path != [] && path[0] == "devnet" ==> path == ["devnet"] + path[1..];
      assert (["devnet"] + e.path)[1..] == e.path;
    }
  }

  /** Of the entries for a path, the last one stays; other paths are left alone. */
  lemma {:induction false} LastWritten(files: Files, entries: seq<Entry>, path: Path, k: int)
    requires -1 <= k < |entries| && (k >= 0 ==> entries[k].path == path)
    requires forall j :: k < j < |entries| ==> entries[j].path != path
    ensures var written := Written(files, entries);
            if k >= 0 then path in written && written[path] == entries[k].content
            else (path in written <==> path in files) && (path in files ==> written[path] == files[path])
    decreases |entries|
  {
    if entries != [] {
      LastWritten(files[entries[0].path := entries[0].content], entries[1..], path, if k >= 0 then k - 1 else -1);
    }
  }

  // ---------------------------------------------------------------- facts about files and runs

  lemma {:induction false} UnpackableSkipsTheMarker(archive: seq<Entry>)
    ensures forall k :: 0 <= k < |Unpackable(archive)| ==> Unpackable(archive)[k].path != READY
  {
    if archive != [] {
      UnpackableSkipsTheMarker(archive[1..]);
    }
  }

  lemma {:induction false} UnderIsUnder(project: seq<Entry>, name: string, excluding: bool)
    ensures forall k :: 0 <= k < |Under(project, name, excluding)| ==>
              var path := Under(project, name, excluding)[k].path; path != [] && path[0] == name
  {
    if project != [] {
      UnderIsUnder(project[1..], name, excluding);
    }
  }

  lemma CopyableIsData(project: seq<Entry>)
    ensures forall k :: 0 <= k < |Copyable(project)| ==> IsData(Copyable(project)[k].path)
  {
    UnderIsUnder(project, "bitcoin", false);
    UnderIsUnder(project, "stacks", true);
  }

  /** A part of an entry is overwritten by the whole of it. */
  lemma PartIsOverwritten(files: Files, rest: seq<Entry>, part: string)
    requires rest != []
    ensures Written(files[rest[0].path := part], rest) == Written(files, rest)
  {
    var e := rest[0];
    assert files[e.path := part][e.path := e.content] == files[e.path := e.content];
  }

  lemma MarkerIsNoData(files: Files, text: string)
    ensures Data(files[READY := text]) == Data(files)
  {
  }

  lemma EventsAreNoData(files: Files, text: string)
    ensures Data(files[["events_export", "events_cache.tsv"] := text]) == Data(files)
  {
  }

  lemma ThreeSteps(archive: seq<Entry>, s: State, a: Event, b: Event, c: Event)
    ensures Run(archive, s, [a, b, c]) == Step(archive, Step(archive, Step(archive, s, a), b), c)
  {
    RunOneMore(archive, s, [], a);
    RunOneMore(archive, s, [a], b);
    RunOneMore(archive, s, [a, b], c);
    assert [] + [a] == [a] && [a] + [b] == [a, b] && [a, b] + [c] == [a, b, c];
  }

  lemma RunOneMore(archive: seq<Entry>, s: State, events: seq<Event>, e: Event)
    ensures Run(archive, s, events + [e]) == Step(archive, Run(archive, s, events), e)
  {
    assert (events + [e])[..|events + [e]| - 1] == events;
  }

  /** Whether or not all files could be copied, the events that a new snapshot exports are put beside them, and nothing
      else changes; an extraction exports none. Copying that fails ends an extraction, and a new snapshot without a
      marker. */
  lemma ExportIsAside(archive: seq<Entry>, s: State, events: string, path: Path)
    requires s.phase.Finishing?
    ensures var before, after := Dir(s, s.phase.images), Dir(Step(archive, s, Export(events)), s.phase.images);
            if s.phase.job.isNew && path == ["events_export", "events_cache.tsv"]
            then path in after && after[path] == events
            else (path in after <==> path in before) && (path in before ==> after[path] == before[path])
    ensures Step(archive, s, Export(events)).phase == s.phase
  {
  }

  lemma FailedCopying(archive: seq<Entry>, s: State, later: Event)
    requires s.phase.Filling? && (later.MarkerPart? || later.MarkerWritten?)
    ensures var failed := Step(archive, s, FillingFails);
            && failed.disk == s.disk && (failed.phase.Idle? <==> !s.phase.job.isNew)
            && Step(archive, failed, later).disk == s.disk
  {
  }

  // ---------------------------------------------------------------- the program itself

  lemma {:induction false} WrittenSnoc(files: Files, entries: seq<Entry>, e: Entry)
    ensures Written(files, entries + [e]) == Written(files, entries)[e.path := e.content]
    decreases |entries|
  {
    if entries == [] {
      assert entries + [e] == [e] && [e][1..] == [];
    } else {
      var all := entries + [e];
      assert all[0] == entries[0] && all[1..] == entries[1..] + [e];
      WrittenSnoc(files[entries[0].path := entries[0].content], entries[1..], e);
    }
  }

  lemma {:induction false} UnpackableSnoc(archive: seq<Entry>, e: Entry)
    ensures Unpackable(archive + [e]) == Unpackable(archive) + Unpackable([e])
  {
    if archive == [] {
      assert archive + [e] == [e];
    } else {
      assert (archive + [e])[1..] == archive[1..] + [e];
      UnpackableSnoc(archive[1..], e);
    }
  }

  /** One entry of the archive, once its path is known to be kept. */
  lemma UnpackOne(archive: seq<Entry>, e: Entry)
    ensures Written(map[], Unpackable(archive + [e]))
         == if e.path == [] || e.path[0] != "devnet" || e.path[1..] == READY then Written(map[], Unpackable(archive))
            else Written(map[], Unpackable(archive))[e.path[1..] := e.content]
  {
    UnpackableSnoc(archive, e);
    assert [e][1..] == [] && Unpackable([]) == [];
    if !(e.path == [] || e.path[0] != "devnet" || e.path[1..] == READY) {
      var kept := Entry(e.path[1..], e.content);
      assert Unpackable([e]) == [kept];
      WrittenSnoc(map[], Unpackable(archive), kept);
    } else {
      assert Unpackable([e]) == [];
      assert Unpackable(archive) + [] == Unpackable(archive);
    }
  }

  lemma {:induction false} WrittenPaths(files: Files, entries: seq<Entry>)
    requires READY !in files && forall k :: 0 <= k < |entries| ==> entries[k].path != READY
    ensures READY !in Written(files, entries)
    decreases |entries|
  {
    if entries != [] {
      WrittenPaths(files[entries[0].path := entries[0].content], entries[1..]);
    }
  }

  /** A cache directory. */
  class SnapshotDir {
    var files: Files

    /** Empties the directory, unpacks the archive and writes the marker. If the directory cannot be emptied, the files
        `stuck` stay; else it stops at the first entry, if any, that cannot be read or written. */
    method UnpackSnapshot(archive: seq<Entry>, stuck: set<Path>, readable: nat) returns (ok: bool)
      modifies this
      ensures ok <==> stuck * old(files).Keys == {} && readable >= |archive|
      ensures ok ==> files == Written(map[], Unpackable(archive))[READY := Display(DEFAULT)]
      ensures stuck * old(files).Keys != {} ==> files == old(files) - (old(files).Keys - stuck)
      ensures !ok && stuck * old(files).Keys == {} ==>
                files == Written(map[], Unpackable(archive[..readable])) && READY !in files
    {
      if stuck * files.Keys != {} {
        files := files - (files.Keys - stuck);
        return false;
      }
      files := map[];
      for k := 0 to |archive|
        invariant k <= readable
        invariant files == Written(map[], Unpackable(archive[..k]))
      {
        if k == readable {
          UnpackableSkipsTheMarker(archive[..k]);
          WrittenPaths(map[], Unpackable(archive[..k]));
          return false;
        }
        var path := archive[k].path;
        assert archive[..k + 1] == archive[..k] + [archive[k]];
        UnpackOne(archive[..k], archive[k]);
        if path == [] || path[0] != "devnet" {
          continue;
        }
        if path[1..] == READY {
          continue;
        }
        files := files[path[1..] := archive[k].content];
      }
      assert archive[..|archive|] == archive;
      files := files[READY := Display(DEFAULT)];
      ok := true;
    }

    /** Answers whether a snapshot can be used: then the directory is ready, and else it is not. */
    method PrepareGlobalSnapshot(images: Images, archive: seq<Entry>, stuck: set<Path>, readable: nat)
        returns (use: bool)
      modifies this
      ensures use <==>
              || Ready(old(files), Display(images))
              || (images == DEFAULT && stuck * old(files).Keys == {} && readable >= |archive|)
      ensures use <==> Ready(files, Display(images))
      ensures Ready(old(files), Display(images)) || images != DEFAULT ==> files == old(files)
      ensures use && files != old(files) ==> Data(files) == Data(Written(map[], Unpackable(archive)))
    {
      match PlanFor(MarkerOf(files), images) {
        case UseCached => return true;
        case RunFromGenesis => return false;
        case ExtractEmbedded =>
          use := UnpackSnapshot(archive, stuck, readable);
          MarkerIsNoData(Written(map[], Unpackable(archive)), Display(DEFAULT));
      }
    }
  }

  function WriteAll(n: nat): seq<Event> {
    if n == 0 then [] else WriteAll(n - 1) + [WriteEntry]
  }

  lemma OneWrite(archive: seq<Entry>, s: State)
    requires s.phase.Filling? && s.phase.rest != []
    ensures var after, e := Step(archive, s, WriteEntry), s.phase.rest[0];
            && after.phase == Filling(s.phase.images, s.phase.job, s.phase.rest[1..])
            && Dir(after, s.phase.images) == Dir(s, s.phase.images)[e.path := e.content]
  {
  }

  lemma Ending(archive: seq<Entry>, s: State)
    requires s.phase.Filling? && s.phase.rest == []
    ensures var after := Step(archive, Step(archive, s, FillingEnds), MarkerWritten);
            && after.phase == Idle
            && Dir(after, s.phase.images) == Dir(s, s.phase.images)[READY := Display(s.phase.images)]
            && after.built == s.built[Display(s.phase.images) := Data(Written(map[], s.phase.job.entries))]
  {
  }

  lemma {:induction false} WriteAllWrites(archive: seq<Entry>, s: State, n: nat)
    requires s.phase.Filling? && n <= |s.phase.rest|
    ensures var after := Run(archive, s, WriteAll(n));
            && after.phase == Filling(s.phase.images, s.phase.job, s.phase.rest[n..])
            && Dir(after, s.phase.images) == Written(Dir(s, s.phase.images), s.phase.rest[..n])
  {
    var images, rest := s.phase.images, s.phase.rest;
    if n > 0 {
      WriteAllWrites(archive, s, n - 1);
      RunOneMore(archive, s, WriteAll(n - 1), WriteEntry);
      OneWrite(archive, Run(archive, s, WriteAll(n - 1)));
      assert rest[n - 1..][0] == rest[n - 1] && rest[n - 1..][1..] == rest[n..];
      assert rest[..n] == rest[..n - 1] + [rest[n - 1]];
      WrittenSnoc(Dir(s, images), rest[..n - 1], rest[n - 1]);
    }
  }

  /** An extraction that nothing interrupts takes the steps of the machine to the files that `UnpackSnapshot` leaves. */
  lemma UninterruptedExtraction(archive: seq<Entry>, s: State)
    requires s.phase == Removing(DEFAULT, Job(Unpackable(archive), false)) && Dir(s, DEFAULT) == map[]
    ensures var filling := Step(archive, s, RemovalEnds);
            var filled := Run(archive, filling, WriteAll(|Unpackable(archive)|));
            var finished := Step(archive, Step(archive, filled, FillingEnds), MarkerWritten);
            && finished.phase == Idle
            && Dir(finished, DEFAULT) == Written(map[], Unpackable(archive))[READY := Display(DEFAULT)]
  {
    var entries := Unpackable(archive);
    var filling := Step(archive, s, RemovalEnds);
    WriteAllWrites(archive, filling, |entries|);
    assert entries[|entries|..] == [] && entries[..|entries|] == entries;
    Ending(archive, Run(archive, filling, WriteAll(|entries|)));
  }
}
